/** The asynchronous output of a cTCP connection: conn_output, conn_drain and
    conn_bufspace of lab3/ctcp_sys_internal.c, over a write() that may take any part of
    what it is given, none of it, or fail. */
module OutputQueue {
  import opened Machine

  const MAX_BUF_SPACE := 8192

  /** The outcome of one write(): a byte count, EAGAIN, or another error. */
  datatype WriteResult = Wrote(n: nat) | WouldBlock | Failed

  /** How many of len bytes a successful write took. */
  function Part(n: nat, len: nat): nat {
    if n < len then n else len
  }

  /** Bytes written so far, the unwritten rest of each queued chunk in order, the two
      flags, and (as history) everything that was accepted for output. */
  datatype Stream = Stream(written: seq<byte>, queued: seq<seq<byte>>, eof: bool, err: bool, accepted: seq<byte>)

  function Flatten(parts: seq<seq<byte>>): seq<byte> {
    if parts == [] then [] else parts[0] + Flatten(parts[1..])
  }

  /** conn_bufspace */
  function Space(q: Stream): nat {
    var used := |Flatten(q.queued)|;
    if used > MAX_BUF_SPACE then 0 else MAX_BUF_SPACE - used
  }

  function Enqueue(q: Stream, rest: seq<byte>, buf: seq<byte>): Stream {
    q.(queued := if rest == [] then q.queued else q.queued + [rest], accepted := q.accepted + buf)
  }

  /** conn_output: the new state and the return value. */
  function Output(q: Stream, buf: seq<byte>, w: WriteResult): (Stream, int) {
    if q.eof then (q, 0)
    else if buf == [] then (q.(eof := true), 0)
    else if q.err then (q, -1)
    else if Space(q) == 0 then (q, 0)
    else if q.queued != [] then (Enqueue(q, buf, buf), |buf|)
    else match w
      case Failed => (q.(err := true), -1)
      case WouldBlock => (Enqueue(q, buf, buf), |buf|)
      case Wrote(n) =>
        var m := Part(n, |buf|);
        (Enqueue(q.(written := q.written + buf[..m]), buf[m..], buf), |buf|)
  }

  /** A write that takes up to n bytes of the first chunk. */
  function WroteHead(q: Stream, n: nat): Stream
    requires q.queued != []
  {
    var head, rest := q.queued[0], q.queued[1..];
    var m := Part(n, |head|);
    q.(written := q.written + head[..m], queued := if m < |head| then [head[m..]] + rest else rest)
  }

  /** The loop of conn_drain from its k-th write on. */
  function DrainLoop(q: Stream, writes: nat -> WriteResult, k: nat): Stream
    decreases |q.queued|
  {
    if q.queued == [] then q
    else match writes(k)
      case Failed => q.(err := true)
      case WouldBlock => q
      case Wrote(n) =>
        if Part(n, |q.queued[0]|) < |q.queued[0]| then WroteHead(q, n)
        else DrainLoop(WroteHead(q, n), writes, k + 1)
  }

  /** conn_drain up to its callback. */
  function Drain(q: Stream, writes: nat -> WriteResult): Stream {
    if q.err then q
    else
      var q1 := DrainLoop(q, writes, 0);
      if q1.eof && !q1.err && q1.queued == [] then q1.(err := true) else q1
  }

  /** conn_drain calls ctcp_output back if some write succeeded. */
  predicate CallsBack(q: Stream, writes: nat -> WriteResult) {
    !q.err && q.queued != [] && writes(0).Wrote?
  }

  /** ctcp_output: write what is pending if the buffer has room for all of it. */
  function GatedOutput(q: Stream, pending: seq<byte>, w: WriteResult): Stream {
    if |pending| <= Space(q) then Output(q, pending, w).0 else q
  }

  // ---------------------------------------------------------------- runs

  /** A call of conn_output, a conn_drain, or a conn_drain together with its callback. */
  datatype Event =
    | Outputs(buf: seq<byte>, w: WriteResult)
    | Drains(writes: nat -> WriteResult)
    | CallsOutput(pending: seq<byte>, w: WriteResult)

  function Step(q: Stream, e: Event): Stream {
    match e
    case Outputs(buf, w) => Output(q, buf, w).0
    case Drains(writes) => Drain(q, writes)
    case CallsOutput(pending, w) => GatedOutput(q, pending, w)
  }

  function Run(q: Stream, events: seq<Event>): Stream
    decreases |events|
  {
    if events == [] then q else Step(Run(q, events[..|events| - 1]), events[|events| - 1])
  }

  const EMPTY: Stream := Stream([], [], false, false, [])

  ghost predicate Complete(q: Stream) {
    && q.written + Flatten(q.queued) == q.accepted
    && forall i | 0 <= i < |q.queued| :: q.queued[i] != []
  }

  lemma {:induction false} FlattenAppend(parts: seq<seq<byte>>, last: seq<byte>)
    ensures Flatten(parts + [last]) == Flatten(parts) + last
    decreases |parts|
  {
    if parts == [] {
      assert Flatten([last]) == last + Flatten([]);
    } else {
      assert (parts + [last])[1..] == parts[1..] + [last];
      FlattenAppend(parts[1..], last);
    }
  }

  lemma OutputComplete(q: Stream, buf: seq<byte>, w: WriteResult)
    requires Complete(q)
    ensures Complete(Output(q, buf, w).0)
  {
    FlattenAppend(q.queued, buf);
    if q.queued == [] && w.Wrote? {
      var m := Part(w.n, |buf|);
      assert buf == buf[..m] + buf[m..];
      FlattenAppend([], buf[m..]);
      assert Flatten([]) == [];
    }
  }

  lemma {:induction false} DrainLoopComplete(q: Stream, writes: nat -> WriteResult, k: nat)
    requires Complete(q)
    ensures Complete(DrainLoop(q, writes, k))
    ensures |Flatten(DrainLoop(q, writes, k).queued)| <= |Flatten(q.queued)|
    decreases |q.queued|
  {
    if q.queued != [] && writes(k).Wrote? {
      WroteHeadComplete(q, writes(k).n);
      var q1 := WroteHead(q, writes(k).n);
      if |q1.queued| < |q.queued| { DrainLoopComplete(q1, writes, k + 1); }
    }
  }

  lemma WroteHeadComplete(q: Stream, n: nat)
    requires Complete(q) && q.queued != []
    ensures Flatten(q.queued) == q.queued[0] + Flatten(q.queued[1..])
    ensures Complete(WroteHead(q, n))
    ensures |Flatten(WroteHead(q, n).queued)| <= |Flatten(q.queued)|
  {
    var head, rest := q.queued[0], q.queued[1..];
    var m := Part(n, |head|);
    var q1 := WroteHead(q, n);
    assert head == head[..m] + head[m..];
    assert Flatten(q1.queued) == head[m..] + Flatten(rest) by {
      if m < |head| { assert ([head[m..]] + rest)[1..] == rest; }
    }
    hide Flatten;
    assert q.written + (head + Flatten(rest)) == q.written + head[..m] + (head[m..] + Flatten(rest));
    assert forall i | 0 <= i < |rest| :: rest[i] == q.queued[i + 1];
  }

  lemma StepComplete(q: Stream, e: Event)
    requires Complete(q)
    ensures Complete(Step(q, e))
  {
    match e
    case Outputs(buf, w) => OutputComplete(q, buf, w);
    case Drains(writes) => DrainLoopComplete(q, writes, 0);
    case CallsOutput(pending, w) => OutputComplete(q, pending, w);
  }

  /** Over any sequence of calls and any behaviour of write(), what was written followed by
      what is still queued is exactly the concatenation of the accepted buffers. */
  lemma {:induction false} NothingLost(events: seq<Event>)
    ensures Complete(Run(EMPTY, events))
    decreases |events|
  {
    if events != [] {
      hide Step;
      NothingLost(events[..|events| - 1]);
      StepComplete(Run(EMPTY, events[..|events| - 1]), events[|events| - 1]);
    }
  }

  /** Every call of conn_output is made by a caller that checked conn_bufspace first. */
  ghost predicate Gated(events: seq<Event>) {
    forall i | 0 <= i < |events| :: !events[i].Outputs?
  }

  /** Then the queue never holds more than MAX_BUF_SPACE bytes. */
  lemma {:induction false} GatedQueueIsBounded(events: seq<Event>)
    requires Gated(events)
    ensures |Flatten(Run(EMPTY, events).queued)| <= MAX_BUF_SPACE
    decreases |events|
  {
    if events != [] {
      var n := |events| - 1;
      var q := Run(EMPTY, events[..n]);
      GatedQueueIsBounded(events[..n]);
      NothingLost(events[..n]);
      if events[n].Drains? {
        DrainLoopComplete(q, events[n].writes, 0);
      } else {
        GatedOutputBounded(q, events[n].pending, events[n].w);
      }
    }
  }

  lemma GatedOutputBounded(q: Stream, pending: seq<byte>, w: WriteResult)
    requires |Flatten(q.queued)| <= MAX_BUF_SPACE
    ensures |Flatten(GatedOutput(q, pending, w).queued)| <= MAX_BUF_SPACE
  {
    FlattenAppend(q.queued, pending);
    if w.Wrote? { FlattenAppend([], pending[Part(w.n, |pending|)..]); }
  }

  // ---------------------------------------------------------------- what the caller sees

  /** The return value of conn_output for a buffer that is not empty: its length exactly if
      all of it was accepted, written or not; -1 exactly after a write error, unless the end
      of the stream came before; otherwise 0, and nothing changes. */
  lemma ReturnValue(q: Stream, buf: seq<byte>, w: WriteResult)
    requires buf != []
    ensures var (q1, n) := Output(q, buf, w);
            && (n == |buf| <==> q1.accepted == q.accepted + buf)
            && (n == -1 <==> !q.eof && q1.err)
            && (n == |buf| || n == -1 || n == 0)
            && (n == 0 ==> q1 == q && (q.eof || |Flatten(q.queued)| >= 8192))
  {
    assert |q.accepted + buf| > |q.accepted|;
  }

  /** The write takes all of a chunk of this length. */
  predicate TakesAll(w: WriteResult, len: nat) {
    w.Wrote? && w.n >= len
  }

  /** A drain whose writes all take everything empties the queue. */
  lemma {:induction false} DrainLoopEmpties(q: Stream, writes: nat -> WriteResult, k: nat)
    requires Complete(q) && forall i | 0 <= i < |q.queued| :: TakesAll(writes(i + k), |q.queued[i]|)
    ensures var q1 := DrainLoop(q, writes, k);
            q1.queued == [] && q1.written == q.accepted && q1.eof == q.eof && q1.err == q.err
    decreases |q.queued|
  {
    if q.queued != [] {
      assert TakesAll(writes(0 + k), |q.queued[0]|);
      WroteHeadComplete(q, writes(k).n);
      var q1 := WroteHead(q, writes(k).n);
      forall i | 0 <= i < |q1.queued| ensures TakesAll(writes(i + (k + 1)), |q1.queued[i]|) {
        assert q1.queued[i] == q.queued[i + 1] && (i + 1) + k == i + (k + 1);
      }
      DrainLoopEmpties(q1, writes, k + 1);
    }
  }

  /** Then everything accepted has been written; and if the stream had ended, the connection
      is closed for writing. */
  lemma DrainEmpties(q: Stream, writes: nat -> WriteResult)
    requires Complete(q) && !q.err
    requires forall i | 0 <= i < |q.queued| :: TakesAll(writes(i), |q.queued[i]|)
    ensures var q1 := Drain(q, writes); q1.queued == [] && q1.written == q.accepted && (q1.err <==> q.eof)
  {
    forall i | 0 <= i < |q.queued| ensures TakesAll(writes(i + 0), |q.queued[i]|) {
      assert i + 0 == i;
    }
    DrainLoopEmpties(q, writes, 0);
  }

  /** A drain that takes bytes off the queue calls back, and one none of whose writes succeeds
      does not. */
  lemma SilentDrainMovesNothing(q: Stream, writes: nat -> WriteResult)
    ensures !CallsBack(q, writes) ==> Drain(q, writes).written == q.written && Drain(q, writes).queued == q.queued
    ensures (forall k :: !writes(k).Wrote?) ==> !CallsBack(q, writes)
  {
  }

  // ---------------------------------------------------------------- two consequences

  /** A gated buffer is written or queued exactly if the stream is still open and the buffer
      has at most as many bytes as are free; so a segment of more than MAX_BUF_SPACE bytes,
      which MAX_SEG_DATA_SIZE allows, is never output in any state. */
  lemma GatedAccepts(q: Stream, pending: seq<byte>, w: WriteResult)
    requires pending != []
    ensures GatedOutput(q, pending, w).accepted == q.accepted + pending
       <==> !q.eof && !q.err && |pending| <= Space(q) && (q.queued == [] ==> !w.Failed?)
    ensures |pending| > MAX_BUF_SPACE ==> GatedOutput(q, pending, w) == q
  {
    assert |q.accepted + pending| > |q.accepted|;
  }

  /** ctcp_output with nothing pending still calls conn_output, with length 0, which records
      the end of the stream: after a drain that wrote something, the callback cuts off all
      later output unless a segment is pending. */
  lemma {:induction false} IdleDrainEndsStream(q: Stream, writes: nat -> WriteResult, pending: seq<byte>,
                                               w: WriteResult, later: seq<Event>)
    requires Complete(q) && !q.eof && CallsBack(q, writes) && |Flatten(q.queued)| <= MAX_BUF_SPACE
    ensures GatedOutput(Drain(q, writes), pending, w).eof <==> pending == []
    ensures pending == [] ==>
              var ended := GatedOutput(Drain(q, writes), pending, w);
              Run(ended, later).accepted == ended.accepted == q.accepted
  {
    DrainKeepsFlags(q, writes, 0);
    DrainLoopComplete(q, writes, 0);
    var ended := GatedOutput(Drain(q, writes), pending, w);
    if pending == [] { AfterEof(ended, later); }
  }

  lemma {:induction false} DrainKeepsFlags(q: Stream, writes: nat -> WriteResult, k: nat)
    ensures DrainLoop(q, writes, k).eof == q.eof && DrainLoop(q, writes, k).accepted == q.accepted
    decreases |q.queued|
  {
    if q.queued != [] && writes(k).Wrote? {
      var q1 := WroteHead(q, writes(k).n);
      if |q1.queued| < |q.queued| { DrainKeepsFlags(q1, writes, k + 1); }
    }
  }

  lemma {:induction false} AfterEof(q: Stream, events: seq<Event>)
    requires q.eof
    ensures Run(q, events).eof && Run(q, events).accepted == q.accepted
    decreases |events|
  {
    if events != [] {
      var n := |events| - 1;
      AfterEof(q, events[..n]);
      if events[n].Drains? { DrainKeepsFlags(Run(q, events[..n]), events[n].writes, 0); }
    }
  }

  // ---------------------------------------------------------------- the connection object

  /** chunk_t: the bytes from used to size are still to be written. */
  class Chunk {
    var next: Chunk?
    var used: nat
    const buf: seq<byte>

    constructor (bytes: seq<byte>)
      ensures next == null && used == 0 && buf == bytes
    {
      next, used, buf := null, 0, bytes;
    }
  }

  ghost function ChunkAt(chunks: seq<Chunk>, i: int): Chunk? {
    if 0 <= i < |chunks| then chunks[i] else null
  }

  /** The unwritten rest of each chunk. */
  ghost function Rests(cs: seq<Chunk>): (parts: seq<seq<byte>>)
    ensures |parts| == |cs|
    requires forall i | 0 <= i < |cs| :: cs[i].used <= |cs[i].buf|
    reads cs
  {
    seq(|cs|, i requires 0 <= i < |cs| && cs[i].used <= |cs[i].buf| reads cs => cs[i].buf[cs[i].used..])
  }

  lemma RestsTail(cs: seq<Chunk>)
    requires cs != [] && forall i | 0 <= i < |cs| :: cs[i].used <= |cs[i].buf|
    ensures Rests(cs) == [cs[0].buf[cs[0].used..]] + Rests(cs[1..])
  {
  }

  lemma RestsAppend(cs: seq<Chunk>, c: Chunk)
    requires (forall i | 0 <= i < |cs| :: cs[i].used <= |cs[i].buf|) && c.used <= |c.buf|
    ensures Rests(cs + [c]) == Rests(cs) + [c.buf[c.used..]]
  {
  }

  twostate lemma RestsKept(cs: seq<Chunk>)
    requires forall i | 0 <= i < |cs| :: old(allocated(cs[i])) && cs[i].used == old(cs[i].used) <= |cs[i].buf|
    ensures Rests(cs) == old(Rests(cs))
  {
  }

  lemma DrainLoopStep(q: Stream, writes: nat -> WriteResult, k: nat)
    ensures DrainLoop(q, writes, k)
         == if q.queued == [] then q
            else match writes(k)
              case Failed => q.(err := true)
              case WouldBlock => q
              case Wrote(n) =>
                if Part(n, |q.queued[0]|) < |q.queued[0]| then WroteHead(q, n)
                else DrainLoop(WroteHead(q, n), writes, k + 1)
  {
  }

  /** The part of conn_t that output needs. outQueueTail stands for the pointer to the last
      link: null when that is the out_queue field itself, else the chunk whose next it is. */
  class Conn {
    var outQueue: Chunk?
    var outQueueTail: Chunk?
    var wroteEof: bool
    var wroteErr: bool
    ghost var chunks: seq<Chunk>
    ghost var written: seq<byte>
    ghost var accepted: seq<byte>

    constructor ()
      ensures Valid() && View() == EMPTY
    {
      outQueue, outQueueTail, wroteEof, wroteErr := null, null, false, false;
      chunks, written, accepted := [], [], [];
    }

    /** The queue is the chain of chunks, and the tail designates its last link. */
    ghost predicate Chained()
      reads this, chunks
    {
      && outQueue == ChunkAt(chunks, 0)
      && outQueueTail == ChunkAt(chunks, |chunks| - 1)
      && (forall i, j :: 0 <= i < j < |chunks| ==> chunks[i] != chunks[j])
      && (forall i {:trigger chunks[i].next} :: 0 <= i < |chunks| ==> chunks[i].next == ChunkAt(chunks, i + 1))
    }

    /** Every chunk but possibly the first still has bytes to write. */
    ghost predicate Started()
      reads this, chunks
    {
      && (chunks != [] ==> chunks[0].used <= |chunks[0].buf|)
      && (forall i {:trigger chunks[i].used} :: 1 <= i < |chunks| ==> chunks[i].used < |chunks[i].buf|)
    }

    ghost predicate Valid()
      reads this, chunks
    {
      Chained() && Started() && (chunks != [] ==> chunks[0].used < |chunks[0].buf|)
    }

    ghost function View(): Stream
      requires Valid()
      reads this, chunks
    {
      Stream(written, Rests(chunks), wroteEof, wroteErr, accepted)
    }

    /** conn_bufspace */
    method BufSpace() returns (space: nat)
      requires Valid()
      ensures space == Space(View())
    {
      var used := 0;
      var chunk := outQueue;
      ghost var k := 0;
      while chunk != null
        invariant 0 <= k <= |chunks| && chunk == ChunkAt(chunks, k)
        invariant used + |Flatten(Rests(chunks)[k..])| == |Flatten(Rests(chunks))|
        decreases |chunks| - k
      {
        assert Rests(chunks)[k..][1..] == Rests(chunks)[k + 1..];
        used := used + (|chunk.buf| - chunk.used);
        chunk := chunk.next;
        k := k + 1;
      }
      space := if used > MAX_BUF_SPACE then 0 else MAX_BUF_SPACE - used;
    }

    /** *out_queue_tail = chunk; out_queue_tail = &chunk->next. */
    method LinkLast(chunk: Chunk)
      requires Chained() && chunk !in chunks && chunk.next == null
      modifies this`outQueue, this`outQueueTail, this`chunks, chunks
      ensures Chained() && chunks == old(chunks) + [chunk]
      ensures forall i {:trigger old(chunks)[i]} :: 0 <= i < |old(chunks)| ==>
                old(chunks)[i].used == old(chunks[i].used)
    {
      if outQueueTail == null {
        outQueue := chunk;
      } else {
        outQueueTail.next := chunk;
      }
      outQueueTail := chunk;
      chunks := chunks + [chunk];
    }

    lemma Flags()
      requires Valid()
      ensures View().eof == wroteEof && View().err == wroteErr
    {
    }

    lemma NothingQueued()
      requires Valid()
      ensures (outQueue == null) == (View().queued == []) == (chunks == [])
    {
    }

    /** con->wrote_err = true. */
    method MarkFailed()
      requires Valid()
      modifies this`wroteErr
      ensures Valid() && View() == old(View()).(err := true)
    {
      wroteErr := true;
    }

    /** con->wrote_eof = true. */
    method MarkEof()
      requires Valid()
      modifies this`wroteEof
      ensures Valid() && View() == old(View()).(eof := true)
    {
      wroteEof := true;
    }

    /** History: bytes that write() took, and a buffer that was accepted. */
    ghost method Record(taken: seq<byte>, buf: seq<byte>)
      requires Valid()
      modifies this`written, this`accepted
      ensures Valid()
      ensures View() == old(View()).(written := old(View()).written + taken, accepted := old(View()).accepted + buf)
    {
      written, accepted := written + taken, accepted + buf;
    }

    /** Queue what could not be written. */
    method Append(rest: seq<byte>)
      requires Valid() && rest != []
      modifies this`outQueue, this`outQueueTail, this`chunks, chunks
      ensures Valid() && View() == old(View()).(queued := old(View()).queued + [rest])
    {
      hide Rests;
      ghost var was := chunks;
      var chunk := new Chunk(rest);
      LinkLast(chunk);
      hide Chained;
      RestsKept(was);
      RestsAppend(was, chunk);
    }

    /** conn_output */
    method ConnOutput(buf: seq<byte>, w: WriteResult) returns (n: int)
      requires Valid()
      modifies this, chunks
      ensures Valid() && (View(), n) == Output(old(View()), buf, w)
    {
      hide Rests, Flatten, Space, Valid, View;
      Flags();
      if wroteEof { return 0; }
      if buf == [] {
        MarkEof();
        return 0;
      }
      if wroteErr { return -1; }
      var space := BufSpace();
      if space == 0 { return 0; }
      NothingQueued();
      var left := buf;
      if outQueue == null {
        match w
        case Failed =>
          MarkFailed();
          return -1;
        case WouldBlock =>
        case Wrote(count) =>
          left := buf[Part(count, |buf|)..];
      }
      ghost var taken := buf[..|buf| - |left|];
      assert left == buf ==> View().written + taken == View().written;
      Record(taken, buf);
      if left != [] { Append(left); }
      return |buf|;
    }

    /** chunk->used += w for the first chunk. */
    method Advance(m: nat)
      requires Chained() && Started() && chunks != [] && chunks[0].used + m <= |chunks[0].buf|
      modifies chunks[0]
      ensures Chained() && Started() && chunks[0].used == old(chunks[0].used) + m
      ensures Rests(chunks) == [old(Rests(chunks))[0][m..]] + old(Rests(chunks))[1..]
    {
      ghost var tail := chunks[1..];
      ghost var parts := Rests(tail);
      assert Rests(chunks) == [outQueue.buf[outQueue.used..]] + parts by { RestsTail(chunks); }
      assert outQueue.buf[outQueue.used..][m..] == outQueue.buf[outQueue.used + m..];
      assert forall i | 0 <= i < |tail| :: tail[i] == chunks[i + 1] != outQueue;
      outQueue.used := outQueue.used + m;
      assert Rests(tail) == parts;
      hide Rests;
      RestsTail(chunks);
    }

    /** The first chunk is written to its end and leaves the queue. */
    method DropFirst()
      requires Chained() && Started() && chunks != []
      modifies this`outQueue, this`outQueueTail, this`chunks
      ensures Chained() && Started() && chunks == old(chunks)[1..]
      ensures Rests(chunks) == old(Rests(chunks))[1..]
    {
      RestsTail(chunks);
      outQueue := outQueue.next;
      if outQueue == null { outQueueTail := null; }
      chunks := chunks[1..];
    }

    /** One write() to the first chunk; done says whether all of it is gone now. */
    method WriteFirst(n: nat) returns (done: bool)
      requires Valid() && chunks != []
      modifies this`outQueue, this`outQueueTail, this`chunks, this`written, chunks[0]
      ensures Valid() && chunks == if done then old(chunks)[1..] else old(chunks)
      ensures View() == WroteHead(old(View()), n)
      ensures done == (Part(n, |old(View()).queued[0]|) == |old(View()).queued[0]|)
    {
      hide Rests;
      var chunk := outQueue;
      RestsTail(chunks);
      var m := Part(n, |chunk.buf| - chunk.used);
      assert chunk.buf[chunk.used..][..m] == chunk.buf[chunk.used..chunk.used + m];
      written := written + chunk.buf[chunk.used..chunk.used + m];
      Advance(m);
      done := chunk.used == |chunk.buf|;
      if done { DropFirst(); }
    }

    /** The loop of conn_drain. */
    method WriteOut(writes: nat -> WriteResult) returns (outputted: bool)
      requires Valid()
      modifies this`outQueue, this`outQueueTail, this`chunks, this`written, this`wroteErr, chunks
      ensures Valid() && View() == DrainLoop(old(View()), writes, 0)
      ensures outputted == (old(View()).queued != [] && writes(0).Wrote?)
    {
      hide Rests, DrainLoop, WroteHead, View, Valid;
      NothingQueued();
      outputted := false;
      var k := 0;
      while outQueue != null
        invariant Valid() && k <= |old(chunks)| && chunks == old(chunks)[k..]
        invariant DrainLoop(View(), writes, k) == DrainLoop(old(View()), writes, 0)
        invariant outputted == (k > 0 && writes(0).Wrote?) && (k > 0 ==> outputted && old(View()).queued != [])
        decreases |chunks|
      {
        DrainLoopStep(View(), writes, k);
        NothingQueued();
        match writes(k)
        case Failed =>
          MarkFailed();
          return;
        case WouldBlock =>
          return;
        case Wrote(n) =>
          outputted := true;
          var done := WriteFirst(n);
          if !done { return; }
          k := k + 1;
      }
      NothingQueued();
      DrainLoopStep(View(), writes, k);
    }

    /** conn_drain; called says whether ctcp_output is called back. */
    method ConnDrain(writes: nat -> WriteResult) returns (called: bool)
      requires Valid()
      modifies this, chunks
      ensures Valid() && View() == Drain(old(View()), writes)
      ensures called == CallsBack(old(View()), writes)
    {
      if wroteErr { return false; }
      called := WriteOut(writes);
      if wroteEof && !wroteErr && outQueue == null { wroteErr := true; }
    }
  }
}
