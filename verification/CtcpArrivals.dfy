/** In which order data may arrive at the receiver of lab3/ctcp.c: the exact condition on the
    arrivals under which it puts out the stream, each segment once and in order. */
module CtcpArrivals {
  import opened Machine
  import opened Ctcp
  import opened CtcpSender
  import opened CtcpOrder
  import opened CtcpWrap

  // ---------------------------------------------------------------- what the receiver takes

  ghost predicate Within(arrivals: seq<nat>, n: nat) {
    forall t | 0 <= t < |arrivals| :: arrivals[t] < n
  }

  /** The receiver after copies of the numbered segments have arrived. */
  function AfterArrivals(b: Conn, segs: seq<Segment>, arrivals: seq<nat>, acks: nat -> AckEnv): Conn
    requires forall t | 0 <= t < |arrivals| :: arrivals[t] < |segs|
    decreases |arrivals|
  {
    if arrivals == [] then b
    else
      var n := |arrivals| - 1;
      Receive(AfterArrivals(b, segs, arrivals[..n], acks), segs[arrivals[n]], true, acks, MAX_SEG_DATA_SIZE)
  }

  /** Which of the arrivals the receiver took for new, in order of arrival. */
  function Taken(b: Conn, segs: seq<Segment>, arrivals: seq<nat>, acks: nat -> AckEnv): seq<nat>
    requires forall t | 0 <= t < |arrivals| :: arrivals[t] < |segs|
    decreases |arrivals|
  {
    if arrivals == [] then []
    else
      var n := |arrivals| - 1;
      var before := Taken(b, segs, arrivals[..n], acks);
      if Duplicate(AfterArrivals(b, segs, arrivals[..n], acks), segs[arrivals[n]]) then before
      else before + [arrivals[n]]
  }

  /** The data of the segments numbered ks, one after the other. */
  function Picked(segs: seq<Segment>, ks: seq<nat>): seq<byte>
    requires Within(ks, |segs|)
    decreases |ks|
  {
    if ks == [] then [] else Picked(segs, ks[..|ks| - 1]) + segs[ks[|ks| - 1]].data
  }

  lemma PickedNone(segs: seq<Segment>)
    ensures Picked(segs, []) == []
  {
  }

  lemma PickedNext(segs: seq<Segment>, ks: seq<nat>, k: nat)
    requires Within(ks, |segs|) && k < |segs|
    ensures Within(ks + [k], |segs|) && Picked(segs, ks + [k]) == Picked(segs, ks) + segs[k].data
  {
    assert (ks + [k])[..|ks|] == ks;
  }

  /** The receiver has put out the data of what it took. */
  ghost predicate PutOut(b: Conn, segs: seq<Segment>, arrivals: seq<nat>, acks: nat -> AckEnv)
    requires Within(arrivals, |segs|)
  {
    var b1, taken := AfterArrivals(b, segs, arrivals, acks), Taken(b, segs, arrivals, acks);
    ReceiverIdle(b1) && Within(taken, |segs|) && b1.h.output == b.h.output + Picked(segs, taken)
  }

  /** What the last arrival adds. */
  lemma OneTaken(b: Conn, segs: seq<Segment>, arrivals: seq<nat>, acks: nat -> AckEnv)
    requires arrivals != [] && Within(arrivals, |segs|)
    ensures var before, k := arrivals[..|arrivals| - 1], arrivals[|arrivals| - 1];
            var b0, taken := AfterArrivals(b, segs, before, acks), Taken(b, segs, before, acks);
            && AfterArrivals(b, segs, arrivals, acks) == Receive(b0, segs[k], true, acks, MAX_SEG_DATA_SIZE)
            && Taken(b, segs, arrivals, acks) == if Duplicate(b0, segs[k]) then taken else taken + [k]
  {
    hide Receive, Duplicate;
  }

  lemma NothingPutOut(b: Conn, segs: seq<Segment>, acks: nat -> AckEnv)
    requires ReceiverIdle(b)
    ensures PutOut(b, segs, [], acks)
  {
    hide ReceiverIdle;
    PickedNone(segs);
  }

  lemma {:induction false} TakenIsOutput(b: Conn, segs: seq<Segment>, arrivals: seq<nat>, acks: nat -> AckEnv)
    requires Numbered(segs) && Within(arrivals, |segs|) && ReceiverIdle(b)
    ensures PutOut(b, segs, arrivals, acks)
    decreases |arrivals|
  {
    hide Numbered, ReceiverIdle, Receive, Duplicate, Picked, Taken, AfterArrivals;
    if arrivals == [] {
      NothingPutOut(b, segs, acks);
    } else {
      var n := |arrivals| - 1;
      var before, k := arrivals[..n], arrivals[n];
      TakenIsOutput(b, segs, before, acks);
      OneTaken(b, segs, arrivals, acks);
      hide Within;
      OnePutOut(b, AfterArrivals(b, segs, before, acks), segs, Taken(b, segs, before, acks), k, acks);
    }
  }

  lemma OnePutOut(b: Conn, b0: Conn, segs: seq<Segment>, taken: seq<nat>, k: nat, acks: nat -> AckEnv)
    requires Numbered(segs) && ReceiverIdle(b0) && Within(taken, |segs|) && k < |segs|
    requires b0.h.output == b.h.output + Picked(segs, taken)
    ensures var b1, taken1 := Receive(b0, segs[k], true, acks, MAX_SEG_DATA_SIZE),
                              if Duplicate(b0, segs[k]) then taken else taken + [k];
            ReceiverIdle(b1) && Within(taken1, |segs|) && b1.h.output == b.h.output + Picked(segs, taken1)
  {
    hide Numbered, ReceiverIdle, Receive, Duplicate, Picked, Within;
    SegmentOf(segs, k);
    DataArrives(b0, segs[k], acks, MAX_SEG_DATA_SIZE);
    PickedNext(segs, taken, k);
  }

  // ---------------------------------------------------------------- streams of any length

  /** How many segments have arrived counting only those that continue the sequence. */
  function Reached(arrivals: seq<nat>): nat
    decreases |arrivals|
  {
    if arrivals == [] then 0
    else
      var n := |arrivals| - 1;
      Reached(arrivals[..n]) + if arrivals[n] == Reached(arrivals[..n]) then 1 else 0
  }

  lemma {:induction false} ReachedWithin(arrivals: seq<nat>, n: nat)
    requires Within(arrivals, n)
    ensures Reached(arrivals) <= n
    decreases |arrivals|
  {
    if arrivals != [] { ReachedWithin(arrivals[..|arrivals| - 1], n); }
  }

  /** Segment k may come when d segments have been reached: it is the next one, or its number
      lies below the next one's. */
  ghost predicate InPlace(segs: seq<Segment>, d: nat, k: nat)
    requires k < |segs|
  {
    k == d || (d <= |segs| && segs[k].seqno < SeqnoAt(segs, d))
  }

  ghost predicate AllInPlace(segs: seq<Segment>, arrivals: seq<nat>)
    requires Within(arrivals, |segs|)
    decreases |arrivals|
  {
    arrivals == [] || var n := |arrivals| - 1;
      AllInPlace(segs, arrivals[..n]) && InPlace(segs, Reached(arrivals[..n]), arrivals[n])
  }

  lemma UptoStep(ks: seq<nat>, k: nat)
    ensures ks + [k] == Upto(|ks| + 1) <==> ks == Upto(|ks|) && k == |ks|
  {
    assert (ks + [k])[..|ks|] == ks;
    assert Upto(|ks| + 1)[|ks|] == |ks|;
    assert Upto(|ks| + 1) == Upto(|ks|) + [|ks|];
  }

  /** The first ones of the stream have been taken and the number after them is next. */
  ghost predicate TookFirst(b: Conn, segs: seq<Segment>, arrivals: seq<nat>, acks: nat -> AckEnv)
    requires Within(arrivals, |segs|)
  {
    var taken, d := Taken(b, segs, arrivals, acks), Reached(arrivals);
    taken == Upto(|taken|) && |taken| == d <= |segs|
    && AfterArrivals(b, segs, arrivals, acks).prevAckno == SeqnoAt(segs, d)
  }

  lemma StartTookFirst(b: Conn, segs: seq<Segment>, acks: nat -> AckEnv)
    requires b.prevAckno == INIT_SEQ_NUM
    ensures TookFirst(b, segs, [], acks)
  {
  }

  /** One arrival after the first d segments have been taken. */
  lemma NextArrival(b: Conn, segs: seq<Segment>, d: nat, k: nat, acks: nat -> AckEnv)
    requires Numbered(segs) && ReceiverIdle(b) && k < |segs| && d <= |segs| && b.prevAckno == SeqnoAt(segs, d)
    ensures Duplicate(b, segs[k]) <==> segs[k].seqno < SeqnoAt(segs, d)
    ensures k == d ==> !Duplicate(b, segs[k])
    ensures Receive(b, segs[k], true, acks, MAX_SEG_DATA_SIZE).prevAckno
         == if Duplicate(b, segs[k]) then SeqnoAt(segs, d) else SeqnoAt(segs, k + 1)
  {
    hide Numbered, ReceiverIdle, Receive, SeqnoAt;
    SegmentOf(segs, k);
    DataArrives(b, segs[k], acks, MAX_SEG_DATA_SIZE);
    SeqnoNext(segs, k);
  }

  lemma OneReached(segs: seq<Segment>, arrivals: seq<nat>)
    requires arrivals != [] && Within(arrivals, |segs|)
    ensures var before, k := arrivals[..|arrivals| - 1], arrivals[|arrivals| - 1];
            var d := Reached(before);
            && Reached(arrivals) == (if k == d then d + 1 else d)
            && (AllInPlace(segs, arrivals) <==> AllInPlace(segs, before) && InPlace(segs, d, k))
  {
    hide InPlace;
  }

  lemma {:induction false} TakesFirst(b: Conn, segs: seq<Segment>, arrivals: seq<nat>, acks: nat -> AckEnv)
    requires Numbered(segs) && Within(arrivals, |segs|) && ReceiverIdle(b) && b.prevAckno == INIT_SEQ_NUM
    ensures var taken := Taken(b, segs, arrivals, acks);
            && (AllInPlace(segs, arrivals) ==> TookFirst(b, segs, arrivals, acks))
            && (taken == Upto(|taken|) ==> AllInPlace(segs, arrivals))
    decreases |arrivals|
  {
    hide Numbered, ReceiverIdle, Receive, SeqnoAt, Duplicate, Taken, AfterArrivals, Reached, Upto;
    if arrivals == [] {
      StartTookFirst(b, segs, acks);
    } else {
      var n := |arrivals| - 1;
      var before, k := arrivals[..n], arrivals[n];
      TakesFirst(b, segs, before, acks);
      hide AllInPlace;
      OneTaken(b, segs, arrivals, acks);
      OneReached(segs, arrivals);
      UptoStep(Taken(b, segs, before, acks), k);
      if AllInPlace(segs, before) {
        TakenIsOutput(b, segs, before, acks);
        NextArrival(AfterArrivals(b, segs, before, acks), segs, Reached(before), k, acks);
      }
    }
  }

  /** What arrivals the receiver needs, for streams of any length: its output is the data of
      the segments it takes, and these are the first ones of the stream, each once and in
      order, exactly if each arrival is the next segment or has a number below the next
      one's. */
  lemma InOrderIffInPlace(b: Conn, segs: seq<Segment>, arrivals: seq<nat>, acks: nat -> AckEnv)
    requires Numbered(segs) && Within(arrivals, |segs|) && ReceiverIdle(b) && b.prevAckno == INIT_SEQ_NUM
    ensures var taken := Taken(b, segs, arrivals, acks);
            && Within(taken, |segs|)
            && AfterArrivals(b, segs, arrivals, acks).h.output == b.h.output + Picked(segs, taken)
            && (taken == Upto(|taken|) <==> AllInPlace(segs, arrivals))
  {
    hide Taken, AfterArrivals, AllInPlace, Numbered, ReceiverIdle;
    TakenIsOutput(b, segs, arrivals, acks);
    TakesFirst(b, segs, arrivals, acks);
  }

  // ---------------------------------------------------------------- before a wrap

  /** No arrival runs ahead of a segment that has not arrived yet. */
  ghost predicate NoGap(arrivals: seq<nat>)
    decreases |arrivals|
  {
    arrivals == [] || (var n := |arrivals| - 1; NoGap(arrivals[..n]) && arrivals[n] <= Reached(arrivals[..n]))
  }

  lemma PlaceBeforeWrap(segs: seq<Segment>, d: nat, k: nat)
    requires Short(segs) && INIT_SEQ_NUM + |Data(segs)| < TWO_32 && k < |segs| && d <= |segs|
    ensures InPlace(segs, d, k) <==> k <= d
  {
    hide Data, Numbered, SeqnoAt;
    PlainOffset(segs, k);
    if d < |segs| {
      SegmentOf(segs, d);
      PlainOffset(segs, d);
      if k < d { DataPrefix(segs, k + 1, d); } else { DataPrefix(segs, d, k); }
    } else {
      AllTaken(segs);
    }
  }

  lemma {:induction false} PlacesBeforeWrap(segs: seq<Segment>, arrivals: seq<nat>)
    requires Short(segs) && INIT_SEQ_NUM + |Data(segs)| < TWO_32 && Within(arrivals, |segs|)
    ensures AllInPlace(segs, arrivals) <==> NoGap(arrivals)
    decreases |arrivals|
  {
    hide Short, Data, InPlace;
    if arrivals != [] {
      var n := |arrivals| - 1;
      PlacesBeforeWrap(segs, arrivals[..n]);
      ReachedWithin(arrivals[..n], |segs|);
      PlaceBeforeWrap(segs, Reached(arrivals[..n]), arrivals[n]);
    }
  }

  /** Why the channel must not let a segment arrive ahead of a missing one: for a stream of
      fewer than 2^32 - 1 bytes the condition is that no arrival runs ahead. Copies never
      hurt, gaps always do. */
  lemma InOrderIffNoGap(b: Conn, segs: seq<Segment>, arrivals: seq<nat>, acks: nat -> AckEnv)
    requires Short(segs) && INIT_SEQ_NUM + |Data(segs)| < TWO_32
    requires Within(arrivals, |segs|) && ReceiverIdle(b) && b.prevAckno == INIT_SEQ_NUM
    ensures var taken := Taken(b, segs, arrivals, acks);
            && Within(taken, |segs|)
            && AfterArrivals(b, segs, arrivals, acks).h.output == b.h.output + Picked(segs, taken)
            && (taken == Upto(|taken|) <==> NoGap(arrivals))
  {
    hide Taken, AfterArrivals, AllInPlace, NoGap, Numbered, Data, ReceiverIdle;
    InOrderIffInPlace(b, segs, arrivals, acks);
    PlacesBeforeWrap(segs, arrivals);
  }
}
