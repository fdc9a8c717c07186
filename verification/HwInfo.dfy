/** The hardware-info message: packed by VNSInterface.pack and VNSHardwareInfo.pack
    (lab1/pox_module/cs144/VNSProtocol.py), read by sr_handle_hwinfo (sr_vns_comm.c). */
module HwInfo {
  import opened Machine

  const NAME_LEN := 32
  const ENTRY_LEN := 36
  const HWINTERFACE := 1
  const HWSPEED := 2
  const HWSUBNET := 4
  const HWETHER := 32
  const HWETHIP := 64
  const HWMASK := 128
  const VNSHWINFO := 16

  type Value = v: seq<byte> | |v| == 32 witness seq(32, i => 0)

  // ---------------------------------------------------------------- packing

  /** VNSInterface; its constructor insists on these lengths. */
  datatype Interface = Interface(name: seq<byte>, mac: Mac, ip: Ip4, mask: Ip4)

  /** c_hw_entry */
  datatype Entry = Entry(key: uint32, value: Value)

  /** The struct format "ns": cut or filled with NUL to n bytes. */
  function Fixed(s: seq<byte>, n: nat): (r: seq<byte>)
    ensures |r| == n
  {
    if |s| >= n then s[..n] else s + Zeros(n - |s|)
  }

  /** The six groups of VNSInterface.FORMAT. */
  function Entries(v: Interface): (es: seq<Entry>)
    ensures |es| == 6
  {
    [Entry(HWINTERFACE, Fixed(v.name, 32)),
     Entry(HWSPEED, Bytes32(0) + Fixed([], 28)),
     Entry(HWETHER, Fixed(v.mac, 32)),
     Entry(HWETHIP, v.ip + Fixed([], 28)),
     Entry(HWSUBNET, Bytes32(0) + Fixed([], 28)),
     Entry(HWMASK, v.mask + Fixed([], 28))]
  }

  function Flatten(es: seq<Entry>): (b: seq<byte>)
    ensures |b| == ENTRY_LEN * |es|
  {
    if es == [] then [] else Bytes32(es[0].key) + es[0].value + Flatten(es[1..])
  }

  /** VNSHardwareInfo.pack */
  function Pack(vs: seq<Interface>): (b: seq<byte>)
    ensures |b| == 6 * ENTRY_LEN * |vs|
  {
    if vs == [] then [] else Flatten(Entries(vs[0])) + Pack(vs[1..])
  }

  /** The message around it: total length and type, most significant byte first. */
  function Message(vs: seq<Interface>): (m: seq<byte>)
    requires 8 + 6 * ENTRY_LEN * |vs| < TWO_32
    ensures |m| == 8 + 6 * ENTRY_LEN * |vs|
  {
    Bytes32(8 + |Pack(vs)|) + Bytes32(VNSHWINFO) + Pack(vs)
  }

  // ---------------------------------------------------------------- reading

  /** An interface as the router knows it; None is a field malloc left unset. */
  datatype Known = Known(name: seq<byte>, mac: Option<Mac>, ip: Option<Ip4>)

  /** The C string in a character array. */
  function CString(s: seq<byte>): (r: seq<byte>)
    ensures r <= s && 0 !in r
    ensures |r| < |s| ==> s[|r|] == 0
  {
    if s == [] || s[0] == 0 then [] else [s[0]] + CString(s[1..])
  }

  /** sr_set_ether_addr and sr_set_ether_ip work on the last interface and abort when
      there is none. */
  function SetLast(l: seq<Known>, k: Known): (r: seq<Known>)
    requires l != []
    ensures |r| == |l|
  {
    l[|l| - 1 := k]
  }

  /** One round of the switch; None when an assert fails. */
  function Apply(l: seq<Known>, e: Entry): Option<seq<Known>> {
    if e.key == HWINTERFACE then Some(l + [Known(CString(e.value), None, None)])
    else if e.key == HWETHIP then
      if l == [] then None else Some(SetLast(l, l[|l| - 1].(ip := Some(e.value[..4]))))
    else if e.key == HWETHER then
      if l == [] then None else Some(SetLast(l, l[|l| - 1].(mac := Some(e.value[..6]))))
    else Some(l)
  }

  function ReadEntry(b: seq<byte>): Entry
    requires |b| >= ENTRY_LEN
  {
    Entry(FromBytes32(b[0], b[1], b[2], b[3]), b[4..36])
  }

  /** sr_handle_hwinfo on the entries that follow the message header. */
  function Decode(l: seq<Known>, b: seq<byte>): Option<seq<Known>>
    decreases |b|
  {
    if |b| < ENTRY_LEN then Some(l)
    else
      var l1 := Apply(l, ReadEntry(b));
      if l1.None? then None else Decode(l1.value, b[ENTRY_LEN..])
  }

  // ---------------------------------------------------------------- round trip

  function ApplyAll(l: seq<Known>, es: seq<Entry>): Option<seq<Known>>
    decreases |es|
  {
    if es == [] then Some(l)
    else
      var l1 := Apply(l, es[0]);
      if l1.None? then None else ApplyAll(l1.value, es[1..])
  }

  lemma ReadBack(e: Entry, rest: seq<byte>)
    ensures ReadEntry(Bytes32(e.key) + e.value + rest) == e
    ensures (Bytes32(e.key) + e.value + rest)[ENTRY_LEN..] == rest
  {
    var k := Bytes32(e.key);
    var b := k + e.value + rest;
    FromBytes32Inverse(e.key);
    assert b[0] == k[0] && b[1] == k[1] && b[2] == k[2] && b[3] == k[3];
    hide Bytes32, FromBytes32;
    assert b[4..36] == e.value;
  }

  lemma {:induction false} DecodeFlattened(l: seq<Known>, es: seq<Entry>, rest: seq<byte>)
    ensures Decode(l, Flatten(es) + rest)
         == match ApplyAll(l, es) case None => None case Some(l1) => Decode(l1, rest)
    decreases |es|
  {
    hide Apply, ReadEntry, Bytes32;
    if es == [] {
      assert Flatten(es) + rest == rest;
    } else {
      var tail := Flatten(es[1..]) + rest;
      assert Flatten(es) + rest == Bytes32(es[0].key) + es[0].value + tail;
      ReadBack(es[0], tail);
      var l1 := Apply(l, es[0]);
      if l1.Some? { DecodeFlattened(l1.value, es[1..], rest); }
    }
  }

  /** What the router knows of one packed interface. */
  function Received(v: Interface): Known {
    Known(CString(Fixed(v.name, NAME_LEN)), Some(v.mac), Some(v.ip))
  }

  function ReceivedAll(vs: seq<Interface>): (l: seq<Known>)
    ensures |l| == |vs|
  {
    seq(|vs|, i requires 0 <= i < |vs| => Received(vs[i]))
  }

  lemma ApplyTwo(l: seq<Known>, es: seq<Entry>)
    requires |es| >= 2 && Apply(l, es[0]).Some? && Apply(Apply(l, es[0]).value, es[1]).Some?
    ensures ApplyAll(l, es) == ApplyAll(Apply(Apply(l, es[0]).value, es[1]).value, es[2..])
  {
    hide Apply;
    assert es[1..][1..] == es[2..];
  }

  lemma ApplyAtEnd(l: seq<Known>, k: Known, e: Entry)
    ensures Apply(l + [k], e) ==
      if e.key == HWINTERFACE then Some(l + [k] + [Known(CString(e.value), None, None)])
      else if e.key == HWETHIP then Some(l + [k.(ip := Some(e.value[..4]))])
      else if e.key == HWETHER then Some(l + [k.(mac := Some(e.value[..6]))])
      else Some(l + [k])
  {
    hide CString;
    var l1 := l + [k];
    assert l1[|l1| - 1] == k;
    assert SetLast(l1, k.(ip := Some(e.value[..4]))) == l + [k.(ip := Some(e.value[..4]))];
    assert SetLast(l1, k.(mac := Some(e.value[..6]))) == l + [k.(mac := Some(e.value[..6]))];
  }

  /** What the six groups say. */
  lemma EntryValues(v: Interface)
    ensures var es := Entries(v);
            && es[0].key == HWINTERFACE && es[0].value == Fixed(v.name, NAME_LEN)
            && es[1].key == HWSPEED && es[4].key == HWSUBNET && es[5].key == HWMASK
            && es[2].key == HWETHER && es[2].value[..6] == v.mac
            && es[3].key == HWETHIP && es[3].value[..4] == v.ip
  {
    hide Zeros;
  }

  lemma ApplySix(l: seq<Known>, k0: Known, k1: Known, k2: Known, es: seq<Entry>)
    requires |es| == 6 && Apply(l, es[0]) == Some(l + [k0]) && Apply(l + [k0], es[1]) == Some(l + [k0])
    requires Apply(l + [k0], es[2]) == Some(l + [k1]) && Apply(l + [k1], es[3]) == Some(l + [k2])
    requires Apply(l + [k2], es[4]) == Some(l + [k2]) && Apply(l + [k2], es[5]) == Some(l + [k2])
    ensures ApplyAll(l, es) == Some(l + [k2])
  {
    hide ApplyAll, Apply;
    ApplyTwo(l, es);
    assert es[2..][0] == es[2] && es[2..][1] == es[3];
    ApplyTwo(l + [k0], es[2..]);
    assert es[2..][2..][0] == es[4] && es[2..][2..][1] == es[5];
    ApplyTwo(l + [k2], es[2..][2..]);
    NothingLeft(l + [k2], es[2..][2..][2..]);
  }

  lemma ApplyFirst(l: seq<Known>, e: Entry)
    requires e.key == HWINTERFACE
    ensures Apply(l, e) == Some(l + [Known(CString(e.value), None, None)])
  {
    hide CString;
  }

  lemma ApplyInterface(l: seq<Known>, v: Interface)
    ensures ApplyAll(l, Entries(v)) == Some(l + [Received(v)])
  {
    hide CString, Fixed, Bytes32, ApplyAll, Apply, Entries;
    EntryValues(v);
    var es := Entries(v);
    var k0 := Known(CString(es[0].value), None, None);
    var k1 := k0.(mac := Some(v.mac));
    var k2 := k1.(ip := Some(v.ip));
    ApplyFirst(l, es[0]);
    ApplyAtEnd(l, k0, es[1]);
    ApplyAtEnd(l, k0, es[2]);
    ApplyAtEnd(l, k1, es[3]);
    ApplyAtEnd(l, k2, es[4]);
    ApplyAtEnd(l, k2, es[5]);
    ApplySix(l, k0, k1, k2, es);
  }

  lemma NothingLeft(l: seq<Known>, es: seq<Entry>)
    requires es == []
    ensures ApplyAll(l, es) == Some(l)
  {
  }

  /** Reading what pack wrote appends the interfaces in order, with their MAC and IP
      addresses, to whatever the list held. */
  lemma {:induction false} DecodePacked(l: seq<Known>, vs: seq<Interface>)
    ensures Decode(l, Pack(vs)) == Some(l + ReceivedAll(vs))
    decreases |vs|
  {
    hide Entries, Flatten, Received, ApplyAll;
    if vs == [] {
      assert l + ReceivedAll(vs) == l;
    } else {
      DecodeFlattened(l, Entries(vs[0]), Pack(vs[1..]));
      ApplyInterface(l, vs[0]);
      hide Decode;
      DecodePacked(l + [Received(vs[0])], vs[1..]);
      assert ReceivedAll(vs) == [Received(vs[0])] + ReceivedAll(vs[1..]);
      assert l + ([Received(vs[0])] + ReceivedAll(vs[1..])) == l + [Received(vs[0])] + ReceivedAll(vs[1..]);
    }
  }

  /** A name survives exactly when it has no NUL and at most 32 bytes. */
  lemma NameSurvivesIff(name: seq<byte>)
    ensures CString(Fixed(name, NAME_LEN)) == name <==> 0 !in name && |name| <= NAME_LEN
  {
    if 0 !in name && |name| <= NAME_LEN { PaddedString(name, NAME_LEN - |name|); }
  }

  lemma {:induction false} PaddedString(name: seq<byte>, n: nat)
    requires 0 !in name
    ensures CString(name + Zeros(n)) == name
  {
    if name == [] {
      assert name + Zeros(n) == Zeros(n);
    } else {
      assert (name + Zeros(n))[1..] == name[1..] + Zeros(n);
      PaddedString(name[1..], n);
    }
  }

  /** The list with nothing lost. */
  function Faithful(vs: seq<Interface>): (l: seq<Known>)
    ensures |l| == |vs|
  {
    seq(|vs|, i requires 0 <= i < |vs| => Known(vs[i].name, Some(vs[i].mac), Some(vs[i].ip)))
  }

  predicate NameFits(v: Interface) {
    0 !in v.name && |v.name| <= NAME_LEN
  }

  /** The round trip is exact for a list of interfaces exactly when every name is NUL-free
      and at most 32 bytes long. */
  lemma RoundTripIff(vs: seq<Interface>)
    ensures Decode([], Pack(vs)) == Some(Faithful(vs))
       <==> forall i | 0 <= i < |vs| :: NameFits(vs[i])
  {
    hide CString, Fixed, Pack, Decode, Received, ReceivedAll, Faithful;
    DecodePacked([], vs);
    assert [] + ReceivedAll(vs) == ReceivedAll(vs);
    if forall i | 0 <= i < |vs| :: NameFits(vs[i]) {
      AllFaithful(vs);
    }
    if ReceivedAll(vs) == Faithful(vs) {
      forall i | 0 <= i < |vs| ensures NameFits(vs[i]) { FaithfulName(vs, i); }
    }
  }

  lemma FaithfulName(vs: seq<Interface>, i: nat)
    requires i < |vs| && ReceivedAll(vs) == Faithful(vs)
    ensures NameFits(vs[i])
  {
    hide CString, Fixed;
    assert ReceivedAll(vs)[i] == Faithful(vs)[i];
    NameSurvivesIff(vs[i].name);
  }

  lemma AllFaithful(vs: seq<Interface>)
    requires forall i | 0 <= i < |vs| :: NameFits(vs[i])
    ensures ReceivedAll(vs) == Faithful(vs)
  {
    hide CString, Fixed;
    forall i | 0 <= i < |vs| ensures ReceivedAll(vs)[i] == Faithful(vs)[i] { NameSurvivesIff(vs[i].name); }
  }

  // ---------------------------------------------------------------- bytes of the message

  predicate AllZero(b: seq<byte>) {
    forall i | 0 <= i < |b| :: b[i] == 0
  }

  /** b is a string cut off or filled with NUL bytes. */
  predicate Filled(b: seq<byte>, s: seq<byte>) {
    if |s| >= |b| then b == s[..|b|] else b[..|s|] == s && AllZero(b[|s|..])
  }

  lemma FixedFills(s: seq<byte>, n: nat)
    ensures Filled(Fixed(s, n), s)
  {
  }

  lemma KeyBytes()
    ensures Bytes32(1) == [0, 0, 0, 1] && Bytes32(2) == [0, 0, 0, 2] && Bytes32(4) == [0, 0, 0, 4]
    ensures Bytes32(16) == [0, 0, 0, 16] && Bytes32(32) == [0, 0, 0, 32] && Bytes32(64) == [0, 0, 0, 64]
    ensures Bytes32(128) == [0, 0, 0, 128] && Bytes32(0) == [0, 0, 0, 0]
  {
  }

  lemma {:induction false} EntryAt(es: seq<Entry>, i: nat)
    requires i < |es|
    ensures var b := Flatten(es);
            b[36 * i..36 * i + 4] == Bytes32(es[i].key) && b[36 * i + 4..36 * i + 36] == es[i].value
    decreases |es|
  {
    hide Bytes32;
    var head, tail := Bytes32(es[0].key) + es[0].value, Flatten(es[1..]);
    assert Flatten(es) == head + tail;
    if i > 0 {
      EntryAt(es[1..], i - 1);
      assert (head + tail)[36 * i..36 * i + 4] == tail[36 * (i - 1)..36 * (i - 1) + 4];
      assert (head + tail)[36 * i + 4..36 * i + 36] == tail[36 * (i - 1) + 4..36 * (i - 1) + 36];
    }
  }

  /** The 216 bytes of an interface: six keys of four bytes, most significant first, each with
      32 bytes: name, speed, MAC address, IP address, subnet and mask. */
  ghost predicate PackedAs(b: seq<byte>, v: Interface) {
    && |b| == 216
    && b[0..4] == [0, 0, 0, 1] && Filled(b[4..36], v.name)
    && b[36..40] == [0, 0, 0, 2] && AllZero(b[40..72])
    && b[72..76] == [0, 0, 0, 32] && Filled(b[76..108], v.mac)
    && b[108..112] == [0, 0, 0, 64] && Filled(b[112..144], v.ip)
    && b[144..148] == [0, 0, 0, 4] && AllZero(b[148..180])
    && b[180..184] == [0, 0, 0, 128] && Filled(b[184..216], v.mask)
  }

  lemma ShortValue(s: seq<byte>)
    requires |s| == 4
    ensures Filled(s + Fixed([], 28), s)
    ensures AllZero(s) ==> AllZero(s + Fixed([], 28))
  {
    assert (s + Fixed([], 28))[4..] == Fixed([], 28);
  }

  lemma InterfaceBytes(v: Interface)
    ensures PackedAs(Flatten(Entries(v)), v)
  {
    hide Flatten, Filled, Fixed, Bytes32, AllZero;
    var es := Entries(v);
    EntryAt(es, 0);
    EntryAt(es, 1);
    EntryAt(es, 2);
    EntryAt(es, 3);
    EntryAt(es, 4);
    EntryAt(es, 5);
    KeyBytes();
    FixedFills(v.name, 32);
    FixedFills(v.mac, 32);
    ShortValue(v.ip);
    ShortValue(v.mask);
    ShortValue([0, 0, 0, 0]);
    assert AllZero([0, 0, 0, 0]) by { ZeroWord(); }
  }

  lemma ZeroWord()
    ensures AllZero([0, 0, 0, 0])
  {
  }

  /** The packed list has these bytes for each interface in turn, and the message around it
      its own length and the number 16. */
  lemma {:induction false} ListBytes(vs: seq<Interface>, i: nat)
    requires i < |vs|
    ensures PackedAs(Pack(vs)[216 * i..216 * (i + 1)], vs[i])
    decreases |vs|
  {
    hide PackedAs, Flatten, Entries;
    var head, tail := Flatten(Entries(vs[0])), Pack(vs[1..]);
    InterfaceBytes(vs[0]);
    if i == 0 {
      assert (head + tail)[0..216] == head;
    } else {
      ListBytes(vs[1..], i - 1);
      assert (head + tail)[216 * i..216 * (i + 1)] == tail[216 * (i - 1)..216 * i];
    }
  }

  lemma FrontOf(a: seq<byte>, b: seq<byte>, c: seq<byte>)
    requires |a| == |b| == 4
    ensures var m := a + b + c; m[..4] == a && m[8..] == c
    ensures var m := a + b + c; m[0] == a[0] && m[1] == a[1] && m[2] == a[2] && m[3] == a[3]
  {
  }

  /** The message carries its own length, so it meets what HandleHwinfo asks for, and the
      number 16; the entries are the packed interfaces. */
  lemma MessageIsFramed(vs: seq<Interface>)
    requires 8 + 216 * |vs| < TWO_32
    ensures var m := Message(vs);
            && |m| == 8 + 216 * |vs| && FromBytes32(m[0], m[1], m[2], m[3]) == |m|
            && m[4..8] == [0, 0, 0, 16] && m[8..] == Pack(vs)
  {
    hide Pack, Bytes32, FromBytes32;
    KeyBytes();
    FromBytes32Inverse(8 + |Pack(vs)|);
    FrontOf(Bytes32(8 + |Pack(vs)|), Bytes32(VNSHWINFO), Pack(vs));
    assert Message(vs)[4..8] == Bytes32(VNSHWINFO);
  }

  // ---------------------------------------------------------------- the interface list

  /** sr_if */
  class SrIf {
    var name: Value
    var addr: Mac
    var ip: Ip4
    var next: SrIf?

    /** malloc: addr and ip hold whatever was there. */
    constructor (n: Value)
      ensures name == n && next == null
    {
      name, next := n, null;
    }
  }

  /** strncpy into char[32] */
  function StrNCpy(v: Value): (r: Value)
    ensures CString(r) == CString(v)
  {
    var s := CString(v);
    PaddedString(s, NAME_LEN - |s|);
    s + Zeros(NAME_LEN - |s|)
  }

  ghost predicate Shows(n: SrIf, k: Known)
    reads n`name, n`addr, n`ip
  {
    CString(n.name) == k.name && (k.mac.Some? ==> n.addr == k.mac.value) && (k.ip.Some? ==> n.ip == k.ip.value)
  }

  ghost predicate ShowAll(nodes: seq<SrIf>, known: seq<Known>)
    reads nodes`name, nodes`addr, nodes`ip
  {
    |nodes| == |known| && forall i | 0 <= i < |nodes| :: Shows(nodes[i], known[i])
  }

  /** The node at position i, null beyond the end. */
  ghost function At(nodes: seq<SrIf>, i: nat): SrIf? {
    if i < |nodes| then nodes[i] else null
  }

  ghost predicate Linked(nodes: seq<SrIf>)
    reads nodes`next
  {
    && (forall i {:trigger nodes[i].next} :: 0 <= i < |nodes| ==> nodes[i].next == At(nodes, i + 1))
    && (forall i, j | 0 <= i < j < |nodes| :: nodes[i] != nodes[j])
  }

  lemma CopiedShows(n: SrIf, v: Value)
    requires n.name == StrNCpy(v)
    ensures Shows(n, Known(CString(v), None, None))
  {
    hide CString;
  }

  lemma LinkedAppend(nodes: seq<SrIf>, n: SrIf)
    requires forall i {:trigger nodes[i].next} :: 0 <= i < |nodes| ==>
               nodes[i].next == if i + 1 == |nodes| then n else At(nodes, i + 1)
    requires (forall i, j | 0 <= i < j < |nodes| :: nodes[i] != nodes[j]) && n !in nodes && n.next == null
    ensures Linked(nodes + [n])
  {
    var s := nodes + [n];
    forall i | 0 <= i < |s| ensures s[i].next == At(s, i + 1) {
      if i < |nodes| { assert s[i] == nodes[i]; }
    }
  }

  lemma ShowAllAppend(nodes: seq<SrIf>, known: seq<Known>, n: SrIf, k: Known)
    requires ShowAll(nodes, known) && Shows(n, k)
    ensures ShowAll(nodes + [n], known + [k])
  {
    hide Shows;
  }

  /** The nodes before the last one, none of which is the last one. */
  ghost predicate FrontShows(nodes: seq<SrIf>, known: seq<Known>)
    reads nodes[..if nodes == [] then 0 else |nodes| - 1]
  {
    |nodes| == |known| && forall i | 0 <= i < |nodes| - 1 :: Shows(nodes[i], known[i])
  }

  lemma OthersShow(nodes: seq<SrIf>, known: seq<Known>)
    requires Linked(nodes) && ShowAll(nodes, known) && nodes != []
    ensures FrontShows(nodes, known) && nodes[|nodes| - 1] !in nodes[..|nodes| - 1]
  {
    hide Shows;
  }

  lemma LastShows(nodes: seq<SrIf>, known: seq<Known>, k: Known)
    requires nodes != [] && FrontShows(nodes, known) && Shows(nodes[|nodes| - 1], k)
    ensures ShowAll(nodes, SetLast(known, k))
  {
    hide Shows;
  }

  /** The part of sr_instance that holds the list. */
  class SrInstance {
    var ifList: SrIf?
    ghost var nodes: seq<SrIf>
    ghost var known: seq<Known>

    ghost predicate Valid()
      reads this, nodes
    {
      ifList == At(nodes, 0) && Linked(nodes) && ShowAll(nodes, known)
    }

    constructor ()
      ensures Valid() && known == [] && nodes == []
    {
      ifList, nodes, known := null, [], [];
    }

    /** The walk to the end of the list. */
    method Last() returns (w: SrIf)
      requires Valid() && nodes != []
      ensures w == nodes[|nodes| - 1]
    {
      hide ShowAll;
      w := ifList;
      ghost var i := 0;
      while w.next != null
        invariant 0 <= i < |nodes| && w == nodes[i]
        decreases |nodes| - i
      {
        w := w.next;
        i := i + 1;
      }
    }

    /** sr_add_interface */
    method AddInterface(v: Value)
      requires Valid()
      modifies this, nodes
      ensures Valid()
      ensures forall i | 0 <= i < |nodes| :: nodes[i] in old(nodes) || fresh(nodes[i])
      ensures known == old(known) + [Known(CString(v), None, None)]
    {
      hide CString, StrNCpy, Shows;
      ghost var k := Known(CString(v), None, None);
      var n := new SrIf(StrNCpy(v));
      CopiedShows(n, v);
      if ifList == null {
        ifList := n;
      } else {
        var w := Last();
        w.next := n;
      }
      LinkedAppend(nodes, n);
      ShowAllAppend(nodes, known, n, k);
      nodes, known := nodes + [n], known + [k];
    }

    /** sr_set_ether_addr; false when its assert fails. */
    method SetEtherAddr(addr: Mac) returns (ok: bool)
      requires Valid()
      modifies this`known, nodes
      ensures Valid() && nodes == old(nodes)
      ensures ok <==> old(known) != []
      ensures known == if ok then SetLast(old(known), old(known)[|old(known)| - 1].(mac := Some(addr))) else old(known)
    {
      hide CString, Linked;
      if ifList == null { return false; }
      var w := Last();
      OthersShow(nodes, known);
      w.addr := addr;
      ghost var k := known[|known| - 1].(mac := Some(addr));
      LastShows(nodes, known, k);
      known := SetLast(known, k);
      return true;
    }

    /** sr_set_ether_ip; false when its assert fails. */
    method SetEtherIp(ip: Ip4) returns (ok: bool)
      requires Valid()
      modifies this`known, nodes
      ensures Valid() && nodes == old(nodes)
      ensures ok <==> old(known) != []
      ensures known == if ok then SetLast(old(known), old(known)[|old(known)| - 1].(ip := Some(ip))) else old(known)
    {
      hide CString, Linked;
      if ifList == null { return false; }
      var w := Last();
      OthersShow(nodes, known);
      w.ip := ip;
      ghost var k := known[|known| - 1].(ip := Some(ip));
      LastShows(nodes, known, k);
      known := SetLast(known, k);
      return true;
    }

    /** One round of the loop of sr_handle_hwinfo. */
    method HandleEntry(e: Entry) returns (ok: bool)
      requires Valid()
      modifies this, nodes
      ensures Valid()
      ensures forall i | 0 <= i < |nodes| :: nodes[i] in old(nodes) || fresh(nodes[i])
      ensures ok <==> Apply(old(known), e).Some?
      ensures ok ==> known == Apply(old(known), e).value
    {
      hide CString, Shows;
      ok := true;
      if e.key == HWINTERFACE {
        AddInterface(e.value);
      } else if e.key == HWETHIP {
        ok := SetEtherIp(e.value[..4]);
      } else if e.key == HWETHER {
        ok := SetEtherAddr(e.value[..6]);
      }
    }

    /** sr_handle_hwinfo on a message as sr_read_from_server delivers it; None when an
        assert fails, otherwise the number of entries. */
    method HandleHwinfo(msg: seq<byte>) returns (count: Option<nat>)
      requires Valid() && |msg| >= 8 && FromBytes32(msg[0], msg[1], msg[2], msg[3]) == |msg|
      modifies this, nodes
      ensures Valid()
      ensures var after := Decode(old(known), msg[8..]);
              && (count.Some? <==> after.Some?)
              && (count.Some? ==> known == after.value && count.value == (|msg| - 8) / ENTRY_LEN)
    {
      hide Apply, ReadEntry, Shows, CString;
      var n := (FromBytes32(msg[0], msg[1], msg[2], msg[3]) - 8) / ENTRY_LEN;
      var i := 0;
      assert msg[8 + ENTRY_LEN * i..] == msg[8..];
      while i < n
        invariant 0 <= i <= n && Valid() && forall j | 0 <= j < |nodes| :: nodes[j] in old(nodes) || fresh(nodes[j])
        invariant Decode(known, msg[8 + ENTRY_LEN * i..]) == Decode(old(known), msg[8..])
      {
        ghost var rest := msg[8 + ENTRY_LEN * i..];
        assert rest[..ENTRY_LEN] == msg[8 + ENTRY_LEN * i..8 + ENTRY_LEN * (i + 1)];
        EntryIsPrefix(rest);
        var ok := HandleEntry(ReadEntry(msg[8 + ENTRY_LEN * i..8 + ENTRY_LEN * (i + 1)]));
        if !ok { return None; }
        assert rest[ENTRY_LEN..] == msg[8 + ENTRY_LEN * (i + 1)..];
        i := i + 1;
      }
      return Some(n);
    }
  }

  lemma EntryIsPrefix(b: seq<byte>)
    requires |b| >= ENTRY_LEN
    ensures ReadEntry(b[..ENTRY_LEN]) == ReadEntry(b)
  {
    assert b[..ENTRY_LEN][4..36] == b[4..36];
  }
}
