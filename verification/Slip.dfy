/** SLIP framing (slip/slip.c): the byte-at-a-time receiver, the transmitter, and what a stream of packets becomes. */
module Slip {
  import opened Basics

  const END: Byte := 0xc0
  const ESC: Byte := 0xdb
  const ESC_END: Byte := 0xdc
  const ESC_ESC: Byte := 0xdd

  type Packet = seq<Byte>

  /** How a packet looks on the line: section "PROTOCOL" of RFC 1055, with an END in front as well. */
  function Escaped(c: Byte): (r: Packet) {
    if c == ESC then [ESC, ESC_ESC] else if c == END then [ESC, ESC_END] else [c]
  }

  function Stuffed(p: Packet): (r: Packet) {
    if p == [] then [] else Stuffed(p[..|p| - 1]) + Escaped(p[|p| - 1])
  }

  function Encode(p: Packet): (r: Packet) {
    [END] + Stuffed(p) + [END]
  }

  function EncodeAll(ps: seq<Packet>): (r: Packet) {
    if ps == [] then [] else Encode(ps[0]) + EncodeAll(ps[1..])
  }

  /** No END inside a frame, whatever the packet holds. */
  lemma {:induction false} NoEndInside(p: Packet)
    ensures END !in Stuffed(p)
  {
    if p != [] {
      NoEndInside(p[..|p| - 1]);
    }
  }

  datatype Status = Complete | InProgress | BufferLimit | Error

  /** What the receiver has collected, and the two flags it keeps. */
  datatype Rx = Rx(data: Packet, escape: bool, started: bool)

  const FRESH: Rx := Rx([], false, false)

  /** Between two frames. */
  predicate Idle(rx: Rx) {
    rx.data == [] && !rx.escape
  }

  function Append(rx: Rx, capacity: nat, c: Byte): (r: (Rx, Status)) {
    if |rx.data| == capacity then (rx.(started := false), BufferLimit)
    else (rx.(data := rx.data + [c]), InProgress)
  }

  function Step(rx: Rx, capacity: nat, c: Byte): (r: (Rx, Status)) {
    if c == END then
      if rx.escape then (FRESH, Error)
      else if |rx.data| > 0 then (rx, Complete)
      else (rx.(started := true), InProgress)
    else if rx.escape then
      if c == ESC_END then Append(rx.(escape := false), capacity, END)
      else if c == ESC_ESC then Append(rx.(escape := false), capacity, ESC)
      else (FRESH, Error)
    else if c == ESC then (rx.(escape := true), InProgress)
    else if rx.started then Append(rx, capacity, c)
    else (rx, InProgress)
  }

  /** struct slip_rx_state. */
  class Receiver {
    const buffer: array<Byte>
    var length: nat
    var escape: bool
    var frameStarted: bool

    ghost predicate Valid()
      reads this
    {
      length <= buffer.Length
    }

    ghost function State(): (r: Rx)
      requires Valid()
      reads this, buffer
    {
      Rx(buffer[..length], escape, frameStarted)
    }

    constructor (buffer: array<Byte>)
      ensures Valid() && this.buffer == buffer && State() == FRESH
    {
      this.buffer := buffer;
      length, escape, frameStarted := 0, false, false;
    }

    /** slip_rx_state_reinit, with the buffer it already has */
    method Reinit()
      modifies this
      ensures Valid() && State() == FRESH
    {
      length, escape, frameStarted := 0, false, false;
    }

    /** slip_rx_append */
    method Store(c: Byte) returns (status: Status)
      requires Valid()
      modifies this, buffer
      ensures Valid()
      ensures (State(), status) == Append(old(State()), buffer.Length, c)
    {
      if length == buffer.Length {
        frameStarted := false;
        return BufferLimit;
      }
      buffer[length] := c;
      length := length + 1;
      assert buffer[..length] == old(buffer[..length]) + [c];
      status := InProgress;
    }

    /** slip_rx: for every byte in every state, the received length stays inside the buffer. */
    method Receive(c: Byte) returns (status: Status)
      requires Valid()
      modifies this, buffer
      ensures Valid()
      ensures (State(), status) == Step(old(State()), buffer.Length, c)
    {
      if c == END {
        if escape {
          Reinit();
          status := Error;
        } else if length > 0 {
          status := Complete;
        } else {
          frameStarted := true;
          status := InProgress;
        }
      } else if escape {
        escape := false;
        if c == ESC_END {
          status := Store(END);
        } else if c == ESC_ESC {
          status := Store(ESC);
        } else {
          Reinit();
          status := Error;
        }
      } else if c == ESC {
        escape := true;
        status := InProgress;
      } else if frameStarted {
        status := Store(c);
      } else {
        status := InProgress;
      }
    }
  }

  /** What a caller is told that reinitialises the receiver after every complete packet, and only then. */
  datatype Event = Received(packet: Packet) | Failed(status: Status)

  function Told(rx: Rx, status: Status): (r: seq<Event>) {
    match status
    case InProgress => []
    case Complete => [Received(rx.data)]
    case _ => [Failed(status)]
  }

  function Run(rx: Rx, capacity: nat, line: Packet): (r: (seq<Event>, Rx)) {
    if line == [] then ([], rx)
    else
      var (before, mid) := Run(rx, capacity, line[..|line| - 1]);
      var (after, status) := Step(mid, capacity, line[|line| - 1]);
      (before + Told(after, status), if status == Complete then FRESH else after)
  }

  lemma RunNothing(rx: Rx, capacity: nat)
    ensures Run(rx, capacity, []) == ([], rx)
  {
  }

  lemma RunSnoc(rx: Rx, capacity: nat, a: Packet, c: Byte)
    ensures var (before, mid) := Run(rx, capacity, a);
            var (after, status) := Step(mid, capacity, c);
            Run(rx, capacity, a + [c]) == (before + Told(after, status), if status == Complete then FRESH else after)
  {
    assert (a + [c])[..|a|] == a;
  }

  lemma {:induction false} RunConcat(rx: Rx, capacity: nat, a: Packet, b: Packet)
    ensures var (before, mid) := Run(rx, capacity, a);
            var (after, end) := Run(mid, capacity, b);
            Run(rx, capacity, a + b) == (before + after, end)
  {
    hide Run, Step, Told;
    if b == [] {
      assert a + b == a;
      RunNothing(Run(rx, capacity, a).1, capacity);
      var before := Run(rx, capacity, a).0;
      assert before + [] == before;
    } else {
      var front, c := b[..|b| - 1], b[|b| - 1];
      assert b == front + [c] && a + b == a + front + [c];
      RunConcat(rx, capacity, a, front);
      var (before, mid) := Run(rx, capacity, a);
      RunSnoc(mid, capacity, front, c);
      RunSnoc(rx, capacity, a + front, c);
      var (more, late) := Run(mid, capacity, front);
      var (last, status) := Step(late, capacity, c);
      assert before + more + Told(last, status) == before + (more + Told(last, status));
    }
  }

  /**
   * On any line whatsoever: no more is kept than fits, and what is reported as a packet is neither empty nor too long.
   */
  lemma {:induction false} NeverOverruns(rx: Rx, capacity: nat, line: Packet)
    requires |rx.data| <= capacity
    ensures var (events, end) := Run(rx, capacity, line);
            && |end.data| <= capacity
            && (forall e :: e in events && e.Received? ==> 0 < |e.packet| <= capacity)
            && |events| <= |line|
  {
    if line != [] {
      NeverOverruns(rx, capacity, line[..|line| - 1]);
    }
  }

  /** Inside a frame the packet comes out of the stuffing byte by byte, as long as there is room. */
  lemma {:induction false} Unstuffs(rx: Rx, capacity: nat, p: Packet)
    requires !rx.escape && rx.started && |rx.data| + |p| <= capacity
    ensures Run(rx, capacity, Stuffed(p)) == ([], rx.(data := rx.data + p))
  {
    hide Run, Escaped, Stuffed;
    if p == [] {
      assert rx.data + p == rx.data;
      StuffedNothing();
      RunNothing(rx, capacity);
    } else {
      var front, c := p[..|p| - 1], p[|p| - 1];
      Unstuffs(rx, capacity, front);
      assert p == front + [c];
      StuffedSnoc(front, c);
      RunConcat(rx, capacity, Stuffed(front), Escaped(c));
      UnstuffsByte(rx.(data := rx.data + front), capacity, c);
      assert rx.data + front + [c] == rx.data + p;
      var none: seq<Event> := [];
      assert none + none == none;
    }
  }

  lemma RunOne(rx: Rx, capacity: nat, c: Byte)
    ensures var (after, status) := Step(rx, capacity, c);
            Run(rx, capacity, [c]) == (Told(after, status), if status == Complete then FRESH else after)
  {
    RunSnoc(rx, capacity, [], c);
    assert [] + [c] == [c];
    var (after, status) := Step(rx, capacity, c);
    assert [] + Told(after, status) == Told(after, status);
  }

  lemma UnstuffsByte(rx: Rx, capacity: nat, c: Byte)
    requires !rx.escape && rx.started
    ensures Run(rx, capacity, Escaped(c)) ==
            if |rx.data| == capacity then ([Failed(BufferLimit)], rx.(started := false))
            else ([], rx.(data := rx.data + [c]))
  {
    hide Run;
    if c == ESC || c == END {
      var d := if c == ESC then ESC_ESC else ESC_END;
      RunOne(rx, capacity, ESC);
      RunOne(rx.(escape := true), capacity, d);
      RunConcat(rx, capacity, [ESC], [d]);
      assert [ESC] + [d] == Escaped(c);
      var told: seq<Event> := if |rx.data| == capacity then [Failed(BufferLimit)] else [];
      assert [] + told == told;
    } else {
      RunOne(rx, capacity, c);
    }
  }

  /** One packet between two END bytes. */
  lemma PacketRoundTrip(rx: Rx, capacity: nat, p: Packet)
    requires Idle(rx) && |p| <= capacity
    ensures Run(rx, capacity, Encode(p)) ==
            if p == [] then ([], Rx([], false, true)) else ([Received(p)], FRESH)
  {
    var open := Rx([], false, true);
    RunOne(rx, capacity, END);
    Unstuffs(open, capacity, p);
    RunConcat(rx, capacity, [END], Stuffed(p));
    RunOne(open.(data := p), capacity, END);
    assert [] + p == p;
    RunConcat(rx, capacity, [END] + Stuffed(p), [END]);
  }

  /** A packet that does not fit is never silently cut: the caller is told while it is being received. */
  lemma OverlongIsReported(rx: Rx, capacity: nat, p: Packet)
    requires Idle(rx) && |p| > capacity
    ensures Failed(BufferLimit) in Run(rx, capacity, Encode(p)).0
  {
    hide Run, Escaped, Stuffed;
    var open := Rx([], false, true);
    var fits, c, rest := p[..capacity], p[capacity], p[capacity + 1..];
    RunOne(rx, capacity, END);
    Unstuffs(open, capacity, fits);
    assert [] + fits == fits;
    UnstuffsByte(open.(data := fits), capacity, c);
    RunConcat(open, capacity, Stuffed(fits), Escaped(c));
    RunConcat(rx, capacity, [END], Stuffed(fits) + Escaped(c));
    var seen := [END] + (Stuffed(fits) + Escaped(c));
    StuffedConcat(fits + [c], rest);
    StuffedSnoc(fits, c);
    assert fits + [c] + rest == p;
    assert Encode(p) == seen + (Stuffed(rest) + [END]);
    RunConcat(rx, capacity, seen, Stuffed(rest) + [END]);
  }

  lemma StuffedNothing()
    ensures Stuffed([]) == []
  {
  }

  lemma StuffedSnoc(p: Packet, c: Byte)
    ensures Stuffed(p + [c]) == Stuffed(p) + Escaped(c)
  {
    assert (p + [c])[..|p|] == p;
  }

  lemma {:induction false} StuffedConcat(a: Packet, b: Packet)
    ensures Stuffed(a + b) == Stuffed(a) + Stuffed(b)
  {
    hide Stuffed, Escaped;
    if b == [] {
      assert a + b == a;
      StuffedNothing();
    } else {
      var front, c := b[..|b| - 1], b[|b| - 1];
      assert b == front + [c] && a + b == a + front + [c];
      StuffedConcat(a, front);
      StuffedSnoc(front, c);
      StuffedSnoc(a + front, c);
    }
  }

  /** The packets a receiver reports: SLIP has no empty packets. */
  function Reported(ps: seq<Packet>): (r: seq<Event>) {
    if ps == [] then [] else (if ps[0] == [] then [] else [Received(ps[0])]) + Reported(ps[1..])
  }

  /**
   * The stream round trip: decoding what was sent for any list of packets gives exactly the non-empty ones, in order
   * and nothing else, if and only if every packet fits the buffer.
   */
  lemma {:induction false} StreamRoundTrip(rx: Rx, capacity: nat, ps: seq<Packet>)
    requires Idle(rx)
    ensures Run(rx, capacity, EncodeAll(ps)).0 == Reported(ps) <==> forall p :: p in ps ==> |p| <= capacity
    ensures (forall p :: p in ps ==> |p| <= capacity) ==> Idle(Run(rx, capacity, EncodeAll(ps)).1)
    decreases |ps|
  {
    if ps == [] {
    } else {
      hide Run, Encode;
      var p, rest := ps[0], ps[1..];
      RunConcat(rx, capacity, Encode(p), EncodeAll(rest));
      assert ps == [p] + rest;
      if |p| <= capacity {
        PacketRoundTrip(rx, capacity, p);
        var mid := Run(rx, capacity, Encode(p)).1;
        StreamRoundTrip(mid, capacity, rest);
        SameTail(if p == [] then [] else [Received(p)], Run(mid, capacity, EncodeAll(rest)).0, Reported(rest));
      } else {
        OverlongIsReported(rx, capacity, p);
        ReportsNoFailure(ps);
        assert p in ps;
        assert Failed(BufferLimit) in Run(rx, capacity, EncodeAll(ps)).0;
      }
    }
  }

  lemma SameTail(head: seq<Event>, a: seq<Event>, b: seq<Event>)
    ensures head + a == head + b <==> a == b
  {
    if head + a == head + b {
      assert a == (head + a)[|head|..] == (head + b)[|head|..] == b;
    }
  }

  lemma {:induction false} ReportsNoFailure(ps: seq<Packet>)
    ensures forall e :: e in Reported(ps) ==> e.Received?
  {
    if ps != [] {
      ReportsNoFailure(ps[1..]);
    }
  }

  /** The first verdict of the transport is about call number `first`; a byte is delivered if its verdict is 0. */
  type Verdicts = nat -> int

  /** The calls made for one byte of the packet, and the result of the last of them. */
  function TriedByte(v: Verdicts, first: nat, c: Byte): (r: (Packet, int)) {
    if c != ESC && c != END then ([c], v(first))
    else if v(first) != 0 then ([ESC], v(first))
    else (Escaped(c), v(first + 1))
  }

  /** The calls made for a packet between its two END bytes, and the result left behind. */
  function Tried(v: Verdicts, first: nat, p: Packet): (r: (Packet, int)) {
    if p == [] then ([], 0)
    else
      var (before, ignored) := Tried(v, first, p[..|p| - 1]);
      var (last, result) := TriedByte(v, first + |before|, p[|p| - 1]);
      (before + last, result)
  }

  /** What reaches the other side of the bytes that were tried. */
  function Delivered(v: Verdicts, first: nat, tried: Packet): (r: Packet) {
    if tried == [] then []
    else
      Delivered(v, first, tried[..|tried| - 1])
      + if v(first + |tried| - 1) == 0 then [tried[|tried| - 1]] else []
  }

  predicate AllWell(v: Verdicts, first: nat, count: nat) {
    forall k :: first <= k < first + count ==> v(k) == 0
  }

  /** The transport: it decides call by call whether a byte goes out. */
  class Transport {
    const verdicts: Verdicts
    var tried: Packet

    constructor (verdicts: Verdicts)
      ensures this.verdicts == verdicts && tried == []
    {
      this.verdicts := verdicts;
      tried := [];
    }

    method Send(c: Byte) returns (result: int)
      modifies this
      ensures tried == old(tried) + [c] && result == verdicts(|old(tried)|)
    {
      tried := tried + [c];
      result := verdicts(|tried| - 1);
    }
  }

  lemma TriedSnoc(v: Verdicts, first: nat, p: Packet, c: Byte)
    ensures var before := Tried(v, first, p).0;
            var (last, result) := TriedByte(v, first + |before|, c);
            Tried(v, first, p + [c]) == (before + last, result)
  {
    hide TriedByte;
    assert (p + [c])[..|p|] == p && (p + [c])[|p|] == c;
  }

  /** The switch in the loop of slip_tx. */
  method TransmitByte(t: Transport, c: Byte) returns (result: int)
    modifies t
    ensures var (tried, last) := TriedByte(t.verdicts, |old(t.tried)|, c);
            t.tried == old(t.tried) + tried && result == last
  {
    if c == ESC {
      result := t.Send(ESC);
      if result == 0 {
        result := t.Send(ESC_ESC);
      }
    } else if c == END {
      result := t.Send(ESC);
      if result == 0 {
        result := t.Send(ESC_END);
      }
    } else {
      result := t.Send(c);
    }
  }

  /** slip_tx. Its result is that of the last call for the last byte of the packet; all other results are forgotten. */
  method Transmit(t: Transport, packet: Packet) returns (result: int)
    modifies t
    ensures var first := |old(t.tried)| + 1;
            && t.tried == old(t.tried) + [END] + Tried(t.verdicts, first, packet).0 + [END]
            && result == Tried(t.verdicts, first, packet).1
  {
    result := 0;
    var ignored := t.Send(END);
    ghost var start := t.tried;
    var i := 0;
    while i < |packet|
      invariant 0 <= i <= |packet|
      invariant t.tried == start + Tried(t.verdicts, |start|, packet[..i]).0
      invariant result == Tried(t.verdicts, |start|, packet[..i]).1
    {
      hide Tried, TriedByte;
      assert packet[..i + 1] == packet[..i] + [packet[i]];
      TriedSnoc(t.verdicts, |start|, packet[..i], packet[i]);
      result := TransmitByte(t, packet[i]);
      i := i + 1;
    }
    assert packet[..i] == packet;
    ignored := t.Send(END);
  }

  lemma {:induction false} DeliveredCount(v: Verdicts, first: nat, tried: Packet)
    ensures |Delivered(v, first, tried)| <= |tried|
    ensures AllWell(v, first, |tried|) ==> Delivered(v, first, tried) == tried
    ensures |Delivered(v, first, tried)| == |tried| ==> AllWell(v, first, |tried|)
  {
    if tried != [] {
      DeliveredCount(v, first, tried[..|tried| - 1]);
    }
  }

  lemma {:induction false} TriedCount(v: Verdicts, first: nat, p: Packet)
    ensures |Tried(v, first, p).0| <= |Stuffed(p)|
    ensures AllWell(v, first, |Tried(v, first, p).0|) ==> Tried(v, first, p) == (Stuffed(p), 0)
  {
    if p != [] {
      TriedCount(v, first, p[..|p| - 1]);
    }
  }

  /** All the calls of one transmission, and what arrives. */
  function Calls(v: Verdicts, first: nat, p: Packet): (r: Packet) {
    [END] + Tried(v, first + 1, p).0 + [END]
  }

  /** The frame arrives whole exactly if every call succeeded, and then the result is 0. */
  lemma FrameArrives(v: Verdicts, first: nat, p: Packet)
    ensures Delivered(v, first, Calls(v, first, p)) == Encode(p) <==> AllWell(v, first, |Calls(v, first, p)|)
    ensures AllWell(v, first, |Calls(v, first, p)|) ==> Tried(v, first + 1, p).1 == 0
  {
    var calls := Calls(v, first, p);
    DeliveredCount(v, first, calls);
    TriedCount(v, first + 1, p);
  }

  /** All calls for the last byte of the packet succeed, if it has one. */
  predicate LastByteOut(v: Verdicts, first: nat, p: Packet) {
    p != [] ==>
      var at := first + |Tried(v, first, p[..|p| - 1]).0|;
      v(at) == 0 && (p[|p| - 1] in {ESC, END} ==> v(at + 1) == 0)
  }

  /**
   * The result is not what the header promises ("0 on success, otherwise an error code"): it is an error exactly if
   * the last byte of the packet did not get out, so it agrees with the line if nothing failed or that byte did. An
   * empty packet has no such byte: the result is 0 whatever becomes of its two END bytes.
   */
  lemma ResultIsAboutTheLastByte(v: Verdicts, first: nat, p: Packet)
    ensures Tried(v, first + 1, p).1 == 0 <==> LastByteOut(v, first + 1, p)
    ensures (Tried(v, first + 1, p).1 == 0 <==> Delivered(v, first, Calls(v, first, p)) == Encode(p)) <==>
            (AllWell(v, first, |Calls(v, first, p)|) || !LastByteOut(v, first + 1, p))
  {
    FrameArrives(v, first, p);
  }

  /** A two-byte packet whose first byte is lost: the result is 0 and the other side accepts a different packet. */
  lemma ErrorForgotten()
    ensures var v: Verdicts := k => if k == 1 then -1 else 0;
            && Tried(v, 1, [1, 2]).1 == 0
            && Delivered(v, 0, Calls(v, 0, [1, 2])) == Encode([2])
  {
    hide Tried, Delivered;
    var v: Verdicts := k => if k == 1 then -1 else 0;
    NothingTried(v, 1);
    TriedSnoc(v, 1, [], 1);
    TriedSnoc(v, 1, [1], 2);
    assert [] + [1] == [1] && [1] + [2] == [1, 2];
    assert Calls(v, 0, [1, 2]) == [END, 1, 2, END];
    DeliveredSnoc(v, 0, [], END);
    DeliveredSnoc(v, 0, [END], 1);
    DeliveredSnoc(v, 0, [END, 1], 2);
    DeliveredSnoc(v, 0, [END, 1, 2], END);
    assert [] + [END] == [END] && [END] + [1] == [END, 1] && [END, 1] + [2] == [END, 1, 2];
    assert [END, 1, 2] + [END] == [END, 1, 2, END];
    StuffedSnoc([], 2);
    assert [] + [2] == [2];
  }

  lemma NothingTried(v: Verdicts, first: nat)
    ensures Tried(v, first, []) == ([], 0) && Delivered(v, 0, []) == [] && Stuffed([]) == []
  {
  }

  lemma DeliveredSnoc(v: Verdicts, first: nat, tried: Packet, c: Byte)
    ensures Delivered(v, first, tried + [c]) ==
            Delivered(v, first, tried) + if v(first + |tried|) == 0 then [c] else []
  {
    assert (tried + [c])[..|tried|] == tried;
  }
}
