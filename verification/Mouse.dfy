/** The PS/2 mouse driver: bytes are assembled into packets, packets become events in a ring buffer. */
module Ps2Mouse {
  import opened Common
  import opened RingBuffers

  const EVENTS: nat := 256

  datatype Ev = Ev(dx: int, dy: int, action: nat)

  predicate Bit(b: nat, weight: nat)
    requires weight > 0
  {
    b / weight % 2 == 1
  }

  /** One complete packet. OR-ing 0xFFFFFF00 into a byte makes a 32-bit int 256 less. */
  function Decode(b0: nat, b1: nat, b2: nat): Ev {
    Ev(if Bit(b0, 16) then b1 - 256 else b1, if Bit(b0, 32) then b2 - 256 else b2, b0 % 8)
  }

  /**
   What a packet means: the movements are nine-bit numbers, byte 1 or 2 with the sign in bit 4 or 5 of
   byte 0, and the three low bits of byte 0 are the buttons.
   */
  lemma {:induction false} PacketMeans(b0: nat, b1: nat, b2: nat)
    requires b0 < 256 && b1 < 256 && b2 < 256
    ensures var e := Decode(b0, b1, b2);
      && -256 <= e.dx < 256 && e.dx % 256 == b1 && (e.dx < 0 <==> b0 / 16 % 2 == 1)
      && -256 <= e.dy < 256 && e.dy % 256 == b2 && (e.dy < 0 <==> b0 / 32 % 2 == 1)
      && e.action < 8 && e.action % 2 == b0 % 2 && e.action / 2 % 2 == b0 / 2 % 2 && e.action / 4 % 2 == b0 / 4 % 2
  {
    NineBit(b1, Bit(b0, 16));
    NineBit(b2, Bit(b0, 32));
    LowThree(b0 / 8, b0 % 8);
  }

  lemma {:induction false} NineBit(b: nat, negative: bool)
    requires b < 256
    ensures var d := if negative then b - 256 else b; -256 <= d < 256 && d % 256 == b && (d < 0 <==> negative)
  {
  }

  lemma {:induction false} LowThree(h: nat, a: nat)
    requires a < 8
    ensures (h * 8 + a) % 2 == a % 2 && (h * 8 + a) / 2 % 2 == a / 2 % 2 && (h * 8 + a) / 4 % 2 == a / 4 % 2
  {
    assert (h * 8 + a) / 2 == 2 * (h * 2) + a / 2 && (h * 8 + a) / 4 == 2 * h + a / 4;
    EvenMore(h * 4, a);
    EvenMore(h * 2, a / 2);
    EvenMore(h, a / 4);
  }

  lemma {:induction false} EvenMore(k: nat, b: nat) ensures (2 * k + b) % 2 == b % 2 {}

  /** The bytes so far of an incomplete packet, and the unread events. */
  datatype State = State(packet: seq<nat>, events: seq<Ev>)

  function Step(m: State, data: int): State {
    if data < 0 then m
    else
      var p := m.packet + [data % 256];
      if |p| == 3 then State([], Last(m.events + [Decode(p[0], p[1], p[2])], EVENTS)) else State(p, m.events)
  }

  function Feed(m: State, bytes: seq<int>): State
    decreases |bytes|
  {
    if bytes == [] then m else Feed(Step(m, bytes[0]), bytes[1..])
  }

  /** The bytes received: the controller answers a negative value when it has none. */
  function Received(bytes: seq<int>): seq<nat> {
    if bytes == [] then [] else (if bytes[0] < 0 then [] else [bytes[0] % 256]) + Received(bytes[1..])
  }

  /** The events of a byte sequence, three bytes each. */
  function DecodeAll(bytes: seq<nat>): seq<Ev> {
    if |bytes| < 3 then [] else [Decode(bytes[0], bytes[1], bytes[2])] + DecodeAll(bytes[3..])
  }

  function Rest(bytes: seq<nat>): seq<nat> {
    if |bytes| < 3 then bytes else Rest(bytes[3..])
  }

  /** Any byte stream: the queue keeps the last 256 of the old events and the packets the stream completes. */
  lemma {:induction false} FeedDecodes(m: State, bytes: seq<int>)
    requires |m.packet| < 3 && |m.events| <= EVENTS
    ensures var all := m.packet + Received(bytes);
      Feed(m, bytes) == State(Rest(all), Last(m.events + DecodeAll(all), 256))
    decreases |bytes|
  {
    var all := m.packet + Received(bytes);
    if bytes == [] {
      assert all == m.packet && m.events + DecodeAll(all) == m.events;
    } else {
      var m', r := Step(m, bytes[0]), Received(bytes[1..]);
      FeedDecodes(m', bytes[1..]);
      if bytes[0] >= 0 {
        var p := m.packet + [bytes[0] % 256];
        Regroup(m.packet, bytes[0] % 256, r);
        if |p| == 3 {
          ThreeBytes(p, r);
          var e := Decode(p[0], p[1], p[2]);
          LastLast(m.events + [e], DecodeAll(r), EVENTS);
          Regroup(m.events, e, DecodeAll(r));
          assert m'.packet + r == r;
        }
      } else {
        assert Received(bytes) == r;
      }
    }
  }

  lemma {:induction false} Regroup<T>(a: seq<T>, x: T, b: seq<T>)
    ensures a + ([x] + b) == (a + [x]) + b
  {
  }

  lemma {:induction false} ThreeBytes(p: seq<nat>, r: seq<nat>)
    requires |p| == 3
    ensures DecodeAll(p + r) == [Decode(p[0], p[1], p[2])] + DecodeAll(r) && Rest(p + r) == Rest(r)
  {
    assert (p + r)[3..] == r;
  }

  // ---- Round trip ----

  /** What a packet can carry: 9-bit movements and three buttons. */
  predicate Sendable(e: Ev) { -256 <= e.dx < 256 && -256 <= e.dy < 256 && e.action < 8 }

  /** The three bytes of an event; `other` are the overflow bits and the constant bit, which carry no event data. */
  function Encode(e: Ev, other: nat): (p: seq<nat>)
    requires Sendable(e) && other < 8
    ensures forall b | b in p :: b < 256
  {
    [e.action + 8 * (other % 2) + 64 * (other / 2) + (if e.dx < 0 then 16 else 0) + (if e.dy < 0 then 32 else 0),
     e.dx % 256, e.dy % 256]
  }

  ghost predicate Packable(evs: seq<Ev>, other: seq<nat>) {
    |evs| == |other| && forall i | 0 <= i < |evs| :: Sendable(evs[i]) && other[i] < 8
  }

  ghost function Stream(evs: seq<Ev>, other: seq<nat>): seq<nat>
    requires Packable(evs, other)
  {
    if evs == [] then [] else Encode(evs[0], other[0]) + Stream(evs[1..], other[1..])
  }

  lemma {:induction false} RoundTrip(e: Ev, other: nat)
    requires Sendable(e) && other < 8
    ensures var p := Encode(e, other); Decode(p[0], p[1], p[2]) == e
  {
    var x, y := if e.dx < 0 then 1 else 0, if e.dy < 0 then 1 else 0;
    Flag(e.action + 8 * (other % 2), x, 2 * (other / 2) + y);
    Flag32(e.action + 8 * (other % 2) + 16 * x, y, other / 2);
    Low(e.action, other % 2 + 8 * (other / 2) + 2 * x + 4 * y);
  }

  lemma {:induction false} Flag(low: nat, x: nat, high: nat)
    requires low < 16 && x < 2
    ensures Bit(low + 16 * x + 32 * high, 16) <==> x == 1
  {
    assert (low + 16 * x + 32 * high) / 16 == x + 2 * high;
  }

  lemma {:induction false} Flag32(low: nat, y: nat, high: nat)
    requires low < 32 && y < 2
    ensures Bit(low + 32 * y + 64 * high, 32) <==> y == 1
  {
    assert (low + 32 * y + 64 * high) / 32 == y + 2 * high;
  }

  lemma {:induction false} Low(a: nat, high: nat)
    requires a < 8
    ensures (a + 8 * high) % 8 == a
  {
  }

  lemma {:induction false} StreamDecodes(evs: seq<Ev>, other: seq<nat>)
    requires Packable(evs, other)
    ensures DecodeAll(Stream(evs, other)) == evs && Rest(Stream(evs, other)) == []
  {
    if evs != [] {
      var s, t := Stream(evs, other), Stream(evs[1..], other[1..]);
      RoundTrip(evs[0], other[0]);
      StreamDecodes(evs[1..], other[1..]);
      assert s[3..] == t;
      assert evs == [evs[0]] + evs[1..];
    }
  }

  /**
   The driver is a transducer: when the bytes received encode a list of events, whatever gaps the
   controller leaves between them, the unread events are the last 256 of those before and these.
   */
  lemma {:induction false} EventsArrive(m: State, bytes: seq<int>, evs: seq<Ev>, other: seq<nat>)
    requires m.packet == [] && |m.events| <= EVENTS
    requires Packable(evs, other)
    requires Received(bytes) == Stream(evs, other)
    ensures Feed(m, bytes) == State([], Last(m.events + evs, 256))
  {
    FeedDecodes(m, bytes);
    StreamDecodes(evs, other);
    assert m.packet + Received(bytes) == Received(bytes);
  }

  // ---- Runs with reads ----

  datatype Op = Byte(data: int) | ReadUpTo(count: nat)

  /** The state after a run, and all events its reads returned. */
  function Exec(m: State, ops: seq<Op>): (State, seq<Ev>)
    decreases |ops|
  {
    if ops == [] then (m, [])
    else match ops[0]
      case Byte(data) => Exec(Step(m, data), ops[1..])
      case ReadUpTo(count) =>
        var n := Min(count, |m.events|);
        var r := Exec(m.(events := m.events[n..]), ops[1..]);
        (r.0, m.events[..n] + r.1)
  }

  function BytesOf(ops: seq<Op>): seq<int> {
    if ops == [] then [] else (if ops[0].Byte? then [ops[0].data] else []) + BytesOf(ops[1..])
  }

  /** No packet completes while 256 events are unread. */
  ghost predicate KeepsUp(m: State, ops: seq<Op>)
    decreases |ops|
  {
    ops != [] ==>
      match ops[0]
      case Byte(data) => (|m.packet| == 2 && data >= 0 ==> |m.events| < 256) && KeepsUp(Step(m, data), ops[1..])
      case ReadUpTo(count) => KeepsUp(m.(events := m.events[Min(count, |m.events|)..]), ops[1..])
  }

  /** While the reader keeps up nothing is lost, duplicated or reordered. */
  lemma {:induction false} Lossless(m: State, ops: seq<Op>)
    requires |m.packet| < 3 && |m.events| <= EVENTS && KeepsUp(m, ops)
    ensures Exec(m, ops).1 + Exec(m, ops).0.events == m.events + DecodeAll(m.packet + Received(BytesOf(ops)))
    decreases |ops|
  {
    if ops == [] {
      assert m.packet + Received(BytesOf(ops)) == m.packet;
    } else {
      match ops[0]
      case Byte(data) =>
        Lossless(Step(m, data), ops[1..]);
        ByteKept(m, data, BytesOf(ops[1..]));
        assert BytesOf(ops) == [data] + BytesOf(ops[1..]);
      case ReadUpTo(count) =>
        var n := Min(count, |m.events|);
        Lossless(m.(events := m.events[n..]), ops[1..]);
        ReadKept(m.events, n, Exec(m.(events := m.events[n..]), ops[1..]));
        ReadKeepsOrder(m.events, n, DecodeAll(m.packet + Received(BytesOf(ops[1..]))));
        assert BytesOf(ops) == BytesOf(ops[1..]);
    }
  }

  lemma {:induction false} ReadKept(events: seq<Ev>, n: nat, r: (State, seq<Ev>))
    requires n <= |events|
    ensures (events[..n] + r.1) + r.0.events == events[..n] + (r.1 + r.0.events)
  {
  }

  lemma {:induction false} ReadKeepsOrder(events: seq<Ev>, n: nat, more: seq<Ev>)
    requires n <= |events|
    ensures events[..n] + (events[n..] + more) == events + more
  {
  }

  /** A byte that overwrites nothing keeps the events there are and those to come. */
  lemma {:induction false} ByteKept(m: State, data: int, bytes: seq<int>)
    requires |m.packet| < 3 && (|m.packet| == 2 && data >= 0 ==> |m.events| < EVENTS)
    ensures Step(m, data).events + DecodeAll(Step(m, data).packet + Received(bytes))
         == m.events + DecodeAll(m.packet + Received([data] + bytes))
  {
    assert ([data] + bytes)[1..] == bytes;
    var r := Received(bytes);
    if data >= 0 {
      var p := m.packet + [data % 256];
      Regroup(m.packet, data % 256, r);
      if |p| == 3 {
        ThreeBytes(p, r);
        Regroup(m.events, Decode(p[0], p[1], p[2]), DecodeAll(r));
        assert Step(m, data).packet + r == r;
      }
    } else {
      assert Received([data] + bytes) == r;
    }
  }

  // ---- The driver ----

  class Mouse {
    const evbuf: RingBuffer<Ev>
    const packet: array<nat>
    var packetIdx: nat

    ghost predicate Valid()
      reads this, evbuf
    {
      packet.Length == 3 && packetIdx < 3 && evbuf.Valid() && evbuf.cap == EVENTS && evbuf.mode == Overwrite
    }

    ghost function View(): State
      requires Valid()
      reads this, evbuf, evbuf.buf, packet
    {
      State(packet[..packetIdx], evbuf.Contents())
    }

    constructor ()
      ensures Valid() && View() == State([], []) && fresh(evbuf) && fresh(evbuf.buf) && fresh(packet)
    {
      var ring := new RingBuffer<Ev>(EVENTS, Overwrite);
      evbuf := ring;
      packet := new nat[3];
      packetIdx := 0;
    }

    /** ps2_mouse_callback, given what ps2_readData returned. */
    method Callback(data: int)
      requires Valid()
      modifies this, packet, evbuf, evbuf.buf
      ensures Valid() && View() == Step(old(View()), data)
    {
      if data >= 0 {
        packet[packetIdx] := data % 256;
        packetIdx := packetIdx + 1;
        assert packet[..packetIdx] == old(View()).packet + [data % 256];
        if packetIdx == 3 { Complete(); }
      }
    }

    /** A third byte completes the packet. */
    method Complete()
      requires packet.Length == packetIdx == 3 && evbuf.Valid() && evbuf.cap == EVENTS && evbuf.mode == Overwrite
      modifies this`packetIdx, evbuf, evbuf.buf
      ensures Valid() && packetIdx == 0
      ensures evbuf.Contents() == Last(old(evbuf.Contents()) + [old(Decode(packet[0], packet[1], packet[2]))], EVENTS)
    {
      var dx: int, dy: int := packet[1], packet[2];
      if Bit(packet[0], 16) { dx := dx - 256; }
      if Bit(packet[0], 32) { dy := dy - 256; }
      var _ := evbuf.Write(Ev(dx, dy, packet[0] % 8));
      packetIdx := 0;
    }

    /** ps2_mse_read: the oldest events, at most `count`. */
    method ReadEvents(count: nat) returns (out: seq<Ev>)
      requires Valid()
      modifies evbuf
      ensures Valid() && packetIdx == old(packetIdx)
      ensures var n := Min(count, |old(evbuf.Contents())|);
        out == old(evbuf.Contents())[..n] && evbuf.Contents() == old(evbuf.Contents())[n..]
    {
      ghost var was := evbuf.Contents();
      out := [];
      var left: nat := count;
      while evbuf.len > 0 && left > 0
        invariant Valid() && left <= count && |out| == count - left <= |was| && evbuf.len == |was| - |out|
        invariant out == was[..|out|] && evbuf.Contents() == was[|out|..]
      {
        var e := evbuf.Read();
        out := out + [e.value];
        left := left - 1;
      }
      assert |out| == Min(count, |was|);
    }
  }
}
