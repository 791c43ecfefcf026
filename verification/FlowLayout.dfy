/** The bytes of a conntrack event, written out: where each field of a flow stands in the message the code reads. */
module FlowLayout {
  import opened Bytes
  import opened Netlink
  import opened Ctnetlink
  import opened FlowTable
  import opened FlowWire

  // ----- one flow

  /** `v` in `n` bytes, the highest first. */
  function Big(v: nat, n: nat): (r: seq<byte>)
    ensures |r| == n
  {
    if n == 0 then [] else Big(v / 0x100, n - 1) + [v % 0x100]
  }

  predicate OneFamily(e: Endpoint) {
    |e.src| == |e.dst| && (|e.src| == 4 || |e.src| == 16)
  }

  /** The length and the kind of an attribute, the lowest byte first; the top bit marks a nested one. */
  function Head(length: byte, kind: byte, nested: bool): seq<byte> {
    [length, 0, kind, if nested then 0x80 else 0]
  }

  function AddressBytes(e: Endpoint): (r: seq<byte>)
    requires OneFamily(e)
    ensures |r| == if |e.src| == 4 then 16 else 40
  {
    if |e.src| == 4 then (Head(8, 1, false) + e.src) + (Head(8, 2, false) + e.dst)
    else (Head(20, 3, false) + e.src) + (Head(20, 4, false) + e.dst)
  }

  function PortBytes(protocol: byte, e: Endpoint): (r: seq<byte>)
    ensures |r| == 24
  {
    (Head(5, 1, false) + [protocol] + [0, 0, 0])
    + (Head(6, 2, false) + Big(e.sport, 2) + [0, 0]) + (Head(6, 3, false) + Big(e.dport, 2) + [0, 0])
  }

  /** Attribute 1 is the original direction, attribute 2 the reply. */
  function TupleBytes(kind: byte, protocol: byte, e: Endpoint): (r: seq<byte>)
    requires OneFamily(e)
    ensures |r| == if |e.src| == 4 then 52 else 76
  {
    Head(if |e.src| == 4 then 52 else 76, kind, true)
    + ((Head(if |e.src| == 4 then 20 else 44, 1, true) + AddressBytes(e))
       + (Head(28, 2, true) + PortBytes(protocol, e)))
  }

  function CounterBytes(kind: byte, c: Counters): (r: seq<byte>)
    ensures |r| == 28
  {
    Head(28, kind, true) + ((Head(12, 1, false) + Big(c.packets, 8)) + (Head(12, 2, false) + Big(c.bytes, 8)))
  }

  function StateBytes(s: byte): (r: seq<byte>)
    ensures |r| == 16
  {
    Head(16, 4, true) + Head(12, 1, true) + Head(5, 1, false) + [s, 0, 0, 0]
  }

  function TuplePair(f: Flow): (r: seq<byte>)
    requires OneFamily(f.key.orig) && OneFamily(f.key.reply)
    ensures |r| <= 152 && |r| % 4 == 0
  {
    TupleBytes(1, f.key.protocol, f.key.orig) + TupleBytes(2, f.key.protocol, f.key.reply)
  }

  function CounterPair(f: Flow): (r: seq<byte>)
    ensures |r| == 56
  {
    CounterBytes(10, f.origCounters) + CounterBytes(11, f.replyCounters)
  }

  function OptionBytes(f: Flow): (r: seq<byte>)
    ensures |r| <= 32 && |r| % 4 == 0
  {
    (if f.status.Some? then Head(8, 3, false) + Big(f.status.value, 4) else [])
    + (if f.state.Some? then StateBytes(f.state.value) else [])
    + (if f.id.Some? then Head(8, 13, false) + Big(f.id.value, 4) else [])
  }

  /** Behind the four bytes of the netfilter header. */
  function FlowBytes(generic: seq<byte>, f: Flow): seq<byte>
    requires OneFamily(f.key.orig) && OneFamily(f.key.reply)
  {
    generic + (TuplePair(f) + CounterPair(f) + OptionBytes(f))
  }

  lemma Big2(v: u16)
    ensures Be16(v) == Big(v, 2)
  {
    assert Big(v / 0x100, 1) == Big(v / 0x100 / 0x100, 0) + [v / 0x100 % 0x100];
  }

  lemma Big4(v: u32)
    ensures Be32(v) == Big(v, 4)
  {
    Big2(v / 0x1_0000);
    assert Big(v, 4) == Big(v / 0x1_0000, 2) + [v / 0x100 % 0x100] + [v % 0x100];
  }

  lemma BigByte(v: nat, n: nat, high: nat, low: byte)
    requires n > 0 && v == 0x100 * high + low
    ensures Big(v, n) == Big(high, n - 1) + [low]
  {
  }

  lemma BigDigits(v: nat, high: nat, n: nat, a: byte, b: byte, c: byte, d: byte)
    requires v == 0x1_0000_0000 * high + 0x100_0000 * a + 0x1_0000 * b + 0x100 * c + d
    ensures Big(v, n + 4) == Big(high, n) + [a, b, c, d]
  {
    BigByte(0x100 * high + a, n + 1, high, a);
    BigByte(0x1_0000 * high + 0x100 * a + b, n + 2, 0x100 * high + a, b);
    BigByte(0x100_0000 * high + 0x1_0000 * a + 0x100 * b + c, n + 3, 0x1_0000 * high + 0x100 * a + b, c);
    BigByte(v, n + 4, 0x100_0000 * high + 0x1_0000 * a + 0x100 * b + c, d);
  }

  lemma Digits(v: u32) returns (a: byte, b: byte, c: byte, d: byte)
    ensures v == 0x100_0000 * a + 0x1_0000 * b + 0x100 * c + d
  {
    var high, low := v / 0x1_0000, v % 0x1_0000;
    a, b, c, d := high / 0x100, high % 0x100, low / 0x100, low % 0x100;
  }

  lemma Big8(v: u64)
    ensures Be64(v) == Big(v, 8)
  {
    var high, low := v / 0x1_0000_0000, v % 0x1_0000_0000;
    var a, b, c, d := Digits(low);
    Big4(high);
    Big4(low);
    BigDigits(low, 0, 0, a, b, c, d);
    BigDigits(v, high, 4, a, b, c, d);
  }

  lemma PlainAttr(kind: byte, value: seq<byte>, pad: seq<byte>)
    requires |value| < 252 && |pad| < 4 && (|value| + |pad|) % 4 == 0 && forall i :: 0 <= i < |pad| ==> pad[i] == 0
    ensures WriteAttr(RawAttr(kind, value)) == Head(|value| + 4, kind, false) + value + pad
  {
    assert Pad(|value| + 4) == pad;
  }

  lemma NestedAttr(kind: byte, list: seq<RawAttr>, value: seq<byte>)
    requires (forall a :: a in list ==> Fits(a)) && value == WriteAttrs(list) && |value| < 252 && |value| % 4 == 0
    ensures WriteAttr(Nested(kind, list)) == Head(|value| + 4, kind, true) + value
  {
    assert Pad(|value| + 4) == [];
  }

  lemma WriteOne(a: RawAttr)
    requires Fits(a)
    ensures WriteAttrs([a]) == WriteAttr(a)
  {
    assert [a][1..] == [];
  }

  lemma WriteTwo(a: RawAttr, b: RawAttr)
    requires Fits(a) && Fits(b)
    ensures WriteAttrs([a, b]) == WriteAttr(a) + WriteAttr(b)
  {
    WriteOne(b);
    assert [a, b][1..] == [b];
  }

  lemma WriteThree(a: RawAttr, b: RawAttr, c: RawAttr)
    requires Fits(a) && Fits(b) && Fits(c)
    ensures WriteAttrs([a, b, c]) == WriteAttr(a) + WriteAttr(b) + WriteAttr(c)
  {
    WriteTwo(b, c);
    assert [a, b, c][1..] == [b, c];
  }

  lemma {:induction false} WriteBoth(s: seq<RawAttr>, t: seq<RawAttr>)
    requires forall a :: a in s || a in t ==> Fits(a)
    ensures WriteAttrs(s + t) == WriteAttrs(s) + WriteAttrs(t)
    decreases s
  {
    if s == [] {
      assert s + t == t;
    } else {
      assert s[0] in s && (s + t)[1..] == s[1..] + t;
      WriteBoth(s[1..], t);
    }
  }

  lemma PlainTwo(k1: byte, k2: byte, v1: seq<byte>, v2: seq<byte>)
    requires |v1| < 252 && |v1| % 4 == 0 && |v2| < 252 && |v2| % 4 == 0
    ensures WriteAttrs([RawAttr(k1, v1), RawAttr(k2, v2)])
         == (Head(|v1| + 4, k1, false) + v1) + (Head(|v2| + 4, k2, false) + v2)
  {
    PlainAttr(k1, v1, []);
    PlainAttr(k2, v2, []);
    WriteTwo(RawAttr(k1, v1), RawAttr(k2, v2));
  }

  lemma NestedTwo(k1: byte, k2: byte, l1: seq<RawAttr>, l2: seq<RawAttr>, v1: seq<byte>, v2: seq<byte>)
    requires (forall a :: a in l1 || a in l2 ==> Fits(a)) && v1 == WriteAttrs(l1) && v2 == WriteAttrs(l2)
    requires |v1| < 252 && |v1| % 4 == 0 && |v2| < 252 && |v2| % 4 == 0
    ensures Fits(Nested(k1, l1)) && Fits(Nested(k2, l2))
    ensures WriteAttrs([Nested(k1, l1), Nested(k2, l2)])
         == (Head(|v1| + 4, k1, true) + v1) + (Head(|v2| + 4, k2, true) + v2)
  {
    NestedAttr(k1, l1, v1);
    NestedAttr(k2, l2, v2);
    WriteTwo(Nested(k1, l1), Nested(k2, l2));
  }

  lemma AddressesWritten(e: Endpoint)
    requires OneFamily(e)
    ensures WriteAttrs(IpAttrs(e)) == AddressBytes(e)
  {
    if |e.src| == 4 {
      PlainTwo(1, 2, e.src, e.dst);
    } else {
      PlainTwo(3, 4, e.src, e.dst);
    }
  }

  lemma PortsWritten(protocol: byte, e: Endpoint)
    ensures WriteAttrs(ProtoAttrs(protocol, e)) == PortBytes(protocol, e)
  {
    PlainAttr(1, [protocol], [0, 0, 0]);
    PlainAttr(2, Be16(e.sport), [0, 0]);
    PlainAttr(3, Be16(e.dport), [0, 0]);
    Big2(e.sport);
    Big2(e.dport);
    WriteThree(RawAttr(1, [protocol]), RawAttr(2, Be16(e.sport)), RawAttr(3, Be16(e.dport)));
  }

  lemma TupleInside(protocol: byte, e: Endpoint)
    requires OneFamily(e)
    ensures WriteAttrs(TupleAttrs(protocol, e))
         == (Head(if |e.src| == 4 then 20 else 44, 1, true) + AddressBytes(e))
            + (Head(28, 2, true) + PortBytes(protocol, e))
  {
    AddressesWritten(e);
    PortsWritten(protocol, e);
    NestedTwo(1, 2, IpAttrs(e), ProtoAttrs(protocol, e), AddressBytes(e), PortBytes(protocol, e));
  }

  lemma TupleWritten(kind: byte, protocol: byte, e: Endpoint, inside: seq<byte>)
    requires OneFamily(e) && inside == WriteAttrs(TupleAttrs(protocol, e))
    ensures Fits(Nested(kind, TupleAttrs(protocol, e)))
    ensures WriteAttr(Nested(kind, TupleAttrs(protocol, e))) == TupleBytes(kind, protocol, e)
  {
    TupleInside(protocol, e);
    NestedAttr(kind, TupleAttrs(protocol, e), inside);
  }

  lemma CountersInside(c: Counters)
    ensures WriteAttrs(CounterAttrs(c))
         == (Head(12, 1, false) + Big(c.packets, 8)) + (Head(12, 2, false) + Big(c.bytes, 8))
  {
    Big8(c.packets);
    Big8(c.bytes);
    PlainTwo(1, 2, Be64(c.packets), Be64(c.bytes));
  }

  lemma CountersWritten(kind: byte, c: Counters, list: seq<RawAttr>, inside: seq<byte>)
    requires list == CounterAttrs(c) && inside == WriteAttrs(list)
    ensures Fits(Nested(kind, list)) && WriteAttr(Nested(kind, list)) == CounterBytes(kind, c)
  {
    CountersInside(c);
    NestedAttr(kind, list, inside);
  }

  lemma StateInside(s: byte)
    ensures WriteAttrs(StateAttrs(s)) == Head(12, 1, true) + Head(5, 1, false) + [s, 0, 0, 0]
  {
    var number := RawAttr(1, [s]);
    PlainAttr(1, [s], [0, 0, 0]);
    WriteOne(number);
    NestedAttr(1, [number], WriteAttrs([number]));
    WriteOne(Nested(1, [number]));
  }

  lemma StateWritten(s: byte)
    ensures WriteAttrs(StateList(s)) == StateBytes(s)
  {
    StateInside(s);
    NestedAttr(4, StateAttrs(s), WriteAttrs(StateAttrs(s)));
    WriteOne(Nested(4, StateAttrs(s)));
  }

  lemma NumberWritten(kind: byte, v: u32)
    ensures WriteAttrs([RawAttr(kind, Be32(v))]) == Head(8, kind, false) + Big(v, 4)
  {
    Big4(v);
    PlainAttr(kind, Be32(v), []);
    WriteOne(RawAttr(kind, Be32(v)));
  }

  lemma TuplesWritten(f: Flow)
    requires Encodable(f) && OneFamily(f.key.orig) && OneFamily(f.key.reply)
    ensures WriteAttrs(OrigAndReply(f)) == TuplePair(f)
  {
    var orig, reply := TupleAttrs(f.key.protocol, f.key.orig), TupleAttrs(f.key.protocol, f.key.reply);
    TupleWritten(1, f.key.protocol, f.key.orig, WriteAttrs(orig));
    TupleWritten(2, f.key.protocol, f.key.reply, WriteAttrs(reply));
    WriteTwo(Nested(1, orig), Nested(2, reply));
  }

  lemma BothCountersWritten(f: Flow)
    ensures WriteAttrs(BothCounters(f)) == CounterPair(f)
  {
    var orig, reply := CounterAttrs(f.origCounters), CounterAttrs(f.replyCounters);
    CountersWritten(10, f.origCounters, orig, WriteAttrs(orig));
    CountersWritten(11, f.replyCounters, reply, WriteAttrs(reply));
    WriteTwo(Nested(10, orig), Nested(11, reply));
  }

  lemma OptionsWritten(f: Flow, status: seq<RawAttr>, state: seq<RawAttr>, id: seq<RawAttr>)
    requires status == if f.status.Some? then [RawAttr(3, Be32(f.status.value))] else []
    requires state == if f.state.Some? then StateList(f.state.value) else []
    requires id == if f.id.Some? then [RawAttr(13, Be32(f.id.value))] else []
    ensures WriteAttrs(OptionalAttrs(f)) == OptionBytes(f)
  {
    WriteBoth(status + state, id);
    WriteBoth(status, state);
    if f.status.Some? {
      NumberWritten(3, f.status.value);
    }
    if f.state.Some? {
      StateWritten(f.state.value);
    }
    if f.id.Some? {
      NumberWritten(13, f.id.value);
    }
  }

  lemma WriteLists(a: seq<RawAttr>, b: seq<RawAttr>, c: seq<RawAttr>)
    requires forall x :: x in a || x in b || x in c ==> Fits(x)
    ensures forall x :: x in a + b + c ==> Fits(x)
    ensures WriteAttrs(a + b + c) == WriteAttrs(a) + WriteAttrs(b) + WriteAttrs(c)
  {
    WriteBoth(a + b, c);
    WriteBoth(a, b);
  }

  lemma FlowWritten(generic: seq<byte>, f: Flow)
    requires |generic| == 4 && Encodable(f) && OneFamily(f.key.orig) && OneFamily(f.key.reply)
    ensures EncodeFlow(generic, f) == FlowBytes(generic, f)
  {
    TuplesWritten(f);
    BothCountersWritten(f);
    OptionsWritten(f, if f.status.Some? then [RawAttr(3, Be32(f.status.value))] else [],
                   if f.state.Some? then StateList(f.state.value) else [],
                   if f.id.Some? then [RawAttr(13, Be32(f.id.value))] else []);
    WriteLists(OrigAndReply(f), BothCounters(f), OptionalAttrs(f));
  }

  /** These bytes are read as this flow. */
  lemma FlowIsReadFromBytes(generic: seq<byte>, f: Flow)
    requires |generic| == 4 && Encodable(f) && OneFamily(f.key.orig) && OneFamily(f.key.reply)
    ensures FlowIn(FlowBytes(generic, f)) == Some(Some(f))
  {
    FlowWritten(generic, f);
    FlowRoundTrip(generic, f);
  }

  // ----- one message

  /** `v` in `n` bytes, the lowest first. */
  function Little(v: nat, n: nat): (r: seq<byte>)
    ensures |r| == n
  {
    if n == 0 then [] else [v % 0x100] + Little(v / 0x100, n - 1)
  }

  /** The length, the message type (0x100 announces a flow, 0x102 withdraws it) and the rest of the header. */
  function MessageBytes(event: Event, rest: seq<byte>, flow: seq<byte>): seq<byte> {
    Little(16 + |flow|, 4) + [if event.New? then 0 else 2, 1] + rest + flow
  }

  lemma Little4(v: u32)
    ensures Le32(v) == Little(v, 4)
  {
    assert Little(v / 0x1_0000, 2) == [v / 0x1_0000 % 0x100] + Little(v / 0x100_0000, 1);
    assert Little(v / 0x100, 3) == [v / 0x100 % 0x100] + Little(v / 0x1_0000, 2);
  }

  lemma FlowSize(generic: seq<byte>, f: Flow)
    requires |generic| == 4 && OneFamily(f.key.orig) && OneFamily(f.key.reply)
    ensures |FlowBytes(generic, f)| < 300 && |FlowBytes(generic, f)| % 4 == 0
  {
  }

  lemma Alone(bare: seq<byte>, pad: seq<byte>)
    requires pad == []
    ensures bare + pad + [] == bare
  {
  }

  lemma AlignedFrame(f: RawFrame, length: u32)
    requires FrameFits(f) && length == 16 + |f.payload| && length % 4 == 0
    ensures WriteFrames([f]) == Little(length, 4) + Le16(f.kind) + f.rest + f.payload
  {
    Little4(length);
    Alone(WriteBareFrame(f), Pad(length));
    assert [f][1..] == [];
  }

  lemma MessageWritten(w: Wire, flow: seq<byte>)
    requires Sendable(w) && flow == EncodeFlow(w.generic, w.event.flow) && |flow| < 300 && |flow| % 4 == 0
    ensures FrameFits(EventFrame(w)) && WriteFrames([EventFrame(w)]) == MessageBytes(w.event, w.rest, flow)
  {
    EventFits(w);
    AlignedFrame(EventFrame(w), 16 + |flow|);
  }

  /** A buffer of exactly these bytes inserts or removes exactly this flow. */
  lemma EventIsReadFromBytes(s: Tables, w: Wire, flow: seq<byte>)
    requires Sendable(w) && OneFamily(w.event.flow.key.orig) && OneFamily(w.event.flow.key.reply)
    requires flow == FlowBytes(w.generic, w.event.flow)
    ensures ApplyFrames(s, Frames(MessageBytes(w.event, w.rest, flow), 0))
         == (if w.event.New? then Inserted(s, w.event.flow) else Removed(s, w.event.flow), true)
  {
    FlowWritten(w.generic, w.event.flow);
    FlowSize(w.generic, w.event.flow);
    MessageWritten(w, flow);
    BytesAreEvents(s, [w]);
    assert [w][1..] == [] && EventFrames([w]) == [EventFrame(w)];
    assert ApplyAll(s, Events([w])) == Apply(s, w.event);
  }

  // ----- what else is read

  /** The two bits above an attribute's kind mark nesting and byte order, and play no part. */
  lemma FlagsAreMasked(kind: u16, nested: bool, ordered: bool, value: seq<byte>)
    requires kind < 0x4000
    ensures Read(RawAttr(kind + (if nested then 0x8000 else 0) + (if ordered then 0x4000 else 0), value))
         == Attr(kind, value)
  {
  }

  /** Whatever the bytes, a flow that is read is one of TCP or UDP, and only one of TCP has a state. */
  lemma OnlyTcpAndUdp(payload: seq<byte>, f: Flow)
    requires FlowIn(payload) == Some(Some(f))
    ensures f.key.protocol == 6 || (f.key.protocol == 17 && f.state == None)
  {
  }

  // ----- messages that carry no flow

  /** The error number in front of the payload of an error message; zero is an acknowledgement. */
  predicate IsError(payload: seq<byte>) {
    |payload| >= 4 && payload[..4] != [0, 0, 0, 0]
  }

  lemma ReportsIff(payload: seq<byte>)
    ensures Reports(payload) <==> IsError(payload)
  {
    if |payload| >= 4 {
      assert payload[..4] == [payload[0], payload[1], payload[2], payload[3]];
    }
  }

  /** An event buffer is given up at an overrun or at an error; other control messages are passed over. */
  lemma ControlInEvents(s: Tables, kind: u16, payload: seq<byte>, rest: seq<Frame>)
    requires 1 <= kind <= 4
    ensures ApplyFrames(s, [Frame(kind, payload)] + rest)
         == if kind == 4 || (kind == 2 && IsError(payload)) then (s, false) else ApplyFrames(s, rest)
  {
    ReportsIff(payload);
    assert ([Frame(kind, payload)] + rest)[1..] == rest;
  }

  /** A dump besides ends at its closing message, and an error message must be whole. */
  lemma ControlInDumps(acc: seq<Flow>, kind: u16, payload: seq<byte>, rest: seq<Frame>)
    requires 1 <= kind <= 4
    ensures DumpFrames(acc, [Frame(kind, payload)] + rest)
         == if kind == 3 then Done(acc)
            else if kind == 4 || (kind == 2 && (|payload| < 4 || IsError(payload))) then Failed
            else DumpFrames(acc, rest)
  {
    ReportsIff(payload);
    assert ([Frame(kind, payload)] + rest)[1..] == rest;
  }
}
