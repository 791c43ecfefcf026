/** Connection-tracking messages: what is read from nested attributes, and an encoder it inverts. */
module Ctnetlink {
  import opened Bytes
  import opened Netlink

  const TCP := 6
  const UDP := 17

  datatype Endpoint = Endpoint(src: seq<byte>, dst: seq<byte>, sport: u16, dport: u16)

  datatype FlowKey = FlowKey(protocol: byte, orig: Endpoint, reply: Endpoint)

  datatype Counters = Counters(packets: u64, bytes: u64)

  /** `state` is the number of the TCP state name (0 for NONE); `status` carries the flag bits. */
  datatype Flow = Flow(
    id: Option<u32>, key: FlowKey, state: Option<byte>,
    origCounters: Counters, replyCounters: Counters, status: Option<u32>)

  // ----- folding over attributes

  type Step<!A> = (A, u16, seq<byte>) -> Option<A>

  /** Malformed input or a failing step ends the fold with an error (`None`). */
  function Fold<A>(items: seq<Attr>, acc: A, step: Step<A>): Option<A> {
    if items == [] then Some(acc)
    else if items[0].BadAttr? then None
    else
      var next := step(acc, items[0].kind, items[0].value);
      if next.None? then None else Fold(items[1..], next.value, step)
  }

  method FoldAttrs<A>(buf: seq<byte>, init: A, step: Step<A>) returns (r: Option<A>)
    ensures r == Fold(Attrs(buf, 0), init, step)
  {
    var acc := init;
    var cursor := new NetlinkAttributes(buf);
    while true
      invariant cursor.buffer == buf
      invariant Fold(Attrs(buf, 0), init, step) == Fold(Attrs(buf, cursor.offset), acc, step)
      decreases if cursor.offset <= |buf| then |buf| - cursor.offset + 1 else 0
    {
      ghost var off := cursor.offset;
      var item := cursor.Next();
      if item.None? {
        return Some(acc);
      }
      ghost var rest := if item.value.BadAttr? then [] else Attrs(buf, cursor.offset);
      assert Attrs(buf, off)[1..] == rest;
      if item.value.BadAttr? {
        return None;
      }
      var next := step(acc, item.value.kind, item.value.value);
      if next.None? {
        return None;
      }
      acc := next.value;
    }
  }

  lemma {:induction false} FoldThrough<A>(front: seq<Attr>, rest: seq<Attr>, acc: A, step: Step<A>, mid: A)
    requires Fold(front, acc, step) == Some(mid)
    ensures Fold(front + rest, acc, step) == Fold(rest, mid, step)
    decreases front
  {
    if front == [] {
      assert front + rest == rest;
    } else {
      assert (front + rest)[1..] == front[1..] + rest;
      FoldThrough(front[1..], rest, step(acc, front[0].kind, front[0].value).value, step, mid);
    }
  }

  lemma {:induction false} FoldStops<A>(front: seq<Attr>, rest: seq<Attr>, acc: A, step: Step<A>)
    requires Fold(front, acc, step) == None
    ensures Fold(front + rest, acc, step) == None
    decreases front
  {
    assert (front + rest)[1..] == front[1..] + rest;
    if front[0].Attr? {
      var next := step(acc, front[0].kind, front[0].value);
      if next.Some? {
        FoldStops(front[1..], rest, next.value, step);
      }
    }
  }

  /** An attribute a step passes over can be inserted anywhere without changing the result. */
  lemma PassedOver<A>(front: seq<Attr>, extra: Attr, rest: seq<Attr>, acc: A, step: Step<A>)
    requires extra.Attr? && forall a: A :: step(a, extra.kind, extra.value) == Some(a)
    ensures Fold(front + [extra] + rest, acc, step) == Fold(front + rest, acc, step)
  {
    assert front + [extra] + rest == front + ([extra] + rest);
    var mid := Fold(front, acc, step);
    if mid.Some? {
      FoldThrough(front, [extra] + rest, acc, step, mid.value);
      FoldThrough(front, rest, acc, step, mid.value);
      assert ([extra] + rest)[1..] == rest;
    } else {
      FoldStops(front, [extra] + rest, acc, step);
      FoldStops(front, rest, acc, step);
    }
  }

  // ----- tuples

  datatype TupleParts = TupleParts(
    src: Option<seq<byte>>, dst: Option<seq<byte>>, protocol: Option<byte>, sport: Option<u16>, dport: Option<u16>)

  const NO_TUPLE := TupleParts(None, None, None, None, None)

  function IpStep(t: TupleParts, kind: u16, b: seq<byte>): Option<TupleParts> {
    Some(if kind == 1 && |b| >= 4 then t.(src := Some(b[..4]))
         else if kind == 2 && |b| >= 4 then t.(dst := Some(b[..4]))
         else if kind == 3 && |b| >= 16 then t.(src := Some(b[..16]))
         else if kind == 4 && |b| >= 16 then t.(dst := Some(b[..16]))
         else t)
  }

  function ProtoStep(t: TupleParts, kind: u16, b: seq<byte>): Option<TupleParts> {
    Some(if kind == 1 then t.(protocol := if b == [] then None else Some(b[0]))
         else if kind == 2 && |b| >= 2 then t.(sport := Some(U16Be(b, 0)))
         else if kind == 3 && |b| >= 2 then t.(dport := Some(U16Be(b, 0)))
         else t)
  }

  function TupleStep(t: TupleParts, kind: u16, nested: seq<byte>): Option<TupleParts> {
    if kind == 1 then Fold(Attrs(nested, 0), t, IpStep)
    else if kind == 2 then Fold(Attrs(nested, 0), t, ProtoStep)
    else Some(t)
  }

  type Tuple = (byte, Endpoint)

  function CompleteTuple(t: TupleParts): Option<Tuple> {
    if t.src.Some? && t.dst.Some? && t.protocol.Some? && t.sport.Some? && t.dport.Some? then
      Some((t.protocol.value, Endpoint(t.src.value, t.dst.value, t.sport.value, t.dport.value)))
    else None
  }

  /** `None` for malformed bytes, `Some(None)` for an incomplete tuple. */
  function TupleIn(value: seq<byte>): Option<Option<Tuple>> {
    var t := Fold(Attrs(value, 0), NO_TUPLE, TupleStep);
    if t.None? then None else Some(CompleteTuple(t.value))
  }

  // ----- counters and TCP state

  function CounterStep(c: Counters, kind: u16, data: seq<byte>): Option<Counters> {
    Some(if kind == 1 && |data| >= 8 then c.(packets := U64Be(data, 0))
         else if kind == 2 && |data| >= 8 then c.(bytes := U64Be(data, 0))
         else c)
  }

  const NO_COUNTERS := Counters(0, 0)

  function CountersIn(value: seq<byte>): Option<Counters> {
    Fold(Attrs(value, 0), NO_COUNTERS, CounterStep)
  }

  function StateName(s: byte): byte {
    if 1 <= s <= 11 then s else 0
  }

  /** The first state attribute decides; `Some(None)` when it is empty, `None` when there is none. */
  function StateAttr(items: seq<Attr>): Option<Option<byte>> {
    if items == [] then None
    else if items[0].Attr? && items[0].kind == 1 then
      Some(if items[0].value == [] then None else Some(StateName(items[0].value[0])))
    else StateAttr(items[1..])
  }

  /** Errors are skipped here, unlike everywhere else. */
  function TcpState(items: seq<Attr>): Option<byte> {
    if items == [] then None
    else if items[0].Attr? && items[0].kind == 1 && StateAttr(Attrs(items[0].value, 0)).Some? then
      StateAttr(Attrs(items[0].value, 0)).value
    else TcpState(items[1..])
  }

  // ----- the message

  datatype FlowParts = FlowParts(
    orig: Option<Tuple>, reply: Option<Tuple>, status: Option<u32>, state: Option<byte>,
    origCounters: Counters, replyCounters: Counters, id: Option<u32>)

  const NO_FLOW := FlowParts(None, None, None, None, NO_COUNTERS, NO_COUNTERS, None)

  function ReadU32(value: seq<byte>): Option<u32> {
    if |value| >= 4 then Some(U32Be(value, 0)) else None
  }

  predicate KnownKind(kind: u16) {
    kind == 1 || kind == 2 || kind == 3 || kind == 4 || kind == 10 || kind == 11 || kind == 13
  }

  function WithOrig(f: FlowParts, t: Option<Option<Tuple>>): Option<FlowParts> {
    if t.None? then None else Some(f.(orig := t.value))
  }

  function WithReply(f: FlowParts, t: Option<Option<Tuple>>): Option<FlowParts> {
    if t.None? then None else Some(f.(reply := t.value))
  }

  function WithOrigCounters(f: FlowParts, c: Option<Counters>): Option<FlowParts> {
    if c.None? then None else Some(f.(origCounters := c.value))
  }

  function WithReplyCounters(f: FlowParts, c: Option<Counters>): Option<FlowParts> {
    if c.None? then None else Some(f.(replyCounters := c.value))
  }

  function FlowStep(f: FlowParts, kind: u16, value: seq<byte>): Option<FlowParts> {
    match kind
    case 1 => WithOrig(f, TupleIn(value))
    case 2 => WithReply(f, TupleIn(value))
    case 3 => Some(f.(status := ReadU32(value)))
    case 4 => Some(f.(state := TcpState(Attrs(value, 0))))
    case 10 => WithOrigCounters(f, CountersIn(value))
    case 11 => WithReplyCounters(f, CountersIn(value))
    case 13 => Some(f.(id := ReadU32(value)))
    case _ => Some(f)
  }

  /** Only complete TCP and UDP flows with one protocol are kept; other protocols have no state. */
  function CompleteFlow(f: FlowParts): Option<Flow> {
    if f.orig.None? || f.reply.None? then None
    else
      var (protocol, orig) := f.orig.value;
      var (replyProtocol, reply) := f.reply.value;
      if protocol != replyProtocol || (protocol != TCP && protocol != UDP) then None
      else Some(Flow(f.id, FlowKey(protocol, orig, reply), if protocol == TCP then f.state else None,
                     f.origCounters, f.replyCounters, f.status))
  }

  function Finish(parts: Option<FlowParts>): Option<Option<Flow>> {
    if parts.None? then None else Some(CompleteFlow(parts.value))
  }

  /** `None` for a malformed message, `Some(None)` for one that names no tracked flow. */
  function FlowIn(payload: seq<byte>): Option<Option<Flow>> {
    if |payload| < 4 then None else Finish(Fold(Attrs(payload[4..], 0), NO_FLOW, FlowStep))
  }

  method ParseFlowMessage(payload: seq<byte>) returns (r: Option<Option<Flow>>)
    ensures r == FlowIn(payload)
  {
    if |payload| < 4 {
      return None;
    }
    var parts := FoldAttrs(payload[4..], NO_FLOW, FlowStep);
    if parts.None? {
      return None;
    }
    r := Some(CompleteFlow(parts.value));
  }

  // ----- an encoder

  function Nested(kind: u16, list: seq<RawAttr>): RawAttr
    requires kind < 0x4000 && (forall a :: a in list ==> Fits(a))
  {
    RawAttr(0x8000 + kind, WriteAttrs(list))
  }

  predicate ValidIp(ip: seq<byte>) {
    |ip| == 4 || |ip| == 16
  }

  predicate ValidEndpoint(e: Endpoint) {
    ValidIp(e.src) && ValidIp(e.dst)
  }

  predicate Encodable(f: Flow) {
    && (f.key.protocol == TCP || f.key.protocol == UDP)
    && ValidEndpoint(f.key.orig) && ValidEndpoint(f.key.reply)
    && (f.state.Some? ==> f.key.protocol == TCP && f.state.value <= 11)
  }

  function IpAttrs(e: Endpoint): (r: seq<RawAttr>)
    ensures ValidEndpoint(e) ==> forall a :: a in r ==> Fits(a)
  {
    [RawAttr(if |e.src| == 4 then 1 else 3, e.src), RawAttr(if |e.dst| == 4 then 2 else 4, e.dst)]
  }

  function ProtoAttrs(protocol: byte, e: Endpoint): (r: seq<RawAttr>)
    ensures forall a :: a in r ==> Fits(a)
  {
    [RawAttr(1, [protocol]), RawAttr(2, Be16(e.sport)), RawAttr(3, Be16(e.dport))]
  }

  function TupleAttrs(protocol: byte, e: Endpoint): (r: seq<RawAttr>)
    requires ValidEndpoint(e)
    ensures forall a :: a in r ==> Fits(a)
  {
    WriteSize2(IpAttrs(e));
    WriteSize3(ProtoAttrs(protocol, e));
    [Nested(1, IpAttrs(e)), Nested(2, ProtoAttrs(protocol, e))]
  }

  lemma WriteSize1(list: seq<RawAttr>)
    requires |list| == 1 && forall a :: a in list ==> Fits(a)
    ensures |WriteAttrs(list)| <= |list[0].value| + 8
  {
  }

  lemma WriteSize2(list: seq<RawAttr>)
    requires |list| == 2 && forall a :: a in list ==> Fits(a)
    ensures |WriteAttrs(list)| <= |list[0].value| + |list[1].value| + 16
  {
    WriteSize1(list[1..]);
  }

  lemma WriteSize3(list: seq<RawAttr>)
    requires |list| == 3 && forall a :: a in list ==> Fits(a)
    ensures |WriteAttrs(list)| <= |list[0].value| + |list[1].value| + |list[2].value| + 24
  {
    WriteSize2(list[1..]);
  }

  function CounterAttrs(c: Counters): (r: seq<RawAttr>)
    ensures forall a :: a in r ==> Fits(a)
  {
    [RawAttr(1, Be64(c.packets)), RawAttr(2, Be64(c.bytes))]
  }

  function StateAttrs(s: byte): (r: seq<RawAttr>)
    ensures forall a :: a in r ==> Fits(a)
  {
    WriteSize1([RawAttr(1, [s])]);
    [Nested(1, [RawAttr(1, [s])])]
  }

  function OrigAndReply(f: Flow): (r: seq<RawAttr>)
    requires Encodable(f)
    ensures forall a :: a in r ==> Fits(a)
  {
    TupleFits(f.key.protocol, f.key.orig);
    TupleFits(f.key.protocol, f.key.reply);
    [Nested(1, TupleAttrs(f.key.protocol, f.key.orig)), Nested(2, TupleAttrs(f.key.protocol, f.key.reply))]
  }

  lemma TupleFits(protocol: byte, e: Endpoint)
    requires ValidEndpoint(e)
    ensures |WriteAttrs(TupleAttrs(protocol, e))| < 1000
  {
    WriteSize2(IpAttrs(e));
    WriteSize3(ProtoAttrs(protocol, e));
    WriteSize2(TupleAttrs(protocol, e));
  }

  function BothCounters(f: Flow): (r: seq<RawAttr>)
    ensures forall a :: a in r ==> Fits(a)
  {
    WriteSize2(CounterAttrs(f.origCounters));
    WriteSize2(CounterAttrs(f.replyCounters));
    [Nested(10, CounterAttrs(f.origCounters)), Nested(11, CounterAttrs(f.replyCounters))]
  }

  function OptionalAttrs(f: Flow): (r: seq<RawAttr>)
    ensures forall a :: a in r ==> Fits(a)
  {
    (if f.status.Some? then [RawAttr(3, Be32(f.status.value))] else [])
    + (if f.state.Some? then StateList(f.state.value) else [])
    + (if f.id.Some? then [RawAttr(13, Be32(f.id.value))] else [])
  }

  function StateList(s: byte): (r: seq<RawAttr>)
    ensures |r| == 1 && Fits(r[0])
  {
    WriteSize1([RawAttr(1, [s])]);
    WriteSize1(StateAttrs(s));
    [Nested(4, StateAttrs(s))]
  }

  function FlowAttrs(f: Flow): (r: seq<RawAttr>)
    requires Encodable(f)
    ensures forall a :: a in r ==> Fits(a)
  {
    OrigAndReply(f) + BothCounters(f) + OptionalAttrs(f)
  }

  /** `generic` is the four-byte netfilter header in front of the attributes. */
  function EncodeFlow(generic: seq<byte>, f: Flow): seq<byte>
    requires |generic| == 4 && Encodable(f)
  {
    generic + WriteAttrs(FlowAttrs(f))
  }

  // ----- reading inverts the encoder

  lemma Parsed(list: seq<RawAttr>)
    requires forall a :: a in list ==> Fits(a)
    ensures Attrs(WriteAttrs(list), 0) == MapSeq(Read, list)
  {
    AttrsRoundTrip(list, []);
    assert WriteAttrs(list) + [] == WriteAttrs(list);
  }

  lemma Fold1<A>(a: Attr, acc: A, step: Step<A>, r: A)
    requires a.Attr? && step(acc, a.kind, a.value) == Some(r)
    ensures Fold([a], acc, step) == Some(r)
  {
    assert [a][1..] == [];
  }

  lemma Fold2<A>(a: Attr, b: Attr, acc: A, step: Step<A>, mid: A, r: A)
    requires a.Attr? && step(acc, a.kind, a.value) == Some(mid)
    requires b.Attr? && step(mid, b.kind, b.value) == Some(r)
    ensures Fold([a, b], acc, step) == Some(r)
  {
    assert [a, b][1..] == [b];
    Fold1(b, mid, step, r);
  }

  lemma FoldPair<A>(list: seq<RawAttr>, a: Attr, b: Attr, acc: A, step: Step<A>, mid: A, r: A)
    requires |list| == 2 && Read(list[0]) == a && Read(list[1]) == b
    requires step(acc, a.kind, a.value) == Some(mid) && step(mid, b.kind, b.value) == Some(r)
    ensures Fold(MapSeq(Read, list), acc, step) == Some(r)
  {
    assert MapSeq(Read, list) == [a, b];
    Fold2(a, b, acc, step, mid, r);
  }

  /** Two attributes written and read back, one step each. */
  lemma ReadPair<A>(list: seq<RawAttr>, a: Attr, b: Attr, acc: A, step: Step<A>, mid: A, r: A)
    requires |list| == 2 && forall x :: x in list ==> Fits(x)
    requires Read(list[0]) == a && Read(list[1]) == b
    requires step(acc, a.kind, a.value) == Some(mid) && step(mid, b.kind, b.value) == Some(r)
    ensures Fold(MapSeq(Read, list), acc, step) == Some(r)
    ensures Fold(Attrs(WriteAttrs(list), 0), acc, step) == Some(r)
  {
    FoldPair(list, a, b, acc, step, mid, r);
    Parsed(list);
  }

  /** Two nested attributes read back, one step each. */
  lemma ReadNestedPair<A>(
    k1: u16, l1: seq<RawAttr>, k2: u16, l2: seq<RawAttr>, acc: A, step: Step<A>, mid: A, r: A)
    requires k1 < 0x4000 && k2 < 0x4000
    requires (forall a :: a in l1 ==> Fits(a)) && (forall a :: a in l2 ==> Fits(a))
    requires Fits(Nested(k1, l1)) && Fits(Nested(k2, l2))
    requires step(acc, k1, WriteAttrs(l1)) == Some(mid) && step(mid, k2, WriteAttrs(l2)) == Some(r)
    ensures Fold(MapSeq(Read, [Nested(k1, l1), Nested(k2, l2)]), acc, step) == Some(r)
  {
    FoldPair([Nested(k1, l1), Nested(k2, l2)], Attr(k1, WriteAttrs(l1)), Attr(k2, WriteAttrs(l2)), acc, step, mid, r);
  }

  lemma Be16Alone(v: u16)
    ensures U16Be(Be16(v), 0) == v
  {
    Be16RoundTrip(Be16(v), 0, v);
  }

  lemma Be32Alone(v: u32)
    ensures U32Be(Be32(v), 0) == v
  {
    assert Be32(v)[0..0 + 4] == Be32(v);
    Be32RoundTrip(Be32(v), 0, v);
  }

  lemma Be64Alone(v: u64)
    ensures U64Be(Be64(v), 0) == v
  {
    assert Be64(v)[0..0 + 8] == Be64(v);
    Be64RoundTrip(Be64(v), 0, v);
  }

  lemma IpsRead(e: Endpoint, t: TupleParts)
    requires ValidEndpoint(e)
    ensures Fold(MapSeq(Read, IpAttrs(e)), t, IpStep) == Some(t.(src := Some(e.src), dst := Some(e.dst)))
  {
    var list := IpAttrs(e);
    assert MapSeq(Read, list) == [Read(list[0]), Read(list[1])];
    assert e.src[..|e.src|] == e.src && e.dst[..|e.dst|] == e.dst;
    Fold2(Read(list[0]), Read(list[1]), t, IpStep, t.(src := Some(e.src)), t.(src := Some(e.src), dst := Some(e.dst)));
  }

  lemma ProtoRead(protocol: byte, e: Endpoint, t: TupleParts)
    ensures Fold(MapSeq(Read, ProtoAttrs(protocol, e)), t, ProtoStep)
         == Some(t.(protocol := Some(protocol), sport := Some(e.sport), dport := Some(e.dport)))
  {
    var list := ProtoAttrs(protocol, e);
    var t1 := t.(protocol := Some(protocol));
    var t2 := t1.(sport := Some(e.sport));
    Be16Alone(e.sport);
    Be16Alone(e.dport);
    assert MapSeq(Read, list) == [Read(list[0]), Read(list[1])] + [Read(list[2])];
    Fold2(Read(list[0]), Read(list[1]), t, ProtoStep, t1, t2);
    FoldThrough([Read(list[0]), Read(list[1])], [Read(list[2])], t, ProtoStep, t2);
    Fold1(Read(list[2]), t2, ProtoStep, t2.(dport := Some(e.dport)));
  }

  lemma IpPart(e: Endpoint, t: TupleParts)
    requires ValidEndpoint(e)
    ensures TupleStep(t, 1, WriteAttrs(IpAttrs(e))) == Some(t.(src := Some(e.src), dst := Some(e.dst)))
  {
    Parsed(IpAttrs(e));
    IpsRead(e, t);
  }

  lemma ProtoPart(protocol: byte, e: Endpoint, t: TupleParts)
    ensures TupleStep(t, 2, WriteAttrs(ProtoAttrs(protocol, e)))
         == Some(t.(protocol := Some(protocol), sport := Some(e.sport), dport := Some(e.dport)))
  {
    Parsed(ProtoAttrs(protocol, e));
    ProtoRead(protocol, e, t);
  }

  lemma TupleRoundTrip(protocol: byte, e: Endpoint)
    requires ValidEndpoint(e)
    ensures TupleIn(WriteAttrs(TupleAttrs(protocol, e))) == Some(Some((protocol, e)))
  {
    var t1 := NO_TUPLE.(src := Some(e.src), dst := Some(e.dst));
    var t2 := t1.(protocol := Some(protocol), sport := Some(e.sport), dport := Some(e.dport));
    IpPart(e, NO_TUPLE);
    ProtoPart(protocol, e, t1);
    ReadPair(TupleAttrs(protocol, e), Attr(1, WriteAttrs(IpAttrs(e))), Attr(2, WriteAttrs(ProtoAttrs(protocol, e))),
             NO_TUPLE, TupleStep, t1, t2);
  }

  lemma CountersRoundTrip(c: Counters)
    ensures CountersIn(WriteAttrs(CounterAttrs(c))) == Some(c)
  {
    Be64Alone(c.packets);
    Be64Alone(c.bytes);
    ReadPair(CounterAttrs(c), Attr(1, Be64(c.packets)), Attr(2, Be64(c.bytes)), NO_COUNTERS, CounterStep,
             Counters(c.packets, 0), c);
  }

  lemma StateRoundTrip(s: byte)
    requires s <= 11
    ensures TcpState(Attrs(WriteAttrs(StateAttrs(s)), 0)) == Some(s)
  {
    var inner := [RawAttr(1, [s])];
    WriteSize1(inner);
    ReadSingle(inner[0]);
    ReadSingle(Nested(1, inner));
    NestedState(s, WriteAttrs(inner));
  }

  lemma ReadSingle(a: RawAttr)
    requires Fits(a)
    ensures Attrs(WriteAttrs([a]), 0) == [Read(a)]
  {
    Parsed([a]);
    assert MapSeq(Read, [a]) == [Read(a)];
  }

  lemma NestedState(s: byte, inner: seq<byte>)
    requires s <= 11 && Attrs(inner, 0) == [Attr(1, [s])]
    ensures TcpState([Attr(1, inner)]) == Some(s)
  {
  }

  /** What the parts hold once the two tuples and the two counters are read. */
  function Basics(f: Flow): FlowParts {
    FlowParts(Some((f.key.protocol, f.key.orig)), Some((f.key.protocol, f.key.reply)), None, None,
              f.origCounters, f.replyCounters, None)
  }

  lemma TuplesRead(f: Flow)
    requires Encodable(f)
    ensures Fold(MapSeq(Read, OrigAndReply(f)), NO_FLOW, FlowStep)
         == Some(Basics(f).(origCounters := NO_COUNTERS, replyCounters := NO_COUNTERS))
  {
    var p1 := NO_FLOW.(orig := Some((f.key.protocol, f.key.orig)));
    var p2 := p1.(reply := Some((f.key.protocol, f.key.reply)));
    TuplePart(f.key.protocol, f.key.orig, NO_FLOW);
    TuplePart(f.key.protocol, f.key.reply, p1);
    TupleFits(f.key.protocol, f.key.orig);
    TupleFits(f.key.protocol, f.key.reply);
    ReadNestedPair(1, TupleAttrs(f.key.protocol, f.key.orig), 2, TupleAttrs(f.key.protocol, f.key.reply),
                   NO_FLOW, FlowStep, p1, p2);
  }

  lemma TuplePart(protocol: byte, e: Endpoint, p: FlowParts)
    requires ValidEndpoint(e)
    ensures FlowStep(p, 1, WriteAttrs(TupleAttrs(protocol, e))) == Some(p.(orig := Some((protocol, e))))
    ensures FlowStep(p, 2, WriteAttrs(TupleAttrs(protocol, e))) == Some(p.(reply := Some((protocol, e))))
  {
    TupleRoundTrip(protocol, e);
  }

  lemma CounterPart(c: Counters, p: FlowParts)
    ensures FlowStep(p, 10, WriteAttrs(CounterAttrs(c))) == Some(p.(origCounters := c))
    ensures FlowStep(p, 11, WriteAttrs(CounterAttrs(c))) == Some(p.(replyCounters := c))
  {
    CountersRoundTrip(c);
  }

  lemma CountersRead(f: Flow, p: FlowParts)
    ensures Fold(MapSeq(Read, BothCounters(f)), p, FlowStep)
         == Some(p.(origCounters := f.origCounters, replyCounters := f.replyCounters))
  {
    var p1 := p.(origCounters := f.origCounters);
    CounterPart(f.origCounters, p);
    CounterPart(f.replyCounters, p1);
    WriteSize2(CounterAttrs(f.origCounters));
    WriteSize2(CounterAttrs(f.replyCounters));
    ReadNestedPair(10, CounterAttrs(f.origCounters), 11, CounterAttrs(f.replyCounters),
                   p, FlowStep, p1, p1.(replyCounters := f.replyCounters));
  }

  lemma BasicsRead(f: Flow)
    requires Encodable(f)
    ensures Fold(MapSeq(Read, OrigAndReply(f) + BothCounters(f)), NO_FLOW, FlowStep) == Some(Basics(f))
  {
    var a, b := OrigAndReply(f), BothCounters(f);
    var mid := Basics(f).(origCounters := NO_COUNTERS, replyCounters := NO_COUNTERS);
    TuplesRead(f);
    CountersRead(f, mid);
    FoldThrough(MapSeq(Read, a), MapSeq(Read, b), NO_FLOW, FlowStep, mid);
    MapAppend(Read, a, b);
  }

  lemma OptionRead(list: seq<RawAttr>, p: FlowParts, q: FlowParts)
    requires list == [] ==> p == q
    requires list != [] ==> |list| == 1 && FlowStep(p, Read(list[0]).kind, list[0].value) == Some(q)
    ensures Fold(MapSeq(Read, list), p, FlowStep) == Some(q)
  {
    if list != [] {
      assert MapSeq(Read, list) == [Read(list[0])];
      Fold1(Read(list[0]), p, FlowStep, q);
    }
  }

  lemma StatusRead(f: Flow, p: FlowParts, list: seq<RawAttr>)
    requires p.status == None && list == if f.status.Some? then [RawAttr(3, Be32(f.status.value))] else []
    ensures Fold(MapSeq(Read, list), p, FlowStep) == Some(p.(status := f.status))
  {
    if f.status.Some? {
      Be32Alone(f.status.value);
    }
    OptionRead(list, p, p.(status := f.status));
  }

  lemma StateHead(s: byte, a: RawAttr)
    requires [a] == StateList(s)
    ensures Read(a) == Attr(4, a.value) && a.value == WriteAttrs(StateAttrs(s))
  {
    assert a == StateList(s)[0];
  }

  lemma StateStep(s: byte, p: FlowParts, value: seq<byte>)
    requires s <= 11 && value == WriteAttrs(StateAttrs(s))
    ensures FlowStep(p, 4, value) == Some(p.(state := Some(s)))
  {
    StateRoundTrip(s);
  }

  lemma StateRead(f: Flow, p: FlowParts, list: seq<RawAttr>)
    requires p.state == None && list == if f.state.Some? then StateList(f.state.value) else []
    requires f.state.Some? ==> f.state.value <= 11
    ensures Fold(MapSeq(Read, list), p, FlowStep) == Some(p.(state := f.state))
  {
    if f.state.Some? {
      StateHead(f.state.value, list[0]);
      StateStep(f.state.value, p, list[0].value);
    }
    OptionRead(list, p, p.(state := f.state));
  }

  lemma IdRead(f: Flow, p: FlowParts, list: seq<RawAttr>)
    requires p.id == None && list == if f.id.Some? then [RawAttr(13, Be32(f.id.value))] else []
    ensures Fold(MapSeq(Read, list), p, FlowStep) == Some(p.(id := f.id))
  {
    if f.id.Some? {
      Be32Alone(f.id.value);
    }
    OptionRead(list, p, p.(id := f.id));
  }

  lemma FoldThree(
      a: seq<RawAttr>, b: seq<RawAttr>, c: seq<RawAttr>, p: FlowParts, p1: FlowParts, p2: FlowParts, p3: FlowParts)
    requires Fold(MapSeq(Read, a), p, FlowStep) == Some(p1) && Fold(MapSeq(Read, b), p1, FlowStep) == Some(p2)
    requires Fold(MapSeq(Read, c), p2, FlowStep) == Some(p3)
    ensures Fold(MapSeq(Read, a + b + c), p, FlowStep) == Some(p3)
  {
    FoldThrough(MapSeq(Read, a), MapSeq(Read, b), p, FlowStep, p1);
    FoldThrough(MapSeq(Read, a) + MapSeq(Read, b), MapSeq(Read, c), p, FlowStep, p2);
    MapAppend(Read, a + b, c);
    MapAppend(Read, a, b);
  }

  lemma OptionsRead(f: Flow, p: FlowParts)
    requires Encodable(f) && p == Basics(f)
    ensures Fold(MapSeq(Read, OptionalAttrs(f)), p, FlowStep)
         == Some(p.(status := f.status, state := f.state, id := f.id))
  {
    var a := if f.status.Some? then [RawAttr(3, Be32(f.status.value))] else [];
    var b := if f.state.Some? then StateList(f.state.value) else [];
    var c := if f.id.Some? then [RawAttr(13, Be32(f.id.value))] else [];
    var p1 := p.(status := f.status);
    var p2 := p1.(state := f.state);
    StatusRead(f, p, a);
    StateRead(f, p1, b);
    IdRead(f, p2, c);
    FoldThree(a, b, c, p, p1, p2, p2.(id := f.id));
  }

  lemma FlowAttrsRead(f: Flow)
    requires Encodable(f)
    ensures Finish(Fold(MapSeq(Read, FlowAttrs(f)), NO_FLOW, FlowStep)) == Some(Some(f))
  {
    var a, b := OrigAndReply(f) + BothCounters(f), OptionalAttrs(f);
    BasicsRead(f);
    OptionsRead(f, Basics(f));
    FoldThrough(MapSeq(Read, a), MapSeq(Read, b), NO_FLOW, FlowStep, Basics(f));
    MapAppend(Read, a, b);
  }

  /** Reading a connection-tracking message inverts writing it. */
  lemma FlowRoundTrip(generic: seq<byte>, f: Flow)
    requires |generic| == 4 && Encodable(f)
    ensures FlowIn(EncodeFlow(generic, f)) == Some(Some(f))
  {
    Parsed(FlowAttrs(f));
    FlowAttrsRead(f);
    assert EncodeFlow(generic, f)[4..] == WriteAttrs(FlowAttrs(f));
  }

  /** Attributes of unknown kinds may stand anywhere in a message without changing what is read. */
  lemma UnknownAttributesIgnored(generic: seq<byte>, front: seq<RawAttr>, extra: RawAttr, rest: seq<RawAttr>)
    requires |generic| == 4 && Fits(extra) && !KnownKind(extra.kind % 0x4000)
    requires (forall a :: a in front ==> Fits(a)) && (forall a :: a in rest ==> Fits(a))
    ensures FlowIn(generic + WriteAttrs(front + [extra] + rest)) == FlowIn(generic + WriteAttrs(front + rest))
  {
    var with, without := front + [extra] + rest, front + rest;
    Parsed(with);
    Parsed(without);
    assert (generic + WriteAttrs(with))[4..] == WriteAttrs(with);
    assert (generic + WriteAttrs(without))[4..] == WriteAttrs(without);
    MapAppend(Read, front + [extra], rest);
    MapAppend(Read, front, [extra]);
    MapAppend(Read, front, rest);
    assert MapSeq(Read, [extra]) == [Read(extra)];
    PassedOver(MapSeq(Read, front), Read(extra), MapSeq(Read, rest), NO_FLOW, FlowStep);
  }

  // ----- malformed messages

  lemma {:induction false} FoldFails<A>(items: seq<Attr>, acc: A, step: Step<A>, i: nat)
    requires i < |items|
    requires items[i].BadAttr? || forall a: A :: step(a, items[i].kind, items[i].value) == None
    ensures Fold(items, acc, step) == None
    decreases items
  {
    if i > 0 && items[0].Attr? {
      var next := step(acc, items[0].kind, items[0].value);
      if next.Some? {
        FoldFails(items[1..], next.value, step, i - 1);
      }
    }
  }

  ghost predicate HasBad(value: seq<byte>) {
    exists i :: 0 <= i < |Attrs(value, 0)| && Attrs(value, 0)[i].BadAttr?
  }

  lemma BadTuple(value: seq<byte>)
    requires HasBad(value)
    ensures TupleIn(value) == None && CountersIn(value) == None
  {
    var i :| 0 <= i < |Attrs(value, 0)| && Attrs(value, 0)[i].BadAttr?;
    FoldFails(Attrs(value, 0), NO_TUPLE, TupleStep, i);
    FoldFails(Attrs(value, 0), NO_COUNTERS, CounterStep, i);
  }

  /** A malformed attribute makes the whole message an error, at the top and inside tuples and counters. */
  lemma MalformedIsError(payload: seq<byte>, i: nat)
    requires |payload| >= 4 && i < |Attrs(payload[4..], 0)|
    requires var item := Attrs(payload[4..], 0)[i];
             item.BadAttr? || ((item.kind == 1 || item.kind == 2 || item.kind == 10 || item.kind == 11)
                               && HasBad(item.value))
    ensures FlowIn(payload) == None
  {
    var item := Attrs(payload[4..], 0)[i];
    if item.Attr? {
      BadTuple(item.value);
    }
    FoldFails(Attrs(payload[4..], 0), NO_FLOW, FlowStep, i);
  }
}
