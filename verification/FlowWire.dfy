/** From bytes in the format the code reads to the tracked-flow table: events and dumps survive the whole way. */
module FlowWire {
  import opened Bytes
  import opened Netlink
  import opened Ctnetlink
  import opened FlowTable

  /** A message in the format the code reads: `generic` is the netfilter header, `rest` flags, sequence and port. */
  datatype Wire = Wire(event: Event, generic: seq<byte>, rest: seq<byte>)

  predicate Sendable(w: Wire) {
    |w.generic| == 4 && |w.rest| == 10 && Encodable(w.event.flow)
  }

  predicate AllSendable(ws: seq<Wire>) {
    forall w :: w in ws ==> Sendable(w)
  }

  function EventKind(e: Event): u16 {
    if e.New? then 0x100 else 0x102
  }

  function EventFrame(w: Wire): RawFrame
    requires Sendable(w)
  {
    RawFrame(EventKind(w.event), w.rest, EncodeFlow(w.generic, w.event.flow))
  }

  lemma {:induction false} WriteSize(list: seq<RawAttr>)
    requires forall a :: a in list ==> Fits(a)
    ensures |WriteAttrs(list)| <= 0x1_0004 * |list|
  {
    if list != [] {
      assert Fits(list[0]);
      assert WriteAttrs(list) == WriteAttr(list[0]) + WriteAttrs(list[1..]);
      WriteSize(list[1..]);
    }
  }

  lemma EventFits(w: Wire)
    requires Sendable(w)
    ensures FrameFits(EventFrame(w))
  {
    WriteSize(FlowAttrs(w.event.flow));
  }

  function EventFrames(ws: seq<Wire>): (r: seq<RawFrame>)
    requires AllSendable(ws)
    ensures |r| == |ws| && forall f :: f in r ==> FrameFits(f)
  {
    if ws == [] then []
    else
      EventFits(ws[0]);
      [EventFrame(ws[0])] + EventFrames(ws[1..])
  }

  function Events(ws: seq<Wire>): seq<Event> {
    if ws == [] then [] else [ws[0].event] + Events(ws[1..])
  }

  lemma EventIsRead(w: Wire)
    requires Sendable(w)
    ensures FlowIn(ReadFrame(EventFrame(w)).payload) == Some(Some(w.event.flow))
  {
    FlowRoundTrip(w.generic, w.event.flow);
  }

  lemma {:induction false} EventsApplied(s: Tables, ws: seq<Wire>)
    requires AllSendable(ws)
    ensures ApplyFrames(s, MapSeq(ReadFrame, EventFrames(ws))) == (ApplyAll(s, Events(ws)), true)
    decreases ws
  {
    if ws != [] {
      var first, rest := ws[0], MapSeq(ReadFrame, EventFrames(ws[1..]));
      EventsApplied(Apply(s, first.event), ws[1..]);
      ApplyFirst(s, first, rest);
      FramesOfEvents(ws);
    }
  }

  lemma FramesOfEvents(ws: seq<Wire>)
    requires ws != [] && AllSendable(ws)
    ensures MapSeq(ReadFrame, EventFrames(ws))
         == [ReadFrame(EventFrame(ws[0]))] + MapSeq(ReadFrame, EventFrames(ws[1..]))
  {
    MapHead(ReadFrame, EventFrames(ws));
    assert EventFrames(ws)[1..] == EventFrames(ws[1..]);
  }

  lemma ApplyFirst(s: Tables, w: Wire, rest: seq<Frame>)
    requires Sendable(w)
    ensures ApplyFrames(s, [ReadFrame(EventFrame(w))] + rest) == ApplyFrames(Apply(s, w.event), rest)
  {
    EventIsRead(w);
    var frames := [ReadFrame(EventFrame(w))] + rest;
    assert frames[1..] == rest;
  }

  /** A buffer of serialized events acts as the events themselves. */
  lemma BytesAreEvents(s: Tables, ws: seq<Wire>)
    requires AllSendable(ws)
    ensures ApplyFrames(s, Frames(WriteFrames(EventFrames(ws)), 0)) == (ApplyAll(s, Events(ws)), true)
  {
    FramesRoundTrip(EventFrames(ws));
    EventsApplied(s, ws);
  }

  /** The kernel's own changes, written in the format the code reads, take its old table to its new one. */
  lemma BytesFollowKernel(s: Tables, k: Kernel, ws: seq<Wire>)
    requires AllSendable(ws)
    requires Faithful(k) && Mirrors(s, k) && PossibleRun(k, Events(ws))
    ensures var (after, ok) := ApplyFrames(s, Frames(WriteFrames(EventFrames(ws)), 0));
            ok && Mirrors(after, KernelRun(k, Events(ws)))
  {
    BytesAreEvents(s, ws);
    EventsFollowKernel(s, k, Events(ws));
  }

  // ----- dumps

  function Flows(ws: seq<Wire>): seq<Flow> {
    if ws == [] then [] else [ws[0].event.flow] + Flows(ws[1..])
  }

  /** The entries collected once `more` is read after `acc`: the first ones, up to the cap. */
  function Collected(acc: seq<Flow>, more: seq<Flow>): seq<Flow> {
    var all := acc + more;
    all[..Min(|all|, 100_000)]
  }

  lemma CollectMore(acc: seq<Flow>, f: Flow, more: seq<Flow>)
    requires |acc| <= MAX_TRACKED_FLOWS
    ensures Collected(if |acc| < MAX_TRACKED_FLOWS then acc + [f] else acc, more) == Collected(acc, [f] + more)
  {
    if |acc| < MAX_TRACKED_FLOWS {
      assert acc + [f] + more == acc + ([f] + more);
    }
  }

  lemma CollectTwice(acc: seq<Flow>, a: seq<Flow>, b: seq<Flow>)
    ensures Collected(Collected(acc, a), b) == Collected(acc, a + b)
  {
    assert acc + (a + b) == (acc + a) + b;
  }

  lemma {:induction false} EntriesRead(acc: seq<Flow>, ws: seq<Wire>, rest: seq<Frame>)
    requires |acc| <= MAX_TRACKED_FLOWS && AllSendable(ws)
    ensures DumpFrames(acc, MapSeq(ReadFrame, EventFrames(ws)) + rest) == DumpFrames(Collected(acc, Flows(ws)), rest)
    decreases ws
  {
    if ws == [] {
      assert MapSeq(ReadFrame, EventFrames(ws)) + rest == rest;
      assert Collected(acc, []) == acc;
    } else {
      var f := ws[0].event.flow;
      var next := if |acc| < MAX_TRACKED_FLOWS then acc + [f] else acc;
      var tail := MapSeq(ReadFrame, EventFrames(ws[1..])) + rest;
      MapHeadThen(ReadFrame, EventFrames(ws), EventFrame(ws[0]), EventFrames(ws[1..]), rest);
      DumpFirst(acc, ws[0], tail);
      EntriesRead(next, ws[1..], rest);
      CollectMore(acc, f, Flows(ws[1..]));
    }
  }

  lemma MapHeadThen<A, B>(f: A -> B, all: seq<A>, head: A, tail: seq<A>, rest: seq<B>)
    requires all == [head] + tail
    ensures MapSeq(f, all) + rest == [f(head)] + (MapSeq(f, tail) + rest)
  {
    MapAppend(f, [head], tail);
    assert MapSeq(f, [head]) == [f(head)];
  }

  lemma DumpFirst(acc: seq<Flow>, w: Wire, rest: seq<Frame>)
    requires Sendable(w)
    ensures DumpFrames(acc, [ReadFrame(EventFrame(w))] + rest)
         == DumpFrames(if |acc| < MAX_TRACKED_FLOWS then acc + [w.event.flow] else acc, rest)
  {
    EventIsRead(w);
    assert ([ReadFrame(EventFrame(w))] + rest)[1..] == rest;
  }

  /** The closing message of a dump. */
  predicate Closes(f: RawFrame) {
    f.kind == 3 && FrameFits(f)
  }

  /** Every buffer before the last holds at least one entry. */
  predicate AllParts(parts: seq<seq<Wire>>) {
    parts == [] || (parts[0] != [] && AllSendable(parts[0]) && AllParts(parts[1..]))
  }

  /** A dump on the wire: entries spread over any number of buffers, the last of them closing it. */
  function DumpBytes(parts: seq<seq<Wire>>, last: seq<Wire>, close: RawFrame): seq<seq<byte>>
    requires AllParts(parts)
    requires AllSendable(last) && Closes(close)
  {
    if parts == [] then [WriteFrames(EventFrames(last) + [close])]
    else [WriteFrames(EventFrames(parts[0]))] + DumpBytes(parts[1..], last, close)
  }

  function Entries(parts: seq<seq<Wire>>, last: seq<Wire>): seq<Flow> {
    if parts == [] then Flows(last) else Flows(parts[0]) + Entries(parts[1..], last)
  }

  lemma ClosingRead(acc: seq<Flow>, close: RawFrame)
    requires Closes(close)
    ensures DumpFrames(acc, MapSeq(ReadFrame, [close])) == Done(acc)
  {
  }

  lemma LastPart(acc: seq<Flow>, last: seq<Wire>, close: RawFrame)
    requires |acc| <= MAX_TRACKED_FLOWS && AllSendable(last) && Closes(close)
    ensures var buf := WriteFrames(EventFrames(last) + [close]);
            buf != [] && DumpFrames(acc, Frames(buf, 0)) == Done(Collected(acc, Flows(last)))
  {
    var front := EventFrames(last);
    FramesRoundTrip(front + [close]);
    MapAppend(ReadFrame, front, [close]);
    ClosingRead(Collected(acc, Flows(last)), close);
    EntriesRead(acc, last, MapSeq(ReadFrame, [close]));
  }

  lemma NothingBehind<T>(s: seq<T>)
    ensures s + [] == s
  {
  }

  lemma MiddlePart(acc: seq<Flow>, part: seq<Wire>)
    requires |acc| <= MAX_TRACKED_FLOWS && part != [] && AllSendable(part)
    ensures var buf := WriteFrames(EventFrames(part));
            buf != [] && DumpFrames(acc, Frames(buf, 0)) == More(Collected(acc, Flows(part)))
  {
    var frames := EventFrames(part);
    FramesRoundTrip(frames);
    EntriesRead(acc, part, []);
    NothingBehind(MapSeq(ReadFrame, frames));
  }

  lemma PacketInFront(acc: seq<Flow>, packet: seq<byte>, rest: seq<seq<byte>>, flows: seq<Flow>)
    requires packet != [] && DumpFrames(acc, Frames(packet, 0)) == More(flows)
    ensures DumpPackets(acc, [packet] + rest) == DumpPackets(flows, rest)
  {
    assert ([packet] + rest)[1..] == rest;
  }

  lemma PartInFront(
    acc: seq<Flow>, part: seq<Wire>, packet: seq<byte>, rest: seq<seq<byte>>, next: seq<Flow>)
    requires |acc| <= MAX_TRACKED_FLOWS && part != [] && AllSendable(part)
    requires packet == WriteFrames(EventFrames(part)) && next == Collected(acc, Flows(part))
    ensures DumpPackets(acc, [packet] + rest) == DumpPackets(next, rest)
  {
    MiddlePart(acc, part);
    PacketInFront(acc, packet, rest, next);
  }

  lemma ClosingPacket(acc: seq<Flow>, packet: seq<byte>, flows: seq<Flow>)
    requires packet != [] && DumpFrames(acc, Frames(packet, 0)) == Done(flows)
    ensures DumpPackets(acc, [packet]) == Some(flows)
  {
  }

  lemma {:induction false} DumpIsRead(acc: seq<Flow>, parts: seq<seq<Wire>>, last: seq<Wire>, close: RawFrame)
    requires |acc| <= MAX_TRACKED_FLOWS
    requires AllParts(parts)
    requires AllSendable(last) && Closes(close)
    ensures DumpPackets(acc, DumpBytes(parts, last, close)) == Some(Collected(acc, Entries(parts, last)))
    decreases parts
  {
    var packets := DumpBytes(parts, last, close);
    if parts == [] {
      LastPart(acc, last, close);
      ClosingPacket(acc, packets[0], Collected(acc, Flows(last)));
    } else {
      var next, rest := Collected(acc, Flows(parts[0])), DumpBytes(parts[1..], last, close);
      var packet := WriteFrames(EventFrames(parts[0]));
      DumpIsRead(next, parts[1..], last, close);
      PartInFront(acc, parts[0], packet, rest, next);
      assert packets == [packet] + rest;
      CollectTwice(acc, Flows(parts[0]), Entries(parts[1..], last));
    }
  }

  /** A dump of the kernel's table, however it was cut into buffers, restores it from any state. */
  lemma DumpBytesRestore(parts: seq<seq<Wire>>, last: seq<Wire>, close: RawFrame, k: Kernel)
    requires AllParts(parts)
    requires AllSendable(last) && Closes(close)
    requires Faithful(k) && Lists(Entries(parts, last), k) && |Entries(parts, last)| <= MAX_TRACKED_FLOWS
    ensures var r := DumpPackets([], DumpBytes(parts, last, close));
            r.Some? && Mirrors(Replaced(r.value), k)
  {
    var all := Entries(parts, last);
    DumpIsRead([], parts, last, close);
    assert [] + all == all && all[..|all|] == all;
    DumpRestores(all, k);
  }

  /** A dump cut off before its closing message is not used. */
  lemma {:induction false} UnclosedDumpFails(acc: seq<Flow>, parts: seq<seq<Wire>>)
    requires |acc| <= MAX_TRACKED_FLOWS
    requires AllParts(parts)
    ensures DumpPackets(acc, MapParts(parts)) == None
    decreases parts
  {
    if parts != [] {
      var first, others := parts[0], parts[1..];
      var next, rest := Collected(acc, Flows(first)), MapParts(others);
      UnclosedDumpFails(next, others);
      PartInFront(acc, first, WriteFrames(EventFrames(first)), rest, next);
    }
  }

  function MapParts(parts: seq<seq<Wire>>): seq<seq<byte>>
    requires AllParts(parts)
  {
    if parts == [] then [] else [WriteFrames(EventFrames(parts[0]))] + MapParts(parts[1..])
  }
}
