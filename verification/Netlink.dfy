/** Length-prefixed netlink messages and attributes: the two cursors, and what they make of any byte string. */
module Netlink {
  import opened Bytes

  const HEADER := 16

  datatype Frame = Frame(kind: u16, payload: seq<byte>) | BadFrame

  datatype Attr = Attr(kind: u16, value: seq<byte>) | BadAttr

  function Align(n: nat): (r: nat)
    ensures n <= r < n + 4 && r % 4 == 0
  {
    (n + 3) / 4 * 4
  }

  // ----- what a buffer contains

  /** The message at `off` and where the next one starts; a malformed one takes the rest of the buffer. */
  function NextFrame(buf: seq<byte>, off: nat): (r: Option<(Frame, nat)>)
    ensures r.Some? && r.value.0.Frame? ==> off < |buf| && off < r.value.1
  {
    if off == |buf| then None
    else if off + HEADER > |buf| then Some((BadFrame, |buf|))
    else
      var length: nat := U32Le(buf, off);
      if length < HEADER || off + length > |buf| then Some((BadFrame, |buf|))
      else Some((Frame(U16Le(buf, off + 4), buf[off + HEADER..off + length]), off + Align(length)))
  }

  /** The messages from `off` on; anything malformed ends the list. */
  function Frames(buf: seq<byte>, off: nat): seq<Frame>
    decreases |buf| - off
  {
    var next := NextFrame(buf, off);
    if next.None? then []
    else if next.value.0.BadFrame? then [BadFrame]
    else [next.value.0] + Frames(buf, next.value.1)
  }

  predicate AllZero(buf: seq<byte>, off: nat) {
    forall i :: off <= i < |buf| ==> buf[i] == 0
  }

  /** The attribute at `off`; zero bytes or a zero length end the list. */
  function NextAttr(buf: seq<byte>, off: nat): (r: Option<(Attr, nat)>)
    ensures r.Some? && r.value.0.Attr? ==> off < |buf| && off < r.value.1
  {
    if off >= |buf| || AllZero(buf, off) then None
    else if off + 4 > |buf| then Some((BadAttr, |buf|))
    else
      var length: nat := U16Le(buf, off);
      if length == 0 then None
      else if length < 4 || off + length > |buf| then Some((BadAttr, |buf|))
      else Some((Attr(U16Le(buf, off + 2) % 0x4000, buf[off + 4..off + length]), off + Align(length)))
  }

  /** The attributes from `off` on; anything malformed is the last item. */
  function Attrs(buf: seq<byte>, off: nat): seq<Attr>
    decreases |buf| - off
  {
    var next := NextAttr(buf, off);
    if next.None? then []
    else if next.value.0.BadAttr? then [BadAttr]
    else [next.value.0] + Attrs(buf, next.value.1)
  }

  // ----- the cursors

  class NetlinkMessages {
    const buffer: seq<byte>
    var offset: nat

    constructor (buffer: seq<byte>)
      ensures this.buffer == buffer && offset == 0
    {
      this.buffer, offset := buffer, 0;
    }

    method Next() returns (item: Option<Frame>)
      modifies this
      ensures NextFrame(buffer, old(offset)) == if item.None? then None else Some((item.value, offset))
      ensures Frames(buffer, old(offset))
           == if item.None? then [] else [item.value] + (if item.value.BadFrame? then [] else Frames(buffer, offset))
      ensures item.None? ==> offset == old(offset)
      ensures item.Some? && item.value.Frame? ==> old(offset) < offset
      ensures item.Some? && item.value.BadFrame? ==> offset == |buffer| != old(offset)
    {
      if offset == |buffer| {
        return None;
      }
      if offset + HEADER > |buffer| {
        offset := |buffer|;
        return Some(BadFrame);
      }
      var base := offset;
      var length: nat := U32Le(buffer, base);
      if length < HEADER || length > |buffer| - base {
        offset := |buffer|;
        return Some(BadFrame);
      }
      offset := base + Align(length);
      item := Some(Frame(U16Le(buffer, base + 4), buffer[base + HEADER..base + length]));
    }
  }

  class NetlinkAttributes {
    const buffer: seq<byte>
    var offset: nat

    constructor (buffer: seq<byte>)
      ensures this.buffer == buffer && offset == 0
    {
      this.buffer, offset := buffer, 0;
    }

    method Next() returns (item: Option<Attr>)
      modifies this
      ensures NextAttr(buffer, old(offset)) == if item.None? then None else Some((item.value, offset))
      ensures Attrs(buffer, old(offset))
           == if item.None? then [] else [item.value] + (if item.value.BadAttr? then [] else Attrs(buffer, offset))
      ensures item.None? ==> offset == |buffer|
      ensures item.Some? && item.value.Attr? ==> old(offset) < offset
      ensures item.Some? && item.value.BadAttr? ==> old(offset) < offset == |buffer|
    {
      if offset >= |buffer| || AllZero(buffer, offset) {
        offset := |buffer|;
        return None;
      }
      if offset + 4 > |buffer| {
        offset := |buffer|;
        return Some(BadAttr);
      }
      var base := offset;
      var length: nat := U16Le(buffer, base);
      var kind: u16 := U16Le(buffer, base + 2) % 0x4000;
      if length == 0 {
        offset := |buffer|;
        return None;
      }
      if length < 4 || length > |buffer| - base {
        offset := |buffer|;
        return Some(BadAttr);
      }
      offset := base + Align(length);
      item := Some(Attr(kind, buffer[base + 4..base + length]));
    }
  }

  lemma Advanced<T>(all: seq<T>, done: seq<T>, left: seq<T>, first: T, rest: seq<T>)
    requires all == done + left && left == [first] + rest
    ensures all == done + [first] + rest && (rest == [] ==> all == done + [first])
  {
  }

  /** Running the cursor to its end collects exactly the specified list. */
  method CollectAttrs(buf: seq<byte>) returns (items: seq<Attr>)
    ensures items == Attrs(buf, 0)
  {
    items := [];
    var cursor := new NetlinkAttributes(buf);
    while true
      invariant cursor.buffer == buf
      invariant Attrs(buf, 0) == items + Attrs(buf, cursor.offset)
      decreases if cursor.offset <= |buf| then |buf| - cursor.offset + 1 else 0
    {
      ghost var off := cursor.offset;
      var item := cursor.Next();
      if item.None? {
        assert Attrs(buf, off) == [];
        return;
      }
      ghost var rest := if item.value.BadAttr? then [] else Attrs(buf, cursor.offset);
      Advanced(Attrs(buf, 0), items, Attrs(buf, off), item.value, rest);
      items := items + [item.value];
      if item.value.BadAttr? {
        return;
      }
    }
  }

  // ----- any byte string

  /** Where the values of the well-formed attributes from `off` on lie. */
  function Spans(buf: seq<byte>, off: nat): seq<(nat, nat)>
    decreases |buf| - off
  {
    var next := NextAttr(buf, off);
    if next.None? || next.value.0.BadAttr? then []
    else [(off + 4, off + 4 + |next.value.0.value|)] + Spans(buf, next.value.1)
  }

  /** Disjoint slices of the buffer in increasing order from `lo` on, then at most one error. */
  ghost predicate DisjointSlices(buf: seq<byte>, lo: nat, items: seq<Attr>, spans: seq<(nat, nat)>) {
    && |spans| <= |items| <= |spans| + 1
    && (|items| > |spans| ==> items[|spans|] == BadAttr)
    && (forall i :: 0 <= i < |spans| ==>
          lo + 4 <= spans[i].0 <= spans[i].1 <= |buf| && items[i].Attr?
          && items[i].value == buf[spans[i].0..spans[i].1])
    && (forall i, j :: 0 <= i < j < |spans| ==> spans[i].1 + 4 <= spans[j].0)
  }

  lemma AttrSlice(buf: seq<byte>, off: nat)
    requires NextAttr(buf, off).Some? && NextAttr(buf, off).value.0.Attr?
    ensures var (first, next) := NextAttr(buf, off).value;
            var end := off + 4 + |first.value|;
            end <= |buf| && end <= next && first.value == buf[off + 4..end]
  {
  }

  lemma SliceInFront(
    buf: seq<byte>, lo: nat, first: Attr, end: nat, next: nat, items: seq<Attr>, spans: seq<(nat, nat)>)
    requires lo + 4 <= end <= |buf| && end <= next && first.Attr? && first.value == buf[lo + 4..end]
    requires DisjointSlices(buf, next, items, spans)
    ensures DisjointSlices(buf, lo, [first] + items, [(lo + 4, end)] + spans)
  {
  }

  /**
   * On arbitrary bytes the attributes are disjoint slices of the buffer in increasing order, every header
   * preceding its value, and only the last item can be an error.
   */
  lemma {:induction false} AttrsAreDisjointSlices(buf: seq<byte>, off: nat)
    ensures DisjointSlices(buf, off, Attrs(buf, off), Spans(buf, off))
    decreases |buf| - off
  {
    var next := NextAttr(buf, off);
    if next.Some? && next.value.0.Attr? {
      var (first, rest) := next.value;
      AttrSlice(buf, off);
      AttrsAreDisjointSlices(buf, rest);
      var end, items, spans := off + 4 + |first.value|, Attrs(buf, rest), Spans(buf, rest);
      SliceInFront(buf, off, first, end, rest, items, spans);
      assert Attrs(buf, off) == [first] + items && Spans(buf, off) == [(off + 4, end)] + spans;
    }
  }

  /** Where the payloads of the well-formed messages from `off` on lie. */
  function FrameSpans(buf: seq<byte>, off: nat): seq<(nat, nat)>
    decreases |buf| - off
  {
    var next := NextFrame(buf, off);
    if next.None? || next.value.0.BadFrame? then []
    else [(off + 16, off + 16 + |next.value.0.payload|)] + FrameSpans(buf, next.value.1)
  }

  /** Disjoint payloads in increasing order from `lo` on, a whole header before each, then at most one error. */
  ghost predicate DisjointPayloads(buf: seq<byte>, lo: nat, items: seq<Frame>, spans: seq<(nat, nat)>) {
    && |spans| <= |items| <= |spans| + 1
    && (|items| > |spans| ==> items[|spans|] == BadFrame)
    && (forall i :: 0 <= i < |spans| ==>
          lo + 16 <= spans[i].0 <= spans[i].1 <= |buf| && items[i].Frame?
          && items[i].payload == buf[spans[i].0..spans[i].1])
    && (forall i, j :: 0 <= i < j < |spans| ==> spans[i].1 + 16 <= spans[j].0)
  }

  lemma FrameSlice(buf: seq<byte>, off: nat)
    requires NextFrame(buf, off).Some? && NextFrame(buf, off).value.0.Frame?
    ensures var (first, next) := NextFrame(buf, off).value;
            var end := off + 16 + |first.payload|;
            end <= |buf| && end <= next && first.payload == buf[off + 16..end]
  {
  }

  lemma PayloadInFront(
    buf: seq<byte>, lo: nat, first: Frame, end: nat, next: nat, items: seq<Frame>, spans: seq<(nat, nat)>)
    requires lo + 16 <= end <= |buf| && end <= next && first.Frame? && first.payload == buf[lo + 16..end]
    requires DisjointPayloads(buf, next, items, spans)
    ensures DisjointPayloads(buf, lo, [first] + items, [(lo + 16, end)] + spans)
  {
  }

  /** On arbitrary bytes the payloads of the messages are disjoint slices of the buffer, and an error comes last. */
  lemma {:induction false} FramesAreDisjointSlices(buf: seq<byte>, off: nat)
    ensures DisjointPayloads(buf, off, Frames(buf, off), FrameSpans(buf, off))
    decreases |buf| - off
  {
    var next := NextFrame(buf, off);
    if next.Some? && next.value.0.Frame? {
      var (first, rest) := next.value;
      FrameSlice(buf, off);
      FramesAreDisjointSlices(buf, rest);
      var end, items, spans := off + 16 + |first.payload|, Frames(buf, rest), FrameSpans(buf, rest);
      PayloadInFront(buf, off, first, end, rest, items, spans);
      assert Frames(buf, off) == [first] + items && FrameSpans(buf, off) == [(off + 16, end)] + spans;
    }
  }

  // ----- serialization

  function Pad(n: nat): (r: seq<byte>)
    ensures |r| == Align(n) - n && forall i :: 0 <= i < |r| ==> r[i] == 0
  {
    seq(Align(n) - n, _ => 0)
  }

  /** An attribute to be written: `kind` may carry the nested and byte-order flags above bit 13. */
  datatype RawAttr = RawAttr(kind: u16, value: seq<byte>)

  predicate Fits(a: RawAttr) {
    |a.value| + 4 < 0x1_0000
  }

  function Read(a: RawAttr): Attr {
    Attr(a.kind % 0x4000, a.value)
  }

  function WriteBare(a: RawAttr): (r: seq<byte>)
    requires Fits(a)
    ensures |r| == |a.value| + 4
  {
    Le16(|a.value| + 4) + Le16(a.kind) + a.value
  }

  function WriteAttr(a: RawAttr): (r: seq<byte>)
    requires Fits(a)
    ensures |r| == Align(|a.value| + 4)
  {
    WriteBare(a) + Pad(|a.value| + 4)
  }

  function WriteAttrs(list: seq<RawAttr>): seq<byte>
    requires forall a :: a in list ==> Fits(a)
  {
    if list == [] then [] else WriteAttr(list[0]) + WriteAttrs(list[1..])
  }

  /** Reading an attribute at the start of some bytes, padded or cut short at the end of the buffer. */
  lemma ReadFirst(buf: seq<byte>, off: nat, a: RawAttr)
    requires Fits(a) && off + |a.value| + 4 <= |buf| && buf[off..off + |a.value| + 4] == WriteBare(a)
    ensures Attrs(buf, off) == [Read(a)] + Attrs(buf, off + Align(|a.value| + 4))
  {
    var n := |a.value| + 4;
    SplitSlice(buf, off, 4, n, Le16(n) + Le16(a.kind), a.value);
    SplitSlice(buf, off, 2, 4, Le16(n), Le16(a.kind));
    Le16RoundTrip(buf, off, n);
    Le16RoundTrip(buf, off + 2, a.kind);
    assert buf[off] != 0 || buf[off + 1] != 0;
  }

  lemma MapHead<A, B>(f: A -> B, s: seq<A>)
    requires s != []
    ensures MapSeq(f, s) == [f(s[0])] + MapSeq(f, s[1..])
  {
  }

  /** Parsing inverts serialization wherever it stands, and goes on with whatever follows. */
  lemma {:induction false} AttrsRoundTripAt(buf: seq<byte>, off: nat, list: seq<RawAttr>, end: nat)
    requires forall a :: a in list ==> Fits(a)
    requires off + |WriteAttrs(list)| == end <= |buf| && buf[off..end] == WriteAttrs(list)
    ensures Attrs(buf, off) == MapSeq(Read, list) + Attrs(buf, end)
    decreases list
  {
    if list == [] {
      assert MapSeq(Read, list) + Attrs(buf, end) == Attrs(buf, end);
    } else {
      var next := off + Align(|list[0].value| + 4);
      ReadPadded(buf, off, list[0], WriteAttrs(list[1..]), end);
      AttrsRoundTripAt(buf, next, list[1..], end);
      MapHead(Read, list);
      Regroup(Attrs(buf, off), Read(list[0]), Attrs(buf, next), MapSeq(Read, list[1..]), Attrs(buf, end));
    }
  }

  lemma Regroup<T>(all: seq<T>, head: T, tail: seq<T>, middle: seq<T>, last: seq<T>)
    requires all == [head] + tail && tail == middle + last
    ensures all == [head] + middle + last
  {
  }

  lemma ReadPadded(buf: seq<byte>, off: nat, a: RawAttr, rest: seq<byte>, end: nat)
    requires Fits(a) && off + Align(|a.value| + 4) + |rest| == end <= |buf|
    requires buf[off..end] == WriteAttr(a) + rest
    ensures var next := off + Align(|a.value| + 4);
            Attrs(buf, off) == [Read(a)] + Attrs(buf, next) && buf[next..end] == rest
  {
    var n := |a.value| + 4;
    SplitSlice(buf, off, Align(n), end - off, WriteAttr(a), rest);
    SplitSlice(buf, off, n, Align(n), WriteBare(a), Pad(n));
    ReadFirst(buf, off, a);
  }

  lemma AttrsThen(list: seq<RawAttr>, after: seq<byte>)
    requires forall a :: a in list ==> Fits(a)
    ensures var buf := WriteAttrs(list) + after;
            Attrs(buf, 0) == MapSeq(Read, list) + Attrs(buf, |WriteAttrs(list)|)
            && buf[|WriteAttrs(list)|..] == after
  {
    var code := WriteAttrs(list);
    var buf := code + after;
    assert buf[0..|code|] == code && buf[|code|..] == after;
    AttrsRoundTripAt(buf, 0, list, |code|);
  }

  /** Any list of attributes is read back exactly, with any amount of zero padding behind it. */
  lemma AttrsRoundTrip(list: seq<RawAttr>, zeros: seq<byte>)
    requires forall a :: a in list ==> Fits(a)
    requires forall i :: 0 <= i < |zeros| ==> zeros[i] == 0
    ensures Attrs(WriteAttrs(list) + zeros, 0) == MapSeq(Read, list)
  {
    AttrsThen(list, zeros);
  }

  /** The padding of the final attribute may be missing. */
  lemma FinalPaddingIsOptional(list: seq<RawAttr>, last: RawAttr)
    requires Fits(last) && forall a :: a in list ==> Fits(a)
    ensures Attrs(WriteAttrs(list) + WriteBare(last), 0) == MapSeq(Read, list) + [Read(last)]
  {
    var code := WriteAttrs(list);
    var buf := code + WriteBare(last);
    AttrsThen(list, WriteBare(last));
    ReadFirst(buf, |code|, last);
  }

  /** A zero length ends the list, whatever follows it. */
  lemma ZeroLengthEndsList(list: seq<RawAttr>, after: seq<byte>)
    requires forall a :: a in list ==> Fits(a)
    requires |after| >= 4 && after[0] == 0 && after[1] == 0
    ensures Attrs(WriteAttrs(list) + after, 0) == MapSeq(Read, list)
  {
    AttrsThen(list, after);
    var buf, n := WriteAttrs(list) + after, |WriteAttrs(list)|;
    assert buf[n] == buf[n..][0] && buf[n + 1] == buf[n..][1];
  }

  /** A message to be written: `rest` holds flags, sequence number and port id. */
  datatype RawFrame = RawFrame(kind: u16, rest: seq<byte>, payload: seq<byte>)

  predicate FrameFits(f: RawFrame) {
    |f.rest| == 10 && |f.payload| + HEADER < 0x1_0000_0000
  }

  function ReadFrame(f: RawFrame): Frame {
    Frame(f.kind, f.payload)
  }

  function WriteBareFrame(f: RawFrame): (r: seq<byte>)
    requires FrameFits(f)
    ensures |r| == |f.payload| + HEADER
  {
    Le32(|f.payload| + HEADER) + Le16(f.kind) + f.rest + f.payload
  }

  function WriteFrames(list: seq<RawFrame>): seq<byte>
    requires forall f :: f in list ==> FrameFits(f)
  {
    if list == [] then []
    else WriteBareFrame(list[0]) + Pad(|list[0].payload| + HEADER) + WriteFrames(list[1..])
  }

  lemma ReadFirstFrame(buf: seq<byte>, off: nat, f: RawFrame)
    requires FrameFits(f) && off + |f.payload| + HEADER <= |buf|
    requires buf[off..off + |f.payload| + HEADER] == WriteBareFrame(f)
    ensures Frames(buf, off) == [ReadFrame(f)] + Frames(buf, off + Align(|f.payload| + HEADER))
  {
    FrameHeaderAt(buf, off, f);
  }

  lemma FrameHeaderAt(buf: seq<byte>, off: nat, f: RawFrame)
    requires FrameFits(f) && off + |f.payload| + HEADER <= |buf|
    requires buf[off..off + |f.payload| + HEADER] == WriteBareFrame(f)
    ensures U32Le(buf, off) == |f.payload| + HEADER && U16Le(buf, off + 4) == f.kind
    ensures buf[off + HEADER..off + HEADER + |f.payload|] == f.payload
  {
    var n := |f.payload| + HEADER;
    SplitSlice(buf, off, HEADER, n, Le32(n) + Le16(f.kind) + f.rest, f.payload);
    SplitSlice(buf, off, 6, HEADER, Le32(n) + Le16(f.kind), f.rest);
    SplitSlice(buf, off, 4, 6, Le32(n), Le16(f.kind));
    Le32RoundTrip(buf, off, n);
    Le16RoundTrip(buf, off + 4, f.kind);
  }

  lemma {:induction false} FramesRoundTripAt(buf: seq<byte>, off: nat, list: seq<RawFrame>, end: nat)
    requires forall f :: f in list ==> FrameFits(f)
    requires off + |WriteFrames(list)| == end <= |buf| && buf[off..end] == WriteFrames(list)
    ensures Frames(buf, off) == MapSeq(ReadFrame, list) + Frames(buf, end)
    decreases list
  {
    if list == [] {
      assert MapSeq(ReadFrame, list) + Frames(buf, end) == Frames(buf, end);
    } else {
      var f, rest := list[0], WriteFrames(list[1..]);
      var n := |f.payload| + HEADER;
      FrameApart(buf, off, f, rest, end);
      ReadFirstFrame(buf, off, f);
      FramesRoundTripAt(buf, off + Align(n), list[1..], end);
      MapHead(ReadFrame, list);
      Regroup(Frames(buf, off), ReadFrame(f), Frames(buf, off + Align(n)), MapSeq(ReadFrame, list[1..]),
              Frames(buf, end));
    }
  }

  lemma FrameApart(buf: seq<byte>, off: nat, f: RawFrame, rest: seq<byte>, end: nat)
    requires FrameFits(f) && off + Align(|f.payload| + HEADER) + |rest| == end <= |buf|
    requires buf[off..end] == WriteBareFrame(f) + Pad(|f.payload| + HEADER) + rest
    ensures var n := |f.payload| + HEADER;
            buf[off..off + n] == WriteBareFrame(f) && buf[off + Align(n)..end] == rest
  {
    var n := |f.payload| + HEADER;
    SplitSlice(buf, off, Align(n), end - off, WriteBareFrame(f) + Pad(n), rest);
    SplitSlice(buf, off, n, Align(n), WriteBareFrame(f), Pad(n));
  }

  lemma FramesThen(list: seq<RawFrame>, after: seq<byte>)
    requires forall f :: f in list ==> FrameFits(f)
    ensures var buf := WriteFrames(list) + after;
            Frames(buf, 0) == MapSeq(ReadFrame, list) + Frames(buf, |WriteFrames(list)|)
            && buf[|WriteFrames(list)|..] == after
  {
    var code := WriteFrames(list);
    var buf := code + after;
    assert buf[0..|code|] == code && buf[|code|..] == after;
    FramesRoundTripAt(buf, 0, list, |code|);
  }

  /** Any list of messages is read back exactly. */
  lemma FramesRoundTrip(list: seq<RawFrame>)
    requires forall f :: f in list ==> FrameFits(f)
    ensures Frames(WriteFrames(list), 0) == MapSeq(ReadFrame, list)
  {
    FramesThen(list, []);
    assert WriteFrames(list) + [] == WriteFrames(list);
  }

  lemma AfterFinalFrame(buf: seq<byte>, off: nat, payload: nat)
    requires off + payload + HEADER == |buf|
    ensures Frames(buf, off + Align(payload + HEADER)) == if payload % 4 == 0 then [] else [BadFrame]
  {
    NothingMissing(payload);
  }

  lemma NothingMissing(payload: nat)
    ensures Align(payload + HEADER) == payload + HEADER <==> payload % 4 == 0
  {
  }

  lemma FinalFrame(buf: seq<byte>, off: nat, last: RawFrame, read: seq<Frame>)
    requires off <= |buf| && FrameFits(last) && buf[off..] == WriteBareFrame(last)
    requires Frames(buf, 0) == read + Frames(buf, off)
    ensures Frames(buf, 0) == read + [ReadFrame(last)] + if |last.payload| % 4 == 0 then [] else [BadFrame]
  {
    var n := |last.payload| + HEADER;
    assert buf[off..off + n] == buf[off..];
    ReadFirstFrame(buf, off, last);
    AfterFinalFrame(buf, off, |last.payload|);
    RegroupMiddle(Frames(buf, 0), read, ReadFrame(last), Frames(buf, off + Align(n)));
  }

  lemma RegroupMiddle<T>(all: seq<T>, a: seq<T>, b: T, c: seq<T>)
    requires all == a + ([b] + c)
    ensures all == a + [b] + c
  {
  }

  /**
   * Unlike that of an attribute, the padding of the final message is not optional: without it the message is read,
   * and then an error is reported, unless it needs no padding.
   */
  lemma UnpaddedFrameIsReported(list: seq<RawFrame>, last: RawFrame)
    requires FrameFits(last) && forall f :: f in list ==> FrameFits(f)
    ensures var read := MapSeq(ReadFrame, list) + [ReadFrame(last)];
            var seen := Frames(WriteFrames(list) + WriteBareFrame(last), 0);
            && (seen == read <==> |last.payload| % 4 == 0)
            && (|last.payload| % 4 != 0 ==> seen == read + [BadFrame])
  {
    FramesThen(list, WriteBareFrame(last));
    FinalFrame(WriteFrames(list) + WriteBareFrame(last), |WriteFrames(list)|, last, MapSeq(ReadFrame, list));
  }

  // ----- what is malformed

  /** Behind the padding at the end, an attribute is malformed if its length is neither zero nor in bounds. */
  lemma BadAttrIff(buf: seq<byte>, off: nat, length: nat)
    requires off + 2 <= |buf| ==> length == buf[off] as int + 0x100 * (buf[off + 1] as int)
    ensures NextAttr(buf, off) == Some((BadAttr, |buf|))
       <==> && (exists i :: off <= i < |buf| && buf[i] != 0)
            && (off + 4 > |buf| || (length != 0 && (length < 4 || off + length > |buf|)))
  {
  }

  /** A message is malformed if its header is cut short, or its length is less than the header or out of bounds. */
  lemma BadFrameIff(buf: seq<byte>, off: nat, length: nat)
    requires off + 4 <= |buf| ==>
               length == buf[off] as int + 0x100 * (buf[off + 1] as int) + 0x1_0000 * (buf[off + 2] as int)
                         + 0x100_0000 * (buf[off + 3] as int)
    ensures NextFrame(buf, off) == Some((BadFrame, |buf|))
       <==> off != |buf| && (off + 16 > |buf| || length < 16 || off + length > |buf|)
  {
  }
}
