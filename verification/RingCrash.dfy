/** An append that stops half-way: what the ring still shows after every single byte of its two writes. */
module RingCrash {
  import opened Bytes
  import opened Buckets
  import opened RingCodec
  import opened RingFile

  /** The first `k` bytes of the new record are written. */
  function TornRecord(file: seq<byte>, r: Bucket, k: nat): seq<byte>
    requires DecodeHeader(file).Some? && k <= RECORD_SIZE
  {
    var h := DecodeHeader(file).value;
    Patch(file, SlotOffset(h.version, h.writePos), EncodeRecord(r)[..k])
  }

  /** The record is written, and the first `k` bytes of the header that makes it visible. */
  function TornHeader(file: seq<byte>, r: Bucket, k: nat): seq<byte>
    requires DecodeHeader(file).Some? && k <= HEADER_SIZE
  {
    Patch(TornRecord(file, r, RECORD_SIZE), 0, EncodeHeader(NextHeader(DecodeHeader(file).value))[..k])
  }

  lemma WholeAppend(file: seq<byte>, r: Bucket)
    requires DecodeHeader(file).Some?
    ensures TornHeader(file, r, HEADER_SIZE) == PutRecord(file, r)
  {
    var code := EncodeHeader(NextHeader(DecodeHeader(file).value));
    assert EncodeRecord(r)[..RECORD_SIZE] == EncodeRecord(r) && code[..HEADER_SIZE] == code;
  }

  /** A readable version 2 ring that is not an empty one with a displaced write position. */
  ghost predicate Appendable(file: seq<byte>, h: Header) {
    DecodeHeader(file) == Some(h) && h.version == 2 && Contents(Some(file)).Some? && WellPlaced(Some(file))
  }

  ghost predicate Full(file: seq<byte>, h: Header) {
    Appendable(file, h) && h.validCount == h.slotCount
  }

  // ----- what a stop leaves behind for the next start

  ghost predicate IsTornFresh(found: Option<seq<byte>>, cap: u32) {
    exists i: nat :: i <= HEADER_SIZE && found == Some(FreshFile(cap)[..i])
  }

  ghost predicate IsTornRecord(content: Option<seq<byte>>, cap: u32, found: Option<seq<byte>>) {
    && Contents(content).Some? && |Contents(content).value| < cap
    && Opened(content, cap).Some? && DecodeHeader(Opened(content, cap).value).Some?
    && exists r, i: nat :: i <= RECORD_SIZE && found == Some(TornRecord(Opened(content, cap).value, r, i))
  }

  /**
   * What can stand at the path when opening with `cap`, or an append with it, stops anywhere before the header write
   * of a ring that is not full.
   */
  ghost predicate LeftBehind(content: Option<seq<byte>>, cap: u32, found: Option<seq<byte>>) {
    || found == content
    || found == Opened(content, cap)
    || (content.None? && IsTornFresh(found, cap))
    || IsTornRecord(content, cap, found)
  }

  // ----- stops inside the record

  /** Whatever bytes of a record are written into a ring that is not full, nothing that is read changes. */
  lemma TornAppendReadsSame(file: seq<byte>, h: Header, torn: seq<byte>)
    requires Appendable(file, h) && h.validCount < h.slotCount && |torn| <= RECORD_SIZE
    ensures var g := Patch(file, SlotOffset(2, h.writePos), torn);
            Contents(Some(g)) == Contents(Some(file)) && DecodeHeader(g) == Some(h)
  {
    var s := Contents(Some(file)).value;
    var off := SlotOffset(2, h.writePos);
    var g := Patch(file, off, torn);
    PatchSlots(file, off, torn, 0, HEADER_SIZE);
    assert g[..HEADER_SIZE] == g[0..HEADER_SIZE] == file[..HEADER_SIZE];
    forall i | 0 <= i < |s|
      ensures RecordAt(g, 2, SlotOf(h, |s|, i)) == Some(s[i])
    {
      assert RecordAt(file, h.version, SlotOf(h, |s|, i)) == Some(s[i]);
      PatchedRecord(file, off, torn, SlotOf(h, |s|, i));
    }
    ShownIsRead(g, UNLIMITED, h, s);
  }

  /** What the oldest record's slot holds after `k` bytes of the new record. */
  function MixedRecord(r: Bucket, oldest: Bucket, k: nat): (m: seq<byte>)
    requires k <= RECORD_SIZE
    ensures |m| == RECORD_SIZE
  {
    EncodeRecord(r)[..k] + EncodeRecord(oldest)[k..]
  }

  lemma PatchedSlot(file: seq<byte>, off: nat, size: nat, data: seq<byte>)
    requires off + size <= |file| && |data| <= size
    ensures var g := Patch(file, off, data);
            off + size <= |g| && g[off..off + size] == data + file[off..off + size][|data|..]
  {
  }

  lemma MixedBytes(file: seq<byte>, off: nat, was: seq<byte>, data: seq<byte>, k: nat)
    requires off + 220 <= |file| && file[off..off + 220] == was && k <= |data| == 220
    ensures var g := Patch(file, off, data[..k]); off + 220 <= |g| && g[off..off + 220] == data[..k] + was[k..]
  {
    PatchedSlot(file, off, 220, data[..k]);
  }

  lemma BytesInSlot(file: seq<byte>, slot: nat, off: nat, b: Bucket)
    requires RecordAt(file, 2, slot) == Some(b) && off == SlotOffset(2, slot)
    ensures off + 220 <= |file| && file[off..off + 220] == EncodeRecord(b)
  {
    RecordRoundTrip(file[off..off + 220], b);
  }

  lemma SlotOfBytes(g: seq<byte>, slot: nat, off: nat, data: seq<byte>)
    requires off == SlotOffset(2, slot) && off + 220 <= |g| && g[off..off + 220] == data
    ensures RecordAt(g, 2, slot) == DecodeRecord(data, 2)
  {
  }

  lemma MixedSlot(file: seq<byte>, slot: nat, off: nat, oldest: Bucket, r: Bucket, k: nat, g: seq<byte>)
    requires RecordAt(file, 2, slot) == Some(oldest) && k <= RECORD_SIZE && off == SlotOffset(2, slot)
    requires g == Patch(file, off, EncodeRecord(r)[..k])
    ensures RecordAt(g, 2, slot) == DecodeRecord(MixedRecord(r, oldest, k), 2)
  {
    BytesInSlot(file, slot, off, oldest);
    MixedBytes(file, off, EncodeRecord(oldest), EncodeRecord(r), k);
    SlotOfBytes(g, slot, off, MixedRecord(r, oldest, k));
  }

  lemma OldestComesFirst(h: Header, i: nat, slot: nat)
    requires ValidHeader(h) && h.validCount == h.slotCount && i < h.validCount && slot == SlotOf(h, h.validCount, i)
    ensures slot == h.writePos <==> i == 0
  {
  }

  lemma YoungerStays(file: seq<byte>, g: seq<byte>, pos: nat, torn: seq<byte>, slot: nat)
    requires g == Patch(file, SlotOffset(2, pos), torn) && slot != pos && |torn| <= RECORD_SIZE
    requires SlotOffset(2, pos) <= |file| && RecordAt(file, 2, slot).Some?
    ensures RecordAt(g, 2, slot) == RecordAt(file, 2, slot)
  {
    PatchedRecord(file, SlotOffset(2, pos), torn, slot);
  }

  lemma YoungerAt(
      file: seq<byte>, g: seq<byte>, h: Header, torn: seq<byte>, s: seq<Bucket>, i: nat, slot: nat, b: Bucket)
    requires ValidHeader(h) && h.version == 2 && h.validCount == h.slotCount == |s| && |torn| <= RECORD_SIZE
    requires Shows(file, h, s) && SlotOffset(2, h.writePos) <= |file| && 0 < i < |s| && b == s[i]
    requires g == Patch(file, SlotOffset(2, h.writePos), torn) && slot == SlotOf(h, |s|, i)
    ensures RecordAt(g, 2, slot) == Some(b)
  {
    OldestComesFirst(h, i, slot);
    assert RecordAt(file, h.version, SlotOf(h, |s|, i)) == Some(s[i]);
    YoungerStays(file, g, h.writePos, torn, slot);
  }

  lemma OldestRewritten(
      file: seq<byte>, g: seq<byte>, h: Header, torn: seq<byte>, s: seq<Bucket>, r: Bucket, t: seq<Bucket>)
    requires ValidHeader(h) && h.version == 2 && h.validCount == h.slotCount == |s| && |torn| <= RECORD_SIZE
    requires Shows(file, h, s) && SlotOffset(2, h.writePos) <= |file| && t == [r] + s[1..]
    requires g == Patch(file, SlotOffset(2, h.writePos), torn) && RecordAt(g, 2, h.writePos) == Some(r)
    ensures Shows(g, h, t)
  {
    OldestComesFirst(h, 0, SlotOf(h, |t|, 0));
    forall i | 0 < i < |t|
      ensures RecordAt(g, 2, SlotOf(h, |t|, i)) == Some(t[i])
    {
      YoungerAt(file, g, h, torn, s, i, SlotOf(h, |t|, i), t[i]);
    }
  }

  lemma OldestSlot(file: seq<byte>, h: Header)
    requires Full(file, h)
    ensures var s := Contents(Some(file)).value; |s| == h.slotCount && RecordAt(file, 2, h.writePos) == Some(s[0])
  {
    assert SlotOf(h, h.validCount, 0) == h.writePos;
  }

  /**
   * A full ring overwrites its oldest record. After `k` bytes of the new one the ring is readable exactly when those
   * bytes and the rest of the old one form a record, which is then all that has changed.
   */
  lemma TornOverwriteIff(file: seq<byte>, h: Header, r: Bucket, k: nat)
    requires Full(file, h) && k <= RECORD_SIZE
    ensures var s := Contents(Some(file)).value;
            var first := DecodeRecord(MixedRecord(r, s[0], k), 2);
            Contents(Some(TornRecord(file, r, k))) == if first.None? then None else Some([first.value] + s[1..])
  {
    var s := Contents(Some(file)).value;
    var off, torn := SlotOffset(2, h.writePos), EncodeRecord(r)[..k];
    var g := Patch(file, off, torn);
    OldestSlot(file, h);
    MixedSlot(file, h.writePos, SlotOffset(2, h.writePos), s[0], r, k, g);
    PatchSlots(file, off, torn, 0, HEADER_SIZE);
    assert g[..HEADER_SIZE] == g[0..HEADER_SIZE] == file[..HEADER_SIZE];
    SlotInFile(file, h, |s|, 0);
    OverwrittenReads(file, g, h, torn, s);
  }

  lemma OverwrittenReads(file: seq<byte>, g: seq<byte>, h: Header, torn: seq<byte>, s: seq<Bucket>)
    requires Full(file, h) && Contents(Some(file)) == Some(s) && |torn| <= RECORD_SIZE
    requires var off := SlotOffset(2, h.writePos); off + RECORD_SIZE <= |file| && g == Patch(file, off, torn)
    requires DecodeHeader(g) == Some(h)
    ensures var first := RecordAt(g, 2, h.writePos);
            Contents(Some(g)) == if first.None? then None else Some([first.value] + s[1..])
  {
    assert SlotOf(h, |s|, 0) == h.writePos;
    if RecordAt(g, 2, h.writePos).Some? {
      var r := RecordAt(g, 2, h.writePos).value;
      OldestRewritten(file, g, h, torn, s, r, [r] + s[1..]);
      ShownIsRead(g, UNLIMITED, h, [r] + s[1..]);
    }
  }

  lemma TornFreshReopens(found: Option<seq<byte>>, cap: u32, next: u32)
    requires 0 < cap && 0 < next && IsTornFresh(found, cap)
    ensures Opened(found, next).Some? && WellPlaced(Opened(found, next)) && Contents(Opened(found, next)) == Some([])
  {
    var i: nat :| i <= HEADER_SIZE && found == Some(FreshFile(cap)[..i]);
    if i < HEADER_SIZE {
      assert DecodeHeader(found.value).None?;
      OpenKeepsNewest(None, next);
    } else {
      assert FreshFile(cap)[..i] == FreshFile(cap);
      OpenKeepsNewest(None, cap);
      OpenKeepsNewest(found, next);
    }
  }

  lemma TornRecordReopens(content: Option<seq<byte>>, cap: u32, found: Option<seq<byte>>, next: u32)
    requires 0 < cap && 0 < next && WellPlaced(content) && IsTornRecord(content, cap, found)
    ensures Opened(found, next).Some? && WellPlaced(Opened(found, next))
    ensures Contents(Opened(found, next)) == Some(LastN(Contents(content).value, next))
  {
    OpenKeepsNewest(content, cap);
    var file := Opened(content, cap).value;
    var r, i: nat :| i <= RECORD_SIZE && found == Some(TornRecord(file, r, i));
    TornAppendReadsSame(file, DecodeHeader(file).value, EncodeRecord(r)[..i]);
    OpenKeepsNewest(found, next);
  }

  /** The next start opens what was left, with whatever capacity, and finds the newest records. */
  lemma LeftBehindReopens(content: Option<seq<byte>>, cap: u32, found: Option<seq<byte>>, next: u32)
    requires 0 < cap && 0 < next && WellPlaced(content) && Contents(content).Some? && LeftBehind(content, cap, found)
    ensures Opened(found, next).Some? && WellPlaced(Opened(found, next))
    ensures var q := Contents(content).value;
            || Contents(Opened(found, next)) == Some(LastN(q, next))
            || Contents(Opened(found, next)) == Some(LastN(LastN(q, cap), next))
  {
    if found == content {
      OpenKeepsNewest(content, next);
    } else if found == Opened(content, cap) {
      OpenKeepsNewest(content, cap);
      OpenKeepsNewest(found, next);
    } else if content.None? && IsTornFresh(found, cap) {
      TornFreshReopens(found, cap, next);
    } else {
      TornRecordReopens(content, cap, found, next);
    }
  }

  // ----- one changed byte is enough

  lemma {:induction false} FirstDifference(a: seq<byte>, b: seq<byte>) returns (d: nat)
    requires |a| == |b| && a != b
    ensures d < |a| && a[..d] == b[..d] && a[d] != b[d]
    decreases |a|
  {
    if a[0] != b[0] {
      d := 0;
    } else {
      var e := FirstDifference(a[1..], b[1..]);
      d := e + 1;
      assert a[..d] == [a[0]] + a[1..][..e] && b[..d] == [b[0]] + b[1..][..e];
    }
  }

  /** Writing up to and including the first difference changes exactly one byte. */
  lemma OneByteWritten(a: seq<byte>, b: seq<byte>, d: nat)
    requires |a| == |b| && d < |a| && a[..d] == b[..d]
    ensures a[..d + 1] + b[d + 1..] == b[d := a[d]]
  {
    assert forall i :: 0 <= i < d ==> a[..d][i] == a[i] && b[..d][i] == b[i];
  }

  lemma SameMix(r: Bucket, k: nat)
    requires k <= RECORD_SIZE
    ensures DecodeRecord(MixedRecord(r, r, k), 2) == Some(r)
  {
    assert MixedRecord(r, r, k) == EncodeRecord(r);
    RecordRoundTrip(EncodeRecord(r), r);
  }

  lemma MixIsRejected(r: Bucket, oldest: Bucket, d: nat)
    requires d < RECORD_SIZE && EncodeRecord(r)[..d] == EncodeRecord(oldest)[..d]
    requires EncodeRecord(r)[d] != EncodeRecord(oldest)[d]
    ensures DecodeRecord(MixedRecord(r, oldest, d + 1), 2) == None
  {
    OneByteWritten(EncodeRecord(r), EncodeRecord(oldest), d);
    RecordRoundTrip(EncodeRecord(oldest), oldest);
    DamagedRecordRejected(EncodeRecord(oldest), 2, d, EncodeRecord(r)[d]);
  }

  /** Overwriting has a stop that makes the whole ring unreadable, unless the new record is the one overwritten. */
  lemma OverwriteCanLoseRingIff(file: seq<byte>, h: Header, r: Bucket)
    requires Full(file, h)
    ensures (exists k: nat :: k <= RECORD_SIZE && Contents(Some(TornRecord(file, r, k))) == None)
            <==> r != Contents(Some(file)).value[0]
  {
    var oldest := Contents(Some(file)).value[0];
    if r == oldest {
      forall k: nat | k <= RECORD_SIZE
        ensures Contents(Some(TornRecord(file, r, k))) != None
      {
        SameMix(r, k);
        TornOverwriteIff(file, h, r, k);
      }
    } else {
      RecordRoundTrip(EncodeRecord(oldest), oldest);
      RecordRoundTrip(EncodeRecord(oldest), r);
      var d := FirstDifference(EncodeRecord(r), EncodeRecord(oldest));
      MixIsRejected(r, oldest, d);
      TornOverwriteIff(file, h, r, d + 1);
      assert Contents(Some(TornRecord(file, r, d + 1))) == None;
    }
  }

  lemma {:induction false} FirstWord(w: seq<u64>)
    requires w != []
    ensures EncodeWords(w)[..8] == Le64(w[0])
    decreases |w|
  {
    if |w| == 1 {
      assert w[..0] == [] && EncodeWords(w) == [] + Le64(w[0]);
    } else {
      FirstWord(w[..|w| - 1]);
    }
  }

  lemma LowByte(v: u64)
    ensures Le64(v)[0] == v % 0x100
  {
    var low: u32 := v % 0x1_0000_0000;
    assert Le64(v)[0] == Le32(low)[0] == Le16(low % 0x1_0000)[0];
    LowByteOf(v, low);
  }

  lemma LowByteOf(v: nat, low: nat)
    requires low == v % 0x1_0000_0000
    ensures low % 0x1_0000 % 0x100 == v % 0x100
  {
    SameRemainder(v, low, 0x100_0000 * (v / 0x1_0000_0000));
    SameRemainder(low, low % 0x1_0000, 0x100 * (low / 0x1_0000));
  }

  lemma SameRemainder(v: nat, low: nat, a: nat)
    requires v == 0x100 * a + low
    ensures v % 0x100 == low % 0x100
  {
    var q, r := low / 0x100, low % 0x100;
    assert v == 0x100 * (a + q) + r;
    Remainder(v, a + q, r);
  }

  lemma Remainder(v: nat, q: nat, r: nat)
    requires v == 0x100 * q + r && r < 0x100
    ensures v % 0x100 == r
  {
  }

  lemma FirstByte(b: Bucket)
    ensures EncodeRecord(b)[0] == b.start % 0x100
  {
    FirstOfRecord(Words(b), EncodeRecord(b));
  }

  lemma FirstOfRecord(w: seq<u64>, data: seq<byte>)
    requires w != [] && data == Sealed(EncodeWords(w))
    ensures data[0] == w[0] % 0x100
  {
    FirstWord(w);
    LowByte(w[0]);
    assert data[0] == EncodeWords(w)[..8][0];
  }

  lemma FirstByteRejected(r: Bucket, oldest: Bucket)
    requires r.start % 0x100 != oldest.start % 0x100
    ensures DecodeRecord(MixedRecord(r, oldest, 1), 2) == None
  {
    FirstByte(oldest);
    FirstByte(r);
    assert EncodeRecord(r)[..0] == EncodeRecord(oldest)[..0];
    MixIsRejected(r, oldest, 0);
  }

  /** A single byte is enough if the first bytes of the two hours differ. */
  lemma FirstByteLosesRing(file: seq<byte>, h: Header, r: Bucket)
    requires Full(file, h) && r.start % 0x100 != Contents(Some(file)).value[0].start % 0x100
    ensures Contents(Some(TornRecord(file, r, 1))) == None
  {
    FirstByteRejected(r, Contents(Some(file)).value[0]);
    TornOverwriteIff(file, h, r, 1);
  }

  /** Such a ring, as this program writes it. */
  lemma FullRingIsLost()
    ensures var a, b := EmptyBucket(0, 0), EmptyBucket(1, 0);
            var file := RebuiltFile(1, [a]);
            && DecodeHeader(file).Some? && Contents(Some(file)) == Some([a])
            && Contents(Some(TornRecord(file, b, 1))) == None
  {
    RebuiltReadsBack(1, [EmptyBucket(0, 0)]);
    FirstByteLosesRing(RebuiltFile(1, [EmptyBucket(0, 0)]), RebuiltHeader(1, 1), EmptyBucket(1, 0));
  }

  // ----- stops inside the header

  /** The header's bytes after `k` bytes of the next one. */
  function MixedHeader(file: seq<byte>, k: nat): (m: seq<byte>)
    requires DecodeHeader(file).Some? && k <= HEADER_SIZE
    ensures |m| == HEADER_SIZE
  {
    EncodeHeader(NextHeader(DecodeHeader(file).value))[..k] + file[k..HEADER_SIZE]
  }

  lemma TornHeaderBytes(file: seq<byte>, r: Bucket, k: nat)
    requires DecodeHeader(file).Some? && k <= HEADER_SIZE
    ensures TornHeader(file, r, k)[..HEADER_SIZE] == MixedHeader(file, k)
    ensures DecodeHeader(TornHeader(file, r, k)) == ParseHeader(MixedHeader(file, k))
    ensures |TornHeader(file, r, k)| == |TornRecord(file, r, RECORD_SIZE)|
  {
  }

  lemma MixSlice(a: seq<byte>, b: seq<byte>, k: nat, lo: nat, hi: nat)
    requires |a| == |b| && k <= |a| && lo <= hi <= |a|
    ensures var c := if k <= lo then 0 else if k >= hi then hi - lo else k - lo;
            (a[..k] + b[k..])[lo..hi] == a[lo..hi][..c] + b[lo..hi][c..]
  {
  }

  lemma SameSlice(a: seq<byte>, b: seq<byte>, k: nat, lo: nat, hi: nat)
    requires |a| == |b| && k <= |a| && lo <= hi <= |a| && a[lo..hi] == b[lo..hi]
    ensures (a[..k] + b[k..])[lo..hi] == b[lo..hi]
  {
    var c := if k <= lo then 0 else if k >= hi then hi - lo else k - lo;
    MixSlice(a, b, k, lo, hi);
    assert b[lo..hi][..c] + b[lo..hi][c..] == b[lo..hi];
  }

  /** A header's first 32 bytes are the encoding of what it says; the rest is not looked at. */
  lemma HeaderBytes(file: seq<byte>, h: Header)
    requires DecodeHeader(file) == Some(h)
    ensures file[8..12] == Le32(h.version) && file[12..16] == Le32(h.slotCount) && file[16..20] == Le32(h.writePos)
    ensures file[20..24] == Le32(h.validCount) && file[24..28] == Le32(h.recordSize)
    ensures file[..32] == Sealed(HeaderBody(h))
  {
    var buf := file[..HEADER_SIZE];
    HeaderWords(buf, h);
    SealedIff(buf[..32], 28);
    assert buf[..32][28..32] == buf[28..32] && buf[..32][..28] == buf[..28];
    assert buf[..28] == buf[..8] + buf[8..12] + buf[12..16] + buf[16..20] + buf[20..24] + buf[24..28];
    assert forall i, j :: 0 <= i <= j <= HEADER_SIZE ==> file[i..j] == buf[i..j];
  }

  lemma HeaderWords(buf: seq<byte>, h: Header)
    requires |buf| == HEADER_SIZE && ParseHeader(buf) == Some(h)
    ensures buf[8..12] == Le32(h.version) && buf[12..16] == Le32(h.slotCount) && buf[16..20] == Le32(h.writePos)
    ensures buf[20..24] == Le32(h.validCount) && buf[24..28] == Le32(h.recordSize)
  {
    Le32RoundTrip(buf, 8, h.version);
    Le32RoundTrip(buf, 12, h.slotCount);
    Le32RoundTrip(buf, 16, h.writePos);
    Le32RoundTrip(buf, 20, h.validCount);
    Le32RoundTrip(buf, 24, h.recordSize);
  }

  lemma MixedHalf(x: u16, y: u16, c: nat)
    requires c <= 2 && (y == x || y == x + 1 || (x == 0xffff && y == 0))
    ensures U16Le(Le16(y)[..c] + Le16(x)[c..], 0) <= if y == 0 then x else y
  {
    var lo, hi := if c > 0 then y % 0x100 else x % 0x100, if c > 1 then y / 0x100 else x / 0x100;
    assert Le16(y)[..c] + Le16(x)[c..] == [lo, hi];
  }

  lemma Halves(a: seq<byte>, b: seq<byte>)
    requires |a| == 2 && |b| == 2
    ensures U32Le(a + b, 0) == U16Le(a, 0) + 0x1_0000 * U16Le(b, 0)
  {
  }

  lemma MixPair(a: seq<byte>, a2: seq<byte>, b: seq<byte>, b2: seq<byte>, c: nat)
    requires |a| == |a2| == |b| == |b2| == 2 && c <= 4
    ensures c <= 2 ==> (a + a2)[..c] + (b + b2)[c..] == (a[..c] + b[c..]) + b2
    ensures c > 2 ==> (a + a2)[..c] + (b + b2)[c..] == a + (a2[..c - 2] + b2[c - 2..])
  {
  }

  /** Part of a counter that grows by one is never more than the grown counter. */
  lemma MixedWord(x: u32, c: nat)
    requires x + 1 < U32 && c <= 4
    ensures var s := Le32(x + 1)[..c] + Le32(x)[c..]; |s| == 4 && U32Le(s, 0) <= x + 1
  {
    var lo, hi, nextLo, nextHi := x % 0x1_0000, x / 0x1_0000, (x + 1) % 0x1_0000, (x + 1) / 0x1_0000;
    MixPair(Le16(nextLo), Le16(nextHi), Le16(lo), Le16(hi), c);
    if c <= 2 {
      MixedHalf(lo, nextLo, c);
      Le16Whole(hi);
      Halves(Le16(nextLo)[..c] + Le16(lo)[c..], Le16(hi));
    } else {
      MixedHalf(hi, nextHi, c - 2);
      Le16Whole(nextLo);
      Halves(Le16(nextLo), Le16(nextHi)[..c - 2] + Le16(hi)[c - 2..]);
    }
  }

  lemma Le16Whole(v: u16)
    ensures U16Le(Le16(v), 0) == v
  {
    assert Le16(v)[0..0 + 2] == Le16(v);
    Le16RoundTrip(Le16(v), 0, v);
  }

  /** A mixture can only disagree with the old header in its write position and its count, and not count too much. */
  lemma MixedFields(file: seq<byte>, h: Header, k: nat, m: Header)
    requires DecodeHeader(file) == Some(h) && h.version == 2 && k <= HEADER_SIZE
    requires ParseHeader(MixedHeader(file, k)) == Some(m)
    ensures m.version == 2 && m.slotCount == h.slotCount && m.validCount <= NextHeader(h).validCount
  {
    var a, b, mix := EncodeHeader(NextHeader(h)), file[..HEADER_SIZE], MixedHeader(file, k);
    assert mix == a[..k] + b[k..];
    assert a[..HEADER_SIZE] == a;
    HeaderRoundTrip(a, NextHeader(h));
    HeaderWords(a, NextHeader(h));
    HeaderWords(b, h);
    HeaderWords(mix, m);
    SameSlice(a, b, k, 8, 12);
    SameSlice(a, b, k, 12, 16);
    MixSlice(a, b, k, 20, 24);
    Le32Injective(m.version, 2);
    Le32Injective(m.slotCount, h.slotCount);
    var c := if k <= 20 then 0 else if k >= 24 then 4 else k - 20;
    MixedCount(h, c, mix[20..24], m.validCount);
  }

  lemma Le32Injective(a: u32, b: u32)
    ensures Le32(a) == Le32(b) <==> a == b
  {
    assert Le32(a)[0..0 + 4] == Le32(a);
    Le32RoundTrip(Le32(a), 0, a);
    Le32RoundTrip(Le32(a), 0, b);
  }

  lemma MixedCount(h: Header, c: nat, word: seq<byte>, count: u32)
    requires ValidHeader(h) && c <= 4 && word == Le32(NextHeader(h).validCount)[..c] + Le32(h.validCount)[c..]
    requires word == Le32(count)
    ensures count <= NextHeader(h).validCount
  {
    assert word[0..0 + 4] == word;
    Le32RoundTrip(word, 0, count);
    if h.validCount < h.slotCount {
      MixedWord(h.validCount, c);
    } else {
      assert word == Le32(h.validCount);
      Le32Injective(count, h.validCount);
    }
  }

  /** Every slot the next header counts is readable once the record is written. */
  lemma SlotAfterRecord(file: seq<byte>, h: Header, r: Bucket, j: nat)
    requires Appendable(file, h) && j < NextHeader(h).validCount
    ensures RecordAt(TornRecord(file, r, RECORD_SIZE), 2, j).Some?
  {
    var off := SlotOffset(2, h.writePos);
    assert EncodeRecord(r)[..RECORD_SIZE] == EncodeRecord(r) && off <= |file|;
    if j == h.writePos {
      PatchHere(file, off, EncodeRecord(r));
      FreshSlot(Patch(file, off, EncodeRecord(r)), h.writePos, r);
    } else {
      var i := if h.validCount < h.slotCount then j else if j > h.writePos then j - h.writePos
               else j - h.writePos + h.slotCount;
      assert SlotOf(h, h.validCount, i) == j && RecordAt(file, 2, j).Some?;
      PatchedRecord(file, off, EncodeRecord(r), j);
    }
  }

  lemma SlotAfterHeader(file: seq<byte>, h: Header, r: Bucket, k: nat, j: nat)
    requires Appendable(file, h) && k <= HEADER_SIZE && j < NextHeader(h).validCount
    ensures RecordAt(TornHeader(file, r, k), 2, j) == RecordAt(TornRecord(file, r, RECORD_SIZE), 2, j)
    ensures RecordAt(TornHeader(file, r, k), 2, j).Some?
  {
    SlotAfterRecord(file, h, r, j);
    PatchedRecord(TornRecord(file, r, RECORD_SIZE), 0, EncodeHeader(NextHeader(h))[..k], j);
  }

  /**
   * After the record and `k` bytes of the header the ring is readable exactly when the mixture of the two headers has
   * its checksum right and, if it counts some but not all slots, ends at its write position.
   */
  lemma TornHeaderIff(file: seq<byte>, h: Header, r: Bucket, k: nat)
    requires Appendable(file, h) && k <= HEADER_SIZE
    ensures var m := ParseHeader(MixedHeader(file, k));
            Contents(Some(TornHeader(file, r, k))).Some? <==> m.Some? && SizeBounds(m.value).Some?
  {
    TornHeaderBytes(file, r, k);
    if ParseHeader(MixedHeader(file, k)).Some? && SizeBounds(ParseHeader(MixedHeader(file, k)).value).Some? {
      var m := ParseHeader(MixedHeader(file, k)).value;
      MixedFields(file, h, k, m);
      forall i | 0 <= i < m.validCount
        ensures RecordAt(TornHeader(file, r, k), 2, SlotOf(m, m.validCount, i)).Some?
      {
        SlotAfterHeader(file, h, r, k, SlotOf(m, m.validCount, i));
      }
      MixFits(file, h, r, TornHeader(file, r, k), m);
    }
  }

  lemma MixFits(file: seq<byte>, h: Header, r: Bucket, g: seq<byte>, m: Header)
    requires Appendable(file, h) && |g| == |TornRecord(file, r, RECORD_SIZE)|
    requires ValidHeader(m) && m.version == 2 && m.slotCount == h.slotCount
    requires m.validCount <= NextHeader(h).validCount && SizeBounds(m).Some?
    ensures SizeFits(g, m)
  {
  }

  lemma OtherSlots(file: seq<byte>, h: Header, r: Bucket, k: nat)
    requires Appendable(file, h) && k <= HEADER_SIZE
    ensures var g := TornHeader(file, r, k);
            && RecordAt(g, 2, h.writePos) == Some(r)
            && (forall j :: 0 <= j < h.slotCount && j != h.writePos && RecordAt(file, 2, j).Some? ==>
                  RecordAt(g, 2, j) == RecordAt(file, 2, j))
  {
    var off, code := SlotOffset(2, h.writePos), EncodeHeader(NextHeader(h))[..k];
    var mid := Patch(file, off, EncodeRecord(r));
    assert EncodeRecord(r)[..RECORD_SIZE] == EncodeRecord(r) && off <= |file|;
    PutSlot(file, off, r, code, h.writePos);
    forall j | 0 <= j < h.slotCount && j != h.writePos && RecordAt(file, 2, j).Some?
      ensures RecordAt(Patch(mid, 0, code), 2, j) == RecordAt(file, 2, j)
    {
      PatchedTwice(file, off, EncodeRecord(r), code, h.writePos, j);
    }
  }

  /** Once the mixture is the next header, the append is done. */
  lemma NextHeaderReads(file: seq<byte>, h: Header, r: Bucket, k: nat)
    requires Appendable(file, h) && k <= HEADER_SIZE && ParseHeader(MixedHeader(file, k)) == Some(NextHeader(h))
    ensures Contents(Some(TornHeader(file, r, k))) == Some(LastN(Contents(Some(file)).value + [r], h.slotCount))
  {
    var g, s := TornHeader(file, r, k), Contents(Some(file)).value;
    TornHeaderBytes(file, r, k);
    OtherSlots(file, h, r, k);
    NextShown(file, g, h, s, r);
    MixFits(file, h, r, g, NextHeader(h));
    ShownIsRead(g, UNLIMITED, NextHeader(h), LastN(s + [r], h.slotCount));
  }

  /** While the mixture is still the old header, the ring shows what it showed when the record was written. */
  lemma OldHeaderReads(file: seq<byte>, h: Header, r: Bucket, k: nat)
    requires Appendable(file, h) && k <= HEADER_SIZE && ParseHeader(MixedHeader(file, k)) == Some(h)
    ensures Contents(Some(TornHeader(file, r, k))) == Contents(Some(TornRecord(file, r, RECORD_SIZE)))
    ensures Contents(Some(TornHeader(file, r, k))).Some?
  {
    var f, g := TornRecord(file, r, RECORD_SIZE), TornHeader(file, r, k);
    TornHeaderIff(file, h, r, k);
    TornHeaderBytes(file, r, k);
    PatchSlots(file, SlotOffset(2, h.writePos), EncodeRecord(r)[..RECORD_SIZE], 0, HEADER_SIZE);
    assert f[..HEADER_SIZE] == f[0..HEADER_SIZE] == file[..HEADER_SIZE];
    OldSlotsStay(file, h, r, k, Contents(Some(g)).value);
    ShownIsRead(f, UNLIMITED, h, Contents(Some(g)).value);
  }

  lemma OldSlotsStay(file: seq<byte>, h: Header, r: Bucket, k: nat, s: seq<Bucket>)
    requires Appendable(file, h) && k <= HEADER_SIZE && |s| == h.validCount && Shows(TornHeader(file, r, k), h, s)
    ensures Shows(TornRecord(file, r, RECORD_SIZE), h, s)
  {
    forall i | 0 <= i < |s|
      ensures RecordAt(TornRecord(file, r, RECORD_SIZE), 2, SlotOf(h, |s|, i)) == Some(s[i])
    {
      assert RecordAt(TornHeader(file, r, k), h.version, SlotOf(h, |s|, i)) == Some(s[i]);
      SlotAfterHeader(file, h, r, k, SlotOf(h, |s|, i));
    }
  }

  lemma SamePrefixSameHeader(a: seq<byte>, b: seq<byte>)
    requires |a| == |b| == HEADER_SIZE && a[..32] == b[..32]
    ensures ParseHeader(a) == ParseHeader(b)
  {
    assert a[..8] == a[..32][..8] && b[..8] == b[..32][..8] && a[..28] == a[..32][..28] && b[..28] == b[..32][..28];
    SameWord(a, b, 8);
    SameWord(a, b, 12);
    SameWord(a, b, 16);
    SameWord(a, b, 20);
    SameWord(a, b, 24);
    SameWord(a, b, 28);
  }

  lemma SameWord(a: seq<byte>, b: seq<byte>, i: nat)
    requires |a| >= 32 && |b| >= 32 && a[..32] == b[..32] && i + 4 <= 32
    ensures U32Le(a, i) == U32Le(b, i)
  {
    assert forall j :: 0 <= j < 32 ==> a[j] == a[..32][j] && b[j] == b[..32][j];
  }

  lemma HeadersDiffer(h: Header, g: Header)
    requires ValidHeader(h) && ValidHeader(g) && h != g
    ensures Sealed(HeaderBody(h)) != Sealed(HeaderBody(g))
  {
    assert EncodeHeader(h)[..HEADER_SIZE] == EncodeHeader(h) && EncodeHeader(g)[..HEADER_SIZE] == EncodeHeader(g);
    HeaderRoundTrip(EncodeHeader(h), h);
    HeaderRoundTrip(EncodeHeader(g), g);
  }

  lemma HeaderMixIsRejected(file: seq<byte>, h: Header, d: nat)
    requires DecodeHeader(file) == Some(h) && d < 32
    requires var a := EncodeHeader(NextHeader(h)); a[..d] == file[..d] && a[d] != file[d]
    ensures ParseHeader(MixedHeader(file, d + 1)) == None
  {
    var a, b := EncodeHeader(NextHeader(h)), file[..HEADER_SIZE];
    assert a[..d] == b[..d];
    OneByteWritten(a, b, d);
    assert b[..HEADER_SIZE] == b && b[d := a[d]][..HEADER_SIZE] == b[d := a[d]];
    DamagedHeaderRejected(b, d, a[d]);
  }

  lemma OnlySlotKeepsHeader(file: seq<byte>, h: Header, r: Bucket, k: nat)
    requires Appendable(file, h) && h.slotCount == 1 && h.validCount == 1 && k <= HEADER_SIZE
    ensures Contents(Some(TornHeader(file, r, k))) != None
  {
    var a := EncodeHeader(NextHeader(h));
    assert a[..32] == Sealed(HeaderBody(NextHeader(h)));
    HeaderBytes(file, h);
    SameSlice(a, file[..HEADER_SIZE], k, 0, 32);
    SamePrefixSameHeader(MixedHeader(file, k), file[..HEADER_SIZE]);
    TornHeaderIff(file, h, r, k);
  }

  lemma FirstHeaderByte(file: seq<byte>, h: Header) returns (d: nat)
    requires DecodeHeader(file) == Some(h) && NextHeader(h) != h
    ensures d < 32 && ParseHeader(MixedHeader(file, d + 1)) == None
  {
    var a := EncodeHeader(NextHeader(h));
    assert a[..32] == Sealed(HeaderBody(NextHeader(h)));
    HeaderBytes(file, h);
    HeadersDiffer(NextHeader(h), h);
    d := FirstDifference(a[..32], file[..32]);
    assert a[..d] == a[..32][..d] && file[..d] == file[..32][..d];
    HeaderMixIsRejected(file, h, d);
  }

  /** Writing the header has a stop that makes the ring unreadable, unless it is a full ring of one slot. */
  lemma HeaderCanLoseRingIff(file: seq<byte>, h: Header, r: Bucket)
    requires Appendable(file, h)
    ensures (exists k: nat :: k <= HEADER_SIZE && Contents(Some(TornHeader(file, r, k))) == None)
            <==> !(h.slotCount == 1 && h.validCount == 1)
  {
    if h.slotCount == 1 && h.validCount == 1 {
      forall k: nat | k <= HEADER_SIZE
        ensures Contents(Some(TornHeader(file, r, k))) != None
      {
        OnlySlotKeepsHeader(file, h, r, k);
      }
    } else {
      var d := FirstHeaderByte(file, h);
      TornHeaderIff(file, h, r, d + 1);
      assert Contents(Some(TornHeader(file, r, d + 1))) == None;
    }
  }
}
