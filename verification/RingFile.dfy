/** What the bytes of a ring file mean, and what one append makes of them. */
module RingFile {
  import opened Bytes
  import opened Buckets
  import opened RingCodec
  import Fnv

  const MAGIC: seq<byte> := [0x42, 0x44, 0x58, 0x50, 0x52, 0x4e, 0x47, 0x31]  // "BDXPRNG1"
  const HEADER_SIZE := 64
  const UNLIMITED: u32 := U32 - 1

  datatype Header = Header(version: u32, slotCount: u32, writePos: u32, validCount: u32, recordSize: u32)

  function DefaultHeader(slotCount: u32): Header {
    Header(2, slotCount, 0, 0, RECORD_SIZE)
  }

  function HeaderBody(h: Header): (r: seq<byte>)
    ensures |r| == 28
  {
    MAGIC + Le32(h.version) + Le32(h.slotCount) + Le32(h.writePos) + Le32(h.validCount) + Le32(h.recordSize)
  }

  function Zeros(n: nat): (r: seq<byte>)
    ensures |r| == n && forall i :: 0 <= i < n ==> r[i] == 0
  {
    seq(n, _ => 0)
  }

  function EncodeHeader(h: Header): (r: seq<byte>)
    ensures |r| == HEADER_SIZE
  {
    Sealed(HeaderBody(h)) + Zeros(32)
  }

  predicate ValidHeader(h: Header) {
    && (h.version == 1 || h.version == 2)
    && h.slotCount != 0
    && h.recordSize == RecordSize(h.version)
    && h.writePos < h.slotCount
    && h.validCount <= h.slotCount
  }

  function ParseHeader(buf: seq<byte>): (r: Option<Header>)
    requires |buf| == HEADER_SIZE
    ensures r.Some? ==> ValidHeader(r.value)
  {
    if buf[..8] != MAGIC then None
    else if U32Le(buf, 8) != 1 && U32Le(buf, 8) != 2 then None
    else if U32Le(buf, 28) != Fnv.Checksum(buf[..28]) then None
    else
      var h := Header(U32Le(buf, 8), U32Le(buf, 12), U32Le(buf, 16), U32Le(buf, 20), U32Le(buf, 24));
      if ValidHeader(h) then Some(h) else None
  }

  function DecodeHeader(file: seq<byte>): (r: Option<Header>)
    ensures r.Some? ==> ValidHeader(r.value) && HEADER_SIZE <= |file|
  {
    if |file| < HEADER_SIZE then None else ParseHeader(file[..HEADER_SIZE])
  }

  function SlotOffset(version: u32, slot: nat): nat {
    if version == 1 then 64 + 180 * slot else 64 + 220 * slot
  }

  /** The file sizes a header allows; `None` when a partly filled ring does not end at its write position. */
  function SizeBounds(h: Header): Option<(nat, nat)>
    requires ValidHeader(h)
  {
    var total := SlotOffset(h.version, h.slotCount);
    if h.validCount == 0 then Some((HEADER_SIZE, total))
    else if h.validCount < h.slotCount then
      if h.writePos != h.validCount then None
      else Some((SlotOffset(h.version, h.validCount), total))
    else Some((total, total))
  }

  predicate SizeFits(file: seq<byte>, h: Header)
    requires ValidHeader(h)
  {
    SizeBounds(h).Some? && SizeBounds(h).value.0 <= |file| <= SizeBounds(h).value.1
  }

  /** `x % n` for a sum that passes `n` at most once. */
  function Wrap(x: nat, n: nat): nat
    requires n > 0 && x < 2 * n
  {
    if x < n then x else x - n
  }

  method RingIndex(x: nat, n: nat) returns (r: nat)
    requires n > 0 && x < 2 * n
    ensures r == Wrap(x, n)
  {
    r := x % n;
  }

  /** The slot of the oldest of the newest `count` records. */
  function StartSlot(h: Header, count: nat): (r: nat)
    requires ValidHeader(h) && count <= h.validCount
    ensures r < h.slotCount
  {
    if count <= h.writePos then h.writePos - count else h.writePos + h.slotCount - count
  }

  /** The slot of record `i` (oldest first) of the newest `count`. */
  function SlotOf(h: Header, count: nat, i: nat): (r: nat)
    requires ValidHeader(h) && count <= h.validCount && i < count
    ensures r < h.slotCount
  {
    Wrap(StartSlot(h, count) + i, h.slotCount)
  }

  function RecordAt(file: seq<byte>, version: u32, slot: nat): Option<Bucket> {
    var off := SlotOffset(version, slot);
    if off + RecordSize(version) <= |file| then DecodeRecord(file[off..off + RecordSize(version)], version) else None
  }

  /** The newest `|s|` records of the file are `s`, oldest first. */
  ghost predicate Shows(file: seq<byte>, h: Header, s: seq<Bucket>)
    requires ValidHeader(h) && |s| <= h.validCount
  {
    forall i :: 0 <= i < |s| ==> RecordAt(file, h.version, SlotOf(h, |s|, i)) == Some(s[i])
  }

  /** The first `|s|` of the newest `count` records are `s`. */
  ghost predicate ShowsPrefix(file: seq<byte>, h: Header, count: nat, s: seq<Bucket>)
    requires ValidHeader(h) && |s| <= count <= h.validCount
  {
    forall i :: 0 <= i < |s| ==> RecordAt(file, h.version, SlotOf(h, count, i)) == Some(s[i])
  }

  lemma ShowsMore(file: seq<byte>, h: Header, count: nat, s: seq<Bucket>, r: Bucket)
    requires ValidHeader(h) && |s| < count <= h.validCount && ShowsPrefix(file, h, count, s)
    requires RecordAt(file, h.version, SlotOf(h, count, |s|)) == Some(r)
    ensures ShowsPrefix(file, h, count, s + [r])
  {
  }

  ghost predicate AllReadable(file: seq<byte>, h: Header, count: nat)
    requires ValidHeader(h) && count <= h.validCount
  {
    forall i :: 0 <= i < count ==> RecordAt(file, h.version, SlotOf(h, count, i)).Some?
  }

  ghost function Newest(file: seq<byte>, h: Header, count: nat): (s: seq<Bucket>)
    requires ValidHeader(h) && count <= h.validCount && AllReadable(file, h, count)
    ensures |s| == count && Shows(file, h, s)
  {
    seq(count, i requires 0 <= i < count => RecordAt(file, h.version, SlotOf(h, count, i)).value)
  }

  /** The newest `limit` records, oldest first; `None` when the file must be quarantined. */
  ghost function ReadBack(file: seq<byte>, limit: u32): Option<seq<Bucket>> {
    if DecodeHeader(file).None? then None
    else
      var h := DecodeHeader(file).value;
      var count := Min(h.validCount, limit);
      if SizeFits(file, h) && AllReadable(file, h, count) then Some(Newest(file, h, count)) else None
  }

  lemma ShownIsRead(file: seq<byte>, limit: u32, h: Header, s: seq<Bucket>)
    requires DecodeHeader(file) == Some(h) && SizeFits(file, h) && |s| == Min(h.validCount, limit) && Shows(file, h, s)
    ensures ReadBack(file, limit) == Some(s)
  {
    assert AllReadable(file, h, |s|);
    assert Newest(file, h, |s|) == s;
  }

  lemma ReadIsShown(file: seq<byte>, limit: u32) returns (h: Header, s: seq<Bucket>)
    requires ReadBack(file, limit).Some?
    ensures DecodeHeader(file) == Some(h) && SizeFits(file, h) && ReadBack(file, limit) == Some(s)
    ensures |s| == Min(h.validCount, limit) && Shows(file, h, s)
  {
    h, s := DecodeHeader(file).value, ReadBack(file, limit).value;
  }

  /** Overwriting at an offset; a seek past the end leaves a gap of zeros. */
  function Patch(file: seq<byte>, off: nat, data: seq<byte>): (g: seq<byte>)
    ensures |g| == if data != [] && off + |data| > |file| then off + |data| else |file|
    ensures forall i :: 0 <= i < |g| ==>
              g[i] == if off <= i < off + |data| then data[i - off] else if i < |file| then file[i] else 0
  {
    seq(if data != [] && off + |data| > |file| then off + |data| else |file|,
        i requires 0 <= i =>
          if off <= i < off + |data| then data[i - off] else if i < |file| then file[i] else 0)
  }

  function EncodeRecords(s: seq<Bucket>): (r: seq<byte>)
    ensures |r| == 220 * |s|
  {
    if s == [] then [] else EncodeRecords(s[..|s| - 1]) + EncodeRecord(s[|s| - 1])
  }

  function FreshFile(cap: u32): seq<byte> {
    EncodeHeader(DefaultHeader(cap))
  }

  function RebuiltHeader(cap: u32, n: nat): Header
    requires 0 < cap && n <= cap
  {
    DefaultHeader(cap).(validCount := n, writePos := if n == cap then 0 else n)
  }

  /** A resized or migrated ring holding exactly `s`. */
  function RebuiltFile(cap: u32, s: seq<Bucket>): seq<byte>
    requires 0 < cap && |s| <= cap
  {
    EncodeHeader(RebuiltHeader(cap, |s|)) + EncodeRecords(s)
  }

  /** What opening leaves at the path; `None` when it fails and leaves the file alone. */
  ghost function Opened(content: Option<seq<byte>>, cap: u32): Option<seq<byte>> {
    if cap == 0 then None
    else if content.None? || DecodeHeader(content.value).None? then Some(FreshFile(cap))
    else
      var f, h := content.value, DecodeHeader(content.value).value;
      if SizeBounds(h).None? then None
      else if !SizeFits(f, h) then Some(FreshFile(cap))
      else if h.version == 1 || h.slotCount != cap then
        Some(RebuiltFile(cap, if ReadBack(f, cap).Some? then ReadBack(f, cap).value else []))
      else content
  }

  function NextHeader(h: Header): Header
    requires ValidHeader(h)
  {
    h.(writePos := Wrap(h.writePos + 1, h.slotCount), validCount := Min(h.validCount + 1, h.slotCount))
  }

  /** The record first, then the header that makes it visible. */
  function PutRecord(file: seq<byte>, r: Bucket): seq<byte>
    requires DecodeHeader(file).Some?
  {
    var h := DecodeHeader(file).value;
    Patch(Patch(file, SlotOffset(h.version, h.writePos), EncodeRecord(r)), 0, EncodeHeader(NextHeader(h)))
  }

  ghost function Appended(content: Option<seq<byte>>, cap: u32, r: Bucket): Option<seq<byte>> {
    var f := Opened(content, cap);
    if f.None? || DecodeHeader(f.value).None? then None else Some(PutRecord(f.value, r))
  }

  /** The records a path holds; a missing file is an empty ring. */
  ghost function Contents(content: Option<seq<byte>>): Option<seq<Bucket>> {
    if content.None? then Some([]) else ReadBack(content.value, UNLIMITED)
  }

  /** An empty ring starts at slot 0; the header check alone does not say so. */
  predicate WellPlaced(content: Option<seq<byte>>) {
    content.Some? && DecodeHeader(content.value).Some? ==>
      var h := DecodeHeader(content.value).value;
      h.validCount == 0 ==> h.writePos == 0
  }

  /** The one kind of ring an append of capacity `cap` writes to in place although its position is displaced. */
  predicate Misplaced(content: Option<seq<byte>>, cap: u32) {
    && content.Some? && DecodeHeader(content.value).Some?
    && var h := DecodeHeader(content.value).value;
       h.version == 2 && h.slotCount == cap && h.validCount == 0 && h.writePos != 0
  }

  // ----- headers

  lemma HeaderFields(file: seq<byte>, h: Header)
    requires 28 <= |file| && file[..28] == HeaderBody(h)
    ensures file[..8] == MAGIC
    ensures U32Le(file, 8) == h.version && U32Le(file, 12) == h.slotCount && U32Le(file, 16) == h.writePos
    ensures U32Le(file, 20) == h.validCount && U32Le(file, 24) == h.recordSize
  {
    assert file[..8] == file[..28][..8];
    assert file[8..12] == file[..28][8..12] == Le32(h.version);
    assert file[12..16] == file[..28][12..16] == Le32(h.slotCount);
    assert file[16..20] == file[..28][16..20] == Le32(h.writePos);
    assert file[20..24] == file[..28][20..24] == Le32(h.validCount);
    assert file[24..28] == file[..28][24..28] == Le32(h.recordSize);
    Le32RoundTrip(file, 8, h.version);
    Le32RoundTrip(file, 12, h.slotCount);
    Le32RoundTrip(file, 16, h.writePos);
    Le32RoundTrip(file, 20, h.validCount);
    Le32RoundTrip(file, 24, h.recordSize);
  }

  lemma HeaderRoundTrip(file: seq<byte>, h: Header)
    requires ValidHeader(h) && HEADER_SIZE <= |file| && file[..HEADER_SIZE] == EncodeHeader(h)
    ensures DecodeHeader(file) == Some(h)
  {
    var buf := file[..HEADER_SIZE];
    assert buf[..32] == Sealed(HeaderBody(h));
    assert buf[..28] == buf[..32][..28] == HeaderBody(h);
    SealedIff(buf[..32], 28);
    assert buf[..32][28..32] == buf[28..32] && buf[..32][..28] == buf[..28];
    HeaderFields(buf, h);
  }

  /** A header with exactly one damaged byte among its first 32 is never accepted. */
  lemma DamagedHeaderRejected(file: seq<byte>, i: nat, b: byte)
    requires DecodeHeader(file).Some? && i < 32 && b != file[i]
    ensures DecodeHeader(file[i := b]) == None
  {
    var buf := file[..HEADER_SIZE];
    assert file[i := b][..HEADER_SIZE] == buf[i := b];
    DamagedSealRejected(buf, 28, i, b);
  }

  // ----- slots

  lemma PatchSlots(file: seq<byte>, off: nat, data: seq<byte>, lo: nat, hi: nat)
    requires lo <= hi <= |file| && off <= |file| && (hi <= off || off + |data| <= lo)
    ensures hi <= |Patch(file, off, data)| && Patch(file, off, data)[lo..hi] == file[lo..hi]
  {
  }

  lemma PatchHere(file: seq<byte>, off: nat, data: seq<byte>)
    requires off <= |file|
    ensures off + |data| <= |Patch(file, off, data)| && Patch(file, off, data)[off..off + |data|] == data
  {
  }

  /** Every slot of a valid record lies inside a file of an allowed size. */
  lemma SlotInFile(file: seq<byte>, h: Header, count: nat, i: nat)
    requires ValidHeader(h) && SizeFits(file, h) && count <= h.validCount && i < count
    ensures SlotOffset(h.version, SlotOf(h, count, i)) + RecordSize(h.version) <= |file|
  {
  }

  /** Reading fewer records gives the newest ones of the full reading. */
  lemma ReadBackLimited(file: seq<byte>, limit: u32)
    requires ReadBack(file, UNLIMITED).Some?
    ensures ReadBack(file, limit) == Some(LastN(ReadBack(file, UNLIMITED).value, limit))
  {
    var h, s := ReadIsShown(file, UNLIMITED);
    var t := LastN(s, limit);
    SuffixShown(file, h, s, t);
    ShownIsRead(file, limit, h, t);
  }

  lemma SuffixShown(file: seq<byte>, h: Header, s: seq<Bucket>, t: seq<Bucket>)
    requires ValidHeader(h) && |s| == h.validCount && Shows(file, h, s) && |t| <= |s| && t == s[|s| - |t|..]
    ensures Shows(file, h, t)
  {
    forall i | 0 <= i < |t|
      ensures RecordAt(file, h.version, SlotOf(h, |t|, i)) == Some(t[i])
    {
      assert SlotOf(h, |t|, i) == SlotOf(h, |s|, |s| - |t| + i);
    }
  }

  // ----- fresh and rebuilt files

  lemma {:induction false} EncodedRecordAt(s: seq<Bucket>, i: nat)
    requires i < |s|
    ensures EncodeRecords(s)[220 * i..220 * i + 220] == EncodeRecord(s[i])
  {
    var front := s[..|s| - 1];
    var lo := 220 * i;
    if i < |front| {
      EncodedRecordAt(front, i);
      assert EncodeRecords(s)[lo..lo + RECORD_SIZE] == EncodeRecords(front)[lo..lo + RECORD_SIZE];
    }
  }

  lemma RebuiltRecordAt(f: seq<byte>, head: seq<byte>, s: seq<Bucket>, i: nat)
    requires i < |s| && |head| == HEADER_SIZE && f == head + EncodeRecords(s)
    ensures RecordAt(f, 2, i) == Some(s[i])
  {
    EncodedRecordAt(s, i);
    SlotBehind(f, head, EncodeRecords(s), i, s[i]);
  }

  lemma SlotBehind(f: seq<byte>, head: seq<byte>, code: seq<byte>, i: nat, r: Bucket)
    requires |head| == HEADER_SIZE && f == head + code && 220 * i + 220 <= |code|
    requires code[220 * i..220 * i + 220] == EncodeRecord(r)
    ensures RecordAt(f, 2, i) == Some(r)
  {
    SliceBehind(head, code, 220 * i, 220 * i + 220);
    FreshSlot(f, i, r);
  }

  lemma SliceBehind(head: seq<byte>, tail: seq<byte>, lo: nat, hi: nat)
    requires lo <= hi <= |tail|
    ensures (head + tail)[|head| + lo..|head| + hi] == tail[lo..hi]
  {
  }

  lemma RebuiltReadsBack(cap: u32, s: seq<Bucket>)
    requires 0 < cap && |s| <= cap
    ensures Contents(Some(RebuiltFile(cap, s))) == Some(s)
    ensures WellPlaced(Some(RebuiltFile(cap, s)))
    ensures DecodeHeader(RebuiltFile(cap, s)) == Some(RebuiltHeader(cap, |s|))
  {
    var f, h := RebuiltFile(cap, s), RebuiltHeader(cap, |s|);
    assert f[..HEADER_SIZE] == EncodeHeader(h);
    HeaderRoundTrip(f, h);
    forall i | 0 <= i < |s|
      ensures RecordAt(f, 2, SlotOf(h, |s|, i)) == Some(s[i])
    {
      assert SlotOf(h, |s|, i) == i;
      RebuiltRecordAt(f, EncodeHeader(h), s, i);
    }
    ShownIsRead(f, UNLIMITED, h, s);
  }

  lemma FreshReadsBack(cap: u32)
    requires 0 < cap
    ensures Contents(Some(FreshFile(cap))) == Some([]) && WellPlaced(Some(FreshFile(cap)))
    ensures DecodeHeader(FreshFile(cap)) == Some(DefaultHeader(cap))
  {
    assert RebuiltFile(cap, []) == FreshFile(cap);
    RebuiltReadsBack(cap, []);
  }

  // ----- one append

  lemma PatchedRecord(file: seq<byte>, off: nat, data: seq<byte>, slot: nat)
    requires off <= |file| && RecordAt(file, 2, slot).Some?
    requires var lo := SlotOffset(2, slot); lo + RECORD_SIZE <= off || off + |data| <= lo
    ensures RecordAt(Patch(file, off, data), 2, slot) == RecordAt(file, 2, slot)
  {
    var lo := SlotOffset(2, slot);
    PatchSlots(file, off, data, lo, lo + RECORD_SIZE);
    SameSlot(file, Patch(file, off, data), slot);
  }

  lemma SameSlot(file: seq<byte>, g: seq<byte>, slot: nat)
    requires RecordAt(file, 2, slot).Some?
    requires var lo := SlotOffset(2, slot);
             lo + RECORD_SIZE <= |g| && g[lo..lo + RECORD_SIZE] == file[lo..lo + RECORD_SIZE]
    ensures RecordAt(g, 2, slot) == RecordAt(file, 2, slot)
  {
  }

  lemma FreshSlot(g: seq<byte>, slot: nat, r: Bucket)
    requires var lo := SlotOffset(2, slot); lo + RECORD_SIZE <= |g| && g[lo..lo + RECORD_SIZE] == EncodeRecord(r)
    ensures RecordAt(g, 2, slot) == Some(r)
  {
    RecordRoundTrip(EncodeRecord(r), r);
  }

  /** Writing one slot and then the header leaves every other record alone. */
  lemma PatchedTwice(file: seq<byte>, off: nat, data: seq<byte>, head: seq<byte>, slot: nat, k: nat)
    requires off == SlotOffset(2, slot) <= |file| && |data| <= RECORD_SIZE && |head| <= HEADER_SIZE
    requires k != slot && RecordAt(file, 2, k).Some?
    ensures RecordAt(Patch(Patch(file, off, data), 0, head), 2, k) == RecordAt(file, 2, k)
  {
    PatchedRecord(file, off, data, k);
    PatchedRecord(Patch(file, off, data), 0, head, k);
  }

  lemma PutSlot(file: seq<byte>, off: nat, r: Bucket, head: seq<byte>, slot: nat)
    requires off == SlotOffset(2, slot) <= |file| && |head| <= HEADER_SIZE
    ensures RecordAt(Patch(Patch(file, off, EncodeRecord(r)), 0, head), 2, slot) == Some(r)
  {
    var mid := Patch(file, off, EncodeRecord(r));
    PatchHere(file, off, EncodeRecord(r));
    FreshSlot(mid, slot, r);
    PatchedRecord(mid, 0, head, slot);
  }

  lemma PutRecordHeader(file: seq<byte>, h: Header, r: Bucket)
    requires DecodeHeader(file) == Some(h) && h.version == 2 && SizeFits(file, h)
    requires h.validCount > 0 || h.writePos == 0
    ensures DecodeHeader(PutRecord(file, r)) == Some(NextHeader(h)) && SizeFits(PutRecord(file, r), NextHeader(h))
  {
    var off := SlotOffset(2, h.writePos);
    var mid := Patch(file, off, EncodeRecord(r));
    PatchHere(mid, 0, EncodeHeader(NextHeader(h)));
    HeaderRoundTrip(PutRecord(file, r), NextHeader(h));
    SizeAfterPut(file, PutRecord(file, r), h);
  }

  lemma SizeAfterPut(file: seq<byte>, g: seq<byte>, h: Header)
    requires ValidHeader(h) && h.version == 2 && SizeFits(file, h) && (h.validCount > 0 || h.writePos == 0)
    requires var end := SlotOffset(2, h.writePos) + RECORD_SIZE; |g| == if end > |file| then end else |file|
    ensures SizeFits(g, NextHeader(h))
  {
  }

  /** The in-place write keeps every other record, stores the new one and updates the header. */
  lemma PutRecordSlots(file: seq<byte>, h: Header, r: Bucket)
    requires DecodeHeader(file) == Some(h) && h.version == 2 && SizeFits(file, h)
    requires h.validCount > 0 || h.writePos == 0
    ensures var g := PutRecord(file, r);
            && DecodeHeader(g) == Some(NextHeader(h)) && SizeFits(g, NextHeader(h))
            && RecordAt(g, 2, h.writePos) == Some(r)
            && (forall k :: 0 <= k < h.slotCount && k != h.writePos && RecordAt(file, 2, k).Some? ==>
                  RecordAt(g, 2, k) == RecordAt(file, 2, k))
  {
    var off := SlotOffset(2, h.writePos);
    var g := Patch(Patch(file, off, EncodeRecord(r)), 0, EncodeHeader(NextHeader(h)));
    assert off <= |file|;
    PutRecordHeader(file, h, r);
    PutSlot(file, off, r, EncodeHeader(NextHeader(h)), h.writePos);
    forall k | 0 <= k < h.slotCount && k != h.writePos && RecordAt(file, 2, k).Some?
      ensures RecordAt(g, 2, k) == RecordAt(file, 2, k)
    {
      PatchedTwice(file, off, EncodeRecord(r), EncodeHeader(NextHeader(h)), h.writePos, k);
    }
  }

  /** After the write, record `i` is the old record `i` (or `i + 1` once full), and the last is the new one. */
  lemma NextSlot(h: Header, i: nat)
    requires ValidHeader(h) && h.validCount < h.slotCount ==> h.writePos == h.validCount
    requires ValidHeader(h) && i < NextHeader(h).validCount
    ensures var j := if h.validCount < h.slotCount then i else i + 1;
            var slot := SlotOf(NextHeader(h), NextHeader(h).validCount, i);
            && j <= h.validCount
            && (j < h.validCount ==> slot == SlotOf(h, h.validCount, j) != h.writePos)
            && (j == h.validCount ==> slot == h.writePos)
  {
  }

  /** Every slot but the one at the write position keeps its record, and that one gets `r`. */
  ghost predicate Rewritten(file: seq<byte>, g: seq<byte>, h: Header, r: Bucket) {
    && RecordAt(g, 2, h.writePos) == Some(r)
    && forall k :: 0 <= k < h.slotCount && k != h.writePos && RecordAt(file, 2, k).Some? ==>
         RecordAt(g, 2, k) == RecordAt(file, 2, k)
  }

  lemma NewestAt(s: seq<Bucket>, r: Bucket, n: nat, t: seq<Bucket>, i: nat, j: nat)
    requires |s| <= n && t == LastN(s + [r], n) && i < |t| && j == if |s| < n then i else i + 1
    ensures j <= |s| && t[i] == (s + [r])[j]
  {
  }

  lemma RewrittenRecord(file: seq<byte>, g: seq<byte>, h: Header, s: seq<Bucket>, r: Bucket, i: nat, j: nat)
    requires ValidHeader(h) && h.version == 2 && |s| == h.validCount && Shows(file, h, s) && Rewritten(file, g, h, r)
    requires h.validCount < h.slotCount ==> h.writePos == h.validCount
    requires i < NextHeader(h).validCount && j == if |s| < h.slotCount then i else i + 1
    ensures j <= |s| && RecordAt(g, 2, SlotOf(NextHeader(h), NextHeader(h).validCount, i)) == Some((s + [r])[j])
  {
    NextSlot(h, i);
    if j < |s| {
      assert RecordAt(file, h.version, SlotOf(h, |s|, j)) == Some(s[j]);
    }
  }

  lemma NextRecord(
      file: seq<byte>, g: seq<byte>, h: Header, s: seq<Bucket>, r: Bucket, i: nat, next: Header, t: seq<Bucket>)
    requires ValidHeader(h) && h.version == 2 && |s| == h.validCount && Shows(file, h, s) && Rewritten(file, g, h, r)
    requires h.validCount < h.slotCount ==> h.writePos == h.validCount
    requires next == NextHeader(h) && t == LastN(s + [r], h.slotCount) && i < |t|
    ensures RecordAt(g, 2, SlotOf(next, |t|, i)) == Some(t[i])
  {
    var j := if |s| < h.slotCount then i else i + 1;
    NewestAt(s, r, h.slotCount, t, i, j);
    RewrittenRecord(file, g, h, s, r, i, j);
  }

  lemma NextShown(file: seq<byte>, g: seq<byte>, h: Header, s: seq<Bucket>, r: Bucket)
    requires ValidHeader(h) && h.version == 2 && |s| == h.validCount && Shows(file, h, s) && Rewritten(file, g, h, r)
    requires h.validCount < h.slotCount ==> h.writePos == h.validCount
    ensures Shows(g, NextHeader(h), LastN(s + [r], h.slotCount))
  {
    var t := LastN(s + [r], h.slotCount);
    forall i | 0 <= i < |t|
      ensures RecordAt(g, 2, SlotOf(NextHeader(h), |t|, i)) == Some(t[i])
    {
      NextRecord(file, g, h, s, r, i, NextHeader(h), t);
    }
  }

  lemma InPlaceAppend(file: seq<byte>, r: Bucket)
    requires DecodeHeader(file).Some? && DecodeHeader(file).value.version == 2
    requires Contents(Some(file)).Some? && WellPlaced(Some(file))
    ensures var s := Contents(Some(file)).value;
            Contents(Some(PutRecord(file, r))) == Some(LastN(s + [r], DecodeHeader(file).value.slotCount))
    ensures WellPlaced(Some(PutRecord(file, r)))
  {
    var h, s := ReadIsShown(file, UNLIMITED);
    var g, t := PutRecord(file, r), LastN(s + [r], h.slotCount);
    PutRecordSlots(file, h, r);
    NextShown(file, g, h, s, r);
    ShownIsRead(g, UNLIMITED, NextHeader(h), t);
  }

  /**
   * Appending behaves as "the last cap records" exactly when the ring is not an empty one with a displaced
   * write position, which the header check lets through.
   */
  lemma InPlaceAppendIff(file: seq<byte>, h: Header, r: Bucket)
    requires DecodeHeader(file) == Some(h) && h.version == 2 && Contents(Some(file)).Some?
    ensures Contents(Some(PutRecord(file, r))) == Some(LastN(Contents(Some(file)).value + [r], h.slotCount))
            <==> h.validCount > 0 || h.writePos == 0
  {
    if h.validCount > 0 || h.writePos == 0 {
      InPlaceAppend(file, r);
    } else {
      var mid := Patch(file, SlotOffset(2, h.writePos), EncodeRecord(r));
      PatchHere(mid, 0, EncodeHeader(NextHeader(h)));
      HeaderRoundTrip(PutRecord(file, r), NextHeader(h));
      assert SizeBounds(NextHeader(h)).None?;
    }
  }

  /** A ring the reader accepts as empty, after which an append makes it unreadable. */
  lemma DisplacedEmptyRing(r: Bucket)
    ensures var f := EncodeHeader(Header(2, 3, 1, 0, RECORD_SIZE));
            && Contents(Some(f)) == Some([])
            && Appended(Some(f), 3, r).Some?
            && Contents(Appended(Some(f), 3, r)) == None
  {
    var h := Header(2, 3, 1, 0, RECORD_SIZE);
    var f := EncodeHeader(h);
    assert f[..HEADER_SIZE] == f;
    HeaderRoundTrip(f, h);
    assert Contents(Some(f)) == Some([]);
    var mid := Patch(f, SlotOffset(2, 1), EncodeRecord(r));
    PatchHere(mid, 0, EncodeHeader(NextHeader(h)));
    HeaderRoundTrip(PutRecord(f, r), NextHeader(h));
  }

  /**
   * Whatever capacity and version the readable ring has, an append with capacity `cap` keeps the newest `cap`, unless
   * the ring is an empty one of version 2 and that very capacity whose write position is displaced; opening repairs
   * every other displaced ring.
   */
  lemma AppendKeepsNewest(content: Option<seq<byte>>, cap: u32, r: Bucket)
    requires 0 < cap && Contents(content).Some?
    ensures Appended(content, cap, r).Some?
    ensures Contents(Appended(content, cap, r)) == Some(LastN(Contents(content).value + [r], cap))
            <==> !Misplaced(content, cap)
    ensures !Misplaced(content, cap) ==> WellPlaced(Appended(content, cap, r))
  {
    OpenKeepsNewest(content, cap);
    var f := Opened(content, cap).value;
    var h := DecodeHeader(f).value;
    InPlaceAppendIff(f, h, r);
    LastNAppend(Contents(content).value, r, cap);
    if !Misplaced(content, cap) {
      InPlaceAppend(f, r);
    }
  }

  lemma OpenKeepsNewest(content: Option<seq<byte>>, cap: u32)
    requires 0 < cap && Contents(content).Some?
    ensures Opened(content, cap).Some? && (WellPlaced(Opened(content, cap)) <==> !Misplaced(content, cap))
    ensures Contents(Opened(content, cap)) == Some(LastN(Contents(content).value, cap))
    ensures DecodeHeader(Opened(content, cap).value).Some?
    ensures var h := DecodeHeader(Opened(content, cap).value).value; h.version == 2 && h.slotCount == cap
  {
    if content.None? {
      FreshReadsBack(cap);
    } else {
      var h := DecodeHeader(content.value).value;
      if h.version == 1 || h.slotCount != cap {
        ReadBackLimited(content.value, cap);
        RebuiltReadsBack(cap, LastN(Contents(content).value, cap));
      }
    }
  }

  // ----- runs of appends, each with its own capacity

  datatype Append = Append(cap: u32, record: Bucket)

  ghost function AfterAppends(content: Option<seq<byte>>, run: seq<Append>): Option<seq<byte>> {
    if run == [] then content
    else Appended(AfterAppends(content, run[..|run| - 1]), run[|run| - 1].cap, run[|run| - 1].record)
  }

  function NewestOf(s: seq<Bucket>, run: seq<Append>): seq<Bucket> {
    if run == [] then s
    else LastN(NewestOf(s, run[..|run| - 1]) + [run[|run| - 1].record], run[|run| - 1].cap)
  }

  lemma {:induction false} AppendsRefineNewest(content: Option<seq<byte>>, run: seq<Append>)
    requires Contents(content).Some? && (run != [] ==> !Misplaced(content, run[0].cap))
    requires forall a :: a in run ==> 0 < a.cap
    ensures run != [] ==> WellPlaced(AfterAppends(content, run))
    ensures Contents(AfterAppends(content, run)) == Some(NewestOf(Contents(content).value, run))
  {
    if run != [] {
      var front, a := run[..|run| - 1], run[|run| - 1];
      AppendsRefineNewest(content, front);
      AppendKeepsNewest(AfterAppends(content, front), a.cap, a.record);
    }
  }
}
