/** Where everything stands in a ring file, byte by byte. */
module RingLayout {
  import opened Bytes
  import opened Buckets
  import opened RingCodec
  import opened RingFile
  import Fnv

  // ----- checksums

  /** Two numbers differ in the binary digits of `x`. */
  ghost predicate DiffersBy(a: nat, b: nat, x: nat)
    decreases a + b + x
  {
    if a == 0 && b == 0 && x == 0 then true
    else (x % 2 == 1 <==> a % 2 != b % 2) && DiffersBy(a / 2, b / 2, x / 2)
  }

  lemma {:induction false} XorDiffers(a: nat, b: nat, x: nat)
    ensures DiffersBy(a, b, x) <==> x == Fnv.Xor(a, b)
    decreases a + b + x
  {
    if a != 0 || b != 0 || x != 0 {
      XorDiffers(a / 2, b / 2, x / 2);
      Fnv.XorDigits(a, b);
    }
  }

  /** The 32-bit FNV-1a hash as published: from the basis, flip each byte's digits and multiply by the prime. */
  lemma PublishedSum(data: seq<byte>, b: byte, x: nat)
    requires DiffersBy(Fnv.Checksum(data), b, x)
    ensures Fnv.Checksum([]) == 2166136261
    ensures Fnv.Checksum(data + [b]) == (x * 16777619) % 4294967296
  {
    XorDiffers(Fnv.Checksum(data), b, x);
    assert (data + [b])[..|data|] == data;
  }

  // ----- numbers

  /** The `n` bytes from `i` on as a number, the lowest first. */
  function Number(s: seq<byte>, i: nat, n: nat): nat
    requires i + n <= |s|
    decreases n
  {
    if n == 0 then 0 else s[i] + 0x100 * Number(s, i + 1, n - 1)
  }

  lemma Number4(s: seq<byte>, i: nat)
    requires i + 4 <= |s|
    ensures Number(s, i, 4) == U32Le(s, i)
  {
    assert Number(s, i + 2, 2) == U16Le(s, i + 2);
  }

  lemma Number8(s: seq<byte>, i: nat)
    requires i + 8 <= |s|
    ensures Number(s, i, 8) == U64Le(s, i)
  {
    Number4(s, i);
    Number4(s, i + 4);
    Number44(s, i);
  }

  lemma Number44(s: seq<byte>, i: nat)
    requires i + 8 <= |s|
    ensures Number(s, i, 8) == Number(s, i, 4) + 0x1_0000_0000 * Number(s, i + 4, 4)
  {
    assert Number(s, i + 3, 5) == s[i + 3] + 0x100 * Number(s, i + 4, 4);
    assert Number(s, i + 2, 6) == s[i + 2] + 0x100 * Number(s, i + 3, 5);
    assert Number(s, i + 1, 7) == s[i + 1] + 0x100 * Number(s, i + 2, 6);
    assert Number(s, i + 2, 2) == s[i + 2] + 0x100 * Number(s, i + 3, 1);
  }

  // ----- records

  /** Five numbers of eight bytes from `i` on. */
  predicate RateAt(data: seq<byte>, i: nat, r: Rate)
    requires i + 40 <= |data|
  {
    && r.sum == Number(data, i, 8) && r.max == Number(data, i + 8, 8) && r.min == Number(data, i + 16, 8)
    && r.avg == Number(data, i + 24, 8) && r.p95 == Number(data, i + 32, 8)
  }

  predicate BytesAt(data: seq<byte>, i: nat, q: Quad<u64>)
    requires i + 32 <= |data|
  {
    && q.upV4 == Number(data, i, 8) && q.downV4 == Number(data, i + 8, 8)
    && q.upV6 == Number(data, i + 16, 8) && q.downV6 == Number(data, i + 24, 8)
  }

  predicate RatesAs2(data: seq<byte>, q: Quad<Rate>)
    requires |data| == 220
  {
    && RateAt(data, 56, q.upV4) && RateAt(data, 96, q.downV4)
    && RateAt(data, 136, q.upV6) && RateAt(data, 176, q.downV6)
  }

  /** The layout of a version 2 record. */
  predicate RecordAs2(data: seq<byte>, b: Bucket) {
    && |data| == 220
    && b.start == Number(data, 0, 8) && b.end == Number(data, 8, 8) && b.samples == Number(data, 16, 8)
    && BytesAt(data, 24, b.bytes) && RatesAs2(data, b.rates)
    && Fnv.Checksum(data[..216]) == Number(data, 216, 4)
  }

  /** Version 1 had no sums: the average stands for one sample. */
  predicate LegacyRateAt(data: seq<byte>, i: nat, r: Rate)
    requires i + 32 <= |data|
  {
    && r.avg == Number(data, i, 8) && r.max == Number(data, i + 8, 8) && r.min == Number(data, i + 16, 8)
    && r.p95 == Number(data, i + 24, 8) && r.sum == r.avg
  }

  predicate RatesAs1(data: seq<byte>, q: Quad<Rate>)
    requires |data| == 180
  {
    && LegacyRateAt(data, 48, q.upV4) && LegacyRateAt(data, 80, q.downV4)
    && LegacyRateAt(data, 112, q.upV6) && LegacyRateAt(data, 144, q.downV6)
  }

  /** The layout of a version 1 record, which had no number of samples either. */
  predicate RecordAs1(data: seq<byte>, b: Bucket) {
    && |data| == 180
    && b.start == Number(data, 0, 8) && b.end == Number(data, 8, 8) && b.samples == 1
    && BytesAt(data, 16, b.bytes) && RatesAs1(data, b.rates)
    && Fnv.Checksum(data[..176]) == Number(data, 176, 4)
  }

  ghost predicate WordsAre(data: seq<byte>, w: seq<u64>) {
    forall k :: 0 <= k < |w| ==> 8 * k + 8 <= |data| && w[k] == Number(data, 8 * k, 8)
  }

  lemma DecodedWordsAre(data: seq<byte>, n: nat)
    requires n <= |data|
    ensures WordsAre(data, DecodeWords(data[..n]))
  {
    var w := DecodeWords(data[..n]);
    forall k | 0 <= k < |w|
      ensures w[k] == Number(data, 8 * k, 8)
    {
      DecodedWord(data[..n], k);
      Number8(data, 8 * k);
      SameLe64(data, data[..n], 8 * k);
    }
  }

  lemma RateIs(data: seq<byte>, w: seq<u64>, k: nat, i: nat, r: Rate)
    requires WordsAre(data, w) && k + 5 <= |w| && i == 8 * k && i + 40 <= |data|
    ensures RateOf(w[k..k + 5]) == r <==> RateAt(data, i, r)
  {
    var v := w[k..k + 5];
    assert v[0] == Number(data, i, 8) && v[1] == Number(data, i + 8, 8) && v[2] == Number(data, i + 16, 8);
    assert v[3] == Number(data, i + 24, 8) && v[4] == Number(data, i + 32, 8);
  }

  lemma LegacyRateIs(data: seq<byte>, w: seq<u64>, k: nat, i: nat, r: Rate)
    requires WordsAre(data, w) && k + 4 <= |w| && i == 8 * k && i + 32 <= |data|
    ensures V1RateOf(w[k..k + 4]) == r <==> LegacyRateAt(data, i, r)
  {
    var v := w[k..k + 4];
    assert v[0] == Number(data, i, 8) && v[1] == Number(data, i + 8, 8) && v[2] == Number(data, i + 16, 8);
    assert v[3] == Number(data, i + 24, 8);
  }

  lemma BytesAre(data: seq<byte>, w: seq<u64>, k: nat, i: nat, q: Quad<u64>)
    requires WordsAre(data, w) && k + 4 <= |w| && i == 8 * k && i + 32 <= |data|
    ensures Quad(w[k], w[k + 1], w[k + 2], w[k + 3]) == q <==> BytesAt(data, i, q)
  {
    assert w[k] == Number(data, i, 8) && w[k + 1] == Number(data, i + 8, 8) && w[k + 2] == Number(data, i + 16, 8);
    assert w[k + 3] == Number(data, i + 24, 8);
  }

  lemma Rates2Are(data: seq<byte>, w: seq<u64>, q: Quad<Rate>)
    requires WordsAre(data, w) && |w| == 27 && |data| == 220
    ensures Quad(RateOf(w[7..12]), RateOf(w[12..17]), RateOf(w[17..22]), RateOf(w[22..27])) == q <==> RatesAs2(data, q)
  {
    RateIs(data, w, 7, 56, q.upV4);
    RateIs(data, w, 12, 96, q.downV4);
    RateIs(data, w, 17, 136, q.upV6);
    RateIs(data, w, 22, 176, q.downV6);
  }

  lemma Words2Are(data: seq<byte>, w: seq<u64>, b: Bucket)
    requires WordsAre(data, w) && |w| == 27 && |data| == 220
    ensures OfWords(w) == b
       <==> && b.start == Number(data, 0, 8) && b.end == Number(data, 8, 8) && b.samples == Number(data, 16, 8)
            && BytesAt(data, 24, b.bytes) && RatesAs2(data, b.rates)
  {
    assert w[0] == Number(data, 0, 8) && w[1] == Number(data, 8, 8) && w[2] == Number(data, 16, 8);
    BytesAre(data, w, 3, 24, b.bytes);
    Rates2Are(data, w, b.rates);
  }

  lemma Rates1Are(data: seq<byte>, w: seq<u64>, q: Quad<Rate>)
    requires WordsAre(data, w) && |w| == 22 && |data| == 180
    ensures Quad(V1RateOf(w[6..10]), V1RateOf(w[10..14]), V1RateOf(w[14..18]), V1RateOf(w[18..22])) == q
       <==> RatesAs1(data, q)
  {
    LegacyRateIs(data, w, 6, 48, q.upV4);
    LegacyRateIs(data, w, 10, 80, q.downV4);
    LegacyRateIs(data, w, 14, 112, q.upV6);
    LegacyRateIs(data, w, 18, 144, q.downV6);
  }

  lemma Words1Are(data: seq<byte>, w: seq<u64>, b: Bucket)
    requires WordsAre(data, w) && |w| == 22 && |data| == 180
    ensures OfV1Words(w) == b
       <==> && b.start == Number(data, 0, 8) && b.end == Number(data, 8, 8) && b.samples == 1
            && BytesAt(data, 16, b.bytes) && RatesAs1(data, b.rates)
  {
    assert w[0] == Number(data, 0, 8) && w[1] == Number(data, 8, 8);
    BytesAre(data, w, 2, 16, b.bytes);
    Rates1Are(data, w, b.rates);
  }

  /** A record of version 2 reads as `b` exactly when it is laid out so, checksum included. */
  lemma RecordLayout2(data: seq<byte>, b: Bucket)
    ensures DecodeRecord(data, 2) == Some(b) <==> RecordAs2(data, b)
  {
    if |data| == 220 {
      DecodedWordsAre(data, 216);
      Words2Are(data, DecodeWords(data[..216]), b);
      Number4(data, 216);
    }
  }

  lemma RecordLayout1(data: seq<byte>, b: Bucket)
    ensures DecodeRecord(data, 1) == Some(b) <==> RecordAs1(data, b)
  {
    if |data| == 180 {
      DecodedWordsAre(data, 176);
      Words1Are(data, DecodeWords(data[..176]), b);
      Number4(data, 176);
    }
  }

  // ----- the header

  /** The layout of a header, and what it may say. */
  predicate HeaderAs(buf: seq<byte>, h: Header) {
    && |buf| == 64
    && (forall i :: 0 <= i < 8 ==> buf[i] == "BDXPRNG1"[i] as int)
    && h.version == Number(buf, 8, 4) && h.slotCount == Number(buf, 12, 4) && h.writePos == Number(buf, 16, 4)
    && h.validCount == Number(buf, 20, 4) && h.recordSize == Number(buf, 24, 4)
    && Fnv.Checksum(buf[..28]) == Number(buf, 28, 4)
    && ((h.version == 1 && h.recordSize == 180) || (h.version == 2 && h.recordSize == 220))
    && h.writePos < h.slotCount && h.validCount <= h.slotCount
  }

  lemma Magic(buf: seq<byte>)
    requires |buf| == 64
    ensures buf[..8] == MAGIC <==> forall i :: 0 <= i < 8 ==> buf[i] == "BDXPRNG1"[i] as int
  {
    assert forall i :: 0 <= i < 8 ==> MAGIC[i] == "BDXPRNG1"[i] as int;
    assert forall i :: 0 <= i < 8 ==> buf[..8][i] == buf[i];
  }

  lemma HeaderNumbers(buf: seq<byte>)
    requires |buf| == 64
    ensures Number(buf, 8, 4) == U32Le(buf, 8) && Number(buf, 12, 4) == U32Le(buf, 12)
    ensures Number(buf, 16, 4) == U32Le(buf, 16) && Number(buf, 20, 4) == U32Le(buf, 20)
    ensures Number(buf, 24, 4) == U32Le(buf, 24) && Number(buf, 28, 4) == U32Le(buf, 28)
  {
    Number4(buf, 8);
    Number4(buf, 12);
    Number4(buf, 16);
    Number4(buf, 20);
    Number4(buf, 24);
    Number4(buf, 28);
  }

  /** A header is accepted as `h` exactly when it is laid out so and says nothing impossible. */
  lemma HeaderLayout(buf: seq<byte>, h: Header)
    requires |buf| == 64
    ensures ParseHeader(buf) == Some(h) <==> HeaderAs(buf, h)
  {
    Magic(buf);
    HeaderNumbers(buf);
  }

  // ----- the file

  /** Where slot `n` begins: the header takes 64 bytes, a record 180 or 220. */
  function SlotAt(version: u32, n: nat): nat {
    if version == 1 then 64 + 180 * n else 64 + 220 * n
  }

  /** A full ring has its full size; one that is filling up starts at slot 0 and may end behind its last record. */
  predicate SizeAllowed(size: nat, h: Header) {
    if h.validCount == h.slotCount then size == SlotAt(h.version, h.slotCount)
    else
      && (h.validCount > 0 ==> h.writePos == h.validCount)
      && SlotAt(h.version, h.validCount) <= size <= SlotAt(h.version, h.slotCount)
  }

  predicate StandsIn(file: seq<byte>, version: u32, slot: nat, b: Bucket) {
    var from, to := SlotAt(version, slot), SlotAt(version, slot + 1);
    to <= |file| && if version == 1 then RecordAs1(file[from..to], b) else RecordAs2(file[from..to], b)
  }

  /** The slot that was written `back` records ago. */
  function SlotBack(h: Header, back: nat): nat
    requires back <= h.slotCount
  {
    if back <= h.writePos then h.writePos - back else h.writePos + h.slotCount - back
  }

  lemma SizeIff(file: seq<byte>, h: Header)
    requires ValidHeader(h)
    ensures SizeFits(file, h) <==> SizeAllowed(|file|, h)
  {
  }

  lemma StandsInIff(file: seq<byte>, version: u32, slot: nat, b: Bucket)
    requires version == 1 || version == 2
    ensures RecordAt(file, version, slot) == Some(b) <==> StandsIn(file, version, slot, b)
  {
    var from, to := SlotAt(version, slot), SlotAt(version, slot + 1);
    if to <= |file| {
      RecordLayout1(file[from..to], b);
      RecordLayout2(file[from..to], b);
    }
  }

  lemma SlotOfBack(h: Header, count: nat, i: nat)
    requires ValidHeader(h) && count <= h.validCount && i < count
    ensures SlotOf(h, count, i) == SlotBack(h, count - i)
  {
  }

  lemma StandsBack(file: seq<byte>, h: Header, count: nat, i: nat, slot: nat, b: Bucket)
    requires ValidHeader(h) && count <= h.validCount && i < count && slot == SlotBack(h, count - i)
    ensures RecordAt(file, h.version, SlotOf(h, count, i)) == Some(b) <==> StandsIn(file, h.version, slot, b)
  {
    SlotOfBack(h, count, i);
    StandsInIff(file, h.version, slot, b);
  }

  ghost predicate StandAll(file: seq<byte>, h: Header, s: seq<Bucket>)
    requires |s| <= h.slotCount
  {
    forall i :: 0 <= i < |s| ==> StandsIn(file, h.version, SlotBack(h, |s| - i), s[i])
  }

  lemma ShownStands(file: seq<byte>, h: Header, s: seq<Bucket>)
    requires ValidHeader(h) && |s| <= h.validCount && Shows(file, h, s)
    ensures StandAll(file, h, s)
  {
    forall i | 0 <= i < |s|
      ensures StandsIn(file, h.version, SlotBack(h, |s| - i), s[i])
    {
      StandsBack(file, h, |s|, i, SlotBack(h, |s| - i), s[i]);
    }
  }

  lemma StandingIsShown(file: seq<byte>, h: Header, s: seq<Bucket>)
    requires ValidHeader(h) && |s| <= h.validCount && StandAll(file, h, s)
    ensures Shows(file, h, s)
  {
    forall i | 0 <= i < |s|
      ensures RecordAt(file, h.version, SlotOf(h, |s|, i)) == Some(s[i])
    {
      StandsBack(file, h, |s|, i, SlotBack(h, |s| - i), s[i]);
    }
  }

  lemma ShownIff(file: seq<byte>, h: Header, s: seq<Bucket>)
    requires DecodeHeader(file) == Some(h)
    ensures ReadBack(file, UNLIMITED) == Some(s) <==> SizeFits(file, h) && |s| == h.validCount && Shows(file, h, s)
  {
    if SizeFits(file, h) && |s| == h.validCount && Shows(file, h, s) {
      ShownIsRead(file, UNLIMITED, h, s);
    }
  }

  /**
   * The bytes of a ring: a file has header `h` and shows the records `s`, oldest first, exactly when its first 64
   * bytes say `h`, its size is one that `h` allows, and each record stands in the slot written that long ago.
   */
  lemma FileLayout(file: seq<byte>, h: Header, s: seq<Bucket>)
    requires |file| >= 64
    ensures DecodeHeader(file) == Some(h) && ReadBack(file, UNLIMITED) == Some(s)
       <==> HeaderAs(file[..64], h) && SizeAllowed(|file|, h) && |s| == h.validCount && StandAll(file, h, s)
  {
    HeaderLayout(file[..64], h);
    if DecodeHeader(file) == Some(h) {
      SizeIff(file, h);
      ShownIff(file, h, s);
      if |s| == h.validCount && Shows(file, h, s) {
        ShownStands(file, h, s);
      }
      if |s| == h.validCount && StandAll(file, h, s) {
        StandingIsShown(file, h, s);
      }
    }
  }

  // ----- what opening makes of any file

  ghost predicate NoHeader(file: seq<byte>) {
    |file| < 64 || forall h :: !HeaderAs(file[..64], h)
  }

  /** A file without an acceptable header becomes an empty ring. */
  lemma NoHeaderOpens(file: seq<byte>, cap: u32)
    requires 0 < cap && NoHeader(file)
    ensures Opened(Some(file), cap).Some? && Contents(Opened(Some(file), cap)) == Some([])
  {
    FreshReadsBack(cap);
    if DecodeHeader(file).Some? {
      HeaderLayout(file[..64], DecodeHeader(file).value);
    }
  }

  /** Filling up, but not from slot 0 on. */
  predicate Shifted(h: Header) {
    0 < h.validCount < h.slotCount && h.writePos != h.validCount
  }

  /**
   * A file with an acceptable header: opening fails if the records are shifted, starts over if the size is wrong,
   * leaves a ring of version 2 and of the wanted capacity alone, and converts every other ring, keeping the newest
   * records if all of those can be read and none otherwise.
   */
  lemma HeaderOpens(file: seq<byte>, h: Header, cap: u32)
    requires 0 < cap && |file| >= 64 && HeaderAs(file[..64], h)
    ensures Opened(Some(file), cap).None? <==> Shifted(h)
    ensures !Shifted(h) && !SizeAllowed(|file|, h) ==> Contents(Opened(Some(file), cap)) == Some([])
    ensures SizeAllowed(|file|, h) && h.version == 2 && h.slotCount == cap ==> Opened(Some(file), cap) == Some(file)
    ensures SizeAllowed(|file|, h) && (h.version == 1 || h.slotCount != cap) ==>
              Contents(Opened(Some(file), cap)) == if ReadBack(file, cap).Some? then ReadBack(file, cap) else Some([])
  {
    HeaderLayout(file[..64], h);
    SizeIff(file, h);
    FreshReadsBack(cap);
    if SizeAllowed(|file|, h) && (h.version == 1 || h.slotCount != cap) {
      var kept := if ReadBack(file, cap).Some? then ReadBack(file, cap).value else [];
      RebuiltReadsBack(cap, kept);
      assert Opened(Some(file), cap) == Some(RebuiltFile(cap, kept));
    }
  }
}
