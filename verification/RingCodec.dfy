/** Ring records: 27 (version 2) or 22 (version 1) little-endian words and a trailing FNV-1a checksum. */
module RingCodec {
  import opened Bytes
  import opened Buckets
  import Fnv

  const V2_WORDS := 27
  const V1_WORDS := 22
  const RECORD_SIZE := 220
  const V1_RECORD_SIZE := 180

  function RecordSize(version: u32): nat {
    if version == 1 then V1_RECORD_SIZE else RECORD_SIZE
  }

  function Words(b: Bucket): (w: seq<u64>)
    ensures |w| == V2_WORDS
  {
    [b.start, b.end, b.samples,
     b.bytes.upV4, b.bytes.downV4, b.bytes.upV6, b.bytes.downV6]
    + RateWords(b.rates.upV4) + RateWords(b.rates.downV4) + RateWords(b.rates.upV6) + RateWords(b.rates.downV6)
  }

  function RateWords(r: Rate): (w: seq<u64>)
    ensures |w| == 5
  {
    [r.sum, r.max, r.min, r.avg, r.p95]
  }

  function OfWords(w: seq<u64>): Bucket
    requires |w| == V2_WORDS
  {
    Bucket(w[0], w[1], w[2], Quad(w[3], w[4], w[5], w[6]),
           Quad(RateOf(w[7..12]), RateOf(w[12..17]), RateOf(w[17..22]), RateOf(w[22..27])))
  }

  function RateOf(w: seq<u64>): Rate
    requires |w| == 5
  {
    Rate(w[0], w[1], w[2], w[3], w[4])
  }

  /** Version 1 kept averages but no sample counts: each legacy hour becomes one observation. */
  function OfV1Words(w: seq<u64>): Bucket
    requires |w| == V1_WORDS
  {
    Bucket(w[0], w[1], 1, Quad(w[2], w[3], w[4], w[5]),
           Quad(V1RateOf(w[6..10]), V1RateOf(w[10..14]), V1RateOf(w[14..18]), V1RateOf(w[18..22])))
  }

  function V1RateOf(w: seq<u64>): Rate
    requires |w| == 4
  {
    Rate(w[0], w[1], w[2], w[0], w[3])
  }

  function EncodeWords(w: seq<u64>): (data: seq<byte>)
    ensures |data| == 8 * |w|
  {
    if w == [] then [] else EncodeWords(w[..|w| - 1]) + Le64(w[|w| - 1])
  }

  function DecodeWords(data: seq<byte>): (w: seq<u64>)
    ensures |w| == |data| / 8
  {
    if |data| < 8 then [] else [U64Le(data, 0)] + DecodeWords(data[8..])
  }

  lemma {:induction false} DecodedWord(data: seq<byte>, k: nat)
    requires k < |data| / 8
    ensures DecodeWords(data)[k] == U64Le(data, 8 * k)
  {
    if k > 0 {
      DecodedWord(data[8..], k - 1);
      assert DecodeWords(data)[k] == DecodeWords(data[8..])[k - 1];
    }
  }

  function EncodeRecord(b: Bucket): (data: seq<byte>)
    ensures |data| == RECORD_SIZE
  {
    Sealed(EncodeWords(Words(b)))
  }

  function Sealed(body: seq<byte>): (data: seq<byte>)
    ensures |data| == |body| + 4
  {
    body + Le32(Fnv.Checksum(body))
  }

  function DecodeRecord(data: seq<byte>, version: u32): Option<Bucket> {
    if |data| != RecordSize(version) then None
    else
      var body := data[..|data| - 4];
      if U32Le(data, |data| - 4) != Fnv.Checksum(body) then None
      else if version == 1 then Some(OfV1Words(DecodeWords(body)))
      else Some(OfWords(DecodeWords(body)))
  }

  method EncodeRingRecord(b: Bucket) returns (data: seq<byte>)
    ensures data == EncodeRecord(b)
  {
    data := [];
    var words := Words(b);
    for i := 0 to |words|
      invariant data == EncodeWords(words[..i])
    {
      assert words[..i + 1][..i] == words[..i];
      data := data + Le64(words[i]);
    }
    assert words[..|words|] == words;
    var sum := Fnv.Checksum32(data);
    data := data + Le32(sum);
  }

  lemma WordsAreDecoded(data: seq<byte>, words: seq<u64>)
    requires |data| == 8 * |words| && forall k :: 0 <= k < |words| ==> words[k] == U64Le(data, 8 * k)
    ensures words == DecodeWords(data)
  {
    forall k | 0 <= k < |words|
      ensures words[k] == DecodeWords(data)[k]
    {
      DecodedWord(data, k);
    }
  }

  lemma SameLe64(data: seq<byte>, front: seq<byte>, i: nat)
    requires front <= data && i + 8 <= |front|
    ensures U64Le(data, i) == U64Le(front, i)
  {
  }

  method DecodeRingRecord(data: seq<byte>, version: u32) returns (r: Option<Bucket>)
    ensures r == DecodeRecord(data, version)
  {
    if |data| != RecordSize(version) {
      return None;
    }
    var dataSize := RecordSize(version) - 4;
    var checksum := U32Le(data, dataSize);
    var expected := Fnv.Checksum32(data[..dataSize]);
    if checksum != expected {
      return None;
    }
    var offset := 0;
    var words: seq<u64> := [];
    while offset < dataSize
      invariant 0 <= offset <= dataSize && offset == 8 * |words|
      invariant forall k :: 0 <= k < |words| ==> words[k] == U64Le(data[..dataSize], 8 * k)
    {
      SameLe64(data, data[..dataSize], offset);
      words := words + [U64Le(data, offset)];
      offset := offset + 8;
    }
    WordsAreDecoded(data[..dataSize], words);
    r := Some(if version == 1 then OfV1Words(words) else OfWords(words));
  }

  lemma {:induction false} WordsRoundTrip(w: seq<u64>)
    ensures DecodeWords(EncodeWords(w)) == w
  {
    if w != [] {
      var front, last := w[..|w| - 1], w[|w| - 1];
      WordsRoundTrip(front);
      var data := EncodeWords(w);
      assert data[8 * |front|..8 * |front| + 8] == Le64(last);
      Le64RoundTrip(data, 8 * |front|, last);
      forall k | 0 <= k < |w|
        ensures DecodeWords(data)[k] == w[k]
      {
        DecodedWord(data, k);
        if k < |front| {
          DecodedWord(EncodeWords(front), k);
        }
      }
    }
  }

  lemma {:induction false} DecodeWordsInjective(s: seq<byte>, t: seq<byte>)
    requires |s| == |t| && |s| % 8 == 0 && DecodeWords(s) == DecodeWords(t)
    ensures s == t
  {
    forall i | 0 <= i < |s|
      ensures s[i] == t[i]
    {
      var k := i / 8;
      assert DecodeWords(s)[k] == DecodeWords(t)[k];
      DecodedWord(s, k);
      DecodedWord(t, k);
      Le64RoundTrip(s, 8 * k, DecodeWords(s)[k]);
      Le64RoundTrip(t, 8 * k, DecodeWords(s)[k]);
      assert s[i] == s[8 * k..8 * k + 8][i - 8 * k] == t[8 * k..8 * k + 8][i - 8 * k] == t[i];
    }
  }

  lemma BucketWords(b: Bucket)
    ensures OfWords(Words(b)) == b
  {
    var w := Words(b);
    assert w[7..12] == RateWords(b.rates.upV4);
    assert w[12..17] == RateWords(b.rates.downV4);
    assert w[17..22] == RateWords(b.rates.upV6);
    assert w[22..27] == RateWords(b.rates.downV6);
  }

  lemma WordsBucket(w: seq<u64>)
    requires |w| == V2_WORDS
    ensures Words(OfWords(w)) == w
  {
    assert w == w[..7] + w[7..12] + w[12..17] + w[17..22] + w[22..27];
    assert RateWords(RateOf(w[7..12])) == w[7..12];
    assert RateWords(RateOf(w[12..17])) == w[12..17];
    assert RateWords(RateOf(w[17..22])) == w[17..22];
    assert RateWords(RateOf(w[22..27])) == w[22..27];
    assert w[..7] == [w[0], w[1], w[2], w[3], w[4], w[5], w[6]];
  }

  /** Appending the checksum is the only way to satisfy it. */
  lemma SealedIff(data: seq<byte>, n: nat)
    requires |data| == n + 4
    ensures U32Le(data, n) == Fnv.Checksum(data[..n]) <==> data == Sealed(data[..n])
  {
    var sum := Fnv.Checksum(data[..n]);
    Le32RoundTrip(data, n, sum);
    if U32Le(data, n) == sum {
      assert data == data[..n] + data[n..n + 4];
    }
    if data == Sealed(data[..n]) {
      assert data[n..n + 4] == Le32(sum);
    }
  }

  /** Encoding and decoding are inverse to each other: no other byte string reads as `b`. */
  lemma RecordRoundTrip(data: seq<byte>, b: Bucket)
    ensures DecodeRecord(data, 2) == Some(b) <==> data == EncodeRecord(b)
  {
    var body := EncodeWords(Words(b));
    WordsRoundTrip(Words(b));
    BucketWords(b);
    if data == EncodeRecord(b) {
      assert data[..216] == body;
      SealedIff(data, 216);
    }
    if DecodeRecord(data, 2) == Some(b) {
      SealedIff(data, 216);
      WordsBucket(DecodeWords(data[..216]));
      DecodeWordsInjective(data[..216], body);
    }
  }

  /** The version 1 layout: averages first, no sample count, no sums. */
  function EncodeV1Record(b: Bucket): seq<byte> {
    Sealed(EncodeWords([b.start, b.end, b.bytes.upV4, b.bytes.downV4, b.bytes.upV6, b.bytes.downV6]
                       + V1RateWords(b.rates.upV4) + V1RateWords(b.rates.downV4)
                       + V1RateWords(b.rates.upV6) + V1RateWords(b.rates.downV6)))
  }

  function V1RateWords(r: Rate): (w: seq<u64>)
    ensures |w| == 4
  {
    [r.avg, r.max, r.min, r.p95]
  }

  /** A legacy hour keeps its byte totals exactly, and finalizing it again keeps its averages. */
  lemma LegacyRecordSurvives(b: Bucket)
    ensures DecodeRecord(EncodeV1Record(b), 1).Some?
    ensures var d := DecodeRecord(EncodeV1Record(b), 1).value;
            && d.start == b.start && d.end == b.end && d.bytes == b.bytes && d.samples == 1
            && MapQuad((r: Rate) => (r.avg, r.max, r.min), Finalize(d).rates)
               == MapQuad((r: Rate) => (r.avg, r.max, r.min), b.rates)
  {
    var w := [b.start, b.end, b.bytes.upV4, b.bytes.downV4, b.bytes.upV6, b.bytes.downV6]
             + V1RateWords(b.rates.upV4) + V1RateWords(b.rates.downV4)
             + V1RateWords(b.rates.upV6) + V1RateWords(b.rates.downV6);
    LegacyRecordDecodes(EncodeV1Record(b), w);
    assert w[6..10] == V1RateWords(b.rates.upV4);
    assert w[10..14] == V1RateWords(b.rates.downV4);
    assert w[14..18] == V1RateWords(b.rates.upV6);
    assert w[18..22] == V1RateWords(b.rates.downV6);
  }

  lemma LegacyRecordDecodes(data: seq<byte>, w: seq<u64>)
    requires |w| == V1_WORDS && data == Sealed(EncodeWords(w))
    ensures DecodeRecord(data, 1) == Some(OfV1Words(w))
  {
    assert data[..176] == EncodeWords(w);
    SealedIff(data, 176);
    WordsRoundTrip(w);
  }

  /** A record with exactly one damaged byte never decodes, in either format. */
  lemma DamagedRecordRejected(data: seq<byte>, version: u32, i: nat, b: byte)
    requires DecodeRecord(data, version).Some? && i < |data| && b != data[i]
    ensures DecodeRecord(data[i := b], version) == None
  {
    DamagedSealRejected(data, |data| - 4, i, b);
  }

  lemma DamagedSealRejected(data: seq<byte>, n: nat, i: nat, b: byte)
    requires n + 4 <= |data| && i < n + 4 && b != data[i]
    requires U32Le(data, n) == Fnv.Checksum(data[..n])
    ensures U32Le(data[i := b], n) != Fnv.Checksum(data[i := b][..n])
  {
    var bad := data[i := b];
    if i < n {
      assert bad[..n] == data[..n][i := b];
      assert bad[n..n + 4] == data[n..n + 4];
      Fnv.OneByteChangesChecksum(data[..n], i, b);
    } else {
      assert bad[..n] == data[..n];
    }
  }
}
