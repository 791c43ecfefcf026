/** Machine integers, byte strings and the fixed-width encodings shared by every wire format. */
module Bytes {
  const U32 := 0x1_0000_0000
  const U64 := 0x1_0000_0000_0000_0000

  type byte = x: int | 0 <= x < 256
  type u16 = x: int | 0 <= x < 0x1_0000
  type u32 = x: int | 0 <= x < 0x1_0000_0000
  type u64 = x: int | 0 <= x < 0x1_0000_0000_0000_0000

  const MAX_U64: u64 := U64 - 1

  datatype Option<+T> = None | Some(value: T)

  function Min(a: int, b: int): int {
    if a <= b then a else b
  }

  /** `u64::saturating_sub` (never negative). */
  function SatSub(a: u64, b: u64): u64 {
    if a >= b then a - b else 0
  }

  /** `u64::saturating_add`. */
  function SatAdd(a: u64, b: u64): u64 {
    if a + b < U64 then a + b else MAX_U64
  }

  /** Where a running total kept with `SatAdd` ends up. */
  function Cap64(n: nat): u64 {
    if n < U64 then n else MAX_U64
  }

  function Sum(s: seq<nat>): nat {
    if s == [] then 0 else Sum(s[..|s| - 1]) + s[|s| - 1]
  }

  function Pow2(n: nat): (r: nat)
    ensures r > 0
  {
    if n == 0 then 1 else 2 * Pow2(n - 1)
  }

  // ----- little-endian

  function U16Le(s: seq<byte>, i: nat): u16
    requires i + 2 <= |s|
  {
    var lo: int, hi: int := s[i], s[i + 1];
    lo + 0x100 * hi
  }

  function U32Le(s: seq<byte>, i: nat): u32
    requires i + 4 <= |s|
  {
    U16Le(s, i) + 0x1_0000 * U16Le(s, i + 2)
  }

  function U64Le(s: seq<byte>, i: nat): u64
    requires i + 8 <= |s|
  {
    U32Le(s, i) + 0x1_0000_0000 * U32Le(s, i + 4)
  }

  function Le16(v: u16): (r: seq<byte>)
    ensures |r| == 2
  {
    [v % 0x100, v / 0x100]
  }

  function Le32(v: u32): (r: seq<byte>)
    ensures |r| == 4
  {
    Le16(v % 0x1_0000) + Le16(v / 0x1_0000)
  }

  function Le64(v: u64): (r: seq<byte>)
    ensures |r| == 8
  {
    Le32(v % 0x1_0000_0000) + Le32(v / 0x1_0000_0000)
  }

  lemma Le16RoundTrip(s: seq<byte>, i: nat, v: u16)
    requires i + 2 <= |s|
    ensures s[i..i + 2] == Le16(v) <==> U16Le(s, i) == v
  {
    assert s[i..i + 2] == [s[i], s[i + 1]];
  }

  lemma Le32RoundTrip(s: seq<byte>, i: nat, v: u32)
    requires i + 4 <= |s|
    ensures s[i..i + 4] == Le32(v) <==> U32Le(s, i) == v
  {
    var lo, hi := v % 0x1_0000, v / 0x1_0000;
    Le16RoundTrip(s, i, lo);
    Le16RoundTrip(s, i + 2, hi);
    SplitSlice(s, i, 2, 4, Le16(lo), Le16(hi));
  }

  lemma Le64RoundTrip(s: seq<byte>, i: nat, v: u64)
    requires i + 8 <= |s|
    ensures s[i..i + 8] == Le64(v) <==> U64Le(s, i) == v
  {
    var lo, hi := v % 0x1_0000_0000, v / 0x1_0000_0000;
    Le32RoundTrip(s, i, lo);
    Le32RoundTrip(s, i + 4, hi);
    SplitSlice(s, i, 4, 8, Le32(lo), Le32(hi));
  }

  lemma SplitSlice<T>(s: seq<T>, i: nat, m: nat, n: nat, a: seq<T>, b: seq<T>)
    requires i + n <= |s| && m <= n && |a| == m && |b| == n - m
    ensures s[i..i + n] == a + b <==> s[i..i + m] == a && s[i + m..i + n] == b
  {
    assert s[i..i + n] == s[i..i + m] + s[i + m..i + n];
    if s[i..i + n] == a + b {
      assert a == (a + b)[..m] && b == (a + b)[m..];
    }
  }

  // ----- big-endian

  function U16Be(s: seq<byte>, i: nat): u16
    requires i + 2 <= |s|
  {
    var hi: int, lo: int := s[i], s[i + 1];
    0x100 * hi + lo
  }

  function U32Be(s: seq<byte>, i: nat): u32
    requires i + 4 <= |s|
  {
    0x1_0000 * U16Be(s, i) + U16Be(s, i + 2)
  }

  function U64Be(s: seq<byte>, i: nat): u64
    requires i + 8 <= |s|
  {
    0x1_0000_0000 * U32Be(s, i) + U32Be(s, i + 4)
  }

  function Be16(v: u16): (r: seq<byte>)
    ensures |r| == 2
  {
    [v / 0x100, v % 0x100]
  }

  function Be32(v: u32): (r: seq<byte>)
    ensures |r| == 4
  {
    Be16(v / 0x1_0000) + Be16(v % 0x1_0000)
  }

  function Be64(v: u64): (r: seq<byte>)
    ensures |r| == 8
  {
    Be32(v / 0x1_0000_0000) + Be32(v % 0x1_0000_0000)
  }

  lemma Be16RoundTrip(s: seq<byte>, i: nat, v: u16)
    requires i + 2 <= |s|
    ensures s[i..i + 2] == Be16(v) <==> U16Be(s, i) == v
  {
    assert s[i..i + 2] == [s[i], s[i + 1]];
  }

  lemma Be32RoundTrip(s: seq<byte>, i: nat, v: u32)
    requires i + 4 <= |s|
    ensures s[i..i + 4] == Be32(v) <==> U32Be(s, i) == v
  {
    var hi, lo := v / 0x1_0000, v % 0x1_0000;
    Be16RoundTrip(s, i, hi);
    Be16RoundTrip(s, i + 2, lo);
    SplitSlice(s, i, 2, 4, Be16(hi), Be16(lo));
  }

  lemma Be64RoundTrip(s: seq<byte>, i: nat, v: u64)
    requires i + 8 <= |s|
    ensures s[i..i + 8] == Be64(v) <==> U64Be(s, i) == v
  {
    var hi, lo := v / 0x1_0000_0000, v % 0x1_0000_0000;
    Be32RoundTrip(s, i, hi);
    Be32RoundTrip(s, i + 4, lo);
    SplitSlice(s, i, 4, 8, Be32(hi), Be32(lo));
  }

  // ----- sequences

  /** The last `n` elements of `s`, or all of them. */
  function LastN<T>(s: seq<T>, n: nat): (r: seq<T>)
    ensures |r| == Min(|s|, n)
  {
    if |s| <= n then s else s[|s| - n..]
  }

  /** Trimming early changes nothing: only the newest `n` survive either way. */
  lemma LastNAppend<T>(s: seq<T>, x: T, n: nat)
    ensures LastN(LastN(s, n) + [x], n) == LastN(s + [x], n)
  {
    if |s| > n {
      assert s + [x] == s[..|s| - n] + (LastN(s, n) + [x]);
    }
  }

  lemma LastNTail<T>(s: seq<T>, n: nat)
    requires |s| > n
    ensures LastN(s[1..], n) == LastN(s, n)
  {
  }

  function MapSeq<A, B>(f: A -> B, s: seq<A>): (r: seq<B>)
    ensures |r| == |s| && forall i :: 0 <= i < |s| ==> r[i] == f(s[i])
  {
    seq(|s|, i requires 0 <= i < |s| => f(s[i]))
  }

  lemma MapAppend<A, B>(f: A -> B, s: seq<A>, t: seq<A>)
    ensures MapSeq(f, s + t) == MapSeq(f, s) + MapSeq(f, t)
  {
  }

  lemma MapNewest<A, B>(f: A -> B, s: seq<A>, x: A, n: nat)
    ensures LastN(MapSeq(f, s) + [f(x)], n) == MapSeq(f, LastN(s + [x], n))
  {
  }

  lemma MapTwice<A>(f: A -> A, s: seq<A>, n: nat)
    requires forall i :: 0 <= i < |s| ==> f(f(s[i])) == f(s[i])
    ensures MapSeq(f, LastN(MapSeq(f, s), n)) == LastN(MapSeq(f, s), n)
  {
  }

  lemma {:induction false} SubsetSize<T>(a: set<T>, b: set<T>)
    requires a <= b
    ensures |a| <= |b|
  {
    if x :| x in a {
      SubsetSize(a - {x}, b - {x});
    }
  }
}
