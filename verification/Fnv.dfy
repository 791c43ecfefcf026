/** The 32-bit FNV-1a checksum that guards ring headers and ring records. */
module Fnv {
  import opened Bytes

  const OFFSET_BASIS: u32 := 0x811c9dc5

  /** Bitwise exclusive or, one binary digit at a time. */
  function Xor(a: nat, b: nat): nat {
    if a == 0 && b == 0 then 0 else 2 * Xor(a / 2, b / 2) + (a % 2 + b % 2) % 2
  }

  lemma {:induction false} XorBound(a: nat, b: nat, n: nat)
    requires a < Pow2(n) && b < Pow2(n)
    ensures Xor(a, b) < Pow2(n)
  {
    if n > 0 && (a != 0 || b != 0) {
      XorBound(a / 2, b / 2, n - 1);
    }
  }

  lemma XorDigits(a: nat, b: nat)
    ensures Xor(a, b) / 2 == Xor(a / 2, b / 2) && Xor(a, b) % 2 == (a % 2 + b % 2) % 2
  {
  }

  lemma {:induction false} XorCancels(a: nat, b: nat)
    ensures Xor(Xor(a, b), b) == a
    decreases a + b
  {
    if a != 0 || b != 0 {
      XorCancels(a / 2, b / 2);
      var x := Xor(a, b);
      XorDigits(a, b);
      XorDigits(x, b);
      SameDigits(Xor(x, b), a, a % 2, b % 2, x % 2);
    }
  }

  lemma SameDigits(y: nat, a: nat, d: nat, e: nat, f: nat)
    requires y / 2 == a / 2 && d == a % 2 && e < 2 && f == (d + e) % 2 && y % 2 == (f + e) % 2
    ensures y == a
  {
  }

  lemma {:induction false} XorCommutes(a: nat, b: nat)
    ensures Xor(a, b) == Xor(b, a)
    decreases a + b
  {
    if a != 0 || b != 0 {
      XorCommutes(a / 2, b / 2);
    }
  }

  lemma XorU32(h: u32, b: byte)
    ensures Xor(h, b) < U32
  {
    assert Pow2(8) == 0x100;
    assert Pow2(16) == 0x100 * Pow2(8);
    assert Pow2(24) == 0x100 * Pow2(16);
    assert Pow2(32) == 0x100 * Pow2(24);
    XorBound(h, b, 32);
  }

  /** One round: fold in a byte, then multiply modulo 2^32. */
  function Round(h: u32, b: byte): u32 {
    (Xor(h, b) * 0x0100_0193) % 0x1_0000_0000
  }

  function Checksum(data: seq<byte>): u32 {
    if data == [] then OFFSET_BASIS else Round(Checksum(data[..|data| - 1]), data[|data| - 1])
  }

  method Checksum32(data: seq<byte>) returns (hash: u32)
    ensures hash == Checksum(data)
  {
    hash := OFFSET_BASIS;
    for i := 0 to |data|
      invariant hash == Checksum(data[..i])
    {
      assert data[..i + 1][..i] == data[..i];
      XorU32(hash, data[i]);
      hash := Xor(hash, data[i]);
      hash := (hash * 0x0100_0193) % 0x1_0000_0000;
    }
    assert data[..|data|] == data;
  }

  /** The FNV prime is a unit modulo 2^32, so the multiplication loses nothing. */
  lemma PrimeIsInvertible(x: u32)
    ensures ((x * 0x0100_0193) % 0x1_0000_0000 * 0x359c_449b) % 0x1_0000_0000 == x
  {
    var q := (x * 0x0100_0193) / 0x1_0000_0000;
    var r := (x * 0x0100_0193) % 0x1_0000_0000;
    assert 0x0100_0193 * 0x359c_449b == 1 + 0x1_0000_0000 * 3513497;
    ModUnique(r * 0x359c_449b, x, 3513497 * x - q * 0x359c_449b);
  }

  lemma ModUnique(y: int, x: u32, m: int)
    requires y == x + 0x1_0000_0000 * m
    ensures y % 0x1_0000_0000 == x
  {
  }

  lemma RoundInjective(h: u32, b: byte, h': u32, b': byte)
    requires Round(h, b) == Round(h', b')
    ensures h == h' <==> b == b'
  {
    XorU32(h, b);
    XorU32(h', b');
    PrimeIsInvertible(Xor(h, b));
    PrimeIsInvertible(Xor(h', b'));
    XorCancels(h, b);
    XorCancels(h', b');
    XorCommutes(h, b);
    XorCommutes(h', b');
    XorCancels(b, h);
    XorCancels(b', h');
  }

  /** Changing exactly one byte of the input always changes the checksum. */
  lemma {:induction false} OneByteChangesChecksum(s: seq<byte>, i: nat, b: byte)
    requires i < |s| && b != s[i]
    ensures Checksum(s[i := b]) != Checksum(s)
  {
    var t := s[i := b];
    var n := |s| - 1;
    if i == n {
      assert t[..n] == s[..n];
    } else {
      assert t[..n] == s[..n][i := b];
      OneByteChangesChecksum(s[..n], i, b);
    }
    if Checksum(t) == Checksum(s) {
      RoundInjective(Checksum(s[..n]), s[n], Checksum(t[..n]), t[n]);
    }
  }
}
