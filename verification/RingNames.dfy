/** Ring file names: what a series is stored under, and which series a loader takes a file for. */
module RingNames {
  import opened Bytes

  // ----- hexadecimal components

  function HexDigit(v: byte): char
    requires v < 16
  {
    if v < 10 then ('0' as int + v) as char else ('a' as int + v - 10) as char
  }

  function DigitValue(c: char): Option<byte> {
    if '0' <= c <= '9' then Some(c as int - '0' as int)
    else if 'a' <= c <= 'f' then Some(c as int - 'a' as int + 10)
    else if 'A' <= c <= 'F' then Some(c as int - 'A' as int + 10)
    else None
  }

  function HexPair(b: byte): (r: string)
    ensures |r| == 2
  {
    [HexDigit(b / 16), HexDigit(b % 16)]
  }

  function EncodeComponent(name: seq<byte>): string {
    if name == [] then "" else HexPair(name[0]) + EncodeComponent(name[1..])
  }

  /** Two characters as a base-16 number; a leading plus sign is accepted. */
  function PairValue(hi: char, lo: char): Option<byte> {
    if DigitValue(lo).None? then None
    else if hi == '+' then DigitValue(lo)
    else if DigitValue(hi).None? then None
    else Some(DigitValue(hi).value * 16 + DigitValue(lo).value)
  }

  /** `Crashed` is the out-of-bounds read behind an odd number of characters. */
  datatype Decoded = Name(bytes: seq<byte>) | Rejected | Crashed

  function DecodePairs(chars: string): Decoded {
    if chars == "" then Name([])
    else if |chars| == 1 then Crashed
    else
      var v := PairValue(chars[0], chars[1]);
      if v.None? then Rejected
      else
        var rest := DecodePairs(chars[2..]);
        if rest.Name? then Name([v.value] + rest.bytes) else rest
  }

  /** The length of the UTF-8 encoding. */
  function Utf8Size(chars: string): nat {
    if chars == "" then 0
    else
      var c := chars[0] as int;
      (if c < 0x80 then 1 else if c < 0x800 then 2 else if c < 0x1_0000 then 3 else 4) + Utf8Size(chars[1..])
  }

  /** `utf8` tells which byte strings are text; anything else is refused at the end. */
  function DecodeComponent(hex: string, utf8: seq<byte> -> bool): Decoded {
    if hex == "" || Utf8Size(hex) % 2 != 0 then Rejected
    else
      var r := DecodePairs(hex);
      if r.Name? && !utf8(r.bytes) then Rejected else r
  }

  method DecodeComponentLoop(hex: string, utf8: seq<byte> -> bool) returns (r: Decoded)
    ensures r == DecodeComponent(hex, utf8)
  {
    if hex == "" || Utf8Size(hex) % 2 != 0 {
      return Rejected;
    }
    var bytes: seq<byte> := [];
    var i := 0;
    while i < |hex|
      invariant 0 <= i <= |hex|
      invariant DecodePairs(hex) == Prefixed(bytes, DecodePairs(hex[i..]))
    {
      if i + 1 == |hex| {
        return Crashed;
      }
      var v := PairValue(hex[i], hex[i + 1]);
      if v.None? {
        return Rejected;
      }
      assert hex[i..][2..] == hex[i + 2..];
      PrefixedTwice(bytes, [v.value], DecodePairs(hex[i + 2..]));
      bytes := bytes + [v.value];
      i := i + 2;
    }
    assert hex[i..] == "" && bytes + [] == bytes;
    r := if utf8(bytes) then Name(bytes) else Rejected;
  }

  function Prefixed(bytes: seq<byte>, r: Decoded): Decoded {
    if r.Name? then Name(bytes + r.bytes) else r
  }

  lemma PrefixedTwice(a: seq<byte>, b: seq<byte>, r: Decoded)
    ensures Prefixed(a, Prefixed(b, r)) == Prefixed(a + b, r)
  {
    if r.Name? {
      assert a + (b + r.bytes) == a + b + r.bytes;
    }
  }

  predicate IsDigit(c: char, v: byte, digits: string)
    requires |digits| == 16
  {
    v < 16 && c == digits[v]
  }

  lemma DigitWritten(v: byte, digits: string)
    requires v < 16 && digits == "0123456789abcdef"
    ensures HexDigit(v) == digits[v]
  {
  }

  /** Lower-case digits are written. */
  lemma PairWritten(b: byte, digits: string)
    requires digits == "0123456789abcdef"
    ensures HexPair(b) == [digits[b / 16], digits[b % 16]]
  {
    DigitWritten(b / 16, digits);
    DigitWritten(b % 16, digits);
  }

  lemma SmallDigit(c: char, v: byte, digits: string)
    requires digits == "0123456789abcdef"
    ensures ('0' <= c <= '9' && v == c as int - '0' as int) || ('a' <= c <= 'f' && v == c as int - 'a' as int + 10)
       <==> IsDigit(c, v, digits)
  {
    if v < 16 {
      DigitWritten(v, digits);
    }
  }

  lemma CapitalDigit(c: char, v: byte, digits: string)
    requires digits == "0123456789ABCDEF"
    ensures ('0' <= c <= '9' && v == c as int - '0' as int) || ('A' <= c <= 'F' && v == c as int - 'A' as int + 10)
       <==> IsDigit(c, v, digits)
  {
  }

  /** Digits of both cases are read. */
  lemma DigitRead(c: char, v: byte)
    ensures DigitValue(c) == Some(v) <==> IsDigit(c, v, "0123456789abcdef") || IsDigit(c, v, "0123456789ABCDEF")
  {
    SmallDigit(c, v, "0123456789abcdef");
    CapitalDigit(c, v, "0123456789ABCDEF");
  }

  lemma PairInverts(b: byte)
    ensures PairValue(HexPair(b)[0], HexPair(b)[1]) == Some(b)
    ensures HexPair(b)[0] as int < 0x80 && HexPair(b)[1] as int < 0x80
  {
  }

  lemma SizeOfPair(hi: char, lo: char, rest: string)
    requires hi as int < 0x80 && lo as int < 0x80
    ensures Utf8Size([hi, lo] + rest) == 2 + Utf8Size(rest)
  {
    var s := [hi, lo] + rest;
    assert s[1..] == [lo] + rest && s[1..][1..] == rest;
    assert Utf8Size(s) == 1 + Utf8Size(s[1..]);
  }

  lemma DecodeFirstPair(hi: char, lo: char, v: byte, rest: string)
    requires PairValue(hi, lo) == Some(v)
    ensures DecodePairs([hi, lo] + rest) == Prefixed([v], DecodePairs(rest))
  {
    assert ([hi, lo] + rest)[2..] == rest;
  }

  lemma {:induction false} PairsInvert(name: seq<byte>)
    ensures DecodePairs(EncodeComponent(name)) == Name(name)
    ensures |EncodeComponent(name)| == 2 * |name| && Utf8Size(EncodeComponent(name)) == 2 * |name|
  {
    if name != [] {
      PairsInvert(name[1..]);
      var pair, rest := HexPair(name[0]), EncodeComponent(name[1..]);
      assert pair == [pair[0], pair[1]];
      PairInverts(name[0]);
      SizeOfPair(pair[0], pair[1], rest);
      DecodeFirstPair(pair[0], pair[1], name[0], rest);
      assert [name[0]] + name[1..] == name;
    }
  }

  /** A name comes back exactly when it is not empty. */
  lemma ComponentRoundTrip(name: seq<byte>, utf8: seq<byte> -> bool)
    requires utf8(name)
    ensures DecodeComponent(EncodeComponent(name), utf8) == Name(name) <==> name != []
  {
    PairsInvert(name);
  }

  function AllPairs(chars: string): bool {
    |chars| < 2 || (PairValue(chars[0], chars[1]).Some? && AllPairs(chars[2..]))
  }

  lemma {:induction false} PairsCrashIff(chars: string)
    ensures DecodePairs(chars) == Crashed <==> |chars| % 2 == 1 && AllPairs(chars)
  {
    if |chars| >= 2 {
      PairsCrashIff(chars[2..]);
    }
  }

  /** Reading past the end happens exactly for an odd number of characters that are an even number of bytes. */
  lemma DecodeCrashesIff(hex: string, utf8: seq<byte> -> bool)
    ensures DecodeComponent(hex, utf8) == Crashed
       <==> |hex| % 2 == 1 && Utf8Size(hex) % 2 == 0 && AllPairs(hex)
  {
    PairsCrashIff(hex);
  }

  /** A single two-byte character is such a name. */
  lemma OneAccentedLetterCrashes(utf8: seq<byte> -> bool)
    ensures DecodeComponent("\U{e9}", utf8) == Crashed
  {
    var hex := "\U{e9}";
    assert hex[1..] == "";
    assert Utf8Size(hex) == 2;
    DecodeCrashesIff(hex, utf8);
  }

  // ----- MAC addresses

  predicate IsHexDigit(c: char) {
    DigitValue(c).Some?
  }

  function Lower(c: char): char {
    if 'A' <= c <= 'Z' then (c as int + 32) as char else c
  }

  function LowerAll(s: string): string {
    if s == "" then "" else [Lower(s[0])] + LowerAll(s[1..])
  }

  function WithoutColons(s: string): string {
    if s == "" then "" else (if s[0] == ':' then "" else [s[0]]) + WithoutColons(s[1..])
  }

  predicate AllHex(s: string) {
    forall i :: 0 <= i < |s| ==> IsHexDigit(s[i])
  }

  function NormalizeMacHex(mac: string): Option<string> {
    var compact := LowerAll(WithoutColons(mac));
    if |compact| == 12 && AllHex(compact) then Some(compact) else None
  }

  function Colons(hex: string): string
    requires |hex| >= 2 && |hex| % 2 == 0
  {
    if |hex| == 2 then hex else hex[..2] + ":" + Colons(hex[2..])
  }

  function MacHexToColon(hex: string): Option<string> {
    if |hex| == 12 && AllHex(hex) then Some(LowerAll(Colons(hex))) else None
  }

  /** Six lower-case pairs joined by colons. */
  ghost predicate Canonical(mac: string) {
    exists hex :: |hex| == 12 && AllHex(hex) && LowerAll(hex) == hex && mac == Colons(hex)
  }

  lemma {:induction false} LowerAppend(a: string, b: string)
    ensures LowerAll(a + b) == LowerAll(a) + LowerAll(b)
    decreases a
  {
    if a == "" {
      assert a + b == b;
    } else {
      assert (a + b)[1..] == a[1..] + b;
      LowerAppend(a[1..], b);
    }
  }

  lemma {:induction false} LowerEach(s: string)
    ensures |LowerAll(s)| == |s| && forall i :: 0 <= i < |s| ==> LowerAll(s)[i] == Lower(s[i])
  {
    if s != "" {
      LowerEach(s[1..]);
    }
  }

  lemma {:induction false} WithoutAppend(a: string, b: string)
    ensures WithoutColons(a + b) == WithoutColons(a) + WithoutColons(b)
    decreases a
  {
    if a == "" {
      assert a + b == b;
    } else {
      assert (a + b)[1..] == a[1..] + b;
      WithoutAppend(a[1..], b);
    }
  }

  lemma {:induction false} NoColons(s: string)
    requires AllHex(s)
    ensures WithoutColons(s) == s
  {
    if s != "" {
      assert AllHex(s[1..]);
      NoColons(s[1..]);
    }
  }

  lemma {:induction false} ColonsDropped(hex: string)
    requires |hex| >= 2 && |hex| % 2 == 0 && AllHex(hex)
    ensures WithoutColons(Colons(hex)) == hex
  {
    if |hex| == 2 {
      NoColons(hex);
    } else {
      var a, rest := hex[..2], Colons(hex[2..]);
      ColonsDropped(hex[2..]);
      NoColons(a);
      WithoutAppend(a + ":", rest);
      WithoutAppend(a, ":");
      assert ":"[1..] == "" && WithoutColons(":") == "";
      assert hex == a + hex[2..];
    }
  }

  lemma {:induction false} LowerColons(hex: string)
    requires |hex| >= 2 && |hex| % 2 == 0
    ensures LowerAll(hex) == hex ==> LowerAll(Colons(hex)) == Colons(hex)
    ensures |LowerAll(hex)| == |hex| && LowerAll(Colons(hex)) == Colons(LowerAll(hex))
  {
    LowerEach(hex);
    if |hex| > 2 {
      var a, b := hex[..2], hex[2..];
      assert hex == a + b;
      LowerAppend(a, b);
      LowerEach(a);
      LowerEach(b);
      LowerColons(b);
      LowerAppend(a + ":", Colons(b));
      LowerAppend(a, ":");
      assert ":"[1..] == "" && LowerAll(":") == ":";
      assert LowerAll(hex)[..2] == LowerAll(a) && LowerAll(hex)[2..] == LowerAll(b);
    }
  }

  lemma LowerHexIsHex(hex: string)
    requires AllHex(hex)
    ensures |LowerAll(hex)| == |hex| && AllHex(LowerAll(hex)) && LowerAll(LowerAll(hex)) == LowerAll(hex)
  {
    LowerEach(hex);
    LowerEach(LowerAll(hex));
  }

  /** A MAC written into a file name comes back unchanged exactly when it is in canonical form. */
  lemma MacRoundTrip(mac: string)
    ensures NormalizeMacHex(mac).Some? && MacHexToColon(NormalizeMacHex(mac).value) == Some(mac) <==> Canonical(mac)
  {
    if Canonical(mac) {
      var hex :| |hex| == 12 && AllHex(hex) && LowerAll(hex) == hex && mac == Colons(hex);
      ColonsDropped(hex);
      LowerColons(hex);
    }
    var n := NormalizeMacHex(mac);
    if n.Some? && MacHexToColon(n.value) == Some(mac) {
      LowerColons(n.value);
      LowerHexIsHex(n.value);
      assert mac == Colons(LowerAll(n.value));
    }
  }

  // ----- whole names

  function DeviceStem(name: seq<byte>, macHex: string): string {
    EncodeComponent(name) + "-" + macHex
  }

  /** The part before and after the last dash. */
  function SplitLastDash(stem: string): Option<(string, string)> {
    if stem == "" then None
    else if stem[|stem| - 1] == '-' then Some((stem[..|stem| - 1], ""))
    else
      var r := SplitLastDash(stem[..|stem| - 1]);
      if r.None? then None else Some((r.value.0, r.value.1 + [stem[|stem| - 1]]))
  }

  datatype Series = Series(name: seq<byte>, mac: string)

  datatype Loaded = For(series: Series) | SetAside | LoaderCrashes

  /** What the loader takes a device ring's file name for, when it knows an interface of the name it reads. */
  function SeriesOf(stem: string, utf8: seq<byte> -> bool): Loaded {
    var split := SplitLastDash(stem);
    if split.None? then SetAside
    else
      match DecodeComponent(split.value.0, utf8)
      case Crashed => LoaderCrashes
      case Rejected => SetAside
      case Name(bytes) =>
        var mac := MacHexToColon(split.value.1);
        if mac.Some? then For(Series(bytes, mac.value)) else SetAside
  }

  lemma {:induction false} SplitInverts(front: string, back: string)
    requires '-' !in back
    ensures SplitLastDash(front + "-" + back) == Some((front, back))
    decreases back
  {
    var stem := front + "-" + back;
    if back == "" {
      assert stem[..|stem| - 1] == front;
    } else {
      var init := back[..|back| - 1];
      assert stem[..|stem| - 1] == front + "-" + init;
      SplitInverts(front, init);
      assert init + [back[|back| - 1]] == back;
    }
  }

  /** A device ring is loaded for the very series it was written for, if the interface name is not empty. */
  lemma DeviceNameRoundTrip(name: seq<byte>, mac: string, utf8: seq<byte> -> bool)
    requires utf8(name) && Canonical(mac)
    ensures NormalizeMacHex(mac).Some?
    ensures SeriesOf(DeviceStem(name, NormalizeMacHex(mac).value), utf8)
         == if name != [] then For(Series(name, mac)) else SetAside
  {
    MacRoundTrip(mac);
    var hex := NormalizeMacHex(mac).value;
    assert '-' !in hex;
    SplitInverts(EncodeComponent(name), hex);
    ComponentRoundTrip(name, utf8);
  }

  /** Different series never share a file. */
  lemma DeviceNamesAreDistinct(a: seq<byte>, macA: string, b: seq<byte>, macB: string)
    requires Canonical(macA) && Canonical(macB) && NormalizeMacHex(macA).Some? && NormalizeMacHex(macB).Some?
    requires DeviceStem(a, NormalizeMacHex(macA).value) == DeviceStem(b, NormalizeMacHex(macB).value)
    ensures a == b && macA == macB
  {
    var x, y := NormalizeMacHex(macA).value, NormalizeMacHex(macB).value;
    assert '-' !in x && '-' !in y;
    SplitInverts(EncodeComponent(a), x);
    SplitInverts(EncodeComponent(b), y);
    PairsInvert(a);
    PairsInvert(b);
    MacRoundTrip(macA);
    MacRoundTrip(macB);
  }
}
