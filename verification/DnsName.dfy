/** Domain names on the wire: the bounded decompression loop against sections 3.1 and 4.1.4 of RFC 1035. */
module DnsName {
  import opened Bytes

  type Label = seq<byte>

  const MAX_JUMPS := 16
  const MAX_EXPANDED := 255
  const NONE_YET: nat := 0

  /** Two bytes with the top bits set name an earlier offset. */
  predicate IsPointer(p: seq<byte>, pos: nat)
    requires pos < |p|
  {
    p[pos] >= 192
  }

  function Target(p: seq<byte>, pos: nat): nat
    requires pos + 1 < |p| && IsPointer(p, pos)
  {
    var high: int, low: int := p[pos], p[pos + 1];
    (high - 192) * 256 + low
  }

  /**
   * What RFC 1035 says the bytes at `pos` mean: labels ended by a zero byte, or continued at the target of a
   * pointer; `jumps` counts the pointers followed.
   */
  ghost predicate Represents(p: seq<byte>, pos: nat, labels: seq<Label>, jumps: nat)
    decreases jumps, |labels|
  {
    && pos < |p|
    && if IsPointer(p, pos) then
         jumps > 0 && pos + 1 < |p| && Represents(p, Target(p, pos), labels, jumps - 1)
       else if p[pos] >= 64 then false
       else if p[pos] == 0 then labels == [] && jumps == 0
       else
         && labels != []
         && pos + 1 + p[pos] <= |p|
         && labels[0] == p[pos + 1..pos + 1 + p[pos]]
         && Represents(p, pos + 1 + p[pos], labels[1..], jumps)
  }

  /** Octets the labels take uncompressed, not counting the final zero. */
  function WireLen(labels: seq<Label>): nat {
    if labels == [] then 0 else 1 + |labels[0]| + WireLen(labels[1..])
  }

  /** The bounded resolution: `jumps` pointers followed and `used` octets expanded so far. */
  function Resolve(p: seq<byte>, pos: nat, jumps: nat, used: nat): Option<seq<Label>>
    requires jumps <= MAX_JUMPS + 1 && used <= MAX_EXPANDED
    decreases MAX_JUMPS + 1 - jumps, MAX_EXPANDED - used
  {
    if pos >= |p| || jumps > MAX_JUMPS then None
    else if IsPointer(p, pos) then
      if pos + 1 >= |p| || Target(p, pos) >= |p| then None else Resolve(p, Target(p, pos), jumps + 1, used)
    else if p[pos] >= 64 then None
    else if p[pos] == 0 then Some([])
    else if pos + 1 + p[pos] > |p| || used + p[pos] + 1 > MAX_EXPANDED then None
    else Prepend([p[pos + 1..pos + 1 + p[pos]]], Resolve(p, pos + 1 + p[pos], jumps, used + p[pos] + 1))
  }

  function Prepend(front: seq<Label>, rest: Option<seq<Label>>): Option<seq<Label>> {
    if rest.None? then None else Some(front + rest.value)
  }

  /** Where the name stored at `pos` ends: after its first pointer, or after its zero byte. */
  function NameEnd(p: seq<byte>, pos: nat): nat
    decreases |p| - pos
  {
    if pos >= |p| then pos
    else if IsPointer(p, pos) then pos + 2
    else if p[pos] == 0 then pos + 1
    else NameEnd(p, pos + 1 + p[pos])
  }

  method ReadDnsName(p: seq<byte>, offset: nat) returns (r: Option<(seq<Label>, nat)>)
    ensures r.Some? <==> Resolve(p, offset, NONE_YET, NONE_YET).Some?
    ensures r.Some? ==> Resolve(p, offset, NONE_YET, NONE_YET) == Some(r.value.0) && r.value.1 == NameEnd(p, offset)
    ensures r.Some? ==> offset < r.value.1 <= |p|
  {
    var position: nat := offset;
    var consumed: Option<nat> := None;
    var labels: seq<Label> := [];
    var jumps := 0;
    var expanded := 0;
    PrependNothing(Resolve(p, offset, NONE_YET, NONE_YET));
    while true
      invariant jumps <= MAX_JUMPS + 1 && 2 * |labels| <= expanded <= MAX_EXPANDED
      invariant Resolve(p, offset, NONE_YET, NONE_YET) == Prepend(labels, Resolve(p, position, jumps, expanded))
      invariant NameEnd(p, offset) == if consumed.Some? then consumed.value else NameEnd(p, position)
      decreases MAX_JUMPS + 1 - jumps, MAX_EXPANDED - expanded
    {
      if position >= |p| || jumps > MAX_JUMPS || |labels| > 127 {
        return None;
      }
      var length: int := p[position];
      if length >= 192 {
        if position + 1 >= |p| {
          return None;
        }
        var pointer := (length - 192) * 256 + p[position + 1];
        if pointer >= |p| {
          return None;
        }
        if consumed.None? {
          consumed := Some(position + 2);
        }
        position := pointer;
        jumps := jumps + 1;
        continue;
      }
      if length >= 64 {
        return None;
      }
      position := position + 1;
      if length == 0 {
        var next := if consumed.Some? then consumed.value else position;
        assert labels + [] == labels;
        ghost var j := ResolveSound(p, offset, NONE_YET, NONE_YET);
        NameEndInBounds(p, offset, labels, j);
        return Some((labels, next));
      }
      var end := position + length;
      if end > |p| || expanded + length + 1 > MAX_EXPANDED {
        return None;
      }
      var piece := p[position..end];
      PrependMore(labels, piece, Resolve(p, end, jumps, expanded + length + 1));
      expanded := expanded + length + 1;
      labels := labels + [piece];
      position := end;
    }
  }

  lemma PrependNothing(rest: Option<seq<Label>>)
    ensures Prepend([], rest) == rest
  {
    if rest.Some? {
      assert [] + rest.value == rest.value;
    }
  }

  lemma PrependMore(labels: seq<Label>, piece: Label, rest: Option<seq<Label>>)
    ensures Prepend(labels, Prepend([piece], rest)) == Prepend(labels + [piece], rest)
  {
    if rest.Some? {
      assert labels + ([piece] + rest.value) == labels + [piece] + rest.value;
    }
  }

  // ----- the loop against the definition

  lemma {:induction false} ResolveSound(p: seq<byte>, pos: nat, jumps: nat, used: nat) returns (j: nat)
    requires jumps <= MAX_JUMPS + 1 && used <= MAX_EXPANDED && Resolve(p, pos, jumps, used).Some?
    ensures var labels := Resolve(p, pos, jumps, used).value;
            Represents(p, pos, labels, j) && jumps + j <= MAX_JUMPS && used + WireLen(labels) <= MAX_EXPANDED
    decreases MAX_JUMPS + 1 - jumps, MAX_EXPANDED - used
  {
    if IsPointer(p, pos) {
      j := ResolveSound(p, Target(p, pos), jumps + 1, used);
      j := j + 1;
    } else if p[pos] == 0 {
      j := 0;
    } else {
      j := ResolveSound(p, pos + 1 + p[pos], jumps, used + p[pos] + 1);
      assert Resolve(p, pos, jumps, used).value[1..]
          == Resolve(p, pos + 1 + p[pos], jumps, used + p[pos] + 1).value;
    }
  }

  lemma {:induction false} ResolveComplete(p: seq<byte>, pos: nat, labels: seq<Label>, j: nat, jumps: nat, used: nat)
    requires Represents(p, pos, labels, j) && jumps + j <= MAX_JUMPS && used + WireLen(labels) <= MAX_EXPANDED
    ensures Resolve(p, pos, jumps, used) == Some(labels)
    decreases j, |labels|
  {
    if IsPointer(p, pos) {
      assert Represents(p, Target(p, pos), labels, j - 1);
      ResolveComplete(p, Target(p, pos), labels, j - 1, jumps + 1, used);
    } else if p[pos] != 0 {
      ResolveComplete(p, pos + 1 + p[pos], labels[1..], j, jumps, used + p[pos] + 1);
      assert labels == [labels[0]] + labels[1..];
    }
  }

  /** The reader accepts exactly the names RFC 1035 gives a meaning with at most 16 pointers and 255 label octets. */
  lemma ReaderIsRfc1035(p: seq<byte>, pos: nat, labels: seq<Label>)
    ensures Resolve(p, pos, NONE_YET, NONE_YET) == Some(labels)
            <==> WireLen(labels) <= 255 && exists j :: 0 <= j <= 16 && Represents(p, pos, labels, j)
  {
    if Resolve(p, pos, NONE_YET, NONE_YET) == Some(labels) {
      var j := ResolveSound(p, pos, NONE_YET, NONE_YET);
      assert j <= 16 && Represents(p, pos, labels, j);
      assert exists j :: 0 <= j <= 16 && Represents(p, pos, labels, j);
    }
    if WireLen(labels) <= 255 && exists j :: 0 <= j <= 16 && Represents(p, pos, labels, j) {
      var j :| 0 <= j <= 16 && Represents(p, pos, labels, j);
      ResolveComplete(p, pos, labels, j, NONE_YET, NONE_YET);
    }
  }

  /** A name that has a meaning ends inside the packet, behind where it starts. */
  lemma {:induction false} NameEndInBounds(p: seq<byte>, pos: nat, labels: seq<Label>, j: nat)
    requires Represents(p, pos, labels, j)
    ensures pos < NameEnd(p, pos) <= |p|
    decreases |labels|
  {
    if !IsPointer(p, pos) && p[pos] != 0 {
      NameEndInBounds(p, pos + 1 + p[pos], labels[1..], j);
    }
  }

  // ----- encoders

  predicate ValidLabels(labels: seq<Label>) {
    forall l :: l in labels ==> 1 <= |l| <= 63
  }

  function EncodeLabels(labels: seq<Label>): (r: seq<byte>)
    requires ValidLabels(labels)
    ensures |r| == WireLen(labels)
  {
    if labels == [] then [] else [|labels[0]|] + labels[0] + EncodeLabels(labels[1..])
  }

  function EncodeName(labels: seq<Label>): seq<byte>
    requires ValidLabels(labels)
  {
    EncodeLabels(labels) + [0]
  }

  function EncodePointer(target: nat): (r: seq<byte>)
    requires target < 0x4000
    ensures |r| == 2
  {
    [192 + target / 256, target % 256]
  }

  lemma LabelInFront(p: seq<byte>, pos: nat, first: Label, tail: seq<Label>, j: nat)
    requires 1 <= |first| <= 63 && pos + 1 + |first| <= |p|
    requires p[pos] == |first| && p[pos + 1..pos + 1 + |first|] == first
    requires Represents(p, pos + 1 + |first|, tail, j)
    ensures Represents(p, pos, [first] + tail, j) && NameEnd(p, pos) == NameEnd(p, pos + 1 + |first|)
  {
    assert ([first] + tail)[1..] == tail;
  }

  lemma FirstOfLabels(p: seq<byte>, pos: nat, labels: seq<Label>, next: nat, end: nat)
    requires ValidLabels(labels) && labels != [] && pos + WireLen(labels) == end <= |p|
    requires next == pos + 1 + |labels[0]| && p[pos..end] == EncodeLabels(labels)
    ensures 1 <= |labels[0]| <= 63 && next + WireLen(labels[1..]) == end
    ensures p[pos] == |labels[0]| && p[pos + 1..next] == labels[0] && p[next..end] == EncodeLabels(labels[1..])
  {
    assert labels[0] in labels;
    FirstLabel(p, pos, labels[0], EncodeLabels(labels[1..]));
  }

  lemma PrependLabel(p: seq<byte>, pos: nat, labels: seq<Label>, next: nat, tail: seq<Label>, j: nat)
    requires labels != [] && 1 <= |labels[0]| <= 63 && next == pos + 1 + |labels[0]| <= |p|
    requires p[pos] == |labels[0]| && p[pos + 1..next] == labels[0] && Represents(p, next, labels[1..] + tail, j)
    ensures Represents(p, pos, labels + tail, j) && NameEnd(p, pos) == NameEnd(p, next)
  {
    LabelInFront(p, pos, labels[0], labels[1..] + tail, j);
    assert labels + tail == [labels[0]] + (labels[1..] + tail);
  }

  /** Spelled-out labels in front of anything that already represents a name. */
  lemma {:induction false} LabelsInFront(
      p: seq<byte>, pos: nat, labels: seq<Label>, end: nat, tail: seq<Label>, j: nat)
    requires ValidLabels(labels) && pos + WireLen(labels) == end <= |p|
    requires p[pos..end] == EncodeLabels(labels)
    requires Represents(p, end, tail, j)
    ensures Represents(p, pos, labels + tail, j)
    ensures NameEnd(p, pos) == NameEnd(p, end)
    decreases labels
  {
    if labels == [] {
      assert labels + tail == tail;
    } else {
      var next := pos + 1 + |labels[0]|;
      FirstOfLabels(p, pos, labels, next, end);
      LabelsInFront(p, next, labels[1..], end, tail, j);
      PrependLabel(p, pos, labels, next, tail, j);
    }
  }

  lemma FirstLabel(p: seq<byte>, pos: nat, first: Label, rest: seq<byte>)
    requires |first| < 64 && pos + 1 + |first| + |rest| <= |p|
    requires p[pos..pos + 1 + |first| + |rest|] == [|first|] + first + rest
    ensures var n := |first|;
            && p[pos] == n && p[pos + 1..pos + 1 + n] == first
            && p[pos + 1 + n..pos + 1 + n + |rest|] == rest
  {
    var n := |first|;
    SplitSlice(p, pos, 1 + n, 1 + n + |rest|, [n] + first, rest);
    SplitSlice(p, pos, 1, 1 + n, [n], first);
    assert p[pos] == p[pos..pos + 1][0];
  }

  /** Reading inverts the plain encoding of section 3.1, wherever it stands in the packet. */
  lemma PlainNameInverts(before: seq<byte>, labels: seq<Label>, after: seq<byte>)
    requires ValidLabels(labels) && WireLen(labels) <= MAX_EXPANDED
    ensures var p := before + EncodeName(labels) + after;
            Resolve(p, |before|, NONE_YET, NONE_YET) == Some(labels)
            && NameEnd(p, |before|) == |before| + |EncodeName(labels)|
  {
    var p := before + EncodeName(labels) + after;
    var pos, code := |before|, EncodeLabels(labels);
    assert p == before + code + ([0] + after);
    assert p[pos..pos + |code|] == code;
    assert p[pos + |code|] == 0;
    LabelsInFront(p, pos, labels, pos + WireLen(labels), [], 0);
    assert labels + [] == labels;
    ResolveComplete(p, pos, labels, 0, NONE_YET, NONE_YET);
  }

  lemma CompressedRepresents(p: seq<byte>, pos: nat, labels: seq<Label>, target: nat, tail: seq<Label>, j: nat)
    requires ValidLabels(labels) && target < 0x4000 && pos + WireLen(labels) + 2 <= |p|
    requires p[pos..pos + WireLen(labels) + 2] == EncodeLabels(labels) + EncodePointer(target)
    requires Represents(p, target, tail, j)
    ensures Represents(p, pos, labels + tail, j + 1) && NameEnd(p, pos) == pos + WireLen(labels) + 2
  {
    var end := pos + WireLen(labels);
    SplitSlice(p, pos, end - pos, end - pos + 2, EncodeLabels(labels), EncodePointer(target));
    PointerStands(p, end, target, tail, j);
    LabelsInFront(p, pos, labels, end, tail, j + 1);
  }

  /** RFC 1035 counts the final zero octet and allows 255 in all; the reader accepts one more. */
  lemma LongestNameIsOneTooLong(labels: seq<Label>)
    requires ValidLabels(labels) && WireLen(labels) == 255
    ensures |EncodeName(labels)| == 256 && Resolve(EncodeName(labels), 0, NONE_YET, NONE_YET) == Some(labels)
  {
    PlainNameInverts([], labels, []);
    assert [] + EncodeName(labels) + [] == EncodeName(labels);
  }

  /** There is such a name: three labels of 63 octets and one of 62. */
  lemma SuchNameExists()
    ensures exists labels :: ValidLabels(labels) && WireLen(labels) == 255
  {
    var long, short: Label := seq(63, _ => 0x61), seq(62, _ => 0x61);
    var labels := [long, long, long, short];
    assert labels[1..] == [long, long, short] && labels[1..][1..] == [long, short] && labels[1..][1..][1..] == [short];
    assert WireLen([short]) == 63;
    assert WireLen([long, short]) == 64 + WireLen([long, short][1..]);
    assert WireLen([long, long, short]) == 64 + WireLen([long, long, short][1..]);
    assert ValidLabels(labels) && WireLen(labels) == MAX_EXPANDED;
  }

  /** Reading inverts compression: labels followed by a pointer to a name already in the packet. */
  lemma CompressedNameInverts(p: seq<byte>, pos: nat, labels: seq<Label>, target: nat, tail: seq<Label>, j: nat)
    requires ValidLabels(labels) && target < 0x4000 && pos + WireLen(labels) + 2 <= |p|
    requires p[pos..pos + WireLen(labels) + 2] == EncodeLabels(labels) + EncodePointer(target)
    requires Represents(p, target, tail, j)
    ensures Represents(p, pos, labels + tail, j + 1) && NameEnd(p, pos) == pos + WireLen(labels) + 2
    ensures j < MAX_JUMPS && WireLen(labels + tail) <= MAX_EXPANDED ==>
              Resolve(p, pos, NONE_YET, NONE_YET) == Some(labels + tail)
  {
    CompressedRepresents(p, pos, labels, target, tail, j);
    if j < MAX_JUMPS && WireLen(labels + tail) <= MAX_EXPANDED {
      ResolveComplete(p, pos, labels + tail, j + 1, NONE_YET, NONE_YET);
    }
  }

  lemma PointerStands(p: seq<byte>, pos: nat, target: nat, tail: seq<Label>, j: nat)
    requires target < 0x4000 && pos + 2 <= |p| && p[pos..pos + 2] == EncodePointer(target)
    requires Represents(p, target, tail, j)
    ensures Represents(p, pos, tail, j + 1) && NameEnd(p, pos) == pos + 2
  {
    assert p[pos] == p[pos..pos + 2][0] && p[pos + 1] == p[pos..pos + 2][1];
    assert Target(p, pos) == target;
  }

  /** A pointer loop has no meaning, and the reader rejects it after its 17th pointer. */
  lemma PointerLoopRejected(p: seq<byte>, pos: nat, labels: seq<Label>, j: nat)
    requires pos + 1 < |p| && IsPointer(p, pos) && Target(p, pos) == pos
    ensures !Represents(p, pos, labels, j) && Resolve(p, pos, NONE_YET, NONE_YET) == None
  {
    LoopNeverEnds(p, pos, labels, j);
    if Resolve(p, pos, NONE_YET, NONE_YET).Some? {
      var k := ResolveSound(p, pos, NONE_YET, NONE_YET);
      LoopNeverEnds(p, pos, Resolve(p, pos, NONE_YET, NONE_YET).value, k);
    }
  }

  lemma {:induction false} LoopNeverEnds(p: seq<byte>, pos: nat, labels: seq<Label>, j: nat)
    requires pos + 1 < |p| && IsPointer(p, pos) && Target(p, pos) == pos
    ensures !Represents(p, pos, labels, j)
  {
    if j > 0 {
      LoopNeverEnds(p, pos, labels, j - 1);
    }
  }
}
