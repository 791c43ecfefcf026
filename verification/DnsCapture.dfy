/** From the wire to the parser: packets as they are sent, and what filter and userspace make of them. */
module DnsCapture {
  import opened Bytes
  import opened DnsPacket
  import opened DnsMessage
  import opened DnsName

  // ----- what the filter asks of the DNS header

  /** One to sixteen questions, and an operation code of at most five. */
  predicate Standard(dns: seq<byte>) {
    |dns| >= 12 && (dns[4] == 0 && 1 <= dns[5] <= 16) && dns[2] / 8 % 16 <= 5
  }

  lemma OpcodeBits(high: byte, low: byte)
    ensures (0x100 * high + low) / 0x800 == high / 8
  {
  }

  lemma PlausibleIsStandard(p: seq<byte>, v: View)
    requires v.dnsOffset + v.dnsLen <= |p| && v.dnsLen >= 12
    ensures PlausibleMessage(p, v.dnsOffset) <==> Standard(p[v.dnsOffset..v.dnsOffset + v.dnsLen])
  {
    OpcodeBits(p[v.dnsOffset + 2], p[v.dnsOffset + 3]);
  }

  /** Every packet the filter accepts carries a standard message, wherever the linear part of the packet ends. */
  lemma AcceptedIsStandard(p: seq<byte>, linear: nat, ipOffset: nat, version: byte, v: View)
    requires linear <= |p| && KernelView(p, linear, ipOffset, version) == Some(v)
    ensures v.dnsOffset + v.dnsLen <= |p| && Standard(p[v.dnsOffset..v.dnsOffset + v.dnsLen])
  {
    AcceptedPacketsAreParsed(p, linear, ipOffset, version);
    PlausibleIsStandard(p, v);
  }

  /** What userspace looks at is UDP or TCP from or to the DNS port. */
  lemma LocatedIsDns(p: seq<byte>, ipOffset: nat, version: byte, v: View)
    requires UserView(p, ipOffset, version) == Some(v)
    ensures (v.protocol == 17 || v.protocol == 6) && (v.source == 53 || v.destination == 53)
  {
  }

  /** A packet that is only partly in linear memory is accepted if its IP header and its transport header are there. */
  lemma LinearPart(p: seq<byte>, linear: nat, ipOffset: nat, version: byte, v: View, t: Transport)
    requires linear <= |p| && KernelView(p, |p|, ipOffset, version) == Some(v)
    requires KernelTransport(p, |p|, ipOffset, version) == Some(t)
    ensures KernelView(p, linear, ipOffset, version) == Some(v)
       <==> && ipOffset + (if version == 4 then 20 else 40) <= linear
            && t.offset + (if t.protocol == 17 then 8 else 20) <= linear
  {
  }

  /** At most `k` extension headers (section 4 of RFC 8200) stand before TCP or UDP, all within the packet. */
  predicate ShortChain(p: seq<byte>, cursor: nat, next: byte, end: nat, k: nat)
    requires end <= |p|
    decreases k
  {
    || next == 6 || next == 17
    || (k > 0 && cursor + 2 <= end && next in [0, 43, 51, 60, 135, 139, 140]
        && var length: int := p[cursor + 1];
           var after := cursor + 8 + (if next == 51 then 4 else 8) * length;
           after <= end && ShortChain(p, after, p[cursor], end, k - 1))
  }

  lemma {:induction false} ReachedIff(p: seq<byte>, cursor: nat, next: byte, end: nat, k: nat)
    requires cursor <= end <= |p|
    ensures ShortChain(p, cursor, next, end, k)
       <==> var r := FollowHeaders(p, cursor, next, end, k);
            r.Some? && (r.value.protocol == UDP || r.value.protocol == TCP)
    decreases k
  {
    if k > 0 && (IsExtension(next) || next == 51) && cursor + 2 <= end && cursor + HeaderLen(p, cursor, next) <= end {
      ReachedIff(p, cursor + HeaderLen(p, cursor, next), p[cursor], end, k - 1);
    }
  }

  /** An IPv6 packet that is whole, with at most six extension headers. */
  predicate FewHeaders(p: seq<byte>, ipOffset: nat) {
    && ipOffset + 40 <= |p|
    && var end := ipOffset + 40 + U16Be(p, ipOffset + 4);
       end <= |p| && ShortChain(p, ipOffset + 40, p[ipOffset + 6], end, 6)
  }

  lemma FewHeadersIff(p: seq<byte>, ipOffset: nat)
    requires IsIpv6(p, ipOffset)
    ensures FewHeaders(p, ipOffset) <==> DeclaredEnd6(p, ipOffset) <= |p| && ReachesTransport(p, ipOffset, 6)
  {
    if DeclaredEnd6(p, ipOffset) <= |p| {
      ReachedIff(p, ipOffset + 40, p[ipOffset + 6], DeclaredEnd6(p, ipOffset), 6);
    }
  }

  /** In linear memory the filter accepts exactly the standard messages that userspace locates within its bounds. */
  lemma AcceptedIff(p: seq<byte>, ipOffset: nat, version: byte, v: View, dns: seq<byte>, few: bool)
    requires UserView(p, ipOffset, version) == Some(v) && dns == p[v.dnsOffset..v.dnsOffset + v.dnsLen]
    requires few == FewHeaders(p, ipOffset)
    ensures KernelView(p, |p|, ipOffset, version) == Some(v) <==> Standard(dns) && (version == 6 ==> few)
  {
    FilterIsUserspacePlusExtras(p, ipOffset, version, v);
    PlausibleIsStandard(p, v);
    if version == 6 {
      FewHeadersIff(p, ipOffset);
    }
  }

  lemma ParsedHasQuestions(dns: seq<byte>, questions: ItemReader<Asked>, answers: ItemReader<seq<Data>>)
    requires ParseWith(dns, questions, answers).Some?
    ensures |dns| >= 12 && dns[4] == 0 && 1 <= dns[5] <= 16
  {
  }

  /** What userspace can parse is captured, if its operation code is standard and, over IPv6, its headers are few. */
  lemma ParsedIsAccepted(p: seq<byte>, ipOffset: nat, version: byte, v: View, dns: seq<byte>)
    requires UserView(p, ipOffset, version) == Some(v) && dns == p[v.dnsOffset..v.dnsOffset + v.dnsLen]
    requires Parse(dns).Some? && dns[2] / 8 % 16 <= 5 && (version == 6 ==> FewHeaders(p, ipOffset))
    ensures KernelView(p, |p|, ipOffset, version) == Some(v)
  {
    ParsedHasQuestions(dns, QuestionsIn(dns), AnswersIn(dns));
    AcceptedIff(p, ipOffset, version, v, dns, FewHeaders(p, ipOffset));
  }

  // ----- what userspace rejects

  /** Items are read at all but the last of these positions, each beginning where the one before it ended. */
  ghost predicate Walk<T>(read: ItemReader<T>, ps: seq<nat>) {
    forall i :: 0 <= i < |ps| - 1 ==> read(ps[i]).Some? && read(ps[i]).value.1 == ps[i + 1]
  }

  lemma {:induction false} ListWalked<T>(read: ItemReader<T>, pos: nat, n: nat) returns (ps: seq<nat>)
    requires ReadList(read, pos, n).Some?
    ensures |ps| == n + 1 && ps[0] == pos && ps[n] == ReadList(read, pos, n).value.1 && Walk(read, ps)
    decreases n
  {
    if n == 0 {
      ps := [pos];
    } else {
      var rest := ListWalked(read, read(pos).value.1, n - 1);
      ps := [pos] + rest;
    }
  }

  lemma {:induction false} WalkIsList<T>(read: ItemReader<T>, pos: nat, n: nat, ps: seq<nat>)
    requires |ps| == n + 1 && ps[0] == pos && Walk(read, ps)
    ensures ReadList(read, pos, n).Some? && ReadList(read, pos, n).value.1 == ps[n]
    decreases n
  {
    if n > 0 {
      var rest := ps[1..];
      assert read(ps[0]).Some? && read(ps[0]).value.1 == ps[1];
      assert forall i :: 0 <= i < |rest| ==> rest[i] == ps[i + 1];
      WalkIsList(read, ps[1], n - 1, rest);
    }
  }

  /** The questions from offset 12 on and, of a response, the first 64 answers behind them. */
  ghost predicate Complete(
    dns: seq<byte>, questions: ItemReader<Asked>, answers: ItemReader<seq<Data>>, qs: seq<nat>, rs: seq<nat>) {
    && |dns| >= 12 && dns[4] == 0 && 1 <= dns[5] <= 16
    && |qs| == dns[5] + 1 && qs[0] == 12 && Walk(questions, qs)
    && (dns[2] >= 128 ==> |rs| == Min(Count(dns), 64) + 1 && rs[0] == qs[|qs| - 1] && Walk(answers, rs))
  }

  /** The number of answers that the header announces. */
  function Count(dns: seq<byte>): nat
    requires |dns| >= 8
  {
    var high: int, low: int := dns[6], dns[7];
    256 * high + low
  }

  lemma HeaderWords(dns: seq<byte>)
    requires |dns| >= 12
    ensures U16Be(dns, 2) < 0x8000 <==> dns[2] < 128
    ensures 1 <= U16Be(dns, 4) <= 16 <==> dns[4] == 0 && 1 <= dns[5] <= 16
    ensures dns[4] == 0 ==> U16Be(dns, 4) == dns[5]
    ensures U16Be(dns, 6) == Count(dns)
  {
  }

  lemma ParsedIsComplete(dns: seq<byte>, questions: ItemReader<Asked>, answers: ItemReader<seq<Data>>)
    returns (qs: seq<nat>, rs: seq<nat>)
    requires ParseWith(dns, questions, answers).Some?
    ensures Complete(dns, questions, answers, qs, rs)
  {
    ParsedHasQuestions(dns, questions, answers);
    HeaderWords(dns);
    var rest := ListWalked(questions, questions(12).value.1, dns[5] - 1);
    qs := [12] + rest;
    rs := [];
    if dns[2] >= 128 {
      rs := ListWalked(answers, qs[|qs| - 1], Min(Count(dns), 64));
    }
  }

  lemma CompleteIsParsed(
      dns: seq<byte>, questions: ItemReader<Asked>, answers: ItemReader<seq<Data>>, qs: seq<nat>, rs: seq<nat>)
    requires Complete(dns, questions, answers, qs, rs)
    ensures ParseWith(dns, questions, answers).Some?
  {
    HeaderWords(dns);
    var rest := qs[1..];
    assert questions(qs[0]).Some? && questions(qs[0]).value.1 == qs[1];
    assert forall i :: 0 <= i < |rest| ==> rest[i] == qs[i + 1];
    WalkIsList(questions, qs[1], dns[5] - 1, rest);
    if dns[2] >= 128 {
      WalkIsList(answers, rs[0], Min(Count(dns), 64), rs);
    }
  }

  /** A message is read if and only if every question and every answer that is wanted can be read. */
  lemma ParsedIff(dns: seq<byte>)
    ensures Parse(dns).Some? <==> exists qs, rs :: Complete(dns, QuestionsIn(dns), AnswersIn(dns), qs, rs)
  {
    if Parse(dns).Some? {
      var qs, rs := ParsedIsComplete(dns, QuestionsIn(dns), AnswersIn(dns));
      assert Complete(dns, QuestionsIn(dns), AnswersIn(dns), qs, rs);
    }
    if exists qs, rs :: Complete(dns, QuestionsIn(dns), AnswersIn(dns), qs, rs) {
      var qs, rs :| Complete(dns, QuestionsIn(dns), AnswersIn(dns), qs, rs);
      CompleteIsParsed(dns, QuestionsIn(dns), AnswersIn(dns), qs, rs);
    }
  }

  // ----- packets as they are sent

  /** A UDP datagram, or a TCP segment that begins with one whole message behind its length. */
  datatype Segment =
    | Udp(checksum: u16)
    | Tcp(numbers: seq<byte>, reserved: byte, others: seq<byte>, options: seq<byte>, behind: seq<byte>)

  predicate ValidSegment(s: Segment, dns: seq<byte>) {
    && 12 <= |dns| < 0xFFF8
    && (s.Tcp? ==> |s.numbers| == 8 && s.reserved < 16 && |s.others| == 7 && |s.options| <= 40 && |s.options| % 4 == 0)
  }

  function ProtocolOf(s: Segment): byte {
    if s.Udp? then 17 else 6
  }

  /** The TCP header counts its length in words of four bytes. */
  function TcpHeader(s: Segment, source: u16, destination: u16): (r: seq<byte>)
    requires s.Tcp? && |s.numbers| == 8 && |s.others| == 7 && |s.options| <= 40 && s.reserved < 16
    ensures |r| == 20 + |s.options|
  {
    Be16(source) + Be16(destination) + s.numbers + [(5 + |s.options| / 4) * 16 + s.reserved] + s.others + s.options
  }

  function EncodeSegment(s: Segment, source: u16, destination: u16, dns: seq<byte>): (r: seq<byte>)
    requires ValidSegment(s, dns)
  {
    if s.Udp? then Be16(source) + Be16(destination) + Be16(8 + |dns|) + Be16(s.checksum) + dns
    else TcpHeader(s, source, destination) + Be16(|dns|) + dns + s.behind
  }

  /** How far into the segment the message begins. */
  function MessageStart(s: Segment): nat {
    if s.Udp? then 8 else 22 + |s.options|
  }

  lemma UdpLocated(
      p: seq<byte>, o: nat, end: nat, s: Segment, source: u16, destination: u16, dns: seq<byte>, code: seq<byte>)
    requires ValidSegment(s, dns) && s.Udp? && code == EncodeSegment(s, source, destination, dns)
    requires Stands(p, o, code) && o + |code| <= end <= |p| && (source == 53 || destination == 53)
    ensures LocateDns(p, Transport(17, o, end)) == Some(View(17, source, destination, o + 8, |dns|))
    ensures Stands(p, o + 8, dns)
  {
    StandsApart(p, o, Be16(source) + Be16(destination) + Be16(8 + |dns|) + Be16(s.checksum), dns);
    StandsApart(p, o, Be16(source) + Be16(destination) + Be16(8 + |dns|), Be16(s.checksum));
    ThreeApart(p, o, Be16(source), Be16(destination), Be16(8 + |dns|));
    WordAt(p, o, source);
    WordAt(p, o + 2, destination);
    WordAt(p, o + 4, 8 + |dns|);
  }

  lemma TcpHeaderAt(p: seq<byte>, o: nat, s: Segment, source: u16, destination: u16, header: seq<byte>)
    requires s.Tcp? && |s.numbers| == 8 && |s.others| == 7 && |s.options| <= 40 && s.reserved < 16
    requires |s.options| % 4 == 0 && header == TcpHeader(s, source, destination) && Stands(p, o, header)
    ensures o + 20 <= |p| && U16Be(p, o) == source && U16Be(p, o + 2) == destination
    ensures p[o + 12] / 16 * 4 == 20 + |s.options|
  {
    var first, size := Be16(source) + Be16(destination) + s.numbers, [(5 + |s.options| / 4) * 16 + s.reserved];
    StandsApart(p, o, first + size + s.others, s.options);
    ThreeApart(p, o, first, size, s.others);
    ThreeApart(p, o, Be16(source), Be16(destination), s.numbers);
    WordAt(p, o, source);
    WordAt(p, o + 2, destination);
    assert p[o + 12..o + 13][0] == size[0];
  }

  lemma TcpLocated(
      p: seq<byte>, o: nat, end: nat, s: Segment, source: u16, destination: u16, dns: seq<byte>, code: seq<byte>)
    requires ValidSegment(s, dns) && s.Tcp? && code == EncodeSegment(s, source, destination, dns)
    requires Stands(p, o, code) && o + |code| <= end <= |p| && (source == 53 || destination == 53)
    ensures LocateDns(p, Transport(6, o, end)) == Some(View(6, source, destination, o + 22 + |s.options|, |dns|))
    ensures Stands(p, o + 22 + |s.options|, dns)
  {
    var header := TcpHeader(s, source, destination);
    StandsApart(p, o, header + Be16(|dns|) + dns, s.behind);
    ThreeApart(p, o, header, Be16(|dns|), dns);
    TcpHeaderAt(p, o, s, source, destination, header);
    WordAt(p, o + |header|, |dns|);
  }

  lemma SegmentLocated(
      p: seq<byte>, t: Transport, s: Segment, source: u16, destination: u16, dns: seq<byte>, code: seq<byte>, v: View)
    requires ValidSegment(s, dns) && code == EncodeSegment(s, source, destination, dns)
    requires Stands(p, t.offset, code) && t.offset + |code| <= t.end <= |p| && t.protocol == ProtocolOf(s)
    requires source == 53 || destination == 53
    requires v == View(t.protocol, source, destination, t.offset + MessageStart(s), |dns|)
    ensures LocateDns(p, t) == Some(v) && Stands(p, v.dnsOffset, dns)
  {
    if s.Udp? {
      UdpLocated(p, t.offset, t.end, s, source, destination, dns, code);
    } else {
      TcpLocated(p, t.offset, t.end, s, source, destination, dns, code);
    }
  }

  // ----- IPv4

  /** `fragment` holds the flags and the fragment offset. */
  datatype Header4 = Header4(
    service: byte, id: u16, fragment: u16, hops: byte, checksum: u16, addresses: seq<byte>, options: seq<byte>)

  predicate Valid4(h: Header4, payload: seq<byte>) {
    |h.addresses| == 8 && |h.options| <= 40 && |h.options| % 4 == 0 && 20 + |h.options| + |payload| < 0x1_0000
  }

  /** Neither a fragment nor followed by one; the top bit and the one that forbids fragments do not matter. */
  predicate IsWhole(h: Header4) {
    h.fragment in [0, 0x4000, 0x8000, 0xC000]
  }

  function Front4(h: Header4, protocol: byte, total: u16): seq<byte>
    requires |h.options| <= 40
  {
    [0x45 + |h.options| / 4, h.service] + Be16(total) + Be16(h.id) + Be16(h.fragment) + [h.hops, protocol]
  }

  function Encode4(h: Header4, protocol: byte, payload: seq<byte>): seq<byte>
    requires Valid4(h, payload)
  {
    Front4(h, protocol, 20 + |h.options| + |payload|) + (Be16(h.checksum) + h.addresses + h.options) + payload
  }

  lemma Front4At(p: seq<byte>, o: nat, h: Header4, protocol: byte, total: u16)
    requires |h.options| <= 40 && |h.options| % 4 == 0 && Stands(p, o, Front4(h, protocol, total))
    ensures o + 10 <= |p| && p[o] / 16 == 4 && p[o] % 16 * 4 == 20 + |h.options| && U16Be(p, o + 2) == total
    ensures U16Be(p, o + 6) == h.fragment && p[o + 9] == protocol
  {
    var first, last := [0x45 + |h.options| / 4, h.service], [h.hops, protocol];
    StandsApart(p, o, first + Be16(total) + Be16(h.id) + Be16(h.fragment), last);
    StandsApart(p, o, first + Be16(total) + Be16(h.id), Be16(h.fragment));
    ThreeApart(p, o, first, Be16(total), Be16(h.id));
    WordAt(p, o + 2, total);
    WordAt(p, o + 6, h.fragment);
    assert p[o..o + 2][0] == first[0] && p[o + 8..o + 10][1] == protocol;
  }

  /** Fragments are passed over; of other packets, the payload is found whatever options stand before it. */
  lemma Parsed4(p: seq<byte>, o: nat, h: Header4, protocol: byte, payload: seq<byte>, code: seq<byte>)
    requires Valid4(h, payload) && code == Encode4(h, protocol, payload) && Stands(p, o, code)
    ensures ParseIpv4(p, o)
         == if IsWhole(h) then Some(Transport(protocol, o + 20 + |h.options|, o + |code|)) else None
    ensures Stands(p, o + 20 + |h.options|, payload)
  {
    var total := 20 + |h.options| + |payload|;
    ThreeApart(p, o, Front4(h, protocol, total), Be16(h.checksum) + h.addresses + h.options, payload);
    Front4At(p, o, h, protocol, total);
  }

  // ----- IPv6

  /** A chained header; its length byte counts words of eight bytes, that of an authentication header words of four. */
  datatype Extension = Extension(kind: byte, body: seq<byte>)

  predicate ValidExtension(e: Extension) {
    && |e.body| >= 6
    && if e.kind == 51 then |e.body| % 4 == 2 && |e.body| <= 1026
       else e.kind in [0, 43, 60, 135, 139, 140] && |e.body| % 8 == 6 && |e.body| <= 2046
  }

  function LengthByte(e: Extension): byte
    requires ValidExtension(e)
  {
    if e.kind == 51 then (|e.body| + 2) / 4 - 2 else (|e.body| + 2) / 8 - 1
  }

  function KindOf(es: seq<Extension>, protocol: byte): byte {
    if es == [] then protocol else es[0].kind
  }

  predicate ValidExtensions(es: seq<Extension>) {
    forall e :: e in es ==> ValidExtension(e)
  }

  function EncodeExtensions(es: seq<Extension>, protocol: byte): seq<byte>
    requires ValidExtensions(es)
  {
    if es == [] then []
    else [KindOf(es[1..], protocol), LengthByte(es[0])] + es[0].body + EncodeExtensions(es[1..], protocol)
  }

  lemma ExtensionAt(p: seq<byte>, cursor: nat, e: Extension, next: byte)
    requires ValidExtension(e) && Stands(p, cursor, [next, LengthByte(e)] + e.body)
    ensures cursor + 2 <= |p| && p[cursor] == next && HeaderLen(p, cursor, e.kind) == 2 + |e.body|
    ensures IsExtension(e.kind) || e.kind == 51
  {
    var front := [next, LengthByte(e)];
    StandsApart(p, cursor, front, e.body);
    assert p[cursor..cursor + 2][0] == front[0] && p[cursor..cursor + 2][1] == front[1];
  }

  lemma FollowOne(
      p: seq<byte>, cursor: nat, kind: byte, end: nat, steps: nat, next: byte, length: nat, after: nat)
    requires cursor + 2 <= after <= end <= |p| && steps > 0 && (IsExtension(kind) || kind == 51)
    requires p[cursor] == next && HeaderLen(p, cursor, kind) == length && after == cursor + length
    ensures FollowHeaders(p, cursor, kind, end, steps) == FollowHeaders(p, after, next, end, steps - 1)
  {
  }

  /** The walk passes a chain that is no longer than its bound, and stops inside a longer one. */
  ghost predicate Followed(
    p: seq<byte>, cursor: nat, es: seq<Extension>, protocol: byte, end: nat, steps: nat, after: nat)
    requires cursor <= end <= |p|
  {
    var r := FollowHeaders(p, cursor, KindOf(es, protocol), end, steps);
    && r.Some?
    && if |es| <= steps then r.value == Transport(protocol, after, end)
       else r.value.protocol != 6 && r.value.protocol != 17
  }

  lemma FollowedOne(
      p: seq<byte>, cursor: nat, es: seq<Extension>, protocol: byte, end: nat, steps: nat, tail: seq<Extension>,
      front: seq<byte>, next: nat, after: nat)
    requires ValidExtensions(es) && es != [] && tail == es[1..] && steps > 0 && next == cursor + |front| <= end <= |p|
    requires front == [KindOf(tail, protocol), LengthByte(es[0])] + es[0].body && Stands(p, cursor, front)
    requires Followed(p, next, tail, protocol, end, steps - 1, after)
    ensures Followed(p, cursor, es, protocol, end, steps, after)
  {
    ExtensionAt(p, cursor, es[0], KindOf(tail, protocol));
    FollowOne(p, cursor, es[0].kind, end, steps, KindOf(tail, protocol), 2 + |es[0].body|, next);
  }

  lemma {:induction false} ExtensionsFollowed(
      p: seq<byte>, cursor: nat, es: seq<Extension>, protocol: byte, end: nat, steps: nat, code: seq<byte>)
    requires ValidExtensions(es) && code == EncodeExtensions(es, protocol) && (protocol == 6 || protocol == 17)
    requires Stands(p, cursor, code) && cursor + |code| <= end <= |p|
    ensures Followed(p, cursor, es, protocol, end, steps, cursor + |code|)
    decreases steps
  {
    if es != [] {
      assert es[0] in es;
      if steps > 0 {
        var tail := es[1..];
        var front, rest := [KindOf(tail, protocol), LengthByte(es[0])] + es[0].body, EncodeExtensions(tail, protocol);
        var next := cursor + |front|;
        assert code == front + rest && next + |rest| == cursor + |code|;
        StandsApart(p, cursor, front, rest);
        ExtensionsFollowed(p, next, tail, protocol, end, steps - 1, rest);
        FollowedOne(p, cursor, es, protocol, end, steps, tail, front, next, next + |rest|);
      }
    }
  }

  /** `flow` are the three bytes behind the first one, whose low half is `traffic`. */
  datatype Header6 = Header6(
    traffic: byte, flow: seq<byte>, hops: byte, addresses: seq<byte>, extensions: seq<Extension>)

  predicate Valid6(h: Header6, protocol: byte, payload: seq<byte>) {
    && h.traffic < 16 && |h.flow| == 3 && |h.addresses| == 32 && ValidExtensions(h.extensions)
    && |EncodeExtensions(h.extensions, protocol)| + |payload| < 0x1_0000
  }

  function Front6(h: Header6, first: byte, length: u16): (r: seq<byte>)
    requires h.traffic < 16 && |h.flow| == 3
    ensures |r| == 8
  {
    [0x60 + h.traffic] + h.flow + Be16(length) + [first, h.hops]
  }

  function Encode6(h: Header6, protocol: byte, payload: seq<byte>): seq<byte>
    requires Valid6(h, protocol, payload)
  {
    var extensions := EncodeExtensions(h.extensions, protocol);
    (Front6(h, KindOf(h.extensions, protocol), |extensions| + |payload|) + h.addresses) + extensions + payload
  }

  lemma Front6At(p: seq<byte>, o: nat, h: Header6, first: byte, length: u16)
    requires h.traffic < 16 && |h.flow| == 3 && Stands(p, o, Front6(h, first, length))
    ensures o + 8 <= |p| && p[o] / 16 == 6 && U16Be(p, o + 4) == length && p[o + 6] == first
  {
    var start := [0x60 + h.traffic] + h.flow;
    ThreeApart(p, o, start, Be16(length), [first, h.hops]);
    WordAt(p, o + 4, length);
    assert p[o..o + 4][0] == start[0] && p[o + 6..o + 8][0] == first;
  }

  lemma Parsed6(
      p: seq<byte>, o: nat, h: Header6, protocol: byte, payload: seq<byte>, code: seq<byte>, extensions: seq<byte>,
      end: nat)
    requires Valid6(h, protocol, payload) && code == Encode6(h, protocol, payload) && Stands(p, o, code)
    requires extensions == EncodeExtensions(h.extensions, protocol) && end == o + |code|
    ensures IsIpv6(p, o) && DeclaredEnd6(p, o) == end && p[o + 6] == KindOf(h.extensions, protocol)
    ensures Stands(p, o + 40, extensions) && Stands(p, o + 40 + |extensions|, payload)
  {
    var front := Front6(h, KindOf(h.extensions, protocol), |extensions| + |payload|);
    ThreeApart(p, o, front + h.addresses, extensions, payload);
    StandsApart(p, o, front, h.addresses);
    Front6At(p, o, h, KindOf(h.extensions, protocol), |extensions| + |payload|);
  }

  // ----- what becomes of a packet

  /** Userspace finds the ports and the message, and the filter accepts the packet exactly if it is standard. */
  ghost predicate Captured(
    p: seq<byte>, ipOffset: nat, version: byte, v: View, dns: seq<byte>, accepted: bool) {
    && UserView(p, ipOffset, version) == Some(v)
    && v.dnsOffset + v.dnsLen <= |p| && p[v.dnsOffset..v.dnsOffset + v.dnsLen] == dns
    && KernelView(p, |p|, ipOffset, version) == if accepted then Some(v) else None
  }

  lemma FilterDecides(p: seq<byte>, ipOffset: nat, version: byte, v: View, dns: seq<byte>, few: bool)
    requires UserView(p, ipOffset, version) == Some(v) && Stands(p, v.dnsOffset, dns) && |dns| == v.dnsLen
    requires few == FewHeaders(p, ipOffset)
    ensures Captured(p, ipOffset, version, v, dns, Standard(dns) && (version == 6 ==> few))
  {
    AcceptedIff(p, ipOffset, version, v, dns, few);
    if KernelView(p, |p|, ipOffset, version).Some? {
      AcceptedPacketsAreParsed(p, |p|, ipOffset, version);
    }
  }

  lemma FoundByUser4(p: seq<byte>, o: nat, t: Transport, v: View)
    requires ParseIpv4(p, o) == Some(t) && LocateDns(p, t) == Some(v)
    ensures UserView(p, o, 4) == Some(v)
  {
  }

  /** Whatever the options, the transport and the bytes around it: a whole IPv4 packet of a DNS port is captured. */
  lemma PacketIsCaptured4(
      p: seq<byte>, o: nat, h: Header4, s: Segment, source: u16, destination: u16, dns: seq<byte>, payload: seq<byte>,
      protocol: byte, code: seq<byte>, v: View)
    requires ValidSegment(s, dns) && payload == EncodeSegment(s, source, destination, dns) && Valid4(h, payload)
    requires protocol == ProtocolOf(s) && code == Encode4(h, protocol, payload) && Stands(p, o, code)
    requires source == 53 || destination == 53
    requires v == View(protocol, source, destination, o + 20 + |h.options| + MessageStart(s), |dns|)
    ensures IsWhole(h) ==> Captured(p, o, 4, v, dns, Standard(dns))
    ensures !IsWhole(h) ==> UserView(p, o, 4) == None
  {
    Parsed4(p, o, h, protocol, payload, code);
    if IsWhole(h) {
      var t := Transport(protocol, o + 20 + |h.options|, o + |code|);
      SegmentLocated(p, t, s, source, destination, dns, payload, v);
      FoundByUser4(p, o, t, v);
      FilterDecides(p, o, 4, v, dns, FewHeaders(p, o));
    }
  }

  lemma FewAre(p: seq<byte>, o: nat, es: seq<Extension>, protocol: byte, end: nat, code: seq<byte>)
    requires IsIpv6(p, o) && DeclaredEnd6(p, o) == end <= |p| && p[o + 6] == KindOf(es, protocol)
    requires ValidExtensions(es) && code == EncodeExtensions(es, protocol) && (protocol == 6 || protocol == 17)
    requires Stands(p, o + 40, code) && o + 40 + |code| <= end
    ensures FewHeaders(p, o) <==> |es| <= 6
  {
    ExtensionsFollowed(p, o + 40, es, protocol, end, 6, code);
    FewHeadersIff(p, o);
  }

  lemma FoundByUser6(p: seq<byte>, o: nat, es: seq<Extension>, t: Transport, v: View)
    requires IsIpv6(p, o) && DeclaredEnd6(p, o) == t.end <= |p| && p[o + 6] == KindOf(es, t.protocol)
    requires Followed(p, o + 40, es, t.protocol, t.end, 8, t.offset) && t.offset <= t.end
    requires |es| <= 8 ==> LocateDns(p, t) == Some(v)
    ensures UserView(p, o, 6) == if |es| <= 8 then Some(v) else None
  {
  }

  lemma ChainFound(p: seq<byte>, o: nat, es: seq<Extension>, extensions: seq<byte>, t: Transport, v: View)
    requires ValidExtensions(es) && extensions == EncodeExtensions(es, t.protocol)
    requires t.protocol == 6 || t.protocol == 17
    requires IsIpv6(p, o) && DeclaredEnd6(p, o) == t.end <= |p| && p[o + 6] == KindOf(es, t.protocol)
    requires Stands(p, o + 40, extensions) && t.offset == o + 40 + |extensions| <= t.end
    requires LocateDns(p, t) == Some(v)
    ensures UserView(p, o, 6) == if |es| <= 8 then Some(v) else None
    ensures FewHeaders(p, o) <==> |es| <= 6
  {
    ExtensionsFollowed(p, o + 40, es, t.protocol, t.end, 8, extensions);
    FewAre(p, o, es, t.protocol, t.end, extensions);
    FoundByUser6(p, o, es, t, v);
  }

  /** Over IPv6 userspace passes up to eight extension headers of any kind and length, the filter up to six. */
  lemma PacketIsCaptured6(
      p: seq<byte>, o: nat, h: Header6, s: Segment, source: u16, destination: u16, dns: seq<byte>, payload: seq<byte>,
      protocol: byte, code: seq<byte>, extensions: seq<byte>, v: View)
    requires ValidSegment(s, dns) && payload == EncodeSegment(s, source, destination, dns)
    requires protocol == ProtocolOf(s) && Valid6(h, protocol, payload)
    requires code == Encode6(h, protocol, payload) && Stands(p, o, code) && (source == 53 || destination == 53)
    requires extensions == EncodeExtensions(h.extensions, protocol)
    requires v == View(protocol, source, destination, o + 40 + |extensions| + MessageStart(s), |dns|)
    ensures |h.extensions| <= 8 ==> Captured(p, o, 6, v, dns, Standard(dns) && |h.extensions| <= 6)
    ensures |h.extensions| > 8 ==> UserView(p, o, 6) == None
  {
    var t := Transport(protocol, o + 40 + |extensions|, o + |code|);
    Parsed6(p, o, h, protocol, payload, code, extensions, t.end);
    SegmentLocated(p, t, s, source, destination, dns, payload, v);
    ChainFound(p, o, h.extensions, extensions, t, v);
    if |h.extensions| <= 8 {
      FilterDecides(p, o, 6, v, dns, |h.extensions| <= 6);
    }
  }

  // ----- messages as they are sent (section 4.1 of RFC 1035)

  /** `v` in two bytes, the highest first. */
  function Two(v: u16): seq<byte> {
    [v / 256, v % 256]
  }

  /** A name is its labels behind their lengths, and a zero byte or the offset of the rest under two set bits. */
  lemma NameBytes(labels: seq<Label>, target: nat)
    requires ValidLabels(labels) && target < 0x4000
    ensures EncodeName([]) == [0] && EncodePointer(target) == [0xC0 + target / 256, target % 256]
    ensures labels != [] ==> EncodeLabels(labels) == [|labels[0]|] + labels[0] + EncodeLabels(labels[1..])
  {
  }

  /** The number of a record type. */
  predicate IsType(d: RecordData, t: u16) {
    match d
    case Address4(_) => t == 1
    case Address6(_) => t == 28
    case Host(kind, _) => t == kind
    case Mail(_, _) => t == 15
    case Strings(_) => t == 16
    case Raw(kind, _) => t == kind
  }

  /** Header, questions and answers stand one behind the other; so do the fields of each, numbers in two bytes. */
  lemma MessageBytes(m: Sent, q: Question, r: ResourceRecord, t: u16)
    requires ValidSent(m) && ValidRecord(r) && IsType(r.data, t)
    ensures Encode(m)
         == Two(m.id) + Two(m.flags) + Two(1 + |m.others|) + Two(|m.answers|) + m.other
            + EncodeQuestion(m.first) + EncodeAll(EncodeQuestion, m.others) + EncodeAll(RecordCode, m.answers)
    ensures EncodeQuestion(q) == EncodeWireName(q.name) + Two(q.qtype) + Two(q.qclass)
    ensures EncodeRecord(r)
         == EncodeWireName(r.owner) + (Two(t) + r.fixed + Two(|EncodeData(r.data)|)) + EncodeData(r.data)
    ensures IsHostType(t) <==> t == 2 || t == 5 || t == 12
  {
  }

  lemma HeaderIsStandard(
      dns: seq<byte>, header: seq<byte>, id: u16, flags: u16, questions: u16, answers: u16, other: seq<byte>)
    requires |other| == 4 && header == EncodeHeader(id, flags, questions, answers, other) && Stands(dns, 0, header)
    requires 1 <= questions <= 16
    ensures Standard(dns) <==> flags / 0x800 % 16 <= 5
  {
    StandsApart(dns, 0, Be16(id) + Be16(flags) + Be16(questions) + Be16(answers), other);
    StandsApart(dns, 0, Be16(id) + Be16(flags) + Be16(questions), Be16(answers));
    ThreeApart(dns, 0, Be16(id), Be16(flags), Be16(questions));
    WordAt(dns, 2, flags);
    WordAt(dns, 4, questions);
    OpcodeBits(dns[2], dns[3]);
  }

  lemma SentIsStandard(m: Sent, dns: seq<byte>, questions: u16, answers: u16)
    requires ValidSent(m) && dns == Encode(m) && questions == |m.others| + 1 && answers == |m.answers|
    ensures Standard(dns) <==> m.flags / 0x800 % 16 <= 5
  {
    var header := EncodeHeader(m.id, m.flags, questions, answers, m.other);
    assert dns[0..12] == header;
    HeaderIsStandard(dns, header, m.id, m.flags, questions, answers, m.other);
  }

  /** Every message with a standard operation code, however it is compressed, passes the filter and is read back. */
  lemma MessageIsCaptured(m: Sent, dns: seq<byte>)
    requires ValidSent(m) && WellCompressed(m) && dns == Encode(m)
    ensures Parse(dns) == Some(Received(m)) && (Standard(dns) <==> m.flags / 0x800 % 16 <= 5)
  {
    MessageRoundTrip(m);
    SentIsStandard(m, dns, |m.others| + 1, |m.answers|);
  }
}
