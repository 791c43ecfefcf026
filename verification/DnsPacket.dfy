/** Finding the DNS message in a captured packet: the kernel filter and the userspace parser. */
module DnsPacket {
  import opened Bytes

  const TCP := 6
  const UDP := 17
  const DNS_PORT := 53

  /** Where a packet keeps its transport payload: protocol, transport offset, end of the IP packet. */
  datatype Transport = Transport(protocol: byte, offset: nat, end: nat)

  /** The DNS message a packet carries. */
  datatype View = View(protocol: byte, source: u16, destination: u16, dnsOffset: nat, dnsLen: nat)

  predicate IsExtension(next: byte) {
    next == 0 || next == 43 || next == 60 || next == 135 || next == 139 || next == 140
  }

  /** Length of the extension or authentication header at `cursor` (section 4 of RFC 8200). */
  function HeaderLen(p: seq<byte>, cursor: nat, next: byte): (n: nat)
    requires cursor + 1 < |p|
    ensures n >= 8
  {
    var length: int := p[cursor + 1];
    if next == 51 then (length + 2) * 4 else (length + 1) * 8
  }

  // ----- userspace

  function ParseIpv4(p: seq<byte>, offset: nat): (r: Option<Transport>)
    ensures r.Some? ==> r.value.offset <= r.value.end <= |p|
  {
    if offset + 20 > |p| || p[offset] / 16 != 4 then None
    else
      var ihl: nat := (p[offset] % 16) * 4;
      var totalLen: nat := U16Be(p, offset + 2);
      if ihl < 20 || totalLen < ihl || offset + totalLen > |p| then None
      else if U16Be(p, offset + 6) % 0x4000 != 0 then None
      else Some(Transport(p[offset + 9], offset + ihl, offset + totalLen))
  }

  /** Follows up to `steps` chained headers. */
  function FollowHeaders(p: seq<byte>, cursor: nat, next: byte, end: nat, steps: nat): (r: Option<Transport>)
    requires cursor <= end <= |p|
    ensures r.Some? ==> cursor <= r.value.offset <= end && r.value.end == end
    decreases steps
  {
    if steps == 0 then Some(Transport(next, cursor, end))
    else if IsExtension(next) || next == 51 then
      if cursor + 2 > end || cursor + HeaderLen(p, cursor, next) > end then None
      else FollowHeaders(p, cursor + HeaderLen(p, cursor, next), p[cursor], end, steps - 1)
    else if next == 44 || next == 50 then None
    else Some(Transport(next, cursor, end))
  }

  predicate IsIpv6(p: seq<byte>, offset: nat) {
    offset + 40 <= |p| && p[offset] / 16 == 6
  }

  function DeclaredEnd6(p: seq<byte>, offset: nat): nat
    requires offset + 40 <= |p|
  {
    offset + 40 + U16Be(p, offset + 4)
  }

  function ParseIpv6Spec(p: seq<byte>, offset: nat): (r: Option<Transport>)
    ensures r.Some? ==> r.value.offset <= r.value.end <= |p|
  {
    if !IsIpv6(p, offset) then None
    else FollowHeaders(p, offset + 40, p[offset + 6], Min(DeclaredEnd6(p, offset), |p|), 8)
  }

  method ParseIpv6(p: seq<byte>, offset: nat) returns (r: Option<Transport>)
    ensures r == ParseIpv6Spec(p, offset)
  {
    if offset + 40 > |p| || p[offset] / 16 != 6 {
      return None;
    }
    var packetEnd := Min(offset + 40 + U16Be(p, offset + 4), |p|);
    var next := p[offset + 6];
    var cursor: nat := offset + 40;
    for i := 0 to 8
      invariant cursor <= packetEnd
      invariant ParseIpv6Spec(p, offset) == FollowHeaders(p, cursor, next, packetEnd, 8 - i)
    {
      if IsExtension(next) || next == 51 {
        if cursor + 2 > packetEnd {
          return None;
        }
        var following := p[cursor];
        var length: int := p[cursor + 1];
        var extensionLen := if next == 51 then (length + 2) * 4 else (length + 1) * 8;
        if cursor + extensionLen > packetEnd {
          return None;
        }
        next := following;
        cursor := cursor + extensionLen;
      } else if next == 44 || next == 50 {
        return None;
      } else {
        break;
      }
    }
    r := Some(Transport(next, cursor, packetEnd));
  }

  /** The ports and DNS bytes of a UDP datagram or of a TCP segment holding one whole message. */
  function LocateDns(p: seq<byte>, t: Transport): (r: Option<View>)
    requires t.end <= |p|
    ensures r.Some? ==> t.offset < r.value.dnsOffset && r.value.dnsLen >= 12
    ensures r.Some? ==> r.value.dnsOffset + r.value.dnsLen <= t.end && r.value.protocol == t.protocol
  {
    var o := t.offset;
    if t.protocol == UDP then
      if o + 8 > t.end || U16Be(p, o + 4) < 20 || o + U16Be(p, o + 4) > t.end then None
      else WithDnsPort(View(UDP, U16Be(p, o), U16Be(p, o + 2), o + 8, U16Be(p, o + 4) - 8))
    else if t.protocol == TCP then
      if o + 20 > t.end then None
      else
        var prefix := o + p[o + 12] / 16 * 4;
        if prefix < o + 20 || prefix + 2 > t.end then None
        else if U16Be(p, prefix) < 12 || prefix + 2 + U16Be(p, prefix) > t.end then None
        else WithDnsPort(View(TCP, U16Be(p, o), U16Be(p, o + 2), prefix + 2, U16Be(p, prefix)))
    else None
  }

  function WithDnsPort(v: View): (r: Option<View>)
    ensures r.Some? ==> r.value == v
  {
    if v.source == DNS_PORT || v.destination == DNS_PORT then Some(v) else None
  }

  /** What `parse_dns_packet` hands to the message parser. */
  function UserView(p: seq<byte>, ipOffset: nat, version: byte): (r: Option<View>)
    ensures r.Some? ==> r.value.dnsOffset + r.value.dnsLen <= |p| && r.value.dnsLen >= 12
  {
    var t := if version == 4 then ParseIpv4(p, ipOffset)
             else if version == 6 then ParseIpv6Spec(p, ipOffset)
             else None;
    if t.None? then None else LocateDns(p, t.value)
  }

  // ----- kernel

  /** The filter reads fixed headers from the linear part of the packet and single fields from anywhere. */
  method IsDnsPacket(p: seq<byte>, linear: nat, ipOffset: nat, version: byte) returns (accepted: bool)
    requires linear <= |p|
    ensures accepted <==> KernelView(p, linear, ipOffset, version).Some?
  {
    var protocol: byte;
    var offset: nat;
    var ipEnd: nat;
    if version == 4 {
      if ipOffset + 20 > linear {
        return false;
      }
      var ihl: nat := (p[ipOffset] % 16) * 4;
      if p[ipOffset] / 16 != 4 || ihl < 20 || ipOffset + ihl > |p| {
        return false;
      }
      var totalLen: nat := U16Be(p, ipOffset + 2);
      if totalLen < ihl || ipOffset + totalLen > |p| || U16Be(p, ipOffset + 6) % 0x4000 != 0 {
        return false;
      }
      protocol, offset, ipEnd := p[ipOffset + 9], ipOffset + ihl, ipOffset + totalLen;
    } else if version == 6 {
      if ipOffset + 40 > linear || p[ipOffset] / 16 != 6 {
        return false;
      }
      ipEnd := ipOffset + 40 + U16Be(p, ipOffset + 4);
      if ipEnd > |p| {
        return false;
      }
      protocol := p[ipOffset + 6];
      offset := ipOffset + 40;
      for i := 0 to 6
        invariant ipOffset + 40 <= offset <= ipEnd
        invariant KernelTransport(p, linear, ipOffset, version)
               == KernelFollow(p, offset, protocol, ipEnd, 6 - i)
      {
        if protocol == UDP || protocol == TCP {
          break;
        }
        if protocol == 44 || protocol == 50 || !(IsExtension(protocol) || protocol == 51) {
          return false;
        }
        if offset + 1 >= |p| {
          return false;
        }
        var length: int := p[offset + 1];
        var extensionLen := if protocol == 51 then (length + 2) * 4 else (length + 1) * 8;
        if extensionLen < 8 || offset + extensionLen > ipEnd {
          return false;
        }
        protocol := p[offset];
        offset := offset + extensionLen;
      }
    } else {
      return false;
    }
    if protocol != UDP && protocol != TCP {
      return false;
    }
    assert KernelTransport(p, linear, ipOffset, version) == Some(Transport(protocol, offset, ipEnd));
    var located := KernelLocate(p, linear, Transport(protocol, offset, ipEnd));
    if located.None? {
      return false;
    }
    accepted := PlausibleMessage(p, located.value.dnsOffset);
  }

  function KernelFollow(p: seq<byte>, offset: nat, protocol: byte, end: nat, steps: nat): Option<Transport>
    requires offset <= end <= |p|
    decreases steps
  {
    if protocol == UDP || protocol == TCP then Some(Transport(protocol, offset, end))
    else if steps == 0 || !(IsExtension(protocol) || protocol == 51) then None
    else if offset + 1 >= |p| || offset + HeaderLen(p, offset, protocol) > end then None
    else KernelFollow(p, offset + HeaderLen(p, offset, protocol), p[offset], end, steps - 1)
  }

  function KernelTransport(p: seq<byte>, linear: nat, ipOffset: nat, version: byte): (r: Option<Transport>)
    requires linear <= |p|
    ensures r.Some? ==> r.value.end <= |p|
  {
    if version == 4 && ipOffset + 20 <= linear && p[ipOffset] / 16 == 4 then
      var ihl: nat := (p[ipOffset] % 16) * 4;
      var totalLen: nat := U16Be(p, ipOffset + 2);
      if ihl < 20 || totalLen < ihl || ipOffset + totalLen > |p| then None
      else if U16Be(p, ipOffset + 6) % 0x4000 != 0 then None
      else
        var t := Transport(p[ipOffset + 9], ipOffset + ihl, ipOffset + totalLen);
        if t.protocol == UDP || t.protocol == TCP then Some(t) else None
    else if version == 6 && ipOffset + 40 <= linear && p[ipOffset] / 16 == 6 then
      if DeclaredEnd6(p, ipOffset) > |p| then None
      else
        var r := KernelFollow(p, ipOffset + 40, p[ipOffset + 6], DeclaredEnd6(p, ipOffset), 6);
        KernelFollowEnd(p, ipOffset + 40, p[ipOffset + 6], DeclaredEnd6(p, ipOffset), 6);
        r
    else None
  }

  lemma {:induction false} KernelFollowEnd(p: seq<byte>, offset: nat, protocol: byte, end: nat, steps: nat)
    requires offset <= end <= |p|
    ensures var r := KernelFollow(p, offset, protocol, end, steps); r.Some? ==> r.value.end == end
    decreases steps
  {
    if steps > 0 && offset + 1 < |p| && offset + HeaderLen(p, offset, protocol) <= end {
      KernelFollowEnd(p, offset + HeaderLen(p, offset, protocol), p[offset], end, steps - 1);
    }
  }

  /** Ports, lengths and message range as the filter computes them, header by header. */
  function KernelLocate(p: seq<byte>, linear: nat, t: Transport): (r: Option<View>)
    requires linear <= |p| && t.end <= |p|
    ensures r.Some? ==> r.value.dnsOffset + 12 <= |p|
  {
    var o := t.offset;
    if t.protocol == UDP then
      if o + 8 > linear || (U16Be(p, o) != DNS_PORT && U16Be(p, o + 2) != DNS_PORT) then None
      else if U16Be(p, o + 4) < 20 || o + U16Be(p, o + 4) > t.end then None
      else Some(View(UDP, U16Be(p, o), U16Be(p, o + 2), o + 8, U16Be(p, o + 4) - 8))
    else if t.protocol == TCP then
      if o + 20 > linear || (U16Be(p, o) != DNS_PORT && U16Be(p, o + 2) != DNS_PORT) then None
      else
        var headerLen := U16Be(p, o + 12) / 0x1000 * 4;
        if headerLen < 20 || o + headerLen + 2 > t.end then None
        else if U16Be(p, o + headerLen) < 12 || o + headerLen + 2 + U16Be(p, o + headerLen) > t.end then None
        else Some(View(TCP, U16Be(p, o), U16Be(p, o + 2), o + headerLen + 2, U16Be(p, o + headerLen)))
    else None
  }

  /** One to sixteen questions and a standard opcode. */
  predicate PlausibleMessage(p: seq<byte>, dns: nat)
    requires dns + 12 <= |p|
  {
    1 <= U16Be(p, dns + 4) <= 16 && U16Be(p, dns + 2) / 0x800 % 16 <= 5
  }

  function KernelView(p: seq<byte>, linear: nat, ipOffset: nat, version: byte): Option<View>
    requires linear <= |p|
  {
    var t := KernelTransport(p, linear, ipOffset, version);
    if t.None? then None
    else
      var v := KernelLocate(p, linear, t.value);
      if v.Some? && PlausibleMessage(p, v.value.dnsOffset) then v else None
  }

  // ----- agreement

  /** Headers followed within fewer steps are followed the same way with more. */
  lemma {:induction false} FollowFurther(p: seq<byte>, cursor: nat, next: byte, end: nat, steps: nat, more: nat)
    requires cursor <= end <= |p| && steps <= more
    requires var r := FollowHeaders(p, cursor, next, end, steps);
             r.Some? && (r.value.protocol == UDP || r.value.protocol == TCP)
    ensures FollowHeaders(p, cursor, next, end, more) == FollowHeaders(p, cursor, next, end, steps)
    decreases steps
  {
    if steps > 0 && (IsExtension(next) || next == 51) {
      FollowFurther(p, cursor + HeaderLen(p, cursor, next), p[cursor], end, steps - 1, more - 1);
    }
  }

  lemma {:induction false} SameHeaders(p: seq<byte>, cursor: nat, next: byte, end: nat, steps: nat, t: Transport)
    requires cursor <= end <= |p|
    ensures KernelFollow(p, cursor, next, end, steps) == Some(t)
            <==> FollowHeaders(p, cursor, next, end, steps) == Some(t) && (t.protocol == UDP || t.protocol == TCP)
    decreases steps
  {
    if steps > 0 && (IsExtension(next) || next == 51) && cursor + 2 <= end
       && cursor + HeaderLen(p, cursor, next) <= end {
      SameHeaders(p, cursor + HeaderLen(p, cursor, next), p[cursor], end, steps - 1, t);
    }
  }

  lemma SameLocation(p: seq<byte>, linear: nat, t: Transport)
    requires linear <= |p| && t.end <= |p|
    ensures KernelLocate(p, linear, t).Some? ==> LocateDns(p, t) == KernelLocate(p, linear, t)
    ensures LocateDns(p, t).Some? && linear == |p| ==> KernelLocate(p, linear, t) == LocateDns(p, t)
  {
    if t.protocol == TCP && t.offset + 20 <= |p| {
      DataOffset(p, t.offset + 12);
    }
  }

  lemma DataOffset(p: seq<byte>, i: nat)
    requires i + 2 <= |p|
    ensures U16Be(p, i) / 0x1000 == p[i] / 16
  {
  }

  /**
   * Every packet the filter accepts reaches the message parser in userspace with the same protocol, ports and
   * DNS bytes, even though the filter follows at most 6 extension headers and userspace up to 8.
   */
  lemma AcceptedPacketsAreParsed(p: seq<byte>, linear: nat, ipOffset: nat, version: byte)
    requires linear <= |p| && KernelView(p, linear, ipOffset, version).Some?
    ensures UserView(p, ipOffset, version) == KernelView(p, linear, ipOffset, version)
  {
    var t := KernelTransport(p, linear, ipOffset, version).value;
    SameLocation(p, linear, t);
    if version == 6 {
      var end := DeclaredEnd6(p, ipOffset);
      SameHeaders(p, ipOffset + 40, p[ipOffset + 6], end, 6, t);
      FollowFurther(p, ipOffset + 40, p[ipOffset + 6], end, 6, 8);
    }
  }

  /** Exactly `k` well-formed extension headers, then TCP or UDP at `t`. */
  ghost predicate HeaderChain(p: seq<byte>, cursor: nat, next: byte, end: nat, k: nat, t: Transport)
    requires cursor <= end <= |p|
    decreases k
  {
    if k == 0 then (next == UDP || next == TCP) && t == Transport(next, cursor, end)
    else
      && (IsExtension(next) || next == 51)
      && cursor + 2 <= end && cursor + HeaderLen(p, cursor, next) <= end
      && HeaderChain(p, cursor + HeaderLen(p, cursor, next), p[cursor], end, k - 1, t)
  }

  lemma {:induction false} FollowedChain(p: seq<byte>, cursor: nat, next: byte, end: nat, steps: nat, t: Transport)
    returns (k: nat)
    requires cursor <= end <= |p|
    requires FollowHeaders(p, cursor, next, end, steps) == Some(t) && (t.protocol == UDP || t.protocol == TCP)
    ensures k <= steps && HeaderChain(p, cursor, next, end, k, t)
    decreases steps
  {
    if steps > 0 && (IsExtension(next) || next == 51) {
      k := FollowedChain(p, cursor + HeaderLen(p, cursor, next), p[cursor], end, steps - 1, t);
      k := k + 1;
    } else {
      k := 0;
    }
  }

  lemma {:induction false} ChainIsFollowed(
      p: seq<byte>, cursor: nat, next: byte, end: nat, k: nat, steps: nat, t: Transport)
    requires cursor <= end <= |p| && k <= steps && HeaderChain(p, cursor, next, end, k, t)
    ensures FollowHeaders(p, cursor, next, end, steps) == Some(t) && (t.protocol == UDP || t.protocol == TCP)
    decreases k
  {
    if k > 0 {
      ChainIsFollowed(p, cursor + HeaderLen(p, cursor, next), p[cursor], end, k - 1, steps - 1, t);
    }
  }

  /** Both walks end at the transport header of the packet's chain; the filter gives up beyond 6, userspace beyond 8. */
  lemma SixVersusEightHeaders(p: seq<byte>, cursor: nat, next: byte, end: nat, t: Transport)
    requires cursor <= end <= |p|
    ensures KernelFollow(p, cursor, next, end, 6) == Some(t)
            <==> exists k :: 0 <= k <= 6 && HeaderChain(p, cursor, next, end, k, t)
    ensures FollowHeaders(p, cursor, next, end, 8) == Some(t) && (t.protocol == UDP || t.protocol == TCP)
            <==> exists k :: 0 <= k <= 8 && HeaderChain(p, cursor, next, end, k, t)
  {
    SameHeaders(p, cursor, next, end, 6, t);
    ChainOrNot(p, cursor, next, end, 6, t);
    ChainOrNot(p, cursor, next, end, 8, t);
  }

  lemma ChainOrNot(p: seq<byte>, cursor: nat, next: byte, end: nat, steps: nat, t: Transport)
    requires cursor <= end <= |p|
    ensures FollowHeaders(p, cursor, next, end, steps) == Some(t) && (t.protocol == UDP || t.protocol == TCP)
            <==> exists k :: 0 <= k <= steps && HeaderChain(p, cursor, next, end, k, t)
  {
    if FollowHeaders(p, cursor, next, end, steps) == Some(t) && (t.protocol == UDP || t.protocol == TCP) {
      var k := FollowedChain(p, cursor, next, end, steps, t);
      assert exists k :: 0 <= k <= steps && HeaderChain(p, cursor, next, end, k, t);
    }
    if exists k :: 0 <= k <= steps && HeaderChain(p, cursor, next, end, k, t) {
      var k :| 0 <= k <= steps && HeaderChain(p, cursor, next, end, k, t);
      ChainIsFollowed(p, cursor, next, end, k, steps, t);
    }
  }

  /** What the filter asks beyond the userspace walk: no truncation, six headers, a plausible DNS header. */
  predicate FilterExtras(p: seq<byte>, ipOffset: nat, version: byte, v: View)
    requires v.dnsOffset + 12 <= |p|
  {
    && PlausibleMessage(p, v.dnsOffset)
    && (version == 6 && IsIpv6(p, ipOffset) ==>
          DeclaredEnd6(p, ipOffset) <= |p| && ReachesTransport(p, ipOffset, 6))
  }

  /** At most `steps` headers stand between the IPv6 header and TCP or UDP. */
  predicate ReachesTransport(p: seq<byte>, ipOffset: nat, steps: nat)
    requires ipOffset + 40 <= |p| && DeclaredEnd6(p, ipOffset) <= |p|
  {
    var r := FollowHeaders(p, ipOffset + 40, p[ipOffset + 6], DeclaredEnd6(p, ipOffset), steps);
    r.Some? && (r.value.protocol == UDP || r.value.protocol == TCP)
  }

  lemma AcceptedHasExtras(p: seq<byte>, ipOffset: nat, version: byte, v: View)
    requires KernelView(p, |p|, ipOffset, version) == Some(v)
    ensures v.dnsOffset + 12 <= |p| && FilterExtras(p, ipOffset, version, v)
  {
    AcceptedPacketsAreParsed(p, |p|, ipOffset, version);
    if version == 6 {
      SameHeaders(p, ipOffset + 40, p[ipOffset + 6], DeclaredEnd6(p, ipOffset), 6,
                  KernelTransport(p, |p|, ipOffset, version).value);
    }
  }

  lemma SameTransport6(p: seq<byte>, ipOffset: nat)
    requires IsIpv6(p, ipOffset) && DeclaredEnd6(p, ipOffset) <= |p| && ReachesTransport(p, ipOffset, 6)
    ensures ParseIpv6Spec(p, ipOffset).Some?
    ensures KernelTransport(p, |p|, ipOffset, 6) == ParseIpv6Spec(p, ipOffset)
  {
    var end := DeclaredEnd6(p, ipOffset);
    FollowFurther(p, ipOffset + 40, p[ipOffset + 6], end, 6, 8);
    SameHeaders(p, ipOffset + 40, p[ipOffset + 6], end, 6, ParseIpv6Spec(p, ipOffset).value);
  }

  lemma SameTransport4(p: seq<byte>, ipOffset: nat, version: byte, v: View)
    requires version != 6 && UserView(p, ipOffset, version) == Some(v)
    ensures version == 4 && ParseIpv4(p, ipOffset).Some? && LocateDns(p, ParseIpv4(p, ipOffset).value) == Some(v)
    ensures KernelTransport(p, |p|, ipOffset, version) == ParseIpv4(p, ipOffset)
  {
  }

  lemma PlausibleIsAccepted(p: seq<byte>, ipOffset: nat, version: byte, t: Transport, v: View)
    requires t.end <= |p| && LocateDns(p, t) == Some(v) && v.dnsOffset + 12 <= |p| && PlausibleMessage(p, v.dnsOffset)
    requires KernelTransport(p, |p|, ipOffset, version) == Some(t)
    ensures KernelView(p, |p|, ipOffset, version) == Some(v)
  {
    SameLocation(p, |p|, t);
  }

  /** On packets held entirely in linear memory the filter accepts exactly what userspace locates, plus its extras. */
  lemma FilterIsUserspacePlusExtras(p: seq<byte>, ipOffset: nat, version: byte, v: View)
    ensures KernelView(p, |p|, ipOffset, version) == Some(v)
            <==> UserView(p, ipOffset, version) == Some(v) && FilterExtras(p, ipOffset, version, v)
  {
    if KernelView(p, |p|, ipOffset, version) == Some(v) {
      AcceptedPacketsAreParsed(p, |p|, ipOffset, version);
      AcceptedHasExtras(p, ipOffset, version, v);
    }
    if UserView(p, ipOffset, version) == Some(v) && FilterExtras(p, ipOffset, version, v) {
      if version == 6 {
        SameTransport6(p, ipOffset);
        PlausibleIsAccepted(p, ipOffset, version, ParseIpv6Spec(p, ipOffset).value, v);
      } else {
        SameTransport4(p, ipOffset, version, v);
        PlausibleIsAccepted(p, ipOffset, version, ParseIpv4(p, ipOffset).value, v);
      }
    }
  }
}
