/** Attribution in plain terms: subnets as blocks of addresses, local ranges, and every counter as a sum of bytes. */
module EcmPlaces {
  import opened Bytes
  import opened Buckets
  import opened Neighbours
  import opened EcmCounters
  import opened EcmAttribution

  // ----- addresses

  predicate InBlock(x: nat, q: nat, size: nat) {
    q * size <= x < q * size + size
  }

  /** Both lie in one aligned block of `size` addresses. */
  ghost predicate SameBlock(x: nat, y: nat, size: nat) {
    exists q: nat :: InBlock(x, q, size) && InBlock(y, q, size)
  }

  lemma BlockOf(x: nat, q: nat, size: nat)
    requires size > 0
    ensures InBlock(x, q, size) <==> x / size == q
  {
    var r := x / size;
    assert r * size <= x < r * size + size;
    if r < q {
      assert (r + 1) * size <= q * size;
    } else if q < r {
      assert (q + 1) * size <= r * size;
    }
  }

  lemma SameBlockIff(x: nat, y: nat, size: nat)
    requires size > 0
    ensures x / size == y / size <==> SameBlock(x, y, size)
  {
    var q := x / size;
    BlockOf(x, q, size);
    BlockOf(y, q, size);
    if SameBlock(x, y, size) {
      var r: nat :| InBlock(x, r, size) && InBlock(y, r, size);
      BlockOf(x, r, size);
    }
  }

  /** An address lies in a subnet when it shares the block that the prefix leaves open. */
  lemma MatchesIsBlock(s: Subnet, ip: nat, width: nat)
    requires s.prefix <= width
    ensures Matches(s, ip, width) <==> SameBlock(ip, s.net, Pow2(width - s.prefix))
  {
    SameBlockIff(ip, s.net, Pow2(width - s.prefix));
  }

  lemma Pow64()
    ensures Pow2(64) == 0x1_0000_0000_0000_0000
  {
    assert Pow2(8) == 0x100;
    assert Pow2(16) == 0x100 * Pow2(8);
    assert Pow2(24) == 0x100 * Pow2(16);
    assert Pow2(32) == 0x100 * Pow2(24);
    assert Pow2(40) == 0x100 * Pow2(32);
    assert Pow2(48) == 0x100 * Pow2(40);
    assert Pow2(56) == 0x100 * Pow2(48);
    assert Pow2(64) == 0x100 * Pow2(56);
  }

  lemma UpperHalf(a: Address)
    ensures Value128(a) / 0x1_0000_0000_0000_0000 == a.w0 * 0x1_0000_0000 + a.w1
  {
    var low := a.w2 * 0x1_0000_0000 + a.w3;
    assert Value128(a) == (a.w0 * 0x1_0000_0000 + a.w1) * 0x1_0000_0000_0000_0000 + low;
  }

  /** The customary /64: the first two words of the address decide. */
  lemma SixtyFour(s: Subnet, net: Address, a: Address)
    requires s.prefix == 64 && s.net == Value128(net)
    ensures Matches(s, Value128(a), 128) <==> a.w0 == net.w0 && a.w1 == net.w1
  {
    Pow64();
    UpperHalf(a);
    UpperHalf(net);
  }

  predicate Between(ip: u32, first: u32, last: u32) {
    first <= ip <= last
  }

  /** 10/8, 172.16/12, 192.168/16, 169.254/16, 127/8, 224/4 and the broadcast address. */
  lemma LocalRanges4(ip: u32)
    ensures IsPrivateOrLocalIpv4(ip)
       <==> || Between(ip, 0x0A00_0000, 0x0AFF_FFFF) || Between(ip, 0xAC10_0000, 0xAC1F_FFFF)
            || Between(ip, 0xC0A8_0000, 0xC0A8_FFFF) || Between(ip, 0xA9FE_0000, 0xA9FE_FFFF)
            || Between(ip, 0x7F00_0000, 0x7FFF_FFFF) || Between(ip, 0xE000_0000, 0xEFFF_FFFF) || ip == 0xFFFF_FFFF
  {
  }

  lemma LocalRanges6(a: Address)
    ensures IsLocalIpv6(a) <==> Between(a.w0, 0xFC00_0000, 0xFDFF_FFFF) || Between(a.w0, 0xFE80_0000, 0xFEBF_FFFF)
  {
  }

  // ----- outcomes

  /** No neighbour table claims the address, and it is not the router's own. */
  predicate Ownerless(site: Site, a: Address, now: u64) {
    ValidOwner(site.cache, a, now).None? && !IsRouter(site, a)
  }

  ghost predicate OnOne(site: Site, a: Address, iface: u32) {
    LiesOn(site, a, iface) && forall other: u32 :: LiesOn(site, a, other) ==> other == iface
  }

  ghost predicate OnSeveral(site: Site, a: Address) {
    exists i: u32, j: u32 :: LiesOn(site, a, i) && LiesOn(site, a, j) && i != j
  }

  ghost predicate OnNone(site: Site, a: Address) {
    forall i: u32 :: !LiesOn(site, a, i)
  }

  /** A local address; for IPv4 one outside the subnets of the WAN. */
  predicate LooksLocal(site: Site, a: Address) {
    if a.version == 4 then
      IsPrivateOrLocalIpv4(a.w0) && !exists j :: 0 <= j < |site.wan4Subnets| && Matches(site.wan4Subnets[j], a.w0, 32)
    else a.version == 6 && IsLocalIpv6(a)
  }

  lemma MatchOfCounts(c: seq<u32>)
    ensures MatchOf(c).NoMatch? <==> forall i: u32 :: i !in c
    ensures MatchOf(c).Ambiguous? <==> exists i: u32, j: u32 :: i in c && j in c && i != j
  {
    if c != [] {
      assert c[0] in c;
    }
  }

  lemma CandidatesAreSubnets(site: Site, a: Address) returns (c: seq<u32>)
    ensures a.version == 4 ==> c == Candidates(site.lan4, a.w0, 32)
    ensures a.version == 6 ==> c == Candidates(site.lan6, Value128(a), 128)
    ensures forall i: u32 :: i in c <==> LiesOn(site, a, i)
  {
    c := if a.version == 4 then Candidates(site.lan4, a.w0, 32)
         else if a.version == 6 then Candidates(site.lan6, Value128(a), 128) else [];
  }

  lemma WanSubnets(site: Site, a: Address)
    ensures Candidates(site.wan4Subnets, a.w0, 32) == []
       <==> !exists j :: 0 <= j < |site.wan4Subnets| && Matches(site.wan4Subnets[j], a.w0, 32)
  {
    var c := Candidates(site.wan4Subnets, a.w0, 32);
    if c != [] {
      assert c[0] in c;
    }
    if j :| 0 <= j < |site.wan4Subnets| && Matches(site.wan4Subnets[j], a.w0, 32) {
      assert site.wan4Subnets[j].iface in c;
    }
  }

  /** The global pool takes what lies on several interfaces, and local addresses that lie on none. */
  lemma GlobalIff(site: Site, a: Address, now: u64)
    ensures Attribute(site, a, now) == ToGlobal
       <==> Ownerless(site, a, now) && (OnSeveral(site, a) || (OnNone(site, a) && LooksLocal(site, a)))
  {
    var c := CandidatesAreSubnets(site, a);
    MatchOfCounts(c);
    WanSubnets(site, a);
  }

  /** The WAN takes the rest, addresses that lie on no interface and do not look local. */
  lemma WanIff(site: Site, a: Address, now: u64)
    ensures Attribute(site, a, now) == ToWan
       <==> Ownerless(site, a, now) && OnNone(site, a) && !LooksLocal(site, a)
  {
    var c := CandidatesAreSubnets(site, a);
    MatchOfCounts(c);
    WanSubnets(site, a);
  }

  lemma SubnetIff(site: Site, a: Address, now: u64, iface: u32)
    ensures Attribute(site, a, now) == ToSubnet(iface) <==> Ownerless(site, a, now) && OnOne(site, a, iface)
  {
    if a.version == 4 || a.version == 6 {
      InterfaceOnlyIfUnique(site, a, now, iface);
    }
  }

  // ----- every counter as a sum of bytes

  /** The bytes of one family and direction that moved at the addresses of `where`. */
  function Moved(items: seq<Delta>, family: byte, direction: byte, where: Address -> bool): nat
    decreases items
  {
    if items == [] then 0
    else
      var key := items[0].0;
      (if key.address.version == family && key.direction == direction && where(key.address) then items[0].1 else 0)
      + Moved(items[1..], family, direction, where)
  }

  /** What a cell's counter is booked are the bytes of one family and direction at the addresses that feed it. */
  ghost predicate Carries(
    site: Site, now: u64, cell: Cell, c: Channel, family: byte, direction: byte, where: Address -> bool) {
    forall item: Delta {:trigger Share(site, item, now, cell, c)} ::
      Share(site, item, now, cell, c)
      == if item.0.address.version == family && item.0.direction == direction && where(item.0.address) then item.1
         else 0
  }

  lemma {:induction false} BookedIsMoved(
      site: Site, items: seq<Delta>, now: u64, cell: Cell, c: Channel, family: byte, direction: byte,
      where: Address -> bool)
    requires Carries(site, now, cell, c, family, direction, where)
    ensures Booked(site, items, now, cell, c) == Moved(items, family, direction, where)
    decreases items
  {
    if items != [] {
      BookedIsMoved(site, items[1..], now, cell, c, family, direction, where);
      assert Share(site, items[0], now, cell, c) >= 0;
    }
  }

  /** Where a cell's bytes come from. */
  ghost predicate Places(site: Site, now: u64, cell: Cell, where: Address -> bool) {
    forall a: Address {:trigger where(a)} :: where(a) <==> Feeds(Attribute(site, a, now), cell)
  }

  /** The counters of `after` are those of `before` and the bytes moved at `where`, up to 2^64 - 1. */
  ghost predicate Gained(
    before: Quad<u64>, after: Quad<u64>, items: seq<Delta>, where: Address -> bool, up: byte, down: byte) {
    && after.upV4 == Min(before.upV4 + Moved(items, 4, up, where), 0xFFFF_FFFF_FFFF_FFFF)
    && after.downV4 == Min(before.downV4 + Moved(items, 4, down, where), 0xFFFF_FFFF_FFFF_FFFF)
    && after.upV6 == Min(before.upV6 + Moved(items, 6, up, where), 0xFFFF_FFFF_FFFF_FFFF)
    && after.downV6 == Min(before.downV6 + Moved(items, 6, down, where), 0xFFFF_FFFF_FFFF_FFFF)
  }

  function QuadAt(b: Books, cell: Cell): Quad<u64> {
    match cell
    case OfDevice(d) => Entry(b.devices, d)
    case OfLan(i) => Entry(b.lan, i)
    case OfUnresolved(i) => Entry(b.unresolved, i)
    case OfWan => b.wan
  }

  function FamilyOf(c: Channel): byte {
    if c.UpV4? || c.DownV4? then 4 else 6
  }

  function DirectionOf(cell: Cell, c: Channel): byte {
    if (c.UpV4? || c.UpV6?) != cell.OfWan? then 1 else 2
  }

  lemma FedBy(cell: Cell, key: EcmKey, c: Channel)
    ensures ChannelIn(cell, key) == Some(c)
       <==> key.address.version == FamilyOf(c) && key.direction == DirectionOf(cell, c)
  {
  }

  ghost predicate Grows(
    q: Quad<u64>, r: Quad<u64>, c: Channel, items: seq<Delta>, family: byte, direction: byte, where: Address -> bool) {
    Get(r, c) == Min(Get(q, c) + Moved(items, family, direction, where), 0xFFFF_FFFF_FFFF_FFFF)
  }

  lemma ChannelGrows(
      b: Books, site: Site, items: seq<Delta>, now: u64, cell: Cell, c: Channel, family: byte, direction: byte,
      where: Address -> bool, q: Quad<u64>, r: Quad<u64>)
    requires Places(site, now, cell, where) && family == FamilyOf(c) && direction == DirectionOf(cell, c)
    requires q == QuadAt(b, cell) && r == QuadAt(BookAll(b, site, items, now), cell)
    ensures Grows(q, r, c, items, family, direction, where)
  {
    assert Carries(site, now, cell, c, family, direction, where) by {
      forall item: Delta
        ensures Share(site, item, now, cell, c)
             == if item.0.address.version == family && item.0.direction == direction && where(item.0.address)
                then item.1 else 0
      {
        FedBy(cell, item.0, c);
      }
    }
    BookedIsMoved(site, items, now, cell, c, family, direction, where);
    CellsAreExact(b, site, items, now, cell, c);
  }

  lemma GainedAll(
      q: Quad<u64>, r: Quad<u64>, items: seq<Delta>, where: Address -> bool, up: byte, down: byte)
    requires Grows(q, r, UpV4, items, 4, up, where) && Grows(q, r, DownV4, items, 4, down, where)
    requires Grows(q, r, UpV6, items, 6, up, where) && Grows(q, r, DownV6, items, 6, down, where)
    ensures Gained(q, r, items, where, up, down)
  {
  }

  /** Ingress is upload and egress download, except on the WAN, where it is the other way round. */
  lemma CellGained(
      b: Books, site: Site, items: seq<Delta>, now: u64, cell: Cell, where: Address -> bool, q: Quad<u64>, r: Quad<u64>)
    requires Places(site, now, cell, where) && q == QuadAt(b, cell) && r == QuadAt(BookAll(b, site, items, now), cell)
    ensures Gained(q, r, items, where, if cell.OfWan? then 2 else 1, if cell.OfWan? then 1 else 2)
  {
    var up, down := if cell.OfWan? then 2 else 1, if cell.OfWan? then 1 else 2;
    ChannelGrows(b, site, items, now, cell, UpV4, 4, up, where, q, r);
    ChannelGrows(b, site, items, now, cell, DownV4, 4, down, where, q, r);
    ChannelGrows(b, site, items, now, cell, UpV6, 6, up, where, q, r);
    ChannelGrows(b, site, items, now, cell, DownV6, 6, down, where, q, r);
    GainedAll(q, r, items, where, up, down);
  }

  predicate Owns(site: Site, now: u64, a: Address, d: Device) {
    ValidOwner(site.cache, a, now) == Some(d) && d in site.devices
  }

  /** A device uploads what comes in at the addresses it owns and downloads what goes out there. */
  lemma DeviceBytes(b: Books, site: Site, items: seq<Delta>, now: u64, d: Device)
    ensures Gained(Entry(b.devices, d), Entry(BookAll(b, site, items, now).devices, d), items,
                   (a: Address) => Owns(site, now, a, d), 1, 2)
  {
    CellGained(b, site, items, now, OfDevice(d), (a: Address) => Owns(site, now, a, d),
               Entry(b.devices, d), Entry(BookAll(b, site, items, now).devices, d));
  }

  /** An interface is given the bytes of its devices and those of ownerless addresses on it alone. */
  lemma InterfaceBytes(b: Books, site: Site, items: seq<Delta>, now: u64, i: u32, where: Address -> bool)
    requires forall a :: where(a) <==>
               (exists d :: Owns(site, now, a, d) && d.iface == i) || (Ownerless(site, a, now) && OnOne(site, a, i))
    ensures Gained(Entry(b.lan, i), Entry(BookAll(b, site, items, now).lan, i), items, where, 1, 2)
  {
    forall a: Address
      ensures where(a) <==> Feeds(Attribute(site, a, now), OfLan(i))
    {
      SubnetIff(site, a, now, i);
      var owner := ValidOwner(site.cache, a, now);
      if owner.Some? {
        assert Owns(site, now, a, owner.value) <==> Attribute(site, a, now) == ToDevice(owner.value);
      }
    }
    CellGained(b, site, items, now, OfLan(i), where, Entry(b.lan, i), Entry(BookAll(b, site, items, now).lan, i));
  }

  /** Unresolved bytes of an interface, and under `0xFFFF_FFFF` also those of the global pool. */
  lemma UnresolvedBytes(b: Books, site: Site, items: seq<Delta>, now: u64, i: u32, where: Address -> bool)
    requires forall a :: where(a) <==>
               Ownerless(site, a, now)
               && (OnOne(site, a, i)
                   || (i == 0xFFFF_FFFF && (OnSeveral(site, a) || (OnNone(site, a) && LooksLocal(site, a)))))
    ensures Gained(Entry(b.unresolved, i), Entry(BookAll(b, site, items, now).unresolved, i), items, where, 1, 2)
  {
    forall a: Address
      ensures where(a) <==> Feeds(Attribute(site, a, now), OfUnresolved(i))
    {
      SubnetIff(site, a, now, i);
      GlobalIff(site, a, now);
    }
    CellGained(b, site, items, now, OfUnresolved(i), where,
               Entry(b.unresolved, i), Entry(BookAll(b, site, items, now).unresolved, i));
  }

  /** The WAN downloads what comes in from the remaining addresses and uploads what goes out to them. */
  lemma WanBytes(b: Books, site: Site, items: seq<Delta>, now: u64, where: Address -> bool)
    requires forall a :: where(a) <==> Ownerless(site, a, now) && OnNone(site, a) && !LooksLocal(site, a)
    ensures Gained(b.wan, BookAll(b, site, items, now).wan, items, where, 2, 1)
  {
    forall a: Address
      ensures where(a) <==> Feeds(Attribute(site, a, now), OfWan)
    {
      WanIff(site, a, now);
    }
    CellGained(b, site, items, now, OfWan, where, b.wan, BookAll(b, site, items, now).wan);
  }
}
