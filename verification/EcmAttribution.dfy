/** Where each offloaded byte is booked: a device and its interface, a subnet, the unresolved pool, or the WAN. */
module EcmAttribution {
  import opened Bytes
  import opened Buckets
  import opened Neighbours
  import opened EcmCounters

  /** The key of traffic that is local but belongs to no single interface. */
  const GLOBAL: u32 := 0xFFFF_FFFF

  // ----- subnets

  /** `prefix` leading bits of a `width`-bit address, as a mask selects them. */
  function Leading(ip: nat, width: nat, prefix: nat): int {
    if prefix <= width then ip / Pow2(width - prefix) else ip
  }

  datatype Subnet = Subnet(iface: u32, net: nat, prefix: nat)

  predicate Matches(s: Subnet, ip: nat, width: nat) {
    Leading(ip, width, s.prefix) == Leading(s.net, width, s.prefix)
  }

  datatype SubnetMatch = NoMatch | Unique(iface: u32) | Ambiguous

  function Candidates(subnets: seq<Subnet>, ip: nat, width: nat): (r: seq<u32>)
    ensures forall i :: i in r <==>
              exists j :: 0 <= j < |subnets| && Matches(subnets[j], ip, width) && subnets[j].iface == i
  {
    if subnets == [] then []
    else
      var rest := Candidates(subnets[1..], ip, width);
      assert forall j :: 0 < j < |subnets| ==> subnets[j] == subnets[1..][j - 1];
      if Matches(subnets[0], ip, width) then [subnets[0].iface] + rest else rest
  }

  function MatchOf(ifaces: seq<u32>): SubnetMatch {
    if ifaces == [] then NoMatch
    else if forall i :: i in ifaces ==> i == ifaces[0] then Unique(ifaces[0])
    else Ambiguous
  }

  /** Stops at the second interface; several subnets of one interface are no ambiguity. */
  method UniqueSubnetIface(ifaces: seq<u32>) returns (r: SubnetMatch)
    ensures r == MatchOf(ifaces)
    ensures r.NoMatch? <==> ifaces == []
    ensures r.Ambiguous? <==> exists i, j :: i in ifaces && j in ifaces && i != j
    ensures r.Unique? ==> r.iface in ifaces
  {
    r := NoMatch;
    for k := 0 to |ifaces|
      invariant r.NoMatch? <==> k == 0
      invariant !r.Ambiguous?
      invariant k > 0 ==> r == Unique(ifaces[0])
      invariant forall i :: 0 <= i < k ==> ifaces[i] == ifaces[0]
    {
      if r.NoMatch? {
        r := Unique(ifaces[k]);
      } else if r.iface != ifaces[k] {
        assert ifaces[0] in ifaces && ifaces[k] in ifaces;
        return Ambiguous;
      }
    }
  }

  // ----- the decision

  /** The interfaces as they are configured, the neighbour cache, and the devices that have a record. */
  datatype Site = Site(
    wan4Ips: seq<u32>, wan4Subnets: seq<Subnet>, lan4: seq<Subnet>,
    wan6Ips: seq<Address>, lan6: seq<Subnet>, cache: Cache, devices: set<Device>)

  datatype Outcome =
    | ToDevice(device: Device)
    | NoRecord(device: Device)
    | ToSubnet(iface: u32)
    | ToGlobal
    | ToWan
    | RouterItself

  function Value128(a: Address): nat {
    ((a.w0 * 0x1_0000_0000 + a.w1) * 0x1_0000_0000 + a.w2) * 0x1_0000_0000 + a.w3
  }

  predicate IsPrivateOrLocalIpv4(ip: u32) {
    || ip / 0x100_0000 == 0x0A
    || ip / 0x10_0000 == 0xAC1
    || ip / 0x1_0000 == 0xC0A8
    || ip / 0x1_0000 == 0xA9FE
    || ip / 0x100_0000 == 0x7F
    || ip / 0x1000_0000 == 0xE
    || ip == 0xFFFF_FFFF
  }

  /** fc00::/7 and fe80::/10. */
  predicate IsLocalIpv6(a: Address) {
    a.w0 / 0x200_0000 == 0x7E || a.w0 / 0x40_0000 == 0x3FA
  }

  function Unresolved4(site: Site, ip: u32): Outcome {
    if ip in site.wan4Ips then RouterItself
    else
      match MatchOf(Candidates(site.lan4, ip, 32))
      case Unique(i) => ToSubnet(i)
      case Ambiguous => ToGlobal
      case NoMatch =>
        if Candidates(site.wan4Subnets, ip, 32) == [] && IsPrivateOrLocalIpv4(ip) then ToGlobal else ToWan
  }

  function Unresolved6(site: Site, a: Address): Outcome {
    if a in site.wan6Ips then RouterItself
    else
      match MatchOf(Candidates(site.lan6, Value128(a), 128))
      case Unique(i) => ToSubnet(i)
      case Ambiguous => ToGlobal
      case NoMatch => if IsLocalIpv6(a) then ToGlobal else ToWan
  }

  function Attribute(site: Site, a: Address, now: u64): Outcome {
    var owner := ValidOwner(site.cache, a, now);
    if owner.Some? then if owner.value in site.devices then ToDevice(owner.value) else NoRecord(owner.value)
    else if a.version == 4 then Unresolved4(site, a.w0)
    else if a.version == 6 then Unresolved6(site, a)
    else ToWan
  }

  /** The LAN subnets an address lies in. */
  predicate LiesOn(site: Site, a: Address, iface: u32) {
    if a.version == 4 then
      exists j :: 0 <= j < |site.lan4| && Matches(site.lan4[j], a.w0, 32) && site.lan4[j].iface == iface
    else if a.version == 6 then
      exists j :: 0 <= j < |site.lan6| && Matches(site.lan6[j], Value128(a), 128) && site.lan6[j].iface == iface
    else false
  }

  predicate IsRouter(site: Site, a: Address) {
    (a.version == 4 && a.w0 in site.wan4Ips) || (a.version == 6 && a in site.wan6Ips)
  }

  /** Without a valid owner an interface is booked only if it is the only one with a matching subnet. */
  lemma InterfaceOnlyIfUnique(site: Site, a: Address, now: u64, iface: u32)
    requires a.version == 4 || a.version == 6
    ensures Attribute(site, a, now) == ToSubnet(iface)
       <==> ValidOwner(site.cache, a, now).None? && !IsRouter(site, a) && LiesOn(site, a, iface)
            && forall other: u32 :: LiesOn(site, a, other) ==> other == iface
  {
    var c := if a.version == 4 then Candidates(site.lan4, a.w0, 32) else Candidates(site.lan6, Value128(a), 128);
    assert forall i: u32 :: i in c <==> LiesOn(site, a, i);
    if MatchOf(c).Unique? {
      assert c[0] in c;
    }
    if LiesOn(site, a, iface) && forall other: u32 :: LiesOn(site, a, other) ==> other == iface {
      assert iface in c && forall i :: i in c ==> i == iface;
      assert c[0] in c;
    }
  }

  /** An address of two LAN interfaces, without a valid owner, stays unresolved: it is never booked to either. */
  lemma AmbiguousStaysGlobal(site: Site, a: Address, now: u64, i: u32, j: u32)
    requires ValidOwner(site.cache, a, now).None? && !IsRouter(site, a)
    requires LiesOn(site, a, i) && LiesOn(site, a, j) && i != j
    ensures Attribute(site, a, now) == ToGlobal
  {
    var c := if a.version == 4 then Candidates(site.lan4, a.w0, 32) else Candidates(site.lan6, Value128(a), 128);
    assert i in c && j in c;
  }

  // ----- the books

  type Quads = map<u32, Quad<u64>>

  datatype Books = Books(devices: map<Device, Quad<u64>>, lan: Quads, unresolved: Quads, wan: Quad<u64>)

  /** The counter a family and direction feed; the WAN sees ingress as download. */
  function ChannelOf(version: byte, direction: byte): Option<Channel> {
    match (version, direction)
    case (4, 1) => Some(UpV4)
    case (4, 2) => Some(DownV4)
    case (6, 1) => Some(UpV6)
    case (6, 2) => Some(DownV6)
    case _ => None
  }

  function Inverted(direction: byte): byte {
    if direction == 1 then 2 else if direction == 2 then 1 else direction
  }

  function AddTo(q: Quad<u64>, c: Channel, n: u64): Quad<u64> {
    match c
    case UpV4 => q.(upV4 := SatAdd(q.upV4, n))
    case DownV4 => q.(downV4 := SatAdd(q.downV4, n))
    case UpV6 => q.(upV6 := SatAdd(q.upV6, n))
    case DownV6 => q.(downV6 := SatAdd(q.downV6, n))
  }

  function FillQuad(key: EcmKey, q: Quad<u64>, n: u64): Quad<u64> {
    var c := ChannelOf(key.address.version, key.direction);
    if c.Some? then AddTo(q, c.value, n) else q
  }

  function FillQuadWan(key: EcmKey, q: Quad<u64>, n: u64): Quad<u64> {
    FillQuad(key.(direction := Inverted(key.direction)), q, n)
  }

  function Entry<K>(m: map<K, Quad<u64>>, k: K): Quad<u64> {
    if k in m then m[k] else ZERO_BYTES
  }

  function Book(b: Books, o: Outcome, key: EcmKey, n: u64): Books {
    match o
    case ToDevice(d) =>
      b.(devices := b.devices[d := FillQuad(key, Entry(b.devices, d), n)],
         lan := b.lan[d.iface := FillQuad(key, Entry(b.lan, d.iface), n)])
    case ToSubnet(i) =>
      b.(lan := b.lan[i := FillQuad(key, Entry(b.lan, i), n)],
         unresolved := b.unresolved[i := FillQuad(key, Entry(b.unresolved, i), n)])
    case ToGlobal => b.(unresolved := b.unresolved[GLOBAL := FillQuad(key, Entry(b.unresolved, GLOBAL), n)])
    case ToWan => b.(wan := FillQuadWan(key, b.wan, n))
    case NoRecord(_) => b
    case RouterItself => b
  }

  /** The bytes a key's counter gained since the last read. */
  type Delta = (EcmKey, u64)

  function BookAll(b: Books, site: Site, items: seq<Delta>, now: u64): Books
    decreases items
  {
    if items == [] then b else BookAll(BookOne(b, site, items[0], now), site, items[1..], now)
  }

  /** A counter that did not move books nothing. */
  function BookOne(b: Books, site: Site, item: Delta, now: u64): Books {
    if item.1 == 0 then b else Book(b, Attribute(site, item.0.address, now), item.0, item.1)
  }

  class EcmBooks {
    var devices: map<Device, Quad<u64>>
    var lan: Quads
    var unresolved: Quads
    var wan: Quad<u64>

    ghost function State(): Books
      reads this
    {
      Books(devices, lan, unresolved, wan)
    }

    /** `known` are the devices of this tick with their other traffic already in their quads. */
    constructor (known: map<Device, Quad<u64>>)
      ensures State() == Books(known, map[], map[], ZERO_BYTES)
    {
      devices, lan, unresolved, wan := known, map[], map[], ZERO_BYTES;
    }

    /** `site.devices` are the devices of this tick and those the registry can bring back. */
    method AttributeDelta(site: Site, key: EcmKey, delta: u64, now: u64)
      modifies this
      ensures State() == Book(old(State()), Attribute(site, key.address, now), key, delta)
    {
      var a := key.address;
      var owner := if a in site.cache && Fresh(site.cache[a], now) then site.cache[a].device else None;
      if owner.Some? {
        var d := owner.value;
        if d in site.devices {
          devices := devices[d := FillQuad(key, Entry(devices, d), delta)];
          lan := lan[d.iface := FillQuad(key, Entry(lan, d.iface), delta)];
        }
        return;
      }
      var local := false;
      if a.version == 4 {
        var ip := a.w0;
        if ip in site.wan4Ips {
          return;
        }
        var inWanSubnet := Candidates(site.wan4Subnets, ip, 32) != [];
        var m := UniqueSubnetIface(Candidates(site.lan4, ip, 32));
        if m.Unique? {
          lan := lan[m.iface := FillQuad(key, Entry(lan, m.iface), delta)];
          unresolved := unresolved[m.iface := FillQuad(key, Entry(unresolved, m.iface), delta)];
          return;
        }
        if m.Ambiguous? || (!inWanSubnet && IsPrivateOrLocalIpv4(ip)) {
          local := true;
        }
      } else if a.version == 6 {
        if a in site.wan6Ips {
          return;
        }
        var m := UniqueSubnetIface(Candidates(site.lan6, Value128(a), 128));
        if m.Unique? {
          lan := lan[m.iface := FillQuad(key, Entry(lan, m.iface), delta)];
          unresolved := unresolved[m.iface := FillQuad(key, Entry(unresolved, m.iface), delta)];
          return;
        }
        if m.Ambiguous? {
          local := true;
        }
        if IsLocalIpv6(a) {
          local := true;
        }
      }
      if local {
        unresolved := unresolved[GLOBAL := FillQuad(key, Entry(unresolved, GLOBAL), delta)];
      } else {
        wan := FillQuadWan(key, wan, delta);
      }
    }

    method AttributeAll(site: Site, items: seq<Delta>, now: u64)
      modifies this
      ensures State() == BookAll(old(State()), site, items, now)
    {
      var i := 0;
      while i < |items|
        invariant 0 <= i <= |items|
        invariant BookAll(State(), site, items[i..], now) == BookAll(old(State()), site, items, now)
      {
        assert items[i..][1..] == items[i + 1..];
        if items[i].1 != 0 {
          AttributeDelta(site, items[i].0, items[i].1, now);
        }
        i := i + 1;
      }
    }
  }

  // ----- every cell is the exact sum of what was booked to it

  datatype Cell = OfDevice(device: Device) | OfLan(iface: u32) | OfUnresolved(iface: u32) | OfWan

  function Read(b: Books, cell: Cell, c: Channel): u64 {
    match cell
    case OfDevice(d) => Get(Entry(b.devices, d), c)
    case OfLan(i) => Get(Entry(b.lan, i), c)
    case OfUnresolved(i) => Get(Entry(b.unresolved, i), c)
    case OfWan => Get(b.wan, c)
  }

  predicate Feeds(o: Outcome, cell: Cell) {
    match cell
    case OfDevice(d) => o == ToDevice(d)
    case OfLan(i) => (o.ToDevice? && o.device.iface == i) || o == ToSubnet(i)
    case OfUnresolved(i) => o == ToSubnet(i) || (o == ToGlobal && i == GLOBAL)
    case OfWan => o == ToWan
  }

  /** The counter of a cell that an item feeds: the WAN's is that of the opposite direction. */
  function ChannelIn(cell: Cell, key: EcmKey): Option<Channel> {
    ChannelOf(key.address.version, if cell.OfWan? then Inverted(key.direction) else key.direction)
  }

  function Share(site: Site, item: Delta, now: u64, cell: Cell, c: Channel): nat {
    if Feeds(Attribute(site, item.0.address, now), cell) && ChannelIn(cell, item.0) == Some(c) then item.1 else 0
  }

  function Booked(site: Site, items: seq<Delta>, now: u64, cell: Cell, c: Channel): nat
    decreases items
  {
    if items == [] then 0
    else Share(site, items[0], now, cell, c) + Booked(site, items[1..], now, cell, c)
  }

  lemma BookCell(b: Books, o: Outcome, key: EcmKey, n: u64, cell: Cell, c: Channel)
    ensures Read(Book(b, o, key, n), cell, c)
         == if Feeds(o, cell) && ChannelIn(cell, key) == Some(c) then SatAdd(Read(b, cell, c), n) else Read(b, cell, c)
  {
  }

  /** Every counter ends at what it held plus all that was booked to it, capped at 2^64 - 1. */
  lemma {:induction false} CellsAreExact(b: Books, site: Site, items: seq<Delta>, now: u64, cell: Cell, c: Channel)
    ensures Read(BookAll(b, site, items, now), cell, c) == Cap64(Read(b, cell, c) + Booked(site, items, now, cell, c))
    decreases items
  {
    if items != [] {
      var rest := items[1..];
      var next, share, more := BookOne(b, site, items[0], now), Share(site, items[0], now, cell, c),
                               Booked(site, rest, now, cell, c);
      BookOneCell(b, site, items[0], now, cell, c);
      CapStep(Read(b, cell, c), share, more);
      CellsAreExact(next, site, rest, now, cell, c);
      assert BookAll(b, site, items, now) == BookAll(next, site, rest, now);
      assert Booked(site, items, now, cell, c) == share + more;
    }
  }

  lemma BookOneCell(b: Books, site: Site, item: Delta, now: u64, cell: Cell, c: Channel)
    ensures Read(BookOne(b, site, item, now), cell, c) == SatAdd(Read(b, cell, c), Share(site, item, now, cell, c))
  {
    BookCell(b, Attribute(site, item.0.address, now), item.0, item.1, cell, c);
  }

  lemma CapStep(have: u64, n: nat, more: nat)
    requires n < U64
    ensures Cap64(SatAdd(have, n) + more) == Cap64(have + (n + more))
  {
  }

  lemma {:induction false} BookedAround(site: Site, items: seq<Delta>, i: nat, now: u64, cell: Cell, c: Channel)
    requires i < |items|
    ensures Booked(site, items, now, cell, c)
         == Share(site, items[i], now, cell, c) + Booked(site, items[..i] + items[i + 1..], now, cell, c)
    decreases items
  {
    var others := items[..i] + items[i + 1..];
    if i == 0 {
      assert others == items[1..];
    } else {
      BookedAround(site, items[1..], i - 1, now, cell, c);
      assert others[1..] == items[1..][..i - 1] + items[1..][i..];
    }
  }

  lemma TakeOut<T>(p: seq<T>, q: seq<T>) returns (i: nat)
    requires p != [] && multiset(p) == multiset(q)
    ensures i < |q| && q[i] == p[0] && multiset(p[1..]) == multiset(q[..i] + q[i + 1..])
  {
    assert p == [p[0]] + p[1..];
    assert p[0] in multiset(q);
    i :| 0 <= i < |q| && q[i] == p[0];
    assert q == q[..i] + [q[i]] + q[i + 1..];
    assert multiset(q) == multiset(q[..i]) + multiset{p[0]} + multiset(q[i + 1..]);
    assert multiset(p) == multiset{p[0]} + multiset(p[1..]);
    assert multiset(q[..i] + q[i + 1..]) == multiset(q) - multiset{p[0]};
    assert multiset(p[1..]) == multiset(p) - multiset{p[0]};
  }

  lemma {:induction false} BookedAnyOrder(
    site: Site, p: seq<Delta>, q: seq<Delta>, now: u64, cell: Cell, c: Channel)
    requires multiset(p) == multiset(q)
    ensures Booked(site, p, now, cell, c) == Booked(site, q, now, cell, c)
    decreases p
  {
    if p == [] {
      assert |multiset(q)| == |q|;
    } else {
      var i := TakeOut(p, q);
      BookedAround(site, q, i, now, cell, c);
      BookedAnyOrder(site, p[1..], q[..i] + q[i + 1..], now, cell, c);
    }
  }

  /** The order in which the keys of a tick are visited does not matter to any counter. */
  lemma BookingIsOrderFree(
    b: Books, site: Site, p: seq<Delta>, q: seq<Delta>, now: u64, cell: Cell, c: Channel)
    requires multiset(p) == multiset(q)
    ensures Read(BookAll(b, site, p, now), cell, c) == Read(BookAll(b, site, q, now), cell, c)
  {
    BookedAnyOrder(site, p, q, now, cell, c);
    CellsAreExact(b, site, p, now, cell, c);
    CellsAreExact(b, site, q, now, cell, c);
  }

  // ----- the partition

  /** What one interface's listed devices were given. */
  function DevicesBooked(ds: seq<Device>, site: Site, items: seq<Delta>, now: u64, c: Channel): nat
    decreases ds
  {
    if ds == [] then 0 else Booked(site, items, now, OfDevice(ds[0]), c) + DevicesBooked(ds[1..], site, items, now, c)
  }

  /** Exactly the known devices of an interface, each once. */
  ghost predicate DevicesOf(ds: seq<Device>, site: Site, iface: u32) {
    && (forall d :: d in ds <==> d in site.devices && d.iface == iface)
    && (forall i, j :: 0 <= i < j < |ds| ==> ds[i] != ds[j])
  }

  function GivenTo(ds: seq<Device>, o: Outcome, item: Delta, c: Channel): nat {
    if o.ToDevice? && o.device in ds && ChannelIn(OfDevice(o.device), item.0) == Some(c) then item.1 else 0
  }

  lemma {:induction false} DevicesStep(ds: seq<Device>, site: Site, items: seq<Delta>, now: u64, c: Channel)
    requires items != [] && forall i, j :: 0 <= i < j < |ds| ==> ds[i] != ds[j]
    ensures DevicesBooked(ds, site, items, now, c)
         == DevicesBooked(ds, site, items[1..], now, c)
            + GivenTo(ds, Attribute(site, items[0].0.address, now), items[0], c)
    decreases ds
  {
    if ds != [] {
      var rest := ds[1..];
      assert ds == [ds[0]] + rest;
      assert forall i :: 0 <= i < |rest| ==> rest[i] == ds[i + 1];
      assert ds[0] !in rest;
      DevicesStep(rest, site, items, now, c);
    }
  }

  lemma {:induction false} NoItems(ds: seq<Device>, site: Site, now: u64, c: Channel)
    ensures DevicesBooked(ds, site, [], now, c) == 0
    decreases ds
  {
    if ds != [] {
      NoItems(ds[1..], site, now, c);
    }
  }

  lemma OwnersAreKnown(site: Site, a: Address, now: u64)
    ensures Attribute(site, a, now).ToDevice? ==> Attribute(site, a, now).device in site.devices
  {
  }

  /**
   * What an interface is given is what its devices and its unresolved traffic are given together, counter by counter,
   * for every interface number but the one that stands for the global pool.
   */
  lemma {:induction false} LanIsDevicesAndUnresolved(
    ds: seq<Device>, site: Site, items: seq<Delta>, now: u64, iface: u32, c: Channel)
    requires DevicesOf(ds, site, iface) && iface != GLOBAL
    ensures Booked(site, items, now, OfLan(iface), c)
         == DevicesBooked(ds, site, items, now, c) + Booked(site, items, now, OfUnresolved(iface), c)
    decreases items
  {
    if items == [] {
      NoItems(ds, site, now, c);
    } else {
      OwnersAreKnown(site, items[0].0.address, now);
      DevicesStep(ds, site, items, now, c);
      LanIsDevicesAndUnresolved(ds, site, items[1..], now, iface, c);
    }
  }

  /** What the devices' own quads gained. */
  function DevicesGained(ds: seq<Device>, before: Books, after: Books, c: Channel): int
    decreases ds
  {
    if ds == [] then 0
    else Read(after, OfDevice(ds[0]), c) - Read(before, OfDevice(ds[0]), c) + DevicesGained(ds[1..], before, after, c)
  }

  lemma {:induction false} GainedIsBooked(
    ds: seq<Device>, b: Books, site: Site, items: seq<Delta>, now: u64, c: Channel)
    requires forall d :: d in ds ==> Read(b, OfDevice(d), c) + Booked(site, items, now, OfDevice(d), c) < U64
    ensures DevicesGained(ds, b, BookAll(b, site, items, now), c) == DevicesBooked(ds, site, items, now, c)
    decreases ds
  {
    if ds != [] {
      assert ds[0] in ds;
      CellsAreExact(b, site, items, now, OfDevice(ds[0]), c);
      GainedIsBooked(ds[1..], b, site, items, now, c);
    }
  }

  /**
   * Unless a counter saturates, the bytes of each LAN interface after a tick are the bytes its devices gained plus its
   * unresolved bytes.
   */
  lemma LanBytesAddUp(
    ds: seq<Device>, known: map<Device, Quad<u64>>, site: Site, items: seq<Delta>, now: u64, iface: u32, c: Channel)
    requires DevicesOf(ds, site, iface) && iface != GLOBAL
    requires var b := Books(known, map[], map[], ZERO_BYTES);
             forall d :: d in ds ==> Read(b, OfDevice(d), c) + Booked(site, items, now, OfDevice(d), c) < U64
    requires Booked(site, items, now, OfLan(iface), c) < U64
    ensures var before := Books(known, map[], map[], ZERO_BYTES);
            var after := BookAll(before, site, items, now);
            Read(after, OfLan(iface), c)
            == DevicesGained(ds, before, after, c) + Read(after, OfUnresolved(iface), c)
  {
    var b := Books(known, map[], map[], ZERO_BYTES);
    LanIsDevicesAndUnresolved(ds, site, items, now, iface, c);
    GainedIsBooked(ds, b, site, items, now, c);
    FromZero(b, site, items, now, OfLan(iface), c);
    FromZero(b, site, items, now, OfUnresolved(iface), c);
  }

  lemma FromZero(b: Books, site: Site, items: seq<Delta>, now: u64, cell: Cell, c: Channel)
    requires Read(b, cell, c) == 0 && Booked(site, items, now, cell, c) < U64
    ensures Read(BookAll(b, site, items, now), cell, c) == Booked(site, items, now, cell, c)
  {
    CellsAreExact(b, site, items, now, cell, c);
  }

  // ----- nothing is booked twice, and only two kinds of traffic are booked nowhere

  /** All bytes of one counter, and those of the two outcomes that book nothing. */
  function Total(items: seq<Delta>, c: Channel): nat
    decreases items
  {
    if items == [] then 0
    else (if ChannelOf(items[0].0.address.version, items[0].0.direction) == Some(c) then items[0].1 else 0)
         + Total(items[1..], c)
  }

  function UnbookedShare(site: Site, item: Delta, now: u64, c: Channel): nat {
    var o := Attribute(site, item.0.address, now);
    if (o.RouterItself? || o.NoRecord?) && ChannelOf(item.0.address.version, item.0.direction) == Some(c) then item.1
    else 0
  }

  function Unbooked(site: Site, items: seq<Delta>, now: u64, c: Channel): nat
    decreases items
  {
    if items == [] then 0 else UnbookedShare(site, items[0], now, c) + Unbooked(site, items[1..], now, c)
  }

  function Opposite(c: Channel): Channel {
    match c
    case UpV4 => DownV4
    case DownV4 => UpV4
    case UpV6 => DownV6
    case DownV6 => UpV6
  }

  /** An owner that is valid, but has no device of its own in this tick nor a record to bring one back. */
  lemma NoRecordIff(site: Site, a: Address, now: u64, d: Device)
    ensures Attribute(site, a, now) == NoRecord(d) <==> ValidOwner(site.cache, a, now) == Some(d) && d !in site.devices
  {
  }

  ghost predicate FeedsNothing(site: Site, item: Delta, now: u64) {
    forall cell, c :: Share(site, item, now, cell, c) == 0
  }

  /** Bytes of a known family and direction are booked in no counter exactly for these two outcomes. */
  lemma BookedNowhereIff(site: Site, item: Delta, now: u64)
    requires item.1 > 0 && ChannelOf(item.0.address.version, item.0.direction).Some?
    ensures var o := Attribute(site, item.0.address, now);
            FeedsNothing(site, item, now) <==> o.RouterItself? || o.NoRecord?
  {
    var o := Attribute(site, item.0.address, now);
    var c := ChannelOf(item.0.address.version, item.0.direction).value;
    match o
    case ToDevice(d) => assert Share(site, item, now, OfDevice(d), c) == item.1;
    case ToSubnet(i) => assert Share(site, item, now, OfLan(i), c) == item.1;
    case ToGlobal => assert Share(site, item, now, OfUnresolved(GLOBAL), c) == item.1;
    case ToWan => assert Share(site, item, now, OfWan, Opposite(c)) == item.1;
    case _ =>
  }

  /** There is such an owner: one neighbour entry and no device. */
  lemma OwnerWithoutRecord(a: Address, d: Device, now: u64, direction: byte, n: u64)
    ensures var site := Site([], [], [], [], [], map[a := Ownership(Some(d), now, now)], {});
            Attribute(site, a, now) == NoRecord(d) && FeedsNothing(site, (EcmKey(a, direction), n), now)
  {
  }

  function LansBooked(ifaces: seq<u32>, site: Site, items: seq<Delta>, now: u64, c: Channel): nat
    decreases ifaces
  {
    if ifaces == [] then 0
    else Booked(site, items, now, OfLan(ifaces[0]), c) + LansBooked(ifaces[1..], site, items, now, c)
  }

  /** Every interface that can be booked, each once. */
  ghost predicate Covers(ifaces: seq<u32>, site: Site) {
    && (forall i, j :: 0 <= i < j < |ifaces| ==> ifaces[i] != ifaces[j])
    && (forall d :: d in site.devices ==> d.iface in ifaces)
    && (forall s :: s in site.lan4 || s in site.lan6 ==> s.iface in ifaces && s.iface != GLOBAL)
  }

  lemma {:induction false} LansStep(ifaces: seq<u32>, site: Site, items: seq<Delta>, now: u64, c: Channel, i: u32)
    requires items != [] && forall i, j :: 0 <= i < j < |ifaces| ==> ifaces[i] != ifaces[j]
    requires var o := Attribute(site, items[0].0.address, now);
             (o.ToDevice? && o.device.iface == i) || o == ToSubnet(i)
    ensures LansBooked(ifaces, site, items, now, c)
         == LansBooked(ifaces, site, items[1..], now, c)
            + (if i in ifaces && ChannelIn(OfLan(i), items[0].0) == Some(c) then items[0].1 else 0)
    decreases ifaces
  {
    if ifaces != [] {
      var rest := ifaces[1..];
      assert ifaces == [ifaces[0]] + rest;
      assert forall k :: 0 <= k < |rest| ==> rest[k] == ifaces[k + 1];
      assert ifaces[0] !in rest;
      LansStep(rest, site, items, now, c, i);
    }
  }

  lemma {:induction false} LansUntouched(ifaces: seq<u32>, site: Site, items: seq<Delta>, now: u64, c: Channel)
    requires items != []
    requires var o := Attribute(site, items[0].0.address, now); !o.ToDevice? && !o.ToSubnet?
    ensures LansBooked(ifaces, site, items, now, c) == LansBooked(ifaces, site, items[1..], now, c)
    decreases ifaces
  {
    if ifaces != [] {
      LansUntouched(ifaces[1..], site, items, now, c);
    }
  }

  lemma {:induction false} NoLanItems(ifaces: seq<u32>, site: Site, now: u64, c: Channel)
    ensures LansBooked(ifaces, site, [], now, c) == 0
    decreases ifaces
  {
    if ifaces != [] {
      NoLanItems(ifaces[1..], site, now, c);
    }
  }

  lemma SubnetsAreListed(site: Site, a: Address, now: u64, ifaces: seq<u32>)
    requires Covers(ifaces, site)
    ensures var o := Attribute(site, a, now);
            (o.ToDevice? ==> o.device.iface in ifaces) && (o.ToSubnet? ==> o.iface in ifaces && o.iface != GLOBAL)
  {
    var c4, c6 := Candidates(site.lan4, a.w0, 32), Candidates(site.lan6, Value128(a), 128);
    assert c4 != [] ==> c4[0] in c4;
    assert c6 != [] ==> c6[0] in c6;
  }

  /**
   * Every byte of a tick is booked to exactly one interface, to the global pool or to the WAN (there in the opposite
   * direction), or is the router's own or of an owner without a record.
   */
  lemma {:induction false} EveryByteHasOnePlace(
    ifaces: seq<u32>, site: Site, items: seq<Delta>, now: u64, c: Channel)
    requires Covers(ifaces, site)
    ensures Total(items, c)
         == LansBooked(ifaces, site, items, now, c) + Booked(site, items, now, OfUnresolved(GLOBAL), c)
            + Booked(site, items, now, OfWan, Opposite(c)) + Unbooked(site, items, now, c)
    decreases items
  {
    if items == [] {
      NoLanItems(ifaces, site, now, c);
    } else {
      EveryByteHasOnePlace(ifaces, site, items[1..], now, c);
      ItemHasOnePlace(ifaces, site, items, now, c);
    }
  }

  lemma ItemHasOnePlace(ifaces: seq<u32>, site: Site, items: seq<Delta>, now: u64, c: Channel)
    requires Covers(ifaces, site) && items != []
    ensures (if ChannelOf(items[0].0.address.version, items[0].0.direction) == Some(c) then items[0].1 else 0)
         == LansBooked(ifaces, site, items, now, c) - LansBooked(ifaces, site, items[1..], now, c)
            + Share(site, items[0], now, OfUnresolved(GLOBAL), c) + Share(site, items[0], now, OfWan, Opposite(c))
            + UnbookedShare(site, items[0], now, c)
  {
    var o := Attribute(site, items[0].0.address, now);
    SubnetsAreListed(site, items[0].0.address, now, ifaces);
    OneItem(items[0].0, c);
    if o.ToDevice? {
      LansStep(ifaces, site, items, now, c, o.device.iface);
    } else if o.ToSubnet? {
      LansStep(ifaces, site, items, now, c, o.iface);
    } else {
      LansUntouched(ifaces, site, items, now, c);
    }
  }

  lemma OneItem(key: EcmKey, c: Channel)
    ensures ChannelIn(OfWan, key) == Some(Opposite(c)) <==> ChannelOf(key.address.version, key.direction) == Some(c)
  {
  }
}
