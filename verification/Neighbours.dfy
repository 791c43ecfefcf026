/** Which device owns an address: the cache behind attribution, filled from neighbour tables only. */
module Neighbours {
  import opened Bytes

  const ECM_HISTORY_FALLBACK_MS := 300_000

  datatype Address = Address(w0: u32, w1: u32, w2: u32, w3: u32, version: byte)

  datatype Device = Device(iface: u32, mac: seq<byte>)

  /** `device` is `None` while two devices claim the address in the same tick. */
  datatype Ownership = Ownership(device: Option<Device>, observedMs: u64, tick: u64)

  type Cache = map<Address, Ownership>

  datatype Observation = Observation(address: Address, device: Device, observedMs: u64)

  function Fresh(entry: Ownership, now: u64): bool {
    SatSub(now, entry.observedMs) < ECM_HISTORY_FALLBACK_MS
  }

  function ValidOwner(cache: Cache, a: Address, now: u64): Option<Device> {
    if a in cache && Fresh(cache[a], now) then cache[a].device else None
  }

  function Observed(entry: Option<Ownership>, o: Observation, tick: u64): Ownership {
    var device :=
      if entry.None? || entry.value.tick != tick || entry.value.device == Some(o.device) then Some(o.device) else None;
    Ownership(device, o.observedMs, tick)
  }

  function Lookup(cache: Cache, a: Address): Option<Ownership> {
    if a in cache then Some(cache[a]) else None
  }

  function Observe(cache: Cache, o: Observation, tick: u64): Cache {
    cache[o.address := Observed(Lookup(cache, o.address), o, tick)]
  }

  function ObserveAll(cache: Cache, os: seq<Observation>, tick: u64): Cache
    decreases os
  {
    if os == [] then cache else ObserveAll(Observe(cache, os[0], tick), os[1..], tick)
  }

  /** Old entries and entries of vanished interfaces are dropped at the start of a tick. */
  predicate Kept(entry: Ownership, ifaces: set<u32>, now: u64) {
    Fresh(entry, now) && (entry.device.Some? ==> entry.device.value.iface in ifaces)
  }

  function Retained(cache: Cache, ifaces: set<u32>, now: u64): Cache {
    map a | a in cache && Kept(cache[a], ifaces, now) :: cache[a]
  }

  function Forgotten(cache: Cache, d: Device): Cache {
    map a | a in cache && cache[a].device != Some(d) :: cache[a]
  }

  class NeighborCache {
    var entries: Cache

    constructor ()
      ensures entries == map[]
    {
      entries := map[];
    }

    method ObserveNeighbor(o: Observation, tick: u64)
      modifies this
      ensures entries == Observe(old(entries), o, tick)
    {
      var entry := if o.address in entries then entries[o.address] else Ownership(Some(o.device), o.observedMs, tick);
      if entry.tick == tick && entry.device != Some(o.device) {
        entry := entry.(device := None);
      } else if entry.tick != tick {
        entry := entry.(device := Some(o.device));
      }
      entry := entry.(observedMs := o.observedMs, tick := tick);
      entries := entries[o.address := entry];
    }

    method ObserveTick(os: seq<Observation>, ifaces: set<u32>, now: u64)
      modifies this
      ensures entries == ObserveAll(Retained(old(entries), ifaces, now), os, now)
    {
      entries := map a | a in entries && Kept(entries[a], ifaces, now) :: entries[a];
      var i := 0;
      while i < |os|
        invariant 0 <= i <= |os|
        invariant ObserveAll(entries, os[i..], now) == ObserveAll(Retained(old(entries), ifaces, now), os, now)
      {
        assert os[i..][1..] == os[i + 1..];
        ObserveNeighbor(os[i], now);
        i := i + 1;
      }
    }

    method RemoveDevice(d: Device)
      modifies this
      ensures entries == Forgotten(old(entries), d)
    {
      entries := map a | a in entries && entries[a].device != Some(d) :: entries[a];
    }
  }

  // ----- the order of observations does not matter

  predicate Mentions(os: seq<Observation>, a: Address) {
    exists i :: 0 <= i < |os| && os[i].address == a
  }

  predicate Unanimous(os: seq<Observation>, a: Address, d: Device) {
    forall i :: 0 <= i < |os| && os[i].address == a ==> os[i].device == d
  }

  /** Ownership before a tick's first observation of `a`, or claimed by `d` alone within it. */
  predicate ClaimedBy(entry: Option<Ownership>, tick: u64, d: Device) {
    entry.Some? && entry.value.tick == tick && entry.value.device == Some(d)
  }

  predicate Untouched(entry: Option<Ownership>, tick: u64) {
    entry.Some? ==> entry.value.tick != tick
  }

  /**
   * What a tick's observations make of an address: `d` owns it exactly when every observation names `d` (and, if the
   * tick had already seen the address, `d` already held it).
   */
  lemma {:induction false} OwnedIffUnanimous(cache: Cache, os: seq<Observation>, tick: u64, a: Address, d: Device)
    requires Mentions(os, a)
    ensures a in ObserveAll(cache, os, tick)
    ensures var r := ObserveAll(cache, os, tick)[a];
            r.tick == tick
            && (r.device == Some(d) <==>
                Unanimous(os, a, d) && (Untouched(Lookup(cache, a), tick) || ClaimedBy(Lookup(cache, a), tick, d)))
    decreases os
  {
    var next, rest := Observe(cache, os[0], tick), os[1..];
    assert os == [os[0]] + rest;
    if Mentions(rest, a) {
      OwnedIffUnanimous(next, rest, tick, a, d);
      UnanimousTail(os, a, d);
    } else {
      UnmentionedUnchanged(next, rest, tick, a);
      UnanimousTail(os, a, d);
    }
  }

  lemma UnanimousTail(os: seq<Observation>, a: Address, d: Device)
    requires os != []
    ensures Unanimous(os, a, d) <==> (os[0].address == a ==> os[0].device == d) && Unanimous(os[1..], a, d)
  {
    if Unanimous(os[1..], a, d) && (os[0].address == a ==> os[0].device == d) {
      forall i | 0 <= i < |os| && os[i].address == a
        ensures os[i].device == d
      {
        if i > 0 {
          assert os[1..][i - 1] == os[i];
        }
      }
    }
  }

  lemma {:induction false} UnmentionedUnchanged(cache: Cache, os: seq<Observation>, tick: u64, a: Address)
    requires !Mentions(os, a)
    ensures Lookup(ObserveAll(cache, os, tick), a) == Lookup(cache, a)
    decreases os
  {
    if os != [] {
      assert os[0].address != a;
      assert !Mentions(os[1..], a) by {
        assert forall i :: 0 <= i < |os[1..]| ==> os[1..][i] == os[i + 1];
      }
      UnmentionedUnchanged(Observe(cache, os[0], tick), os[1..], tick, a);
    }
  }

  /** Within a tick all observations of an address carry one time: the tick's own, or that of the last IPv6 poll. */
  predicate Timed(os: seq<Observation>, now: u64, polled: u64) {
    forall i :: 0 <= i < |os| ==> os[i].observedMs == (if os[i].address.version == 6 then polled else now)
  }

  lemma {:induction false} ObservedTime(
    cache: Cache, os: seq<Observation>, tick: u64, a: Address, now: u64, polled: u64)
    requires Timed(os, now, polled) && Mentions(os, a)
    ensures a in ObserveAll(cache, os, tick)
    ensures ObserveAll(cache, os, tick)[a].observedMs == (if a.version == 6 then polled else now)
    decreases os
  {
    var next, rest := Observe(cache, os[0], tick), os[1..];
    assert os == [os[0]] + rest;
    if Mentions(rest, a) {
      ObservedTime(next, rest, tick, a, now, polled);
    } else {
      UnmentionedUnchanged(next, rest, tick, a);
    }
  }

  /** Two listings of the same observations, in any order and with any repetition. */
  predicate SameObservations(p: seq<Observation>, q: seq<Observation>) {
    (forall o :: o in p ==> o in q) && (forall o :: o in q ==> o in p)
  }

  lemma SameMentions(p: seq<Observation>, q: seq<Observation>, a: Address, d: Device)
    requires forall o :: o in p ==> o in q
    ensures Mentions(p, a) ==> Mentions(q, a)
    ensures Unanimous(q, a, d) ==> Unanimous(p, a, d)
  {
    if Mentions(p, a) {
      var i :| 0 <= i < |p| && p[i].address == a;
      assert p[i] in q;
    }
    if Unanimous(q, a, d) {
      forall i | 0 <= i < |p| && p[i].address == a
        ensures p[i].device == d
      {
        assert p[i] in q;
      }
    }
  }

  lemma SameOwner(cache: Cache, p: seq<Observation>, q: seq<Observation>, now: u64, polled: u64, a: Address, d: Device)
    requires SameObservations(p, q) && Timed(p, now, polled) && Timed(q, now, polled)
    ensures Mentions(p, a) == Mentions(q, a)
    ensures Mentions(p, a) ==> a in ObserveAll(cache, p, now) && a in ObserveAll(cache, q, now)
    ensures Mentions(p, a) ==>
              var r, s := ObserveAll(cache, p, now)[a], ObserveAll(cache, q, now)[a];
              r.tick == s.tick && r.observedMs == s.observedMs && (r.device == Some(d) <==> s.device == Some(d))
  {
    SameMentions(p, q, a, d);
    SameMentions(q, p, a, d);
    if Mentions(p, a) {
      OwnedIffUnanimous(cache, p, now, a, d);
      OwnedIffUnanimous(cache, q, now, a, d);
      ObservedTime(cache, p, now, a, now, polled);
      ObservedTime(cache, q, now, a, now, polled);
    }
  }

  /** The cache after a tick depends on which observations were made, never on their order. */
  lemma OrderDoesNotMatter(cache: Cache, p: seq<Observation>, q: seq<Observation>, now: u64, polled: u64)
    requires SameObservations(p, q) && Timed(p, now, polled) && Timed(q, now, polled)
    ensures ObserveAll(cache, p, now) == ObserveAll(cache, q, now)
  {
    var r, s := ObserveAll(cache, p, now), ObserveAll(cache, q, now);
    forall a: Address
      ensures Lookup(r, a) == Lookup(s, a)
    {
      SameLookup(cache, p, q, now, polled, a);
    }
    assert forall a: Address :: (a in r <==> Lookup(r, a).Some?) && (a in s <==> Lookup(s, a).Some?);
    assert forall a :: a in r ==> Lookup(r, a) == Some(r[a]) && Lookup(s, a) == Some(s[a]);
  }

  lemma SameLookup(cache: Cache, p: seq<Observation>, q: seq<Observation>, now: u64, polled: u64, a: Address)
    requires SameObservations(p, q) && Timed(p, now, polled) && Timed(q, now, polled)
    ensures Lookup(ObserveAll(cache, p, now), a) == Lookup(ObserveAll(cache, q, now), a)
  {
    var r, s := ObserveAll(cache, p, now), ObserveAll(cache, q, now);
    if Mentions(p, a) {
      var nobody := Device(0, []);
      SameOwner(cache, p, q, now, polled, a, nobody);
      SameOwner(cache, p, q, now, polled, a, if r[a].device.Some? then r[a].device.value else nobody);
      SameOwner(cache, p, q, now, polled, a, if s[a].device.Some? then s[a].device.value else nobody);
    } else {
      SameMentions(q, p, a, Device(0, []));
      UnmentionedUnchanged(cache, p, now, a);
      UnmentionedUnchanged(cache, q, now, a);
    }
  }

  /** An address claimed by two devices has no owner for the rest of the tick, and is open again in the next. */
  lemma ConflictLastsTheTick(
    cache: Cache, p: seq<Observation>, more: seq<Observation>, tick: u64, a: Address, d: Device)
    requires Untouched(Lookup(cache, a), tick)
    requires exists i, j ::
               0 <= i < |p| && 0 <= j < |p| && p[i].address == p[j].address == a && p[i].device != p[j].device
    ensures var c := ObserveAll(ObserveAll(cache, p, tick), more, tick);
            a in c && c[a].device == None
    ensures forall later: u64 :: later != tick && Mentions(more, a) && Unanimous(more, a, d) ==>
              var c := ObserveAll(ObserveAll(cache, p, tick), more, later);
              a in c && c[a].device == Some(d)
  {
    var i, j :| 0 <= i < |p| && 0 <= j < |p| && p[i].address == p[j].address == a && p[i].device != p[j].device;
    var first := ObserveAll(cache, p, tick);
    OwnedIffUnanimous(cache, p, tick, a, p[i].device);
    if first[a].device.Some? {
      OwnedIffUnanimous(cache, p, tick, a, first[a].device.value);
    }
    assert first[a].device == None && first[a].tick == tick;
    NoOwnerStays(first, more, tick, a);
    forall later: u64 | later != tick && Mentions(more, a) && Unanimous(more, a, d)
      ensures var c := ObserveAll(first, more, later);
              a in c && c[a].device == Some(d)
    {
      OwnedIffUnanimous(first, more, later, a, d);
    }
  }

  lemma {:induction false} NoOwnerStays(cache: Cache, os: seq<Observation>, tick: u64, a: Address)
    requires a in cache && cache[a].tick == tick && cache[a].device == None
    ensures var c := ObserveAll(cache, os, tick); a in c && c[a].device == None
    decreases os
  {
    if os != [] {
      NoOwnerStays(Observe(cache, os[0], tick), os[1..], tick, a);
    }
  }

  // ----- ownership always rests on a poll

  datatype Step = Tick(os: seq<Observation>, ifaces: set<u32>, now: u64) | Remove(device: Device)

  function Stepped(cache: Cache, s: Step): Cache {
    match s
    case Tick(os, ifaces, now) => ObserveAll(Retained(cache, ifaces, now), os, now)
    case Remove(d) => Forgotten(cache, d)
  }

  function Run(cache: Cache, steps: seq<Step>): Cache
    decreases steps
  {
    if steps == [] then cache else Run(Stepped(cache, steps[0]), steps[1..])
  }

  function Polled(steps: seq<Step>): set<Observation> {
    if steps == [] then {}
    else (if steps[0].Tick? then set o | o in steps[0].os else {}) + Polled(steps[1..])
  }

  /** Every owner recorded in the cache was observed at the recorded time. */
  ghost predicate Grounded(cache: Cache, seen: set<Observation>) {
    forall a :: a in cache && cache[a].device.Some? ==>
      Observation(a, cache[a].device.value, cache[a].observedMs) in seen
  }

  lemma {:induction false} ObservingGrounds(cache: Cache, os: seq<Observation>, tick: u64, seen: set<Observation>)
    requires Grounded(cache, seen) && forall o :: o in os ==> o in seen
    ensures Grounded(ObserveAll(cache, os, tick), seen)
    decreases os
  {
    if os != [] {
      assert os[0] in os;
      ObservingGrounds(Observe(cache, os[0], tick), os[1..], tick, seen);
    }
  }

  lemma {:induction false} RunGrounds(cache: Cache, steps: seq<Step>, seen: set<Observation>)
    requires Grounded(cache, seen)
    ensures Grounded(Run(cache, steps), seen + Polled(steps))
    decreases steps
  {
    if steps == [] {
      assert seen + Polled(steps) == seen;
    } else {
      var now := if steps[0].Tick? then set o | o in steps[0].os else {};
      match steps[0] {
        case Tick(os, ifaces, t) => ObservingGrounds(Retained(cache, ifaces, t), os, t, seen + now);
        case Remove(d) => assert Grounded(Forgotten(cache, d), seen + now);
      }
      RunGrounds(Stepped(cache, steps[0]), steps[1..], seen + now);
      assert seen + Polled(steps) == seen + now + Polled(steps[1..]);
    }
  }

  /**
   * Over every history: an address has owner `d` only if a neighbour table named `d` for it less than five minutes
   * ago. Traffic is no step here, so it can neither create nor renew an owner.
   */
  lemma OwnersWerePolled(steps: seq<Step>, a: Address, now: u64)
    requires ValidOwner(Run(map[], steps), a, now).Some?
    ensures exists o :: o in Polled(steps) && o.address == a && o.device == ValidOwner(Run(map[], steps), a, now).value
              && SatSub(now, o.observedMs) < ECM_HISTORY_FALLBACK_MS
  {
    RunGrounds(map[], steps, {});
    var cache := Run(map[], steps);
    assert {} + Polled(steps) == Polled(steps);
    assert Observation(a, cache[a].device.value, cache[a].observedMs) in Polled(steps);
  }

  // ----- and a poll makes an owner, for five minutes

  /** The owner after a tick that mentions `a`: whom every observation names, until five minutes after the poll. */
  lemma PolledIsOwner(
      cache: Cache, os: seq<Observation>, tick: u64, polled: u64, a: Address, d: Device, now: u64)
    requires Timed(os, tick, polled) && Mentions(os, a) && Untouched(Lookup(cache, a), tick)
    ensures ValidOwner(ObserveAll(cache, os, tick), a, now) == Some(d)
       <==> Unanimous(os, a, d) && now < (if a.version == 6 then polled else tick) + 300_000
  {
    OwnedIffUnanimous(cache, os, tick, a, d);
    ObservedTime(cache, os, tick, a, tick, polled);
  }

  /** A tick keeps the addresses it mentions and those polled within five minutes, unless the interface is gone. */
  lemma TickKeeps(cache: Cache, os: seq<Observation>, ifaces: set<u32>, now: u64, a: Address)
    ensures a in Stepped(cache, Tick(os, ifaces, now))
       <==> Mentions(os, a)
            || (a in cache && now < cache[a].observedMs + 300_000
                && (cache[a].device.Some? ==> cache[a].device.value.iface in ifaces))
  {
    if Mentions(os, a) {
      OwnedIffUnanimous(Retained(cache, ifaces, now), os, now, a, Device(0, []));
    } else {
      UnmentionedUnchanged(Retained(cache, ifaces, now), os, now, a);
    }
  }

  /** No later tick mentions `a`, and none comes after `now`. */
  predicate Unmentioned(steps: seq<Step>, a: Address, now: u64) {
    forall i :: 0 <= i < |steps| && steps[i].Tick? ==> !Mentions(steps[i].os, a) && steps[i].now <= now
  }

  /** Every tick still lists the interface of `d`, and `d` is not removed. */
  predicate Undisturbed(steps: seq<Step>, d: Device) {
    forall i :: 0 <= i < |steps| ==>
      match steps[i]
      case Tick(_, ifaces, _) => d.iface in ifaces
      case Remove(x) => x != d
  }

  lemma {:induction false} UnknownStays(cache: Cache, steps: seq<Step>, a: Address, now: u64)
    requires a !in cache && Unmentioned(steps, a, now)
    ensures a !in Run(cache, steps)
    decreases steps
  {
    if steps != [] {
      var next, rest := Stepped(cache, steps[0]), steps[1..];
      assert Lookup(next, a).None? by {
        if steps[0].Tick? {
          UnmentionedUnchanged(Retained(cache, steps[0].ifaces, steps[0].now), steps[0].os, steps[0].now, a);
        }
      }
      UnknownStays(next, rest, a, now);
    }
  }

  lemma StepOnOwner(cache: Cache, s: Step, a: Address, d: Device, now: u64)
    requires a in cache && cache[a].device == Some(d) && Unmentioned([s], a, now)
    ensures var e, next := cache[a], Lookup(Stepped(cache, s), a);
            && (next == Some(e) || next == None)
            && (next == Some(e) ==> Undisturbed([s], d))
            && (next == None ==> now >= e.observedMs + 300_000 || !Undisturbed([s], d))
  {
    assert [s][0] == s;
    if s.Tick? {
      UnmentionedUnchanged(Retained(cache, s.ifaces, s.now), s.os, s.now, a);
    }
  }

  lemma {:induction false} OwnerLasts(cache: Cache, steps: seq<Step>, a: Address, d: Device, now: u64)
    requires a in cache && cache[a].device == Some(d) && Unmentioned(steps, a, now)
    ensures ValidOwner(Run(cache, steps), a, now)
         == if now < cache[a].observedMs + 300_000 && Undisturbed(steps, d) then Some(d) else None
    decreases steps
  {
    if steps != [] {
      var next, rest := Stepped(cache, steps[0]), steps[1..];
      assert steps == [steps[0]] + rest;
      StepOnOwner(cache, steps[0], a, d, now);
      assert Undisturbed(steps, d) <==> Undisturbed([steps[0]], d) && Undisturbed(rest, d) by {
        assert forall i :: 0 <= i < |rest| ==> rest[i] == steps[i + 1];
      }
      if a in next {
        OwnerLasts(next, rest, a, d, now);
      } else {
        UnknownStays(next, rest, a, now);
      }
    }
  }

  /**
   * From any cache: once a tick's tables agree that `d` holds `a`, the owner is `d` for exactly five minutes after
   * the poll, as long as later ticks still list the interface of `d` and `d` is not removed.
   */
  lemma PolledOwnerLasts(
      cache: Cache, os: seq<Observation>, ifaces: set<u32>, tick: u64, polled: u64, later: seq<Step>, a: Address,
      d: Device, now: u64)
    requires Timed(os, tick, polled) && Mentions(os, a) && Unanimous(os, a, d) && Untouched(Lookup(cache, a), tick)
    requires Unmentioned(later, a, now)
    ensures ValidOwner(Run(cache, [Tick(os, ifaces, tick)] + later), a, now)
         == if now < (if a.version == 6 then polled else tick) + 300_000 && Undisturbed(later, d) then Some(d) else None
  {
    var before := Retained(cache, ifaces, tick);
    OwnedIffUnanimous(before, os, tick, a, d);
    ObservedTime(before, os, tick, a, tick, polled);
    assert ([Tick(os, ifaces, tick)] + later)[1..] == later;
    OwnerLasts(ObserveAll(before, os, tick), later, a, d, now);
  }
}
