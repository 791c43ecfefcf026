/** Hardware-offload byte counters: baselines, failed reads and pruning, beside a kernel that keeps counting. */
module EcmCounters {
  import opened Bytes
  import opened Neighbours

  const ECM_IDLE_TIMEOUT_MS := 60_000

  datatype EcmKey = EcmKey(address: Address, direction: byte)

  type Counters = map<EcmKey, u64>

  /** A counter that went backwards is taken to have restarted from zero. */
  function DeltaBytes(current: u64, prev: u64): u64 {
    if current >= prev then current - prev else current
  }

  function At(m: map<EcmKey, nat>, k: EcmKey): nat {
    if k in m then m[k] else 0
  }

  function BaselineOf(prev: Counters, k: EcmKey): u64 {
    if k in prev then prev[k] else 0
  }

  function Deltas(prev: Counters, stats: Counters): Counters {
    map k | k in stats :: DeltaBytes(stats[k], BaselineOf(prev, k))
  }

  predicate IsIdle(lastActive: map<EcmKey, u64>, k: EcmKey, now: u64) {
    k in lastActive && SatSub(now, lastActive[k]) >= ECM_IDLE_TIMEOUT_MS
  }

  function MovedAt(active: map<EcmKey, u64>, k: EcmKey, delta: u64, now: u64): map<EcmKey, u64> {
    if k !in active || delta > 0 then active[k := now] else active
  }

  /** One pass over a read: baselines, times of last activity, the deltas and the keys found idle. */
  datatype Pass = Pass(prev: Counters, active: map<EcmKey, u64>, deltas: Counters, idle: set<EcmKey>)

  function PassKey(p: Pass, k: EcmKey, bytes: u64, now: u64): Pass {
    var delta := DeltaBytes(bytes, BaselineOf(p.prev, k));
    var active := MovedAt(p.active, k, delta, now);
    Pass(p.prev[k := bytes], active, p.deltas[k := delta],
         if delta == 0 && IsIdle(active, k, now) then p.idle + {k} else p.idle)
  }

  function PassAll(p: Pass, order: seq<EcmKey>, stats: Counters, now: u64): Pass
    requires forall k :: k in order ==> k in stats
    decreases order
  {
    if order == [] then p else PassAll(PassKey(p, order[0], stats[order[0]], now), order[1..], stats, now)
  }

  lemma OneKeyOnward(p: Pass, order: seq<EcmKey>, i: nat, stats: Counters, now: u64)
    requires i < |order| && forall k :: k in order[i..] ==> k in stats
    ensures order[i] in stats && forall k :: k in order[i + 1..] ==> k in stats
    ensures PassAll(p, order[i..], stats, now)
         == PassAll(PassKey(p, order[i], stats[order[i]], now), order[i + 1..], stats, now)
  {
    assert order[i] in order[i..] && order[i..][1..] == order[i + 1..];
  }

  ghost predicate Lists(order: seq<EcmKey>, stats: Counters) {
    && (forall k :: k in order <==> k in stats)
    && (forall i, j :: 0 <= i < j < |order| ==> order[i] != order[j])
  }

  /** What a pass says about one key. */
  datatype KeyView = KeyView(prev: Option<u64>, active: Option<u64>, delta: Option<u64>, idle: bool)

  function Lookup(m: map<EcmKey, u64>, k: EcmKey): Option<u64> {
    if k in m then Some(m[k]) else None
  }

  function View(p: Pass, k: EcmKey): KeyView {
    KeyView(Lookup(p.prev, k), Lookup(p.active, k), Lookup(p.deltas, k), k in p.idle)
  }

  lemma OtherKeyUntouched(p: Pass, j: EcmKey, bytes: u64, now: u64, k: EcmKey)
    requires j != k
    ensures View(PassKey(p, j, bytes, now), k) == View(p, k)
  {
  }

  lemma PassKeyOfView(p: Pass, q: Pass, k: EcmKey, bytes: u64, now: u64)
    requires View(p, k) == View(q, k)
    ensures View(PassKey(p, k, bytes, now), k) == View(PassKey(q, k, bytes, now), k)
  {
  }

  /** A pass treats every key by itself. */
  lemma {:induction false} PassOfKey(p: Pass, order: seq<EcmKey>, stats: Counters, now: u64, k: EcmKey)
    requires (forall j :: j in order ==> j in stats) && forall i, j :: 0 <= i < j < |order| ==> order[i] != order[j]
    ensures View(PassAll(p, order, stats, now), k)
         == View(if k in order then PassKey(p, k, stats[k], now) else p, k)
    decreases order
  {
    if order != [] {
      var first, rest := order[0], order[1..];
      var next := PassKey(p, first, stats[first], now);
      assert order == [first] + rest && first !in rest;
      PassOfKey(next, rest, stats, now, k);
      if k != first {
        OtherKeyUntouched(p, first, stats[first], now, k);
        if k in rest {
          PassKeyOfView(next, p, k, stats[k], now);
        }
      }
    }
  }

  /** Times of last activity: a key that is new or has moved was active just now. */
  function Activated(prev: Counters, active: map<EcmKey, u64>, stats: Counters, now: u64): map<EcmKey, u64> {
    active + map k | k in stats && (k !in active || Deltas(prev, stats)[k] > 0) :: now
  }

  lemma PassedView(p: Pass, stats: Counters, now: u64, k: EcmKey)
    requires p.deltas == map[] && p.idle == {}
    ensures var v := View(if k in stats then PassKey(p, k, stats[k], now) else p, k);
            && v.prev == Lookup(p.prev + stats, k) && v.delta == Lookup(Deltas(p.prev, stats), k)
            && v.active == Lookup(Activated(p.prev, p.active, stats, now), k)
            && (v.idle <==> k in stats && Deltas(p.prev, stats)[k] == 0 && IsIdle(p.active, k, now))
  {
  }

  lemma SameLookups(a: map<EcmKey, u64>, b: map<EcmKey, u64>)
    requires forall k :: Lookup(a, k) == Lookup(b, k)
    ensures a == b
  {
    assert forall k :: k in a <==> Lookup(a, k).Some?;
    assert forall k :: k in b <==> Lookup(b, k).Some?;
  }

  /**
   * Whatever the order of the walk: the read becomes the baseline, every delta is taken against the old one, what is
   * new or moved was active now, and the keys found idle are those that did not move now nor for a minute.
   */
  lemma PassIsOrderFree(prev: Counters, active: map<EcmKey, u64>, order: seq<EcmKey>, stats: Counters, now: u64)
    requires Lists(order, stats)
    ensures var q := PassAll(Pass(prev, active, map[], {}), order, stats, now);
            && q.prev == prev + stats && q.deltas == Deltas(prev, stats)
            && q.active == Activated(prev, active, stats, now)
            && forall k :: k in q.idle <==>
                 k in stats && Deltas(prev, stats)[k] == 0 && IsIdle(active, k, now)
  {
    var p := Pass(prev, active, map[], {});
    var q := PassAll(p, order, stats, now);
    forall k: EcmKey
      ensures Lookup(q.prev, k) == Lookup(prev + stats, k) && Lookup(q.deltas, k) == Lookup(Deltas(prev, stats), k)
      ensures Lookup(q.active, k) == Lookup(Activated(prev, active, stats, now), k)
      ensures k in q.idle <==> k in stats && Deltas(prev, stats)[k] == 0 && IsIdle(active, k, now)
    {
      PassOfKey(p, order, stats, now, k);
      PassedView(p, stats, now, k);
    }
    SameLookups(q.prev, prev + stats);
    SameLookups(q.deltas, Deltas(prev, stats));
    SameLookups(q.active, Activated(prev, active, stats, now));
  }

  // ----- idle means that nothing moved for a minute

  /** One complete read, when it was taken, and the keys pruned after it. */
  datatype ReadOut = ReadOut(stats: Counters, now: u64, pruned: set<EcmKey>)

  /** What pruning and the final clean-up leave. */
  function Left(m: map<EcmKey, u64>, r: ReadOut): map<EcmKey, u64> {
    map k | k in m && k in r.stats && k !in r.pruned :: m[k]
  }

  /** Baselines and times of last activity after a series of reads. */
  function AfterReads(rs: seq<ReadOut>): (Counters, map<EcmKey, u64>) {
    if rs == [] then (map[], map[])
    else
      var (prev, active) := AfterReads(rs[..|rs| - 1]);
      var r := rs[|rs| - 1];
      (Left(prev + r.stats, r), Left(Activated(prev, active, r.stats, r.now), r))
  }

  /** The key was read and kept, and the next read finds its counter where it was (or back at zero). */
  predicate StandsStill(rs: seq<ReadOut>, k: EcmKey, bytes: u64) {
    && rs != [] && k in rs[|rs| - 1].stats && k !in rs[|rs| - 1].pruned
    && (bytes == rs[|rs| - 1].stats[k] || bytes == 0)
  }

  /** When the counter last moved, as the reads show it; a key that is new or came back moved when it was first read. */
  function LastMoved(rs: seq<ReadOut>, k: EcmKey): u64
    requires rs != [] && k in rs[|rs| - 1].stats
  {
    var front, r := rs[..|rs| - 1], rs[|rs| - 1];
    if StandsStill(front, k, r.stats[k]) then LastMoved(front, k) else r.now
  }

  lemma {:induction false} ActivityIsLastMove(rs: seq<ReadOut>, k: EcmKey)
    ensures var (prev, active) := AfterReads(rs);
            if rs != [] && k in rs[|rs| - 1].stats && k !in rs[|rs| - 1].pruned then
              && k in prev && prev[k] == rs[|rs| - 1].stats[k]
              && k in active && active[k] == LastMoved(rs, k)
            else k !in prev && k !in active
  {
    if rs != [] {
      ActivityIsLastMove(rs[..|rs| - 1], k);
    }
  }

  /** A read finds a key idle exactly when its counter has not moved for a minute or more. */
  lemma IdleIffStill(
      rs: seq<ReadOut>, r: ReadOut, order: seq<EcmKey>, k: EcmKey, prev: Counters, active: map<EcmKey, u64>)
    requires Lists(order, r.stats) && (prev, active) == AfterReads(rs)
    ensures k in PassAll(Pass(prev, active, map[], {}), order, r.stats, r.now).idle
       <==> k in r.stats && LastMoved(rs + [r], k) + 60_000 <= r.now
  {
    PassIsOrderFree(prev, active, order, r.stats, r.now);
    ActivityIsLastMove(rs, k);
    assert (rs + [r])[..|rs|] == rs;
  }

  /** The kernel's map, counted into by the probes. */
  class KernelMap {
    var bytes: Counters

    constructor ()
      ensures bytes == map[]
    {
      bytes := map[];
    }

    method Count(k: EcmKey, n: u64)
      requires At(bytes, k) + n < U64
      modifies this
      ensures bytes == old(bytes)[k := At(old(bytes), k) + n]
    {
      bytes := bytes[k := if k in bytes then bytes[k] + n else n];
    }
  }

  class EcmMonitor {
    var prevBytes: Counters
    var lastActive: map<EcmKey, u64>

    constructor ()
      ensures prevBytes == map[] && lastActive == map[]
    {
      prevBytes, lastActive := map[], map[];
    }

    method EcmDelta(key: EcmKey, bytes: u64, now: u64) returns (delta: u64)
      modifies this
      ensures delta == DeltaBytes(bytes, BaselineOf(old(prevBytes), key))
      ensures prevBytes == old(prevBytes)[key := bytes]
      ensures lastActive == MovedAt(old(lastActive), key, delta, now)
    {
      var prev := if key in prevBytes then prevBytes[key] else 0;
      prevBytes := prevBytes[key := bytes];
      delta := DeltaBytes(bytes, prev);
      if key !in lastActive {
        lastActive := lastActive[key := now];
      }
      if delta > 0 {
        lastActive := lastActive[key := now];
      }
    }

    /** One pass over a complete read, in whatever order the map is walked. */
    method Tick(stats: Counters, order: seq<EcmKey>, now: u64) returns (deltas: Counters, idle: set<EcmKey>)
      requires Lists(order, stats)
      modifies this
      ensures Pass(prevBytes, lastActive, deltas, idle)
           == PassAll(Pass(old(prevBytes), old(lastActive), map[], {}), order, stats, now)
    {
      deltas, idle := map[], {};
      var i := 0;
      while i < |order|
        invariant 0 <= i <= |order|
        invariant forall k :: k in order[i..] ==> k in stats
        invariant PassAll(Pass(prevBytes, lastActive, deltas, idle), order[i..], stats, now)
               == PassAll(Pass(old(prevBytes), old(lastActive), map[], {}), order, stats, now)
      {
        var k := order[i];
        ghost var p := Pass(prevBytes, lastActive, deltas, idle);
        OneKeyOnward(p, order, i, stats, now);
        var delta := EcmDelta(k, stats[k], now);
        deltas := deltas[k := delta];
        if delta == 0 && SatSub(now, lastActive[k]) >= ECM_IDLE_TIMEOUT_MS {
          idle := idle + {k};
        }
        assert Pass(prevBytes, lastActive, deltas, idle) == PassKey(p, k, stats[k], now);
        i := i + 1;
      }
    }

    /** Forgets a key only if the kernel's counter is still what was last read, and the kernel lets it go. */
    method Prune(kernel: KernelMap, k: EcmKey, removable: bool) returns (pruned: bool)
      modifies this, kernel
      ensures pruned <==> k in old(kernel.bytes) && k in old(prevBytes)
                          && old(prevBytes[k]) == old(kernel.bytes[k]) && removable
      ensures pruned ==> kernel.bytes == old(kernel.bytes) - {k}
      ensures pruned ==> prevBytes == old(prevBytes) - {k} && lastActive == old(lastActive) - {k}
      ensures !pruned ==> kernel.bytes == old(kernel.bytes)
      ensures !pruned ==> prevBytes == old(prevBytes) && lastActive == old(lastActive)
    {
      if k !in kernel.bytes {
        return false;
      }
      if k !in prevBytes || prevBytes[k] != kernel.bytes[k] {
        return false;
      }
      if !removable {
        return false;
      }
      kernel.bytes := kernel.bytes - {k};
      prevBytes := prevBytes - {k};
      lastActive := lastActive - {k};
      pruned := true;
    }

    method Retain(stats: Counters)
      modifies this
      ensures prevBytes == map k | k in old(prevBytes) && k in stats :: old(prevBytes[k])
      ensures lastActive == map k | k in old(lastActive) && k in stats :: old(lastActive[k])
    {
      prevBytes := map k | k in prevBytes && k in stats :: prevBytes[k];
      lastActive := map k | k in lastActive && k in stats :: lastActive[k];
    }
  }

  /** The per-CPU values of one key are added up, saturating. */
  method SumCpus(values: seq<u64>) returns (total: u64)
    ensures total == Cap64(Sum(values))
  {
    total := 0;
    for i := 0 to |values|
      invariant total == Cap64(Sum(values[..i]))
    {
      assert values[..i + 1][..i] == values[..i];
      total := SatAdd(total, values[i]);
    }
    assert values[..|values|] == values;
  }

  // ----- every interleaving with the kernel

  /** A read visits the keys one by one while the kernel goes on counting; so does the pruning after it. */
  datatype Phase =
    | Waiting
    | Reading(required: set<EcmKey>, seen: Counters)
    | Pruning(snapshot: Counters, candidates: set<EcmKey>)

  /** `counted` and `reported` record, for every key, all bytes ever counted and all deltas ever reported. */
  datatype System = System(
    kernel: Counters, prev: Counters, phase: Phase, counted: map<EcmKey, nat>, reported: map<EcmKey, nat>)

  const START := System(map[], map[], Waiting, map[], map[])

  datatype Step =
    | Count(key: EcmKey, bytes: u64)
    | BeginRead
    | ReadKey(key: EcmKey)
    | FailRead
    | Account(idle: set<EcmKey>)
    | PruneKey(key: EcmKey, removable: bool)
    | EndTick

  /** A read that did not see every key fails; only counters that did not move are candidates for pruning. */
  ghost predicate Enabled(s: System, step: Step) {
    match step
    case Count(k, n) => At(s.kernel, k) + n < U64
    case BeginRead => s.phase.Waiting?
    case ReadKey(k) => s.phase.Reading? && k in s.kernel
    case FailRead => s.phase.Reading?
    case Account(idle) =>
      s.phase.Reading? && s.phase.required <= s.phase.seen.Keys
      && forall k :: k in idle ==> k in s.phase.seen && Deltas(s.prev, s.phase.seen)[k] == 0
    case PruneKey(k, _) => s.phase.Pruning? && k in s.phase.candidates
    case EndTick => s.phase.Pruning?
  }

  function Reported(reported: map<EcmKey, nat>, deltas: Counters): map<EcmKey, nat> {
    map k | k in reported.Keys + deltas.Keys :: At(reported, k) + At(deltas, k)
  }

  ghost function Next(s: System, step: Step): System
    requires Enabled(s, step)
  {
    match step
    case Count(k, n) =>
      s.(kernel := s.kernel[k := At(s.kernel, k) + n], counted := s.counted[k := At(s.counted, k) + n])
    case BeginRead => s.(phase := Reading(s.kernel.Keys, map[]))
    case ReadKey(k) => s.(phase := s.phase.(seen := s.phase.seen[k := s.kernel[k]]))
    case FailRead => s.(phase := Waiting)
    case Account(idle) =>
      var stats := s.phase.seen;
      s.(prev := s.prev + stats, phase := Pruning(stats, idle), reported := Reported(s.reported, Deltas(s.prev, stats)))
    case PruneKey(k, removable) =>
      if k in s.kernel && k in s.prev && s.prev[k] == s.kernel[k] && removable then
        s.(kernel := s.kernel - {k}, prev := s.prev - {k}, phase := s.phase.(snapshot := s.phase.snapshot - {k}))
      else s
    case EndTick =>
      s.(prev := (map k | k in s.prev && k in s.phase.snapshot :: s.prev[k]), phase := Waiting)
  }

  /** Reported plus not yet read is everything ever counted. */
  ghost predicate Conserved(s: System) {
    forall k :: At(s.counted, k) == At(s.reported, k) + At(s.kernel, k) - At(s.prev, k)
  }

  ghost predicate Below(low: Counters, high: Counters) {
    forall k :: k in low ==> k in high && low[k] <= high[k]
  }

  ghost predicate Sound(s: System) {
    && Conserved(s) && Below(s.prev, s.kernel)
    && match s.phase
       case Waiting => true
       case Reading(required, seen) =>
         s.prev.Keys <= required && Below(seen, s.kernel) && forall k :: k in seen ==> At(s.prev, k) <= seen[k]
       case Pruning(snapshot, _) => s.prev == snapshot
  }

  lemma CountIsSound(s: System, k: EcmKey, n: u64)
    requires Sound(s) && Enabled(s, Count(k, n))
    ensures Sound(Next(s, Count(k, n)))
  {
    var t := Next(s, Count(k, n));
    forall j
      ensures At(t.counted, j) == At(t.reported, j) + At(t.kernel, j) - At(t.prev, j)
    {
      assert At(s.counted, j) == At(s.reported, j) + At(s.kernel, j) - At(s.prev, j);
    }
  }

  /** The baselines become exactly what was read, and no delta takes the restart branch. */
  lemma AccountIsSound(s: System, idle: set<EcmKey>)
    requires Sound(s) && Enabled(s, Account(idle))
    ensures Sound(Next(s, Account(idle)))
    ensures s.prev + s.phase.seen == s.phase.seen
    ensures forall k :: k in s.phase.seen ==> s.phase.seen[k] >= BaselineOf(s.prev, k)
  {
    var stats := s.phase.seen;
    assert s.prev + stats == stats;
    forall j
      ensures At(s.counted, j)
           == At(Reported(s.reported, Deltas(s.prev, stats)), j) + At(s.kernel, j) - At(stats, j)
    {
      KeyIsAccounted(s, idle, j);
    }
  }

  lemma KeyIsAccounted(s: System, idle: set<EcmKey>, j: EcmKey)
    requires Sound(s) && Enabled(s, Account(idle))
    ensures At(s.counted, j)
         == At(Reported(s.reported, Deltas(s.prev, s.phase.seen)), j) + At(s.kernel, j) - At(s.phase.seen, j)
  {
    assert At(s.counted, j) == At(s.reported, j) + At(s.kernel, j) - At(s.prev, j);
    ReportedKey(s.reported, Deltas(s.prev, s.phase.seen), j);
  }

  lemma ReportedKey(reported: map<EcmKey, nat>, deltas: Counters, j: EcmKey)
    ensures At(Reported(reported, deltas), j) == At(reported, j) + At(deltas, j)
  {
  }

  lemma PruneIsSound(s: System, k: EcmKey, removable: bool)
    requires Sound(s) && Enabled(s, PruneKey(k, removable))
    ensures Sound(Next(s, PruneKey(k, removable)))
  {
    var t := Next(s, PruneKey(k, removable));
    forall j
      ensures At(t.counted, j) == At(t.reported, j) + At(t.kernel, j) - At(t.prev, j)
    {
      assert At(s.counted, j) == At(s.reported, j) + At(s.kernel, j) - At(s.prev, j);
    }
  }

  /** After a complete read the final clean-up finds nothing to drop. */
  lemma RetainDropsNothing(s: System)
    requires Sound(s) && s.phase.Pruning?
    ensures Next(s, EndTick).prev == s.prev
  {
  }

  lemma StepIsSound(s: System, step: Step)
    requires Sound(s) && Enabled(s, step)
    ensures Sound(Next(s, step))
  {
    match step
    case Count(k, n) => CountIsSound(s, k, n);
    case Account(idle) => AccountIsSound(s, idle);
    case PruneKey(k, removable) => PruneIsSound(s, k, removable);
    case EndTick => RetainDropsNothing(s);
    case _ =>
  }

  ghost predicate PossibleRun(s: System, steps: seq<Step>)
    decreases steps
  {
    steps == [] || (Enabled(s, steps[0]) && PossibleRun(Next(s, steps[0]), steps[1..]))
  }

  ghost function Run(s: System, steps: seq<Step>): System
    requires PossibleRun(s, steps)
    decreases steps
  {
    if steps == [] then s else Run(Next(s, steps[0]), steps[1..])
  }

  lemma {:induction false} RunIsSound(s: System, steps: seq<Step>)
    requires Sound(s) && PossibleRun(s, steps)
    ensures Sound(Run(s, steps))
    decreases steps
  {
    if steps != [] {
      StepIsSound(s, steps[0]);
      RunIsSound(Next(s, steps[0]), steps[1..]);
    }
  }

  /**
   * Over every interleaving of kernel increments, complete reads, failed reads and prunes: nothing is replayed and
   * nothing is lost. What was reported for a key, and what the kernel holds beyond the baseline, is all it counted.
   */
  lemma NoByteLostOrReplayed(steps: seq<Step>, k: EcmKey)
    requires PossibleRun(START, steps)
    ensures var s := Run(START, steps);
            At(s.prev, k) <= At(s.kernel, k)
            && At(s.reported, k) + (At(s.kernel, k) - At(s.prev, k)) == At(s.counted, k)
  {
    RunIsSound(START, steps);
  }

  /** A key that leaves the kernel's map had all its bytes reported. */
  lemma PrunedKeysAreSettled(steps: seq<Step>, k: EcmKey)
    requires PossibleRun(START, steps) && k !in Run(START, steps).kernel
    ensures At(Run(START, steps).reported, k) == At(Run(START, steps).counted, k)
    ensures k !in Run(START, steps).prev
  {
    RunIsSound(START, steps);
  }

  /** In every reachable state a read that sees all keys reports only true increments. */
  lemma RestartNeverAssumed(steps: seq<Step>, idle: set<EcmKey>, k: EcmKey)
    requires PossibleRun(START, steps) && Enabled(Run(START, steps), Account(idle))
    requires k in Run(START, steps).phase.seen
    ensures var s := Run(START, steps);
            DeltaBytes(s.phase.seen[k], BaselineOf(s.prev, k)) == s.phase.seen[k] - BaselineOf(s.prev, k)
  {
    RunIsSound(START, steps);
    AccountIsSound(Run(START, steps), idle);
  }

  // ----- the monitor takes these steps, so every interleaving of its calls is such a run

  ghost predicate IsAt(m: EcmMonitor, kernel: KernelMap, s: System)
    reads m, kernel
  {
    m.prevBytes == s.prev && kernel.bytes == s.kernel
  }

  method CountStep(m: EcmMonitor, kernel: KernelMap, k: EcmKey, n: u64, ghost s: System)
    requires IsAt(m, kernel, s) && Enabled(s, Count(k, n))
    modifies kernel
    ensures IsAt(m, kernel, Next(s, Count(k, n)))
  {
    kernel.Count(k, n);
  }

  /** A read that saw every key is accounted for, in whatever order it is walked. */
  method TickStep(
    m: EcmMonitor, kernel: KernelMap, stats: Counters, order: seq<EcmKey>, now: u64, ghost s: System)
    returns (deltas: Counters, idle: set<EcmKey>)
    requires IsAt(m, kernel, s) && s.phase.Reading? && s.phase.required <= s.phase.seen.Keys
    requires s.phase.seen == stats && Lists(order, stats)
    modifies m
    ensures Enabled(s, Account(idle)) && IsAt(m, kernel, Next(s, Account(idle)))
    ensures Next(s, Account(idle)).reported == Reported(s.reported, deltas)
  {
    PassIsOrderFree(m.prevBytes, m.lastActive, order, stats, now);
    deltas, idle := m.Tick(stats, order, now);
  }

  method PruneStep(m: EcmMonitor, kernel: KernelMap, k: EcmKey, removable: bool, ghost s: System)
    returns (pruned: bool)
    requires IsAt(m, kernel, s) && Enabled(s, PruneKey(k, removable))
    modifies m, kernel
    ensures IsAt(m, kernel, Next(s, PruneKey(k, removable)))
    ensures pruned <==> k in s.kernel && k !in kernel.bytes
  {
    pruned := m.Prune(kernel, k, removable);
  }

  /** `stats` is what was read, less the keys pruned since. */
  method RetainStep(m: EcmMonitor, kernel: KernelMap, stats: Counters, ghost s: System)
    requires IsAt(m, kernel, s) && s.phase.Pruning? && s.phase.snapshot == stats
    modifies m
    ensures IsAt(m, kernel, Next(s, EndTick))
  {
    m.Retain(stats);
  }
}
