/** The tracked-flow table: two maps driven by kernel events and dumps, and the kernel table they follow. */
module FlowTable {
  import opened Bytes
  import opened Netlink
  import opened Ctnetlink

  const MAX_TRACKED_FLOWS := 100_000

  datatype Tables = Tables(flows: map<FlowKey, Flow>, ids: map<u32, FlowKey>)

  const EMPTY := Tables(map[], map[])

  /** The identifier is registered first, and whatever it named before is dropped. */
  function Registered(s: Tables, f: Flow): Tables {
    if f.id.None? then s
    else
      var id := f.id.value;
      Tables(if id in s.ids then s.flows - {s.ids[id]} else s.flows, s.ids[id := f.key])
  }

  function Stored(s: Tables, f: Flow): Tables {
    if |s.flows| >= MAX_TRACKED_FLOWS && f.key !in s.flows then s else s.(flows := s.flows[f.key := f])
  }

  function Inserted(s: Tables, f: Flow): Tables {
    Stored(Registered(s, f), f)
  }

  function Removed(s: Tables, f: Flow): Tables {
    if f.id.Some? && f.id.value in s.ids then
      Tables(s.flows - {s.ids[f.id.value]}, s.ids - {f.id.value})
    else
      s.(flows := s.flows - {f.key})
  }

  datatype Event = New(flow: Flow) | Delete(flow: Flow)

  function Apply(s: Tables, e: Event): Tables {
    match e
    case New(f) => Inserted(s, f)
    case Delete(f) => Removed(s, f)
  }

  function ApplyAll(s: Tables, events: seq<Event>): Tables
    decreases events
  {
    if events == [] then s else ApplyAll(Apply(s, events[0]), events[1..])
  }

  function InsertAll(s: Tables, flows: seq<Flow>): Tables
    decreases flows
  {
    if flows == [] then s else InsertAll(Inserted(s, flows[0]), flows[1..])
  }

  function Replaced(flows: seq<Flow>): Tables {
    InsertAll(EMPTY, flows[..Min(|flows|, MAX_TRACKED_FLOWS)])
  }

  // ----- safety, whatever the events

  ghost predicate Safe(s: Tables) {
    && |s.flows| <= 100_000
    && forall k :: k in s.flows ==>
         s.flows[k].key == k
         && (s.flows[k].id.Some? ==> s.flows[k].id.value in s.ids && s.ids[s.flows[k].id.value] == k)
  }

  lemma Fewer<K, V>(m: map<K, V>, k: K)
    ensures |m - {k}| == |m| - (if k in m then 1 else 0)
  {
    assert (m - {k}).Keys == m.Keys - {k};
  }

  lemma OneMore<K, V>(m: map<K, V>, k: K, v: V)
    ensures |m[k := v]| == |m| + (if k in m then 0 else 1)
  {
    assert m[k := v].Keys == m.Keys + {k};
  }

  lemma PutBack<K, V>(m: map<K, V>, k: K, v: V)
    ensures (m - {k})[k := v] == m[k := v]
  {
  }

  lemma RegisterIsSafe(s: Tables, f: Flow)
    requires Safe(s)
    ensures Safe(Registered(s, f))
  {
    if f.id.Some? && f.id.value in s.ids {
      Fewer(s.flows, s.ids[f.id.value]);
    }
  }

  lemma StoreIsSafe(s: Tables, f: Flow)
    requires Safe(s) && (f.id.Some? ==> f.id.value in s.ids && s.ids[f.id.value] == f.key)
    ensures Safe(Stored(s, f))
  {
    OneMore(s.flows, f.key, f);
  }

  lemma InsertIsSafe(s: Tables, f: Flow)
    requires Safe(s)
    ensures Safe(Inserted(s, f))
  {
    RegisterIsSafe(s, f);
    StoreIsSafe(Registered(s, f), f);
  }

  lemma RemoveIsSafe(s: Tables, f: Flow)
    requires Safe(s)
    ensures Safe(Removed(s, f))
  {
    Fewer(s.flows, f.key);
    if f.id.Some? && f.id.value in s.ids {
      Fewer(s.flows, s.ids[f.id.value]);
    }
  }

  lemma {:induction false} InsertAllIsSafe(s: Tables, flows: seq<Flow>)
    requires Safe(s)
    ensures Safe(InsertAll(s, flows))
    decreases flows
  {
    if flows != [] {
      InsertIsSafe(s, flows[0]);
      InsertAllIsSafe(Inserted(s, flows[0]), flows[1..]);
    }
  }

  /** What can happen to the table: an event, a received buffer of any bytes, or a whole dump replacing it. */
  datatype Step = Notify(event: Event) | Receive(buffer: seq<byte>) | Dump(flows: seq<Flow>)

  function Stepped(s: Tables, step: Step): Tables {
    match step
    case Notify(e) => Apply(s, e)
    case Receive(buffer) => ApplyFrames(s, Frames(buffer, 0)).0
    case Dump(flows) => Replaced(flows)
  }

  function After(s: Tables, steps: seq<Step>): Tables
    decreases steps
  {
    if steps == [] then s else After(Stepped(s, steps[0]), steps[1..])
  }

  /** Whatever messages arrive, well-formed or not. */
  lemma {:induction false} FramesAreSafe(s: Tables, frames: seq<Frame>)
    requires Safe(s)
    ensures Safe(ApplyFrames(s, frames).0)
    decreases frames
  {
    if frames != [] && frames[0].Frame? {
      FramesAreSafe(s, frames[1..]);
      match FlowIn(frames[0].payload)
      case Some(Some(f)) =>
        HandledIsSafe(s, frames[0].kind, f);
        FramesAreSafe(Handled(s, frames[0].kind, f), frames[1..]);
      case _ =>
    }
  }

  lemma HandledIsSafe(s: Tables, kind: u16, f: Flow)
    requires Safe(s)
    ensures Safe(Handled(s, kind, f))
  {
    if kind % 0x100 == 2 {
      RemoveIsSafe(s, f);
    } else if kind % 0x100 == 0 {
      InsertIsSafe(s, f);
    }
  }

  lemma StepIsSafe(s: Tables, step: Step)
    requires Safe(s)
    ensures Safe(Stepped(s, step))
  {
    match step
    case Notify(New(f)) => InsertIsSafe(s, f);
    case Notify(Delete(f)) => RemoveIsSafe(s, f);
    case Receive(buffer) => FramesAreSafe(s, Frames(buffer, 0));
    case Dump(list) => InsertAllIsSafe(EMPTY, list[..Min(|list|, MAX_TRACKED_FLOWS)]);
  }

  /** Over every history, faithful or not: the cap holds and every tracked flow's identifier names its own tuple. */
  lemma {:induction false} EveryHistoryIsSafe(s: Tables, steps: seq<Step>)
    requires Safe(s)
    ensures Safe(After(s, steps))
    decreases steps
  {
    if steps != [] {
      StepIsSafe(s, steps[0]);
      EveryHistoryIsSafe(Stepped(s, steps[0]), steps[1..]);
    }
  }

  /** So no kernel identifier is ever attached to two flows. */
  lemma IdentifiersAreUnique(steps: seq<Step>, j: FlowKey, k: FlowKey)
    requires j in After(EMPTY, steps).flows && k in After(EMPTY, steps).flows
    requires After(EMPTY, steps).flows[j].id.Some?
    requires After(EMPTY, steps).flows[j].id == After(EMPTY, steps).flows[k].id
    ensures j == k
  {
    EveryHistoryIsSafe(EMPTY, steps);
  }

  // ----- following the kernel

  /** The kernel's own table: one flow an identifier, one identifier a tuple. */
  type Kernel = map<u32, Flow>

  ghost predicate OneToOne(k: Kernel) {
    && (forall i :: i in k ==> k[i].id == Some(i))
    && (forall i, j :: i in k && j in k && k[i].key == k[j].key ==> i == j)
  }

  ghost predicate Faithful(k: Kernel) {
    OneToOne(k) && |k| <= 100_000
  }

  /** The tracked flows are exactly the kernel's, and the identifier map is exactly theirs. */
  ghost predicate Mirrors(s: Tables, k: Kernel) {
    && s.ids.Keys == k.Keys
    && (forall i :: i in k ==> s.ids[i] == k[i].key && k[i].key in s.flows && s.flows[k[i].key] == k[i])
    && (forall key :: key in s.flows ==>
          s.flows[key].key == key && s.flows[key].id.Some? && s.flows[key].id.value in k
          && k[s.flows[key].id.value] == s.flows[key])
  }

  function KernelAfter(k: Kernel, e: Event): Kernel
    requires e.flow.id.Some?
  {
    match e
    case New(f) => k[f.id.value := f]
    case Delete(f) => k - {f.id.value}
  }

  /** The kernel announces a flow under a tuple no other entry holds, or withdraws an entry it has. */
  ghost predicate Possible(k: Kernel, e: Event) {
    && e.flow.id.Some?
    && match e
       case New(f) => NoOtherHolds(k, f) && HasRoom(k, f)
       case Delete(f) => f.id.value in k
  }

  ghost predicate NoOtherHolds(k: Kernel, f: Flow) {
    f.id.Some? && forall i :: i in k && k[i].key == f.key ==> i == f.id.value
  }

  ghost predicate HasRoom(k: Kernel, f: Flow) {
    f.id.Some? && (f.id.value in k || |k| < 100_000)
  }

  lemma {:induction false} OneEach(keys: set<FlowKey>, ids: set<u32>, flows: map<FlowKey, Flow>)
    requires keys <= flows.Keys
    requires forall k :: k in keys ==> flows[k].key == k && flows[k].id.Some? && flows[k].id.value in ids
    requires forall j, k :: j in keys && k in keys && flows[j].id == flows[k].id ==> j == k
    ensures |keys| <= |ids|
    decreases keys
  {
    if keys != {} {
      var k :| k in keys;
      var i := flows[k].id.value;
      OneEach(keys - {k}, ids - {i}, flows);
    }
  }

  lemma SameSize(s: Tables, k: Kernel)
    requires OneToOne(k) && Mirrors(s, k)
    ensures |s.flows| <= |k|
  {
    OneEach(s.flows.Keys, k.Keys, s.flows);
    assert |k| == |k.Keys|;
  }

  lemma RemoveMirrors(s: Tables, k: Kernel, f: Flow)
    requires OneToOne(k) && Mirrors(s, k) && f.id.Some? && f.id.value in k
    ensures Mirrors(Removed(s, f), k - {f.id.value})
  {
  }

  lemma StoreMirrors(s: Tables, k: Kernel, f: Flow)
    requires Mirrors(s, k) && f.id.Some? && f.id.value !in k
    requires forall i :: i in k ==> k[i].key != f.key
    ensures Mirrors(Tables(s.flows[f.key := f], s.ids[f.id.value := f.key]), k[f.id.value := f])
  {
  }

  function Cleared(s: Tables, f: Flow): Tables
    requires f.id.Some?
  {
    if f.id.value in s.ids then Removed(s, f) else s
  }

  lemma RegisteredIsCleared(s: Tables, f: Flow)
    requires f.id.Some?
    ensures Registered(s, f) == Tables(Cleared(s, f).flows, Cleared(s, f).ids[f.id.value := f.key])
  {
    PutBack(s.ids, f.id.value, f.key);
  }

  lemma ClearedMirrors(s: Tables, k: Kernel, f: Flow)
    requires OneToOne(k) && Mirrors(s, k) && f.id.Some?
    ensures Mirrors(Cleared(s, f), k - {f.id.value})
  {
    if f.id.value in k {
      RemoveMirrors(s, k, f);
    } else {
      assert k - {f.id.value} == k;
    }
  }

  /** The tuple of an announced flow is free, or the same identifier holds it. */
  lemma InsertMirrors(s: Tables, k: Kernel, f: Flow)
    requires Faithful(k) && Mirrors(s, k) && NoOtherHolds(k, f) && HasRoom(k, f)
    ensures Mirrors(Inserted(s, f), k[f.id.value := f])
  {
    var id := f.id.value;
    var rest := k - {id};
    var cleared := Cleared(s, f);
    ClearedMirrors(s, k, f);
    Fewer(k, id);
    SameSize(cleared, rest);
    RegisteredIsCleared(s, f);
    StoreMirrors(cleared, rest, f);
    assert Inserted(s, f) == Tables(cleared.flows[f.key := f], cleared.ids[id := f.key]);
    PutBack(k, id, f);
  }

  lemma KernelStaysFaithful(k: Kernel, e: Event)
    requires Faithful(k) && Possible(k, e)
    ensures Faithful(KernelAfter(k, e))
  {
    match e
    case New(f) => AnnouncedStaysFaithful(k, f);
    case Delete(f) => Fewer(k, f.id.value);
  }

  lemma AnnouncedStaysFaithful(k: Kernel, f: Flow)
    requires Faithful(k) && Possible(k, New(f))
    ensures Faithful(k[f.id.value := f])
  {
    OneMore(k, f.id.value, f);
  }

  /** An announced flow is mirrored exactly when no other identifier still holds its tuple and there is room. */
  lemma InsertMirrorsIff(s: Tables, k: Kernel, f: Flow)
    requires Faithful(k) && Mirrors(s, k) && f.id.Some?
    ensures Mirrors(Inserted(s, f), k[f.id.value := f]) <==> NoOtherHolds(k, f) && HasRoom(k, f)
  {
    if NoOtherHolds(k, f) && HasRoom(k, f) {
      InsertMirrors(s, k, f);
    }
    if Mirrors(Inserted(s, f), k[f.id.value := f]) {
      InsertIsBounded(s, k, f);
      MirroredHasRoom(Inserted(s, f), k, f);
    }
  }

  lemma MirroredHasRoom(t: Tables, k: Kernel, f: Flow)
    requires OneToOne(k) && f.id.Some? && |t.flows| <= MAX_TRACKED_FLOWS && Mirrors(t, k[f.id.value := f])
    ensures NoOtherHolds(k, f) && HasRoom(k, f)
  {
    forall i | i in k && k[i].key == f.key
      ensures i == f.id.value
    {
      TupleIsFree(t, k, f, i);
    }
    OneMore(k, f.id.value, f);
    KernelIsSmall(t, k[f.id.value := f]);
  }

  lemma TupleIsFree(t: Tables, k: Kernel, f: Flow, i: u32)
    requires OneToOne(k) && f.id.Some? && Mirrors(t, k[f.id.value := f])
    requires i in k && k[i].key == f.key
    ensures i == f.id.value
  {
    var after := k[f.id.value := f];
    assert t.flows[after[i].key] == after[i];
    assert t.flows[f.key] == after[f.id.value];
  }

  lemma InsertIsBounded(s: Tables, k: Kernel, f: Flow)
    requires Faithful(k) && Mirrors(s, k)
    ensures |Inserted(s, f).flows| <= MAX_TRACKED_FLOWS
  {
    SameSize(s, k);
    var r := Registered(s, f);
    if f.id.Some? && f.id.value in s.ids {
      Fewer(s.flows, s.ids[f.id.value]);
    }
    OneMore(r.flows, f.key, f);
  }

  lemma {:induction false} DistinctKeys(ids: set<u32>, keys: set<FlowKey>, k: Kernel)
    requires ids <= k.Keys
    requires forall i :: i in ids ==> k[i].key in keys
    requires forall i, j :: i in ids && j in ids && k[i].key == k[j].key ==> i == j
    ensures |ids| <= |keys|
    decreases ids
  {
    if ids != {} {
      var i :| i in ids;
      DistinctKeys(ids - {i}, keys - {k[i].key}, k);
    }
  }

  lemma KernelIsSmall(s: Tables, k: Kernel)
    requires Mirrors(s, k) && forall i :: i in k ==> k[i].id == Some(i)
    ensures |k| <= |s.flows|
  {
    forall i, j | i in k && j in k && k[i].key == k[j].key
      ensures i == j
    {
      assert s.flows[k[i].key] == k[i] && s.flows[k[j].key] == k[j];
    }
    DistinctKeys(k.Keys, s.flows.Keys, k);
    assert |k| == |k.Keys| && |s.flows| == |s.flows.Keys|;
  }

  ghost predicate PossibleRun(k: Kernel, events: seq<Event>)
    decreases events
  {
    events == [] || (Possible(k, events[0]) && PossibleRun(KernelAfter(k, events[0]), events[1..]))
  }

  ghost function KernelRun(k: Kernel, events: seq<Event>): Kernel
    requires PossibleRun(k, events)
    decreases events
  {
    if events == [] then k else KernelRun(KernelAfter(k, events[0]), events[1..])
  }

  /** While the events are the kernel's, the two maps are the kernel's table after every one of them. */
  lemma {:induction false} EventsFollowKernel(s: Tables, k: Kernel, events: seq<Event>)
    requires Faithful(k) && Mirrors(s, k) && PossibleRun(k, events)
    ensures Faithful(KernelRun(k, events)) && Mirrors(ApplyAll(s, events), KernelRun(k, events))
    decreases events
  {
    if events != [] {
      match events[0] {
        case New(f) => InsertMirrors(s, k, f);
        case Delete(f) => RemoveMirrors(s, k, f);
      }
      KernelStaysFaithful(k, events[0]);
      EventsFollowKernel(Apply(s, events[0]), KernelAfter(k, events[0]), events[1..]);
    }
  }

  // ----- dumps

  /** The list names every entry of the kernel's table, in any order and possibly more than once, and nothing else. */
  ghost predicate Lists(flows: seq<Flow>, k: Kernel) {
    && (forall i :: i in k ==> k[i] in flows)
    && (forall f :: f in flows ==> f.id.Some? && f.id.value in k && k[f.id.value] == f)
  }

  /** The entries of `k` seen so far are in `seen`, and the rest of the list brings the others. */
  ghost predicate Remaining(seen: Kernel, flows: seq<Flow>, k: Kernel) {
    && seen.Keys <= k.Keys && (forall i :: i in seen ==> seen[i] == k[i])
    && (forall f :: f in flows ==> f.id.Some? && f.id.value in k && k[f.id.value] == f)
    && (forall i :: i in k ==> i in seen || k[i] in flows)
  }

  lemma NothingRemains(seen: Kernel, k: Kernel)
    requires Remaining(seen, [], k)
    ensures seen == k
  {
    assert forall i :: i in k ==> i in seen;
  }

  lemma OneMoreSeen(seen: Kernel, flows: seq<Flow>, k: Kernel, f: Flow, rest: seq<Flow>)
    requires Faithful(k) && Remaining(seen, flows, k) && flows == [f] + rest
    ensures Faithful(seen) && NoOtherHolds(seen, f) && HasRoom(seen, f)
    ensures Remaining(seen[f.id.value := f], rest, k)
  {
    assert f in flows;
    Within(seen, k);
    if f.id.value !in seen {
      Smaller(seen, k, f.id.value);
    }
  }

  lemma Within(a: Kernel, b: Kernel)
    requires a.Keys <= b.Keys && (forall i :: i in a ==> a[i] == b[i]) && Faithful(b)
    ensures Faithful(a)
  {
    SubsetSize(a.Keys, b.Keys);
    assert |a| == |a.Keys| && |b| == |b.Keys|;
  }

  lemma Smaller(a: Kernel, b: Kernel, i: u32)
    requires a.Keys <= b.Keys && i in b && i !in a
    ensures |a| < |b|
  {
    SubsetSize(a.Keys, b.Keys - {i});
    assert |a| == |a.Keys| && |b| == |b.Keys|;
  }

  lemma {:induction false} InsertAllMirrors(s: Tables, seen: Kernel, flows: seq<Flow>, k: Kernel)
    requires Faithful(k) && Mirrors(s, seen) && Remaining(seen, flows, k)
    ensures Mirrors(InsertAll(s, flows), k)
    decreases flows
  {
    if flows == [] {
      NothingRemains(seen, k);
    } else {
      var f, rest := flows[0], flows[1..];
      OneMoreSeen(seen, flows, k, f, rest);
      InsertMirrors(s, seen, f);
      InsertAllMirrors(Inserted(s, f), seen[f.id.value := f], rest, k);
    }
  }

  /** A dump that fits makes the tables the kernel's, whatever was there before. */
  lemma DumpRestores(flows: seq<Flow>, k: Kernel)
    requires Faithful(k) && Lists(flows, k) && |flows| <= MAX_TRACKED_FLOWS
    ensures Mirrors(Replaced(flows), k)
  {
    assert flows[..Min(|flows|, MAX_TRACKED_FLOWS)] == flows;
    InsertAllMirrors(EMPTY, map[], flows, k);
  }

  /**
   * Lost or wrong events are forgotten at the next dump: after any history, a dump and the kernel's own events since
   * give the kernel's table.
   */
  lemma RecoversFromAnything(s: Tables, history: seq<Step>, flows: seq<Flow>, k: Kernel, events: seq<Event>)
    requires Faithful(k) && Lists(flows, k) && |flows| <= MAX_TRACKED_FLOWS && PossibleRun(k, events)
    ensures Mirrors(ApplyAll(After(After(s, history), [Dump(flows)]), events), KernelRun(k, events))
  {
    DumpRestores(flows, k);
    assert After(After(s, history), [Dump(flows)]) == Replaced(flows);
    EventsFollowKernel(Replaced(flows), k, events);
  }

  // ----- what a DELETE takes away

  /** The tuple a DELETE removes: the one its identifier is registered for, otherwise its own. */
  function Target(s: Tables, f: Flow): FlowKey {
    if f.id.Some? && f.id.value in s.ids then s.ids[f.id.value] else f.key
  }

  /** The flow under the target tuple, if there is one, carries the identifier of the DELETE. */
  predicate OwnTarget(s: Tables, f: Flow) {
    Target(s, f) in s.flows ==> s.flows[Target(s, f)].id == f.id
  }

  /** In any tables a DELETE leaves every flow of another identifier alone exactly when its target is its own. */
  lemma DeleteTakesOnlyItsOwnIff(s: Tables, f: Flow)
    ensures (forall k :: k in s.flows && s.flows[k].id != f.id ==> k in Removed(s, f).flows) <==> OwnTarget(s, f)
  {
    if OwnTarget(s, f) {
      assert forall k :: k in s.flows && s.flows[k].id != f.id ==> k in Removed(s, f).flows;
    }
    if !OwnTarget(s, f) {
      var k := Target(s, f);
      assert k in s.flows && s.flows[k].id != f.id && k !in Removed(s, f).flows;
    }
  }

  /** A table equal to the kernel's stays so exactly if the kernel has the entry, or nothing has its tuple. */
  lemma DeleteMirrorsIff(s: Tables, k: Kernel, f: Flow)
    requires OneToOne(k) && Mirrors(s, k) && f.id.Some?
    ensures Mirrors(Removed(s, f), k - {f.id.value}) <==> f.id.value in k || f.key !in s.flows
  {
    if f.id.value in k {
      RemoveMirrors(s, k, f);
    } else {
      assert k - {f.id.value} == k;
      if f.key !in s.flows {
        assert Removed(s, f) == s;
      } else {
        var i := s.flows[f.key].id.value;
        assert i in k && k[i].key == f.key && f.key !in Removed(s, f).flows;
      }
    }
  }

  /**
   * When a tuple is announced under a second identifier before its first is withdrawn, the first stays registered for
   * it, and a late DELETE of the first takes away the flow that is still alive.
   */
  lemma LateDeleteTakesLiveFlow(s: Tables, stale: Flow, live: Flow)
    requires |s.flows| < 100_000 && stale.key == live.key
    requires stale.id.Some? && live.id.Some? && stale.id != live.id
    ensures var t := Apply(Apply(s, New(stale)), New(live));
            && live.key in t.flows && t.flows[live.key] == live && !OwnTarget(t, stale)
            && live.key !in Apply(t, Delete(stale)).flows
  {
    var u := Inserted(s, stale);
    InsertStores(s, stale);
    InsertStores(u, live);
    var t := Inserted(u, live);
    assert t.ids[stale.id.value] == u.ids[stale.id.value] == stale.key;
  }

  /** With room, or over its own tuple, a flow is stored, and no identifier but its own changes. */
  lemma InsertStores(s: Tables, f: Flow)
    requires f.id.Some? && |s.flows| <= MAX_TRACKED_FLOWS && (|s.flows| < MAX_TRACKED_FLOWS || f.key in s.flows)
    ensures var t := Inserted(s, f);
            && f.key in t.flows && t.flows[f.key] == f && |t.flows| <= MAX_TRACKED_FLOWS
            && t.ids == s.ids[f.id.value := f.key]
  {
    var r := Registered(s, f);
    if f.id.value in s.ids {
      Fewer(s.flows, s.ids[f.id.value]);
    }
    OneMore(r.flows, f.key, f);
  }

  /** In a full table a new tuple under a new identifier is registered, but its flow is not stored. */
  lemma InsertWhenFull(s: Tables, f: Flow)
    requires f.id.Some? && f.id.value !in s.ids && f.key !in s.flows && |s.flows| == 100_000
    ensures Inserted(s, f) == Tables(s.flows, s.ids[f.id.value := f.key])
  {
  }

  // ----- from bytes

  predicate Reports(payload: seq<byte>) {
    |payload| >= 4 && U32Le(payload, 0) != 0
  }

  function Handled(s: Tables, kind: u16, f: Flow): Tables {
    if kind % 0x100 == 2 then Removed(s, f) else if kind % 0x100 == 0 then Inserted(s, f) else s
  }

  /** The tables and whether the whole buffer was understood; an error keeps what came before it. */
  function ApplyFrames(s: Tables, frames: seq<Frame>): (Tables, bool)
    decreases frames
  {
    if frames == [] then (s, true)
    else if frames[0].BadFrame? then (s, false)
    else
      var (kind, payload) := (frames[0].kind, frames[0].payload);
      if kind == 1 || kind == 3 then ApplyFrames(s, frames[1..])
      else if kind == 4 then (s, false)
      else if kind == 2 then if Reports(payload) then (s, false) else ApplyFrames(s, frames[1..])
      else
        match FlowIn(payload)
        case None => (s, false)
        case Some(None) => ApplyFrames(s, frames[1..])
        case Some(Some(f)) => ApplyFrames(Handled(s, kind, f), frames[1..])
  }

  datatype Progress = More(flows: seq<Flow>) | Done(flows: seq<Flow>) | Failed

  function DumpFrames(acc: seq<Flow>, frames: seq<Frame>): Progress
    decreases frames
  {
    if frames == [] then More(acc)
    else if frames[0].BadFrame? then Failed
    else
      var (kind, payload) := (frames[0].kind, frames[0].payload);
      if kind == 1 then DumpFrames(acc, frames[1..])
      else if kind == 3 then Done(acc)
      else if kind == 4 then Failed
      else if kind == 2 then
        if |payload| < 4 || Reports(payload) then Failed else DumpFrames(acc, frames[1..])
      else
        match FlowIn(payload)
        case None => Failed
        case Some(None) => DumpFrames(acc, frames[1..])
        case Some(Some(f)) => DumpFrames(if |acc| < MAX_TRACKED_FLOWS then acc + [f] else acc, frames[1..])
  }

  /** A dump spread over several received buffers; one that ends before its closing message fails. */
  function DumpPackets(acc: seq<Flow>, packets: seq<seq<byte>>): Option<seq<Flow>>
    decreases packets
  {
    if packets == [] || packets[0] == [] then None
    else
      match DumpFrames(acc, Frames(packets[0], 0))
      case Failed => None
      case Done(flows) => Some(flows)
      case More(flows) => DumpPackets(flows, packets[1..])
  }

  /** Receives buffers until the dump is closed; `None` where the source returns an error. */
  method DumpConntrack(packets: seq<seq<byte>>) returns (r: Option<seq<Flow>>)
    ensures r == DumpPackets([], packets)
  {
    var flows: seq<Flow> := [];
    var i := 0;
    while true
      invariant 0 <= i <= |packets|
      invariant DumpPackets([], packets) == DumpPackets(flows, packets[i..])
      decreases |packets| - i
    {
      if i == |packets| || packets[i] == [] {
        return None;
      }
      var progress := DumpBuffer(flows, packets[i]);
      assert packets[i..][1..] == packets[i + 1..];
      if progress.Failed? {
        return None;
      }
      if progress.Done? {
        return Some(progress.flows);
      }
      flows := progress.flows;
      i := i + 1;
    }
  }

  method DumpBuffer(acc: seq<Flow>, buffer: seq<byte>) returns (r: Progress)
    ensures r == DumpFrames(acc, Frames(buffer, 0))
  {
    var flows := acc;
    var messages := new NetlinkMessages(buffer);
    while true
      invariant messages.buffer == buffer && fresh(messages)
      invariant DumpFrames(acc, Frames(buffer, 0)) == DumpFrames(flows, Frames(buffer, messages.offset))
      decreases |buffer| + 4 - messages.offset
    {
      ghost var off := messages.offset;
      var message := messages.Next();
      if message.None? {
        return More(flows);
      }
      if message.value.BadFrame? {
        return Failed;
      }
      assert Frames(buffer, off)[1..] == Frames(buffer, messages.offset);
      var kind, payload := message.value.kind, message.value.payload;
      if kind == 1 {
      } else if kind == 3 {
        return Done(flows);
      } else if kind == 4 {
        return Failed;
      } else if kind == 2 {
        if |payload| < 4 || Reports(payload) {
          return Failed;
        }
      } else {
        var parsed := ParseFlowMessage(payload);
        if parsed.None? {
          return Failed;
        }
        if parsed.value.Some? && |flows| < MAX_TRACKED_FLOWS {
          flows := flows + [parsed.value.value];
        }
      }
    }
  }

  class ConntrackState {
    var flows: map<FlowKey, Flow>
    var flowIds: map<u32, FlowKey>

    ghost function State(): Tables
      reads this
    {
      Tables(flows, flowIds)
    }

    constructor ()
      ensures State() == EMPTY
    {
      flows, flowIds := map[], map[];
    }

    method InsertFlow(flow: Flow)
      modifies this
      ensures State() == Inserted(old(State()), flow)
    {
      if flow.id.Some? {
        var id := flow.id.value;
        if id in flowIds {
          flows := flows - {flowIds[id]};
        }
        flowIds := flowIds[id := flow.key];
      }
      if |flows| >= MAX_TRACKED_FLOWS && flow.key !in flows {
        return;
      }
      flows := flows[flow.key := flow];
    }

    method RemoveFlow(flow: Flow)
      modifies this
      ensures State() == Removed(old(State()), flow)
    {
      if flow.id.Some? && flow.id.value in flowIds {
        var key := flowIds[flow.id.value];
        flowIds := flowIds - {flow.id.value};
        flows := flows - {key};
        return;
      }
      flows := flows - {flow.key};
    }

    method ReplaceFlows(list: seq<Flow>)
      modifies this
      ensures State() == Replaced(list)
    {
      flows, flowIds := map[], map[];
      var taken := list[..Min(|list|, MAX_TRACKED_FLOWS)];
      var i := 0;
      while i < |taken|
        invariant 0 <= i <= |taken|
        invariant InsertAll(State(), taken[i..]) == Replaced(list)
      {
        assert taken[i..][1..] == taken[i + 1..];
        InsertFlow(taken[i]);
        i := i + 1;
      }
    }

    /** Applies every event of one received buffer; false where the source returns an error. */
    method ApplyEventMessages(buffer: seq<byte>) returns (ok: bool)
      modifies this
      ensures (State(), ok) == ApplyFrames(old(State()), Frames(buffer, 0))
    {
      var messages := new NetlinkMessages(buffer);
      while true
        invariant messages.buffer == buffer && fresh(messages)
        invariant ApplyFrames(old(State()), Frames(buffer, 0)) == ApplyFrames(State(), Frames(buffer, messages.offset))
        decreases |buffer| + 4 - messages.offset
      {
        ghost var off := messages.offset;
        var message := messages.Next();
        if message.None? {
          return true;
        }
        if message.value.BadFrame? {
          return false;
        }
        assert Frames(buffer, off)[1..] == Frames(buffer, messages.offset);
        var kind, payload := message.value.kind, message.value.payload;
        if kind == 1 || kind == 3 {
        } else if kind == 4 {
          return false;
        } else if kind == 2 {
          if Reports(payload) {
            return false;
          }
        } else {
          var parsed := ParseFlowMessage(payload);
          if parsed.None? {
            return false;
          }
          if parsed.value.Some? {
            if kind % 0x100 == 2 {
              RemoveFlow(parsed.value.value);
            } else if kind % 0x100 == 0 {
              InsertFlow(parsed.value.value);
            }
          }
        }
      }
    }
  }
}
