/** The DNS monitor object: an id-ordered log, a queue of waiting queries per key, and two pruned caches. */
module DnsTracker {
  import opened Bytes
  import opened DnsLog

  datatype Tracked = Tracked(observedNs: u64, key: MatchKey, record: Record)

  type Cache = map<MatchKey, u64>

  ghost predicate Increasing(s: seq<nat>) {
    forall i, j :: 0 <= i < j < |s| ==> s[i] < s[j]
  }

  lemma IncreasingAppend(s: seq<nat>, x: nat)
    requires Increasing(s) && forall y :: y in s ==> y < x
    ensures Increasing(s + [x])
  {
    forall i, j | 0 <= i < j < |s + [x]|
      ensures (s + [x])[i] < (s + [x])[j]
    {
      assert s[i] in s;
    }
  }

  lemma FrontIsLeast(s: seq<nat>, x: nat)
    requires Increasing(s) && x in s
    ensures s[0] <= x
  {
    var i :| 0 <= i < |s| && s[i] == x;
  }

  // ----- cache pruning

  function Recent(cache: Cache, cutoff: u64): Cache {
    map k | k in cache && cache[k] >= cutoff :: cache[k]
  }

  /** Pruning starts above the limit: first the entries outside the window, then, if need be, arbitrary ones. */
  ghost predicate Pruned(before: Cache, after: Cache, now: u64, limit: nat) {
    if |before| <= limit then after == before
    else
      var recent := Recent(before, SatSub(now, DEDUP_WINDOW_NS));
      if |recent| <= limit then after == recent
      else |after| == limit && forall k :: k in after ==> k in recent && after[k] == recent[k]
  }

  method PruneDedupeCache(cache: Cache, now: u64, limit: nat) returns (kept: Cache)
    ensures Pruned(cache, kept, now, limit) && |kept| <= limit
  {
    if |cache| <= limit {
      return cache;
    }
    var cutoff := SatSub(now, DEDUP_WINDOW_NS);
    var recent := map k | k in cache && cache[k] >= cutoff :: cache[k];
    if |recent| <= limit {
      return recent;
    }
    kept := map[];
    var left := recent.Keys;
    while left != {}
      invariant left <= recent.Keys && kept.Keys <= recent.Keys - left
      invariant |kept.Keys| == Min(|recent.Keys| - |left|, limit)
      invariant forall k :: k in kept ==> kept[k] == recent[k]
    {
      var k :| k in left;
      left := left - {k};
      if |kept| < limit {
        kept := kept[k := recent[k]];
      }
    }
  }

  /** A pruned cache decides every later duplicate like the full history, as long as no recent entry was dropped. */
  ghost predicate Agrees(cache: Cache, full: Cache, now: u64) {
    && (forall k :: k in cache ==> k in full && cache[k] == full[k])
    && (forall k :: k in full ==> full[k] <= now)
    && (forall k :: k in full && k !in cache ==> now - full[k] > DEDUP_WINDOW_NS)
  }

  /** The hard cap stays out of play: no more keys are within the window than the limit. */
  ghost predicate Quiet(full: Cache, now: u64, limit: nat) {
    |Recent(full, SatSub(now, DEDUP_WINDOW_NS))| <= limit
  }

  lemma AgreeingCacheDecides(cache: Cache, full: Cache, now: u64, ns: u64, key: MatchKey)
    requires Agrees(cache, full, now) && now <= ns
    ensures Duplicate(cache, key, ns) <==> Duplicate(full, key, ns)
  {
  }

  lemma PruningIsInvisible(before: Cache, after: Cache, full: Cache, now: u64, limit: nat)
    requires Agrees(before, full, now) && Pruned(before, after, now, limit) && Quiet(full, now, limit)
    ensures Agrees(after, full, now)
  {
    var cutoff := SatSub(now, DEDUP_WINDOW_NS);
    assert Recent(before, cutoff).Keys <= Recent(full, cutoff).Keys;
    SubsetSize(Recent(before, cutoff).Keys, Recent(full, cutoff).Keys);
  }

  /** `after` accepts and drops every later message as `before` would. */
  ghost predicate DecidesAlike(before: Cache, after: Cache, now: u64) {
    forall key: MatchKey, ns: u64 :: now <= ns ==> (Duplicate(after, key, ns) <==> Duplicate(before, key, ns))
  }

  /** Whatever entries the map happens to yield first, the pruned cache decides as before. */
  ghost predicate PruningIsHarmless(before: Cache, now: u64, limit: nat) {
    forall after: Cache :: Pruned(before, after, now, limit) ==> DecidesAlike(before, after, now)
  }

  /** No entry of the cache can make a message of `now` or later a duplicate. */
  predicate AllExpired(cache: Cache, now: u64) {
    forall k :: k in cache ==> SatSub(now, cache[k]) >= DEDUP_WINDOW_NS
  }

  lemma {:induction false} SubsetOfSize<T>(s: set<T>, n: nat) returns (t: set<T>)
    requires n <= |s|
    ensures t <= s && |t| == n
    decreases |s|
  {
    if n == |s| {
      t := s;
    } else {
      var x :| x in s;
      t := SubsetOfSize(s - {x}, n);
    }
  }

  lemma QuietPruningDecides(before: Cache, after: Cache, now: u64, limit: nat)
    requires (forall k :: k in before ==> before[k] <= now) && Pruned(before, after, now, limit)
    requires |Recent(before, SatSub(now, DEDUP_WINDOW_NS))| <= limit || AllExpired(before, now)
    ensures DecidesAlike(before, after, now)
  {
  }

  /** If the hard cap fires, it can forget any entry of the window that is given. */
  lemma CapForgets(before: Cache, now: u64, limit: nat, k: MatchKey) returns (after: Cache)
    requires k in before && before[k] <= now && now - before[k] < DEDUP_WINDOW_NS
    requires |Recent(before, SatSub(now, DEDUP_WINDOW_NS))| > limit
    ensures Pruned(before, after, now, limit) && Duplicate(before, k, now) && !Duplicate(after, k, now)
  {
    var recent := Recent(before, SatSub(now, DEDUP_WINDOW_NS));
    SubsetSize(recent.Keys, before.Keys);
    var kept := SubsetOfSize(recent.Keys - {k}, limit);
    after := map j | j in kept :: recent[j];
    assert after.Keys == kept;
  }

  /**
   * Pruning decides every later message as the unpruned cache would, however the map is walked, exactly when no more
   * keys are within the window than the limit, or none of them can matter any more.
   */
  lemma PruningIsHarmlessIff(before: Cache, now: u64, limit: nat)
    requires forall k :: k in before ==> before[k] <= now
    ensures PruningIsHarmless(before, now, limit)
            <==> |Recent(before, SatSub(now, DEDUP_WINDOW_NS))| <= limit || AllExpired(before, now)
  {
    if |Recent(before, SatSub(now, DEDUP_WINDOW_NS))| <= limit || AllExpired(before, now) {
      forall after: Cache | Pruned(before, after, now, limit)
        ensures DecidesAlike(before, after, now)
      {
        QuietPruningDecides(before, after, now, limit);
      }
    } else {
      var k :| k in before && SatSub(now, before[k]) < DEDUP_WINDOW_NS;
      var after := CapForgets(before, now, limit, k);
      assert !DecidesAlike(before, after, now);
    }
  }

  // ----- the log and its index

  /** The records by id, their arrival order, the waiting ids per key; `live` are the ids captured in this run. */
  datatype Core = Core(
    records: map<nat, Tracked>, order: seq<nat>, pending: map<MatchKey, seq<nat>>, nextId: nat, live: set<nat>)

  ghost predicate Ordered(c: Core) {
    && Increasing(c.order)
    && (forall id :: id in c.order <==> id in c.records)
    && (forall id :: id in c.records ==> id < c.nextId)
    && (forall id :: id in c.live ==> id < c.nextId)
  }

  ghost predicate IsWaiting(c: Core, id: nat, k: MatchKey) {
    id in c.records && id in c.live && c.records[id].key == k && c.records[id].record.responseMs.None?
  }

  ghost predicate Indexed(c: Core) {
    forall k :: k in c.pending ==>
      c.pending[k] != [] && Increasing(c.pending[k]) && forall id :: id in c.pending[k] ==> IsWaiting(c, id, k)
  }

  ghost predicate Pending(c: Core, k: MatchKey, id: nat) {
    k in c.pending && id in c.pending[k]
  }

  /** Only expired queries are missing from the index. */
  ghost predicate Timely(c: Core, now: u64) {
    forall id, k :: IsWaiting(c, id, k) && !Pending(c, k, id) ==>
      SatSub(now, c.records[id].observedNs) > MAX_MATCH_AGE_NS
  }

  ghost function EntryOf(c: Core, id: nat): Entry
    requires id in c.records
  {
    Entry(c.records[id].observedNs, c.records[id].key, c.records[id].record, id in c.live)
  }

  ghost function LogOf(c: Core): (r: seq<Entry>)
    requires Ordered(c)
    ensures |r| == |c.order| && forall i :: 0 <= i < |c.order| ==> r[i] == EntryOf(c, c.order[i])
  {
    seq(|c.order|, i requires 0 <= i < |c.order| => EntryOf(c, c.order[i]))
  }

  function SetQueue(pending: map<MatchKey, seq<nat>>, k: MatchKey, q: seq<nat>): map<MatchKey, seq<nat>> {
    if q == [] then pending - {k} else pending[k := q]
  }

  function QueueOf(pending: map<MatchKey, seq<nat>>, k: MatchKey): seq<nat> {
    if k in pending then pending[k] else []
  }

  /** Replacing one queue by waiting ids of its key, in order, keeps the index an index. */
  lemma SetQueueKeepsIndex(c: Core, key: MatchKey, q: seq<nat>)
    requires Indexed(c) && Increasing(q) && forall x :: x in q ==> IsWaiting(c, x, key)
    ensures Indexed(c.(pending := SetQueue(c.pending, key, q)))
    ensures forall k, x: nat :: Pending(c.(pending := SetQueue(c.pending, key, q)), k, x)
                                <==> if k == key then x in q else Pending(c, k, x)
  {
    var d := c.(pending := SetQueue(c.pending, key, q));
    forall k | k in d.pending
      ensures d.pending[k] != [] && Increasing(d.pending[k]) && forall x :: x in d.pending[k] ==> IsWaiting(d, x, k)
    {
      var was := if k == key then q else c.pending[k];
      assert d.pending[k] == was && Increasing(was);
      assert forall x :: x in was ==> IsWaiting(c, x, k);
    }
  }

  // ----- a query arrives

  ghost function Added(c: Core, t: Tracked): Core {
    Core(c.records[c.nextId := t], c.order + [c.nextId],
         c.pending[t.key := QueueOf(c.pending, t.key) + [c.nextId]], c.nextId + 1, c.live + {c.nextId})
  }

  lemma AddKeepsOrder(c: Core, t: Tracked)
    requires Ordered(c)
    ensures Ordered(Added(c, t))
    ensures LogOf(Added(c, t)) == LogOf(c) + [Entry(t.observedNs, t.key, t.record, true)]
  {
    assert c.nextId !in c.records && c.nextId !in c.order;
    IncreasingAppend(c.order, c.nextId);
  }

  lemma AddKeepsIndex(c: Core, t: Tracked)
    requires Ordered(c) && Indexed(c) && t.record.responseMs.None?
    ensures Indexed(Added(c, t))
  {
    var d := Added(c, t);
    assert c.nextId !in c.records;
    forall k | k in d.pending
      ensures d.pending[k] != [] && Increasing(d.pending[k]) && forall id :: id in d.pending[k] ==> IsWaiting(d, id, k)
    {
      var q := QueueOf(c.pending, k);
      assert Increasing(q) && forall id :: id in q ==> IsWaiting(c, id, k);
      IncreasingAppend(q, c.nextId);
      assert d.pending[k] == if k == t.key then q + [c.nextId] else q;
    }
  }

  lemma AddStaysTimely(c: Core, t: Tracked, now: u64, ns: u64)
    requires Ordered(c) && Timely(c, now) && now <= ns
    ensures Timely(Added(c, t), ns)
  {
    var d := Added(c, t);
    assert d.pending[t.key][|d.pending[t.key]| - 1] == c.nextId;
    assert Pending(d, t.key, c.nextId);
    forall id, k | IsWaiting(d, id, k) && !Pending(d, k, id)
      ensures SatSub(ns, d.records[id].observedNs) > MAX_MATCH_AGE_NS
    {
      assert IsWaiting(c, id, k) && !Pending(c, k, id);
    }
  }

  // ----- the oldest record is evicted

  function Retain(q: seq<nat>, id: nat): seq<nat> {
    if q == [] then [] else if q[0] == id then Retain(q[1..], id) else [q[0]] + Retain(q[1..], id)
  }

  lemma {:induction false} RetainAbsent(q: seq<nat>, id: nat)
    requires id !in q
    ensures Retain(q, id) == q
  {
    if q != [] {
      RetainAbsent(q[1..], id);
    }
  }

  function DropId(q: seq<nat>, id: nat): seq<nat> {
    if q != [] && q[0] == id then q[1..] else Retain(q, id)
  }

  ghost function Evicted(c: Core): Core
    requires Ordered(c) && c.order != []
  {
    var id := c.order[0];
    var t := c.records[id];
    Core(c.records - {id}, c.order[1..],
         if t.record.responseMs.None? && t.key in c.pending
           then SetQueue(c.pending, t.key, DropId(c.pending[t.key], id)) else c.pending,
         c.nextId, c.live)
  }

  /** An evicted waiting query is always at the front of its queue, so the fallback scan removes nothing. */
  lemma EvictedIsAtFront(c: Core, k: MatchKey)
    requires Ordered(c) && Indexed(c) && c.order != [] && k in c.pending
    ensures c.order[0] in c.pending[k] ==> c.pending[k][0] == c.order[0]
    ensures c.pending[k][0] != c.order[0] ==> Retain(c.pending[k], c.order[0]) == c.pending[k]
  {
    var id, q := c.order[0], c.pending[k];
    assert IsWaiting(c, q[0], k);
    assert q[0] in c.order;
    if id in q {
      var j :| 0 <= j < |q| && q[j] == id;
      assert q[0] <= q[j];
    }
    if id !in q {
      RetainAbsent(q, id);
    }
  }

  lemma WithoutFirst(order: seq<nat>, ids: set<nat>, first: nat, rest: seq<nat>)
    requires order == [first] + rest && Increasing(order) && forall id :: id in order <==> id in ids
    ensures Increasing(rest) && forall id :: id in rest <==> id in ids - {first}
  {
    forall i, j | 0 <= i < j < |rest|
      ensures rest[i] < rest[j]
    {
      assert order[i + 1] == rest[i] && order[j + 1] == rest[j];
    }
    forall id | id in rest
      ensures id in order && id != first
    {
      var i :| 0 <= i < |rest| && rest[i] == id;
      assert order[i + 1] == id && order[0] == first;
    }
  }

  lemma EvictKeepsOrder(c: Core)
    requires Ordered(c) && c.order != []
    ensures Ordered(Evicted(c)) && LogOf(Evicted(c)) == LogOf(c)[1..]
  {
    WithoutFirst(c.order, c.records.Keys, c.order[0], c.order[1..]);
  }

  /** What the queue of `k` becomes. */
  lemma EvictedQueue(c: Core, k: MatchKey, id: nat, x: nat)
    requires Ordered(c) && Indexed(c) && c.order != [] && id == c.order[0]
    ensures Pending(Evicted(c), k, x) <==> Pending(c, k, x) && x != id
    ensures k in Evicted(c).pending ==>
              k in c.pending && Evicted(c).pending[k] != [] && Increasing(Evicted(c).pending[k])
  {
    if k in c.pending {
      EvictedIsAtFront(c, k);
      assert id in c.pending[k] ==> IsWaiting(c, id, k);
    }
  }

  lemma EvictKeepsIndex(c: Core)
    requires Ordered(c) && Indexed(c) && c.order != []
    ensures Ordered(Evicted(c)) && Indexed(Evicted(c))
    ensures LogOf(Evicted(c)) == LogOf(c)[1..]
    ensures forall k, id: nat :: Pending(Evicted(c), k, id) <==> Pending(c, k, id) && id != c.order[0]
  {
    var id, d := c.order[0], Evicted(c);
    EvictKeepsOrder(c);
    forall k, x: nat
      ensures Pending(d, k, x) <==> Pending(c, k, x) && x != id
    {
      EvictedQueue(c, k, id, x);
    }
    forall k | k in d.pending
      ensures d.pending[k] != [] && Increasing(d.pending[k]) && forall x :: x in d.pending[k] ==> IsWaiting(d, x, k)
    {
      EvictedQueue(c, k, id, id);
      forall x | x in d.pending[k]
        ensures IsWaiting(d, x, k)
      {
        assert Pending(d, k, x);
        assert IsWaiting(c, x, k);
      }
    }
  }

  lemma EvictStaysTimely(c: Core, now: u64)
    requires Ordered(c) && Indexed(c) && c.order != [] && Timely(c, now)
    ensures Timely(Evicted(c), now)
  {
    EvictKeepsIndex(c);
    var d := Evicted(c);
    forall id, k | IsWaiting(d, id, k) && !Pending(d, k, id)
      ensures SatSub(now, d.records[id].observedNs) > MAX_MATCH_AGE_NS
    {
      assert IsWaiting(c, id, k) && !Pending(c, k, id);
    }
  }

  // ----- a response arrives

  predicate Expired(records: map<nat, Tracked>, id: nat, ns: u64) {
    id !in records || SatSub(ns, records[id].observedNs) > MAX_MATCH_AGE_NS
  }

  function DropExpired(records: map<nat, Tracked>, q: seq<nat>, ns: u64): (r: seq<nat>)
    ensures |r| <= |q| && r == q[|q| - |r|..]
    ensures forall id :: id in q && id !in r ==> Expired(records, id, ns)
    ensures r != [] ==> !Expired(records, r[0], ns)
  {
    if q == [] || !Expired(records, q[0], ns) then q else DropExpired(records, q[1..], ns)
  }

  /** Drops expired ids from the front of the key's queue and takes the next one. */
  ghost function Taken(c: Core, key: MatchKey, ns: u64): (Core, Option<nat>) {
    if key !in c.pending then (c, None)
    else
      var q := DropExpired(c.records, c.pending[key], ns);
      (c.(pending := SetQueue(c.pending, key, if q == [] then [] else q[1..])), if q == [] then None else Some(q[0]))
  }

  function Replied(t: Tracked, a: Answer, ns: u64): Tracked {
    t.(record := t.record.(answer := a, responseMs := Some(SatSub(ns, t.observedNs) / 1_000_000)))
  }

  ghost function AnswerWaiting(c: Core, key: MatchKey, a: Answer, ns: u64): (Core, Option<nat>) {
    var (d, id) := Taken(c, key, ns);
    if id.Some? && id.value in c.records then
      (d.(records := c.records[id.value := Replied(c.records[id.value], a, ns)]), id)
    else (d, None)
  }

  lemma SuffixIncreasing(all: seq<nat>, q: seq<nat>)
    requires Increasing(all) && |q| <= |all| && q == all[|all| - |q|..]
    ensures Increasing(q) && forall x :: x in q ==> x in all
    ensures q != [] ==> Increasing(q[1..]) && q[0] !in q[1..]
  {
  }

  /** What is left of a queue is a suffix, so still in order, and the dropped ids are expired. */
  lemma TakenFromQueue(c: Core, key: MatchKey, ns: u64)
    requires Ordered(c) && Indexed(c) && key in c.pending
    ensures var q := DropExpired(c.records, c.pending[key], ns);
            && Increasing(q) && (forall x :: x in q ==> IsWaiting(c, x, key))
            && (q != [] ==> Increasing(q[1..]) && q[0] !in q[1..])
  {
    SuffixIncreasing(c.pending[key], DropExpired(c.records, c.pending[key], ns));
  }

  lemma TakeKeepsIndex(c: Core, key: MatchKey, ns: u64)
    requires Ordered(c) && Indexed(c)
    ensures var (d, id) := Taken(c, key, ns);
            && Ordered(d) && Indexed(d) && d == c.(pending := d.pending)
            && (id.Some? ==> IsWaiting(c, id.value, key) && !Expired(c.records, id.value, ns)
                             && !Pending(d, key, id.value))
            && (forall k, x: nat :: Pending(d, k, x) ==> Pending(c, k, x))
            && (forall k, x: nat :: Pending(c, k, x) && !Pending(d, k, x) ==>
                  id == Some(x) || Expired(c.records, x, ns))
  {
    if key in c.pending {
      TakenFromQueue(c, key, ns);
      var q := DropExpired(c.records, c.pending[key], ns);
      var rest := if q == [] then [] else q[1..];
      SetQueueKeepsIndex(c, key, rest);
      assert forall x :: x in q <==> x in rest || (q != [] && x == q[0]);
    }
  }

  lemma AnswerKeepsIndex(c: Core, key: MatchKey, a: Answer, ns: u64)
    requires Ordered(c) && Indexed(c)
    ensures var (d, id) := AnswerWaiting(c, key, a, ns);
            && Ordered(d) && Indexed(d) && d == c.(pending := d.pending, records := d.records)
            && id == Taken(c, key, ns).1 && d.pending == Taken(c, key, ns).0.pending
            && (id.None? ==> d.records == c.records)
            && (id.Some? ==> IsWaiting(c, id.value, key) && !Expired(c.records, id.value, ns)
                             && d.records == c.records[id.value := Replied(c.records[id.value], a, ns)])
  {
    TakeKeepsIndex(c, key, ns);
    var (e, id) := Taken(c, key, ns);
    if id.Some? {
      ReplyKeepsIndex(e, key, id.value, a, ns);
    }
  }

  lemma ReplyKeepsIndex(c: Core, key: MatchKey, id: nat, a: Answer, ns: u64)
    requires Ordered(c) && Indexed(c) && IsWaiting(c, id, key) && !Pending(c, key, id)
    ensures var d := c.(records := c.records[id := Replied(c.records[id], a, ns)]); Ordered(d) && Indexed(d)
  {
    var d := c.(records := c.records[id := Replied(c.records[id], a, ns)]);
    forall k, x | k in d.pending && x in d.pending[k]
      ensures IsWaiting(d, x, k)
    {
      assert IsWaiting(c, x, k) && Pending(c, k, x);
    }
  }

  lemma AnswerStaysTimely(c: Core, key: MatchKey, a: Answer, now: u64, ns: u64)
    requires Ordered(c) && Indexed(c) && Timely(c, now) && now <= ns
    ensures Timely(AnswerWaiting(c, key, a, ns).0, ns)
  {
    TakeKeepsIndex(c, key, ns);
    AnswerKeepsIndex(c, key, a, ns);
    var (d, id) := AnswerWaiting(c, key, a, ns);
    RepliedStaysTimely(c, Taken(c, key, ns).0, d, id, a, now, ns);
  }

  /** What left the index without an answer is expired, and what was answered waits no longer. */
  lemma RepliedStaysTimely(c: Core, e: Core, d: Core, taken: Option<nat>, a: Answer, now: u64, ns: u64)
    requires Timely(c, now) && now <= ns && d.live == c.live && d.pending == e.pending
    requires taken.Some? ==> taken.value in c.records
    requires d.records
          == if taken.Some? then c.records[taken.value := Replied(c.records[taken.value], a, ns)] else c.records
    requires forall k, x: nat :: Pending(c, k, x) && !Pending(e, k, x) ==> taken == Some(x) || Expired(c.records, x, ns)
    ensures Timely(d, ns)
  {
    forall id, k | IsWaiting(d, id, k) && !Pending(d, k, id)
      ensures SatSub(ns, d.records[id].observedNs) > MAX_MATCH_AGE_NS
    {
      assert IsWaiting(c, id, k);
      assert !Pending(e, k, id);
    }
  }

  /** Whatever is taken was waiting. */
  lemma TakenWasWaiting(c: Core, key: MatchKey, ns: u64)
    requires Ordered(c) && Indexed(c) && Taken(c, key, ns).1.Some?
    ensures FirstWaiting(LogOf(c), key, ns) < |c.order|
  {
    TakeKeepsIndex(c, key, ns);
    var id := Taken(c, key, ns).1.value;
    var j :| 0 <= j < |c.order| && c.order[j] == id;
    assert Waiting(LogOf(c)[j], key, ns);
  }

  /** The id taken from the index is the first waiting entry of the log, and only that entry changes. */
  lemma AnswerIsFirstWaiting(c: Core, key: MatchKey, a: Answer, now: u64, ns: u64)
    requires Ordered(c) && Indexed(c) && Timely(c, now) && now <= ns
    ensures var (d, id) := AnswerWaiting(c, key, a, ns);
            var log, i := LogOf(c), FirstWaiting(LogOf(c), key, ns);
            && Ordered(d)
            && (id.None? <==> i == |log|)
            && LogOf(d) == if i == |log| then log else log[i := Answered(log[i], a, ns)]
  {
    AnswerKeepsIndex(c, key, a, ns);
    var (d, id) := AnswerWaiting(c, key, a, ns);
    var log, i := LogOf(c), FirstWaiting(LogOf(c), key, ns);
    if id.Some? {
      TakenWasWaiting(c, key, ns);
    }
    if i < |log| {
      FirstWaitingIsTaken(c, key, now, ns, i);
      AnsweredLog(c, d, i, a, ns);
    }
  }

  lemma AnsweredLog(c: Core, d: Core, i: nat, a: Answer, ns: u64)
    requires Ordered(c) && Ordered(d) && i < |c.order|
    requires d == c.(pending := d.pending,
                     records := c.records[c.order[i] := Replied(c.records[c.order[i]], a, ns)])
    ensures LogOf(d) == LogOf(c)[i := Answered(LogOf(c)[i], a, ns)]
  {
  }

  /** A waiting query of the key survives the dropping of expired ids. */
  lemma WaitingStaysQueued(c: Core, key: MatchKey, now: u64, ns: u64, id: nat)
    requires Ordered(c) && Indexed(c) && Timely(c, now) && now <= ns
    requires IsWaiting(c, id, key) && SatSub(ns, c.records[id].observedNs) <= MAX_MATCH_AGE_NS
    ensures key in c.pending && id in DropExpired(c.records, c.pending[key], ns)
  {
    assert Pending(c, key, id);
  }

  /** The first waiting entry has the least id of all waiting ones. */
  lemma FirstWaitingPrecedes(c: Core, key: MatchKey, ns: u64, id: nat)
    requires Ordered(c) && IsWaiting(c, id, key) && SatSub(ns, c.records[id].observedNs) <= MAX_MATCH_AGE_NS
    ensures var i := FirstWaiting(LogOf(c), key, ns); i < |c.order| && c.order[i] <= id
  {
    var j :| 0 <= j < |c.order| && c.order[j] == id;
    assert Waiting(LogOf(c)[j], key, ns);
    var i := FirstWaiting(LogOf(c), key, ns);
    assert i <= j;
    assert i < j ==> c.order[i] < c.order[j];
  }

  lemma FirstWaitingIsTaken(c: Core, key: MatchKey, now: u64, ns: u64, i: nat)
    requires Ordered(c) && Indexed(c) && Timely(c, now) && now <= ns
    requires i == FirstWaiting(LogOf(c), key, ns) < |c.order|
    ensures Taken(c, key, ns).1 == Some(c.order[i])
  {
    var id := c.order[i];
    assert Waiting(LogOf(c)[i], key, ns);
    WaitingStaysQueued(c, key, now, ns, id);
    TakenFromQueue(c, key, ns);
    TakeKeepsIndex(c, key, ns);
    FrontIsLeast(DropExpired(c.records, c.pending[key], ns), id);
    FirstWaitingPrecedes(c, key, ns, Taken(c, key, ns).1.value);
  }

  // ----- eviction down to the limit

  ghost predicate Good(c: Core) {
    Ordered(c) && Indexed(c) && FastAnswers(c)
  }

  ghost function Trimmed(c: Core, cap: nat): Core
    decreases |c.order|
  {
    if |c.order| <= cap || !Ordered(c) then c else Trimmed(Evicted(c), cap)
  }

  lemma EvictStaysGood(c: Core)
    requires Good(c) && c.order != []
    ensures Good(Evicted(c))
  {
    EvictKeepsIndex(c);
  }

  lemma {:induction false} TrimmedIsNewest(c: Core, cap: nat)
    requires Good(c)
    ensures Good(Trimmed(c, cap)) && LogOf(Trimmed(c, cap)) == LastN(LogOf(c), cap)
    ensures Trimmed(c, cap).nextId == c.nextId
    decreases |c.order|
  {
    if |c.order| > cap {
      EvictStaysGood(c);
      EvictKeepsIndex(c);
      LastNTail(LogOf(c), cap);
      TrimmedIsNewest(Evicted(c), cap);
    }
  }

  lemma {:induction false} TrimmedStaysTimely(c: Core, cap: nat, now: u64)
    requires Good(c) && Timely(c, now)
    ensures Timely(Trimmed(c, cap), now)
    decreases |c.order|
  {
    if |c.order| > cap {
      EvictStaysGood(c);
      EvictStaysTimely(c, now);
      TrimmedStaysTimely(Evicted(c), cap, now);
    }
  }

  // ----- sizes, clocks and answer times

  lemma {:induction false} IncreasingSize(s: seq<nat>, ids: set<nat>)
    requires Increasing(s) && forall x :: x in s <==> x in ids
    ensures |ids| == |s|
  {
    if s == [] {
      assert ids == {};
    } else {
      var front, last := s[..|s| - 1], s[|s| - 1];
      assert s == front + [last];
      forall x | x in front
        ensures x < last
      {
        var i :| 0 <= i < |front| && front[i] == x;
        assert s[i] < s[|s| - 1];
      }
      IncreasingSize(front, ids - {last});
    }
  }

  lemma RecordCount(c: Core)
    requires Ordered(c)
    ensures |c.records| == |c.order|
  {
    IncreasingSize(c.order, c.records.Keys);
  }

  ghost predicate FastAnswers(c: Core) {
    forall id :: id in c.records && id in c.live && c.records[id].record.responseMs.Some? ==>
      c.records[id].record.responseMs.value <= MAX_RESPONSE_MS
  }

  lemma QuickEnough(elapsed: u64)
    requires elapsed <= MAX_MATCH_AGE_NS
    ensures elapsed / 1_000_000 <= MAX_RESPONSE_MS
  {
  }

  lemma AnswerStaysGood(c: Core, key: MatchKey, a: Answer, ns: u64)
    requires Good(c)
    ensures var d := AnswerWaiting(c, key, a, ns).0; Good(d) && d.order == c.order && d.nextId == c.nextId
  {
    AnswerKeepsIndex(c, key, a, ns);
    var (d, id) := AnswerWaiting(c, key, a, ns);
    if id.Some? {
      ReplyStaysFast(c, d, id.value, a, ns);
    }
  }

  lemma ReplyStaysFast(c: Core, d: Core, id: nat, a: Answer, ns: u64)
    requires FastAnswers(c) && d.live == c.live && id in c.records
    requires d.records == c.records[id := Replied(c.records[id], a, ns)]
    requires SatSub(ns, c.records[id].observedNs) <= MAX_MATCH_AGE_NS
    ensures FastAnswers(d)
  {
    QuickEnough(SatSub(ns, c.records[id].observedNs));
    assert d.records[id].record.responseMs.value <= MAX_RESPONSE_MS;
  }

  lemma AddStaysGood(c: Core, t: Tracked)
    requires Good(c) && t.record.responseMs.None?
    ensures Good(Added(c, t))
  {
    AddKeepsOrder(c, t);
    AddKeepsIndex(c, t);
  }

  function NewTracked(m: Message, ns: u64, ms: u64): Tracked {
    Tracked(ns, KeyOf(m), Record(m, ms, NO_ANSWER, None))
  }

  // ----- one message

  datatype Snapshot = Snapshot(core: Core, queries: Cache, responses: Cache)

  /** The caches before pruning, when the message was not dropped. */
  ghost function NotedQueries(a: Snapshot, m: Message, ns: u64): Cache {
    if m.isQuery then a.queries[KeyOf(m) := ns] else a.queries
  }

  ghost function NotedResponses(a: Snapshot, m: Message, ns: u64): Cache {
    if !m.isQuery && AnswerWaiting(a.core, KeyOf(m), m.answer, ns).1.Some? then a.responses[KeyOf(m) := ns]
    else a.responses
  }

  predicate Dropped(a: Snapshot, m: Message, ns: u64) {
    Duplicate(if m.isQuery then a.queries else a.responses, KeyOf(m), ns)
  }

  ghost function CoreAfter(c: Core, cap: nat, m: Message, ns: u64, ms: u64): Core {
    if m.isQuery then Trimmed(Added(c, NewTracked(m, ns, ms)), cap)
    else AnswerWaiting(c, KeyOf(m), m.answer, ns).0
  }

  /** The whole effect of a message; only which entries an overfull cache keeps is left open. */
  ghost predicate Ingested(a: Snapshot, cap: nat, m: Message, ns: u64, ms: u64, b: Snapshot) {
    if Dropped(a, m, ns) then b == a
    else
      && b.core == CoreAfter(a.core, cap, m, ns, ms)
      && Pruned(NotedQueries(a, m, ns), b.queries, ns, 2 * cap)
      && Pruned(NotedResponses(a, m, ns), b.responses, ns, 2 * cap)
  }

  /** What holds after every message, whatever the timestamps and the caches do. */
  ghost predicate Fit(a: Snapshot, cap: nat) {
    && cap > 0 && Good(a.core) && |a.core.order| <= cap
    && |a.queries| <= 2 * cap && |a.responses| <= 2 * cap
  }

  lemma StoredQuery(c: Core, cap: nat, m: Message, ns: u64, ms: u64)
    requires Good(c)
    ensures var d := Trimmed(Added(c, NewTracked(m, ns, ms)), cap);
            && Good(d) && |d.order| <= cap && d.nextId == c.nextId + 1
            && LogOf(d) == LastN(LogOf(c) + [NewEntry(m, ns, ms)], cap)
  {
    var t := NewTracked(m, ns, ms);
    AddStaysGood(c, t);
    AddKeepsOrder(c, t);
    TrimmedIsNewest(Added(c, t), cap);
  }

  lemma PrunedSize(before: Cache, after: Cache, now: u64, limit: nat)
    requires Pruned(before, after, now, limit)
    ensures |after| <= limit
  {
  }

  lemma CoreStaysGood(c: Core, cap: nat, m: Message, ns: u64, ms: u64)
    requires Good(c) && |c.order| <= cap
    ensures var d := CoreAfter(c, cap, m, ns, ms); Good(d) && |d.order| <= cap && d.nextId <= c.nextId + 1
  {
    StoredQuery(c, cap, m, ns, ms);
    AnswerStaysGood(c, KeyOf(m), m.answer, ns);
  }

  lemma IngestedIsFit(a: Snapshot, cap: nat, m: Message, ns: u64, ms: u64, b: Snapshot)
    requires Fit(a, cap) && Ingested(a, cap, m, ns, ms, b)
    ensures Fit(b, cap) && b.core.nextId <= a.core.nextId + 1
  {
    CoreStaysGood(a.core, cap, m, ns, ms);
    if !Dropped(a, m, ns) {
      PrunedSize(NotedQueries(a, m, ns), b.queries, ns, 2 * cap);
      PrunedSize(NotedResponses(a, m, ns), b.responses, ns, 2 * cap);
    }
  }

  lemma LaterStaysTimely(c: Core, now: u64, ns: u64)
    requires Timely(c, now) && now <= ns
    ensures Timely(c, ns)
  {
  }

  lemma CoreStaysTimely(c: Core, cap: nat, m: Message, now: u64, ns: u64, ms: u64)
    requires Good(c) && Timely(c, now) && now <= ns
    ensures Timely(CoreAfter(c, cap, m, ns, ms), ns)
  {
    if m.isQuery {
      var t := NewTracked(m, ns, ms);
      AddStaysGood(c, t);
      AddStaysTimely(c, t, now, ns);
      TrimmedStaysTimely(Added(c, t), cap, ns);
    } else {
      AnswerStaysTimely(c, KeyOf(m), m.answer, now, ns);
    }
  }

  /** The index stays complete as long as time does not run backwards; the caches play no part in it. */
  lemma IngestedIsTimely(a: Snapshot, cap: nat, m: Message, now: u64, ns: u64, ms: u64, b: Snapshot)
    requires Fit(a, cap) && Timely(a.core, now) && now <= ns && Ingested(a, cap, m, ns, ms, b)
    ensures Timely(b.core, ns)
  {
    LaterStaysTimely(a.core, now, ns);
    CoreStaysTimely(a.core, cap, m, now, ns, ms);
  }

  /** And then the log changes exactly as a scan from the front would change it, a response's query included. */
  lemma IngestedIsListed(a: Snapshot, cap: nat, m: Message, now: u64, ns: u64, ms: u64, b: Snapshot)
    requires Fit(a, cap) && Timely(a.core, now) && now <= ns && Ingested(a, cap, m, ns, ms, b)
    ensures Ordered(b.core) && LogOf(b.core) == Listed(LogOf(a.core), a.queries, a.responses, cap, m, ns, ms)
  {
    IngestedIsFit(a, cap, m, ns, ms, b);
    if m.isQuery {
      StoredQuery(a.core, cap, m, ns, ms);
    } else {
      AnswerIsFirstWaiting(a.core, KeyOf(m), m.answer, now, ns);
    }
  }

  /** A message of either kind lists what is accepted, whatever the timestamps. */
  lemma IngestedOrigins(a: Snapshot, cap: nat, m: Message, ns: u64, ms: u64, b: Snapshot)
    requires Fit(a, cap) && Ingested(a, cap, m, ns, ms, b)
    ensures Ordered(b.core)
    ensures m.isQuery ==> LogOf(b.core) == Listed(LogOf(a.core), a.queries, a.responses, cap, m, ns, ms)
    ensures !m.isQuery ==>
              b.core.order == a.core.order && MapSeq(Origin, LogOf(b.core)) == MapSeq(Origin, LogOf(a.core))
  {
    IngestedIsFit(a, cap, m, ns, ms, b);
    if m.isQuery {
      StoredQuery(a.core, cap, m, ns, ms);
    } else if !Dropped(a, m, ns) {
      AnsweredOrigins(a.core, KeyOf(m), m.answer, ns);
    }
  }

  lemma AnsweredOrigins(c: Core, key: MatchKey, a: Answer, ns: u64)
    requires Ordered(c) && Indexed(c)
    ensures var d := AnswerWaiting(c, key, a, ns).0;
            Ordered(d) && d.order == c.order && MapSeq(Origin, LogOf(d)) == MapSeq(Origin, LogOf(c))
  {
    AnswerKeepsIndex(c, key, a, ns);
    SameOrigins(c, AnswerWaiting(c, key, a, ns).0, AnswerWaiting(c, key, a, ns).1, a, ns);
  }

  lemma SameOrigins(c: Core, d: Core, taken: Option<nat>, a: Answer, ns: u64)
    requires Ordered(c) && Ordered(d) && d.order == c.order
    requires taken.Some? ==> taken.value in c.records
    requires d.records
          == if taken.Some? then c.records[taken.value := Replied(c.records[taken.value], a, ns)] else c.records
    ensures MapSeq(Origin, LogOf(d)) == MapSeq(Origin, LogOf(c))
  {
  }

  /** Every record of `c` that is answered and still listed in `d` is the same there. */
  ghost predicate KeepsAnswers(c: Core, d: Core) {
    && c.nextId <= d.nextId
    && (forall id: nat :: id in d.records && id < c.nextId ==> id in c.records)
    && (forall id: nat :: id in d.records && id in c.records && c.records[id].record.responseMs.Some? ==>
          d.records[id] == c.records[id])
  }

  lemma {:induction false} TrimmedKeepsAnswers(c: Core, cap: nat)
    requires Good(c)
    ensures KeepsAnswers(c, Trimmed(c, cap))
    decreases |c.order|
  {
    if |c.order| > cap {
      EvictStaysGood(c);
      TrimmedKeepsAnswers(Evicted(c), cap);
    }
  }

  lemma AddedKeepsAnswers(c: Core, t: Tracked, cap: nat)
    requires Good(c) && t.record.responseMs.None?
    ensures KeepsAnswers(c, Trimmed(Added(c, t), cap))
  {
    AddStaysGood(c, t);
    assert c.nextId !in c.records;
    TrimmedKeepsAnswers(Added(c, t), cap);
  }

  lemma RepliedKeepsAnswers(c: Core, key: MatchKey, a: Answer, ns: u64)
    requires Good(c)
    ensures KeepsAnswers(c, AnswerWaiting(c, key, a, ns).0)
  {
    AnswerKeepsIndex(c, key, a, ns);
  }

  lemma IngestedKeepsAnswers(a: Snapshot, cap: nat, m: Message, ns: u64, ms: u64, b: Snapshot)
    requires Fit(a, cap) && Ingested(a, cap, m, ns, ms, b)
    ensures KeepsAnswers(a.core, b.core)
  {
    if !Dropped(a, m, ns) {
      if m.isQuery {
        AddedKeepsAnswers(a.core, NewTracked(m, ns, ms), cap);
      } else {
        RepliedKeepsAnswers(a.core, KeyOf(m), m.answer, ns);
      }
    }
  }

  // ----- agreement with the list model

  /** The log is the list model's, and the caches decide every later duplicate as its full history does. */
  ghost predicate Follows(a: Snapshot, s: Ideal, now: u64)
    requires Ordered(a.core)
  {
    LogOf(a.core) == s.log && Agrees(a.queries, s.lastQuery, now) && Agrees(a.responses, s.lastResponse, now)
  }

  lemma LaterAgrees(cache: Cache, full: Cache, now: u64, ns: u64)
    requires Agrees(cache, full, now) && now <= ns
    ensures Agrees(cache, full, ns)
  {
  }

  lemma NotedAgrees(cache: Cache, full: Cache, now: u64, ns: u64, key: MatchKey)
    requires Agrees(cache, full, now) && now <= ns
    ensures Agrees(cache[key := ns], full[key := ns], ns)
  {
  }

  /** Before pruning the caches agree with the list model's history after the message. */
  lemma NotedFollows(a: Snapshot, cap: nat, s: Ideal, m: Message, now: u64, ns: u64, ms: u64)
    requires Fit(a, cap) && Timely(a.core, now) && Follows(a, s, now) && now <= ns && !Dropped(a, m, ns)
    ensures var t := IdealIngest(s, cap, m, ns, ms);
            Agrees(NotedQueries(a, m, ns), t.lastQuery, ns) && Agrees(NotedResponses(a, m, ns), t.lastResponse, ns)
  {
    var key := KeyOf(m);
    AgreeingCacheDecides(a.queries, s.lastQuery, now, ns, key);
    AgreeingCacheDecides(a.responses, s.lastResponse, now, ns, key);
    LaterAgrees(a.queries, s.lastQuery, now, ns);
    LaterAgrees(a.responses, s.lastResponse, now, ns);
    NotedAgrees(a.queries, s.lastQuery, now, ns, key);
    NotedAgrees(a.responses, s.lastResponse, now, ns, key);
    if !m.isQuery {
      AnswerIsFirstWaiting(a.core, key, m.answer, now, ns);
    }
  }

  ghost predicate QuietAfter(s: Ideal, ns: u64, cap: nat) {
    Quiet(s.lastQuery, ns, 2 * cap) && Quiet(s.lastResponse, ns, 2 * cap)
  }

  /** While the hard cap stays out of play, the monitor goes on showing what the list model shows. */
  lemma IngestedFollows(a: Snapshot, cap: nat, s: Ideal, m: Message, now: u64, ns: u64, ms: u64, b: Snapshot)
    requires Fit(a, cap) && Timely(a.core, now) && Follows(a, s, now) && now <= ns && Ingested(a, cap, m, ns, ms, b)
    requires QuietAfter(IdealIngest(s, cap, m, ns, ms), ns, cap)
    ensures Ordered(b.core) && Follows(b, IdealIngest(s, cap, m, ns, ms), ns)
  {
    var t := IdealIngest(s, cap, m, ns, ms);
    AgreeingCacheDecides(a.queries, s.lastQuery, now, ns, KeyOf(m));
    AgreeingCacheDecides(a.responses, s.lastResponse, now, ns, KeyOf(m));
    IngestedIsListed(a, cap, m, now, ns, ms, b);
    if Dropped(a, m, ns) {
      LaterAgrees(a.queries, s.lastQuery, now, ns);
      LaterAgrees(a.responses, s.lastResponse, now, ns);
    } else {
      NotedFollows(a, cap, s, m, now, ns, ms);
      PruningIsInvisible(NotedQueries(a, m, ns), b.queries, t.lastQuery, ns, 2 * cap);
      PruningIsInvisible(NotedResponses(a, m, ns), b.responses, t.lastResponse, ns, 2 * cap);
    }
  }

  /** `orderly` while time never ran backwards; `faithful` while, besides, the hard cap stayed out of play. */
  ghost predicate Consistent(a: Snapshot, s: Ideal, now: u64, orderly: bool, faithful: bool, cap: nat) {
    && Fit(a, cap)
    && (orderly ==> Timely(a.core, now))
    && (faithful ==> orderly && Follows(a, s, now))
  }

  lemma IngestedIsConsistent(
      a: Snapshot, cap: nat, s: Ideal, m: Message, now: u64, ns: u64, ms: u64, b: Snapshot, orderly: bool,
      faithful: bool)
    requires Consistent(a, s, now, orderly, faithful, cap) && Ingested(a, cap, m, ns, ms, b)
    ensures var t := IdealIngest(s, cap, m, ns, ms);
            Consistent(b, t, ns, orderly && now <= ns, faithful && now <= ns && QuietAfter(t, ns, cap), cap)
  {
    IngestedIsFit(a, cap, m, ns, ms, b);
    if orderly && now <= ns {
      IngestedIsTimely(a, cap, m, now, ns, ms, b);
      if faithful && QuietAfter(IdealIngest(s, cap, m, ns, ms), ns, cap) {
        IngestedFollows(a, cap, s, m, now, ns, ms, b);
      }
    }
  }

  lemma IngestedEffects(
      a: Snapshot, cap: nat, s: Ideal, m: Message, now: u64, ns: u64, ms: u64, b: Snapshot, orderly: bool,
      faithful: bool)
    requires Consistent(a, s, now, orderly, faithful, cap) && Ingested(a, cap, m, ns, ms, b)
    ensures var t := IdealIngest(s, cap, m, ns, ms);
            Consistent(b, t, ns, orderly && now <= ns, faithful && now <= ns && QuietAfter(t, ns, cap), cap)
    ensures b.core.nextId <= a.core.nextId + 1 && KeepsAnswers(a.core, b.core)
    ensures m.isQuery || (orderly && now <= ns) ==>
              LogOf(b.core) == Listed(LogOf(a.core), a.queries, a.responses, cap, m, ns, ms)
    ensures !m.isQuery ==>
              b.core.order == a.core.order && MapSeq(Origin, LogOf(b.core)) == MapSeq(Origin, LogOf(a.core))
  {
    IngestedIsFit(a, cap, m, ns, ms, b);
    IngestedIsConsistent(a, cap, s, m, now, ns, ms, b, orderly, faithful);
    IngestedOrigins(a, cap, m, ns, ms, b);
    IngestedKeepsAnswers(a, cap, m, ns, ms, b);
    if orderly && now <= ns {
      IngestedIsListed(a, cap, m, now, ns, ms, b);
    }
  }

  // ----- whole runs

  /** A monitor's history: its state at the start and after every message. */
  datatype History =
    | Begin(state: Snapshot)
    | Then(before: History, message: Message, ns: u64, ms: u64, state: Snapshot)

  /** A fresh monitor, or one whose saved records have just been listed again. */
  ghost predicate Starts(a: Snapshot, cap: nat) {
    Fit(a, cap) && a.core.live == {} && a.queries == map[] && a.responses == map[]
  }

  ghost predicate Reachable(h: History, cap: nat) {
    match h
    case Begin(a) => Starts(a, cap)
    case Then(g, m, ns, ms, b) => Reachable(g, cap) && Ingested(g.state, cap, m, ns, ms, b)
  }

  function LatestTime(h: History): u64 {
    if h.Begin? then 0 else h.ns
  }

  /** Timestamps never run backwards. */
  predicate TimeForward(h: History) {
    h.Begin? || (TimeForward(h.before) && LatestTime(h.before) <= h.ns)
  }

  function Start(h: History): Snapshot {
    if h.Begin? then h.state else Start(h.before)
  }

  /** In every reachable state the index is exact for what it holds, and no size exceeds its limit. */
  lemma {:induction false} ReachableIsFit(h: History, cap: nat)
    requires Reachable(h, cap)
    ensures Fit(h.state, cap) && Starts(Start(h), cap)
  {
    if h.Then? {
      ReachableIsFit(h.before, cap);
      IngestedIsFit(h.before.state, cap, h.message, h.ns, h.ms, h.state);
    }
  }

  lemma {:induction false} ReachableIsTimely(h: History, cap: nat)
    requires Reachable(h, cap) && TimeForward(h)
    ensures Timely(h.state.core, LatestTime(h))
  {
    if h.Then? {
      ReachableIsFit(h.before, cap);
      ReachableIsTimely(h.before, cap);
      IngestedIsTimely(h.before.state, cap, h.message, LatestTime(h.before), h.ns, h.ms, h.state);
    }
  }

  /**
   * In every history whose timestamps never run backwards, however often the caches' hard cap fires, the last message
   * changed the log as a linear scan would: a response that is no duplicate answers the first query in arrival order
   * that has its key, is live, unanswered and at most 30 s old, and nothing else changes.
   */
  lemma IndexAgreesWithScan(h: History, cap: nat)
    requires Reachable(h, cap) && TimeForward(h) && h.Then?
    ensures Ordered(h.before.state.core) && Ordered(h.state.core)
    ensures var a := h.before.state;
            LogOf(h.state.core) == Listed(LogOf(a.core), a.queries, a.responses, cap, h.message, h.ns, h.ms)
  {
    ReachableIsFit(h.before, cap);
    ReachableIsTimely(h.before, cap);
    IngestedIsListed(h.before.state, cap, h.message, LatestTime(h.before), h.ns, h.ms, h.state);
  }

  /** The queries that the monitor's own cache let through. */
  function LetThrough(h: History): seq<Captured> {
    if h.Begin? then []
    else if h.message.isQuery && !Duplicate(h.before.state.queries, KeyOf(h.message), h.ns) then
      LetThrough(h.before) + [Captured(h.message, h.ns, h.ms)]
    else LetThrough(h.before)
  }

  ghost function Origins(a: Snapshot): seq<Captured>
    requires Ordered(a.core)
  {
    MapSeq(Origin, LogOf(a.core))
  }

  /**
   * In every history, whatever the timestamps and however often the hard cap fires, the log lists the newest
   * `max_records` of the restored records and the queries let through since, in order.
   */
  lemma {:induction false} LogIsNewestLetThrough(h: History, cap: nat)
    requires Reachable(h, cap)
    ensures Ordered(Start(h).core) && Ordered(h.state.core)
    ensures Origins(h.state) == LastN(Origins(Start(h)) + LetThrough(h), cap)
  {
    ReachableIsFit(h, cap);
    if h.Begin? {
      assert Origins(h.state) + [] == Origins(h.state);
    } else {
      LogIsNewestLetThrough(h.before, cap);
      ReachableIsFit(h.before, cap);
      OneMoreListed(Origins(Start(h)), LetThrough(h.before), h.before.state, cap, h.message, h.ns, h.ms, h.state);
    }
  }

  lemma OneMoreListed(
      start: seq<Captured>, before: seq<Captured>, a: Snapshot, cap: nat, m: Message, ns: u64, ms: u64, b: Snapshot)
    requires Fit(a, cap) && Ingested(a, cap, m, ns, ms, b) && Origins(a) == LastN(start + before, cap)
    ensures Ordered(b.core)
    ensures Origins(b) == LastN(start + (if m.isQuery && !Duplicate(a.queries, KeyOf(m), ns)
                                         then before + [Captured(m, ns, ms)] else before), cap)
  {
    var c := Captured(m, ns, ms);
    IngestedOrigins(a, cap, m, ns, ms, b);
    MapNewest(Origin, LogOf(a.core), NewEntry(m, ns, ms), cap);
    LastNAppend(start + before, c, cap);
    assert start + (before + [c]) == start + before + [c];
  }

  /** `g` is a part of `h`'s past, or `h` itself. */
  predicate Earlier(g: History, h: History) {
    g == h || (h.Then? && Earlier(g, h.before))
  }

  lemma {:induction false} EarlierIsReachable(g: History, h: History, cap: nat)
    requires Earlier(g, h) && Reachable(h, cap)
    ensures Reachable(g, cap)
  {
    if g != h {
      EarlierIsReachable(g, h.before, cap);
    }
  }

  lemma KeptThrough(a: Core, b: Core, c: Core)
    requires Ordered(a) && KeepsAnswers(a, b) && KeepsAnswers(b, c)
    ensures KeepsAnswers(a, c)
  {
  }

  /**
   * In every history a record, once answered, stays as it is for as long as it is listed, and its id is never used
   * again: every query is answered at most once.
   */
  lemma {:induction false} AnsweredAtMostOnce(g: History, h: History, cap: nat)
    requires Reachable(h, cap) && Earlier(g, h)
    ensures KeepsAnswers(g.state.core, h.state.core)
  {
    if g != h {
      AnsweredAtMostOnce(g, h.before, cap);
      EarlierIsReachable(g, h, cap);
      ReachableIsFit(g, cap);
      ReachableIsFit(h.before, cap);
      IngestedKeepsAnswers(h.before.state, cap, h.message, h.ns, h.ms, h.state);
      KeptThrough(g.state.core, h.before.state.core, h.state.core);
    }
  }

  function Run(h: History): seq<Captured> {
    if h.Begin? then [] else Run(h.before) + [Captured(h.message, h.ns, h.ms)]
  }

  /** The hard cap stays out of play throughout. */
  ghost predicate QuietHistory(h: History, cap: nat) {
    h.Begin? || (QuietHistory(h.before, cap) && QuietAfter(IdealRun(cap, Run(h)), h.ns, cap))
  }

  /** From a fresh monitor, a chronological and quiet history shows at its end what the list model shows. */
  lemma {:induction false} QuietHistoryIsIdeal(h: History, cap: nat)
    requires Reachable(h, cap) && Start(h).core.order == [] && TimeForward(h) && QuietHistory(h, cap)
    ensures Ordered(h.state.core) && Follows(h.state, IdealRun(cap, Run(h)), LatestTime(h))
  {
    if h.Then? {
      QuietHistoryIsIdeal(h.before, cap);
      ReachableIsFit(h.before, cap);
      ReachableIsTimely(h.before, cap);
      assert Run(h)[..|Run(h)| - 1] == Run(h.before);
      IngestedFollows(h.before.state, cap, IdealRun(cap, Run(h.before)), h.message, LatestTime(h.before), h.ns, h.ms,
                      h.state);
    }
  }

  // ----- a forgotten duplicate

  const NOTHING := Snapshot(Core(map[], [], map[], 1, {}), map[], map[])

  /** One more query that the cache lets through, with what pruning keeps. */
  lemma LetIn(h: History, cap: nat, m: Message, ns: u64, kept: Cache) returns (g: History)
    requires Reachable(h, cap) && TimeForward(h) && LatestTime(h) <= ns && h.state.responses == map[]
    requires m.isQuery && !Duplicate(h.state.queries, KeyOf(m), ns)
    requires Pruned(h.state.queries[KeyOf(m) := ns], kept, ns, 2 * cap)
    ensures Reachable(g, cap) && TimeForward(g) && Start(g) == Start(h) && LatestTime(g) == ns
    ensures g.state.queries == kept && g.state.responses == map[]
    ensures LetThrough(g) == LetThrough(h) + [Captured(m, ns, 0)] && Run(g) == Run(h) + [Captured(m, ns, 0)]
  {
    g := Then(h, m, ns, 0, Snapshot(CoreAfter(h.state.core, cap, m, ns, 0), kept, h.state.responses));
  }

  lemma AcceptOne(cap: nat, run: seq<Captured>, c: Captured, more: seq<Captured>)
    requires c.message.isQuery && more == run + [c]
    ensures var s, t := IdealRun(cap, run), IdealRun(cap, more);
            if Duplicate(s.lastQuery, KeyOf(c.message), c.ns)
            then t == s && AcceptedQueries(cap, more) == AcceptedQueries(cap, run)
            else t.lastQuery == s.lastQuery[KeyOf(c.message) := c.ns]
                 && AcceptedQueries(cap, more) == AcceptedQueries(cap, run) + [c]
  {
    assert more[..|more| - 1] == run;
  }

  lemma ThreeAreTooMany(cache: Cache, k1: MatchKey, k2: MatchKey, k3: MatchKey, kept: Cache, ns: u64)
    requires k1 != k2 && k1 != k3 && k2 != k3 && cache.Keys == {k1, k2, k3} && kept.Keys == {k2, k3}
    requires (forall k :: k in cache ==> cache[k] == ns) && forall k :: k in kept ==> kept[k] == ns
    ensures Pruned(cache, kept, ns, 2)
  {
    assert Recent(cache, SatSub(ns, DEDUP_WINDOW_NS)) == cache;
  }

  lemma InARow<T>(a: T, b: T, c: T, d: T)
    ensures [] + [a] + [b] + [c] + [d] == [a, b, c, d]
  {
  }

  lemma RepeatIsDropped(c1: Captured, c2: Captured, c3: Captured)
    requires c1.message.isQuery && c2.message.isQuery && c3.message.isQuery && c1.ns == c2.ns == c3.ns
    requires var k1, k2, k3 := KeyOf(c1.message), KeyOf(c2.message), KeyOf(c3.message); k1 != k2 && k1 != k3 && k2 != k3
    ensures AcceptedQueries(1, [c1, c2, c3, c1]) == [c1, c2, c3]
  {
    AcceptOne(1, [], c1, [c1]);
    AcceptOne(1, [c1], c2, [c1, c2]);
    AcceptOne(1, [c1, c2], c3, [c1, c2, c3]);
    AcceptOne(1, [c1, c2, c3], c1, [c1, c2, c3, c1]);
  }

  /**
   * It happens: with `max_records` 1, after three queries of different keys at one time the first can be asked again
   * at once and is logged again, although the unpruned history knows it for a duplicate.
   */
  lemma DuplicateCanBeLogged(q1: Message, q2: Message, q3: Message, ns: u64) returns (h: History)
    requires q1.isQuery && q2.isQuery && q3.isQuery
    requires KeyOf(q1) != KeyOf(q2) && KeyOf(q1) != KeyOf(q3) && KeyOf(q2) != KeyOf(q3)
    ensures Reachable(h, 1) && TimeForward(h) && Start(h) == NOTHING
    ensures var c1, c2, c3 := Captured(q1, ns, 0), Captured(q2, ns, 0), Captured(q3, ns, 0);
            && Run(h) == [c1, c2, c3, c1] && LetThrough(h) == [c1, c2, c3, c1]
            && AcceptedQueries(1, Run(h)) == [c1, c2, c3]
  {
    var k1, k2, k3 := KeyOf(q1), KeyOf(q2), KeyOf(q3);
    var c1, c2, c3 := Captured(q1, ns, 0), Captured(q2, ns, 0), Captured(q3, ns, 0);
    var one: Cache := map[k1 := ns];
    var two, kept := one[k2 := ns], map[k2 := ns, k3 := ns];
    ThreeAreTooMany(two[k3 := ns], k1, k2, k3, kept, ns);
    ThreeAreTooMany(kept[k1 := ns], k1, k2, k3, kept, ns);
    h := Begin(NOTHING);
    h := LetIn(h, 1, q1, ns, one);
    h := LetIn(h, 1, q2, ns, two);
    h := LetIn(h, 1, q3, ns, kept);
    h := LetIn(h, 1, q1, ns, kept);
    InARow(c1, c2, c3, c1);
    RepeatIsDropped(c1, c2, c3);
  }

  // ----- start-up

  /** A saved record listed again: not live, so never matched. */
  ghost function Relisted(c: Core, r: Record): Core {
    c.(records := c.records[c.nextId := Tracked(0, Restored(r).key, Restored(r).record)],
       order := c.order + [c.nextId], nextId := c.nextId + 1)
  }

  ghost function RelistedAll(c: Core, saved: seq<Record>): Core {
    if saved == [] then c else Relisted(RelistedAll(c, saved[..|saved| - 1]), saved[|saved| - 1])
  }

  lemma {:induction false} RelistedLog(c: Core, saved: seq<Record>, d: Core)
    requires Ordered(c) && c.order == [] && c.live == {} && d == RelistedAll(c, saved)
    ensures Ordered(d) && LogOf(d) == MapSeq(Restored, saved) && d.live == {} && d.pending == c.pending
    decreases saved
  {
    if saved != [] {
      var front, last := saved[..|saved| - 1], saved[|saved| - 1];
      var before := RelistedAll(c, front);
      RelistedLog(c, front, before);
      RelistedNext(before, front, last, saved);
    }
  }

  lemma RelistedNext(c: Core, saved: seq<Record>, r: Record, more: seq<Record>)
    requires Ordered(c) && c.live == {} && LogOf(c) == MapSeq(Restored, saved) && more == saved + [r]
    ensures Ordered(Relisted(c, r)) && LogOf(Relisted(c, r)) == MapSeq(Restored, more)
  {
    RelistOne(c, r);
    MapAppend(Restored, saved, [r]);
    assert MapSeq(Restored, [r]) == [Restored(r)];
  }

  lemma RelistOne(c: Core, r: Record)
    requires Ordered(c) && c.live == {}
    ensures Ordered(Relisted(c, r)) && LogOf(Relisted(c, r)) == LogOf(c) + [Restored(r)]
  {
    assert c.nextId !in c.records && c.nextId !in c.order;
    IncreasingAppend(c.order, c.nextId);
  }

  lemma RelistedIsConsistent(c: Core, saved: seq<Record>, now: u64, cap: nat)
    requires Ordered(c) && c.order == [] && c.live == {} && c.pending == map[] && |saved| <= cap && cap > 0
    ensures var d := Snapshot(RelistedAll(c, saved), map[], map[]);
            Starts(d, cap) && LogOf(d.core) == MapSeq(Restored, saved)
            && Consistent(d, Ideal(MapSeq(Restored, saved), map[], map[]), now, true, true, cap)
  {
    RelistedLog(c, saved, RelistedAll(c, saved));
  }

  // ----- the monitor

  class DnsMonitor {
    const maxRecords: nat
    var records: map<nat, Tracked>
    var order: seq<nat>
    var pending: map<MatchKey, seq<nat>>
    var recentQueries: Cache
    var recentResponses: Cache
    var nextId: nat

    /** The ids captured in this run and the latest timestamp. */
    ghost var live: set<nat>
    ghost var now: u64
    /** The list model; followed as long as time never ran backwards and the caches' hard cap stayed out of play. */
    ghost var ideal: Ideal
    ghost var orderly: bool
    ghost var faithful: bool

    constructor (maxRecords: nat)
      ensures Valid() && Fresh() && this.maxRecords == (if maxRecords == 0 then 1 else maxRecords) && now == 0
    {
      this.maxRecords := if maxRecords == 0 then 1 else maxRecords;
      records, order, pending := map[], [], map[];
      recentQueries, recentResponses, nextId := map[], map[], 1;
      live, now, ideal, orderly, faithful := {}, 0, NOTHING_SEEN, true, true;
    }

    ghost function State(): Core
      reads this
    {
      Core(records, order, pending, nextId, live)
    }

    ghost function Current(): Snapshot
      reads this
    {
      Snapshot(State(), recentQueries, recentResponses)
    }

    function Limit(): nat {
      2 * maxRecords
    }

    ghost predicate Valid()
      reads this
    {
      Consistent(Current(), ideal, now, orderly, faithful, maxRecords)
    }

    ghost predicate Fresh()
      reads this
    {
      && order == [] && pending == map[] && live == {} && recentQueries == map[] && recentResponses == map[]
      && orderly && faithful && ideal == NOTHING_SEEN
    }

    method AddQuery(t: Tracked)
      modifies this`records, this`order, this`pending, this`nextId, this`live
      ensures State() == Added(old(State()), t)
    {
      records := records[nextId := t];
      order := order + [nextId];
      pending := pending[t.key := QueueOf(pending, t.key) + [nextId]];
      live := live + {nextId};
      nextId := nextId + 1;
    }

    method EvictOldest()
      requires Ordered(State()) && Indexed(State()) && order != []
      modifies this`records, this`order, this`pending
      ensures State() == Evicted(old(State()))
    {
      var id := order[0];
      var t := records[id];
      order := order[1..];
      records := records - {id};
      if t.record.responseMs.None? && t.key in pending {
        var queue := pending[t.key];
        if queue != [] && queue[0] == id {
          queue := queue[1..];
        } else {
          queue := Retain(queue, id);
        }
        pending := SetQueue(pending, t.key, queue);
      }
    }

    method TakeWaiting(key: MatchKey, ns: u64) returns (id: Option<nat>)
      modifies this`pending
      ensures State() == Taken(old(State()), key, ns).0 && id == Taken(old(State()), key, ns).1
    {
      id := None;
      if key in pending {
        var queue := pending[key];
        while queue != [] && Expired(records, queue[0], ns)
          invariant DropExpired(records, queue, ns) == DropExpired(records, pending[key], ns)
        {
          queue := queue[1..];
        }
        if queue != [] {
          id := Some(queue[0]);
          queue := queue[1..];
        }
        pending := SetQueue(pending, key, queue);
      }
    }

    method MatchResponse(key: MatchKey, a: Answer, ns: u64) returns (matched: bool)
      modifies this`records, this`pending
      ensures State() == AnswerWaiting(old(State()), key, a, ns).0
      ensures matched <==> AnswerWaiting(old(State()), key, a, ns).1.Some?
    {
      var id := TakeWaiting(key, ns);
      matched := id.Some? && id.value in records;
      if matched {
        records := records[id.value := Replied(records[id.value], a, ns)];
      }
    }

    method EvictDownToLimit()
      requires Good(State())
      modifies this`records, this`order, this`pending
      ensures State() == Trimmed(old(State()), maxRecords)
    {
      RecordCount(State());
      while |records| > maxRecords
        invariant Good(State()) && |records| == |order|
        invariant Trimmed(State(), maxRecords) == Trimmed(old(State()), maxRecords)
        decreases |order|
      {
        EvictStaysGood(State());
        EvictOldest();
        RecordCount(State());
      }
    }

    method PruneCaches(ns: u64)
      modifies this`recentQueries, this`recentResponses
      ensures Pruned(old(recentQueries), recentQueries, ns, Limit()) && |recentQueries| <= Limit()
      ensures Pruned(old(recentResponses), recentResponses, ns, Limit()) && |recentResponses| <= Limit()
    {
      recentQueries := PruneDedupeCache(recentQueries, ns, Limit());
      recentResponses := PruneDedupeCache(recentResponses, ns, Limit());
    }

    method IngestQuery(m: Message, ns: u64, ms: u64) returns (dropped: bool)
      requires Good(State()) && m.isQuery
      modifies this`records, this`order, this`pending, this`nextId, this`live, this`recentQueries
      ensures dropped <==> Duplicate(old(recentQueries), KeyOf(m), ns)
      ensures dropped ==> recentQueries == old(recentQueries) && State() == old(State())
      ensures !dropped ==> recentQueries == old(recentQueries)[KeyOf(m) := ns]
                           && State() == Trimmed(Added(old(State()), NewTracked(m, ns, ms)), maxRecords)
    {
      var key := KeyOf(m);
      if Duplicate(recentQueries, key, ns) {
        return true;
      }
      recentQueries := recentQueries[key := ns];
      AddStaysGood(State(), NewTracked(m, ns, ms));
      AddQuery(NewTracked(m, ns, ms));
      EvictDownToLimit();
      dropped := false;
    }

    method IngestResponse(m: Message, ns: u64) returns (dropped: bool)
      requires !m.isQuery
      modifies this`records, this`pending, this`recentResponses
      ensures dropped <==> Duplicate(old(recentResponses), KeyOf(m), ns)
      ensures dropped ==> recentResponses == old(recentResponses) && State() == old(State())
      ensures !dropped ==> State() == AnswerWaiting(old(State()), KeyOf(m), m.answer, ns).0
      ensures !dropped ==> recentResponses == if AnswerWaiting(old(State()), KeyOf(m), m.answer, ns).1.Some?
                                                then old(recentResponses)[KeyOf(m) := ns] else old(recentResponses)
    {
      var key := KeyOf(m);
      if Duplicate(recentResponses, key, ns) {
        return true;
      }
      var matched := MatchResponse(key, m.answer, ns);
      if matched {
        recentResponses := recentResponses[key := ns];
      }
      dropped := false;
    }

    method IngestAndPrune(m: Message, ns: u64, ms: u64)
      requires Valid()
      modifies this`records, this`order, this`pending, this`nextId, this`live, this`recentQueries, this`recentResponses
      ensures Ingested(old(Current()), maxRecords, m, ns, ms, Current())
    {
      var dropped := false;
      if m.isQuery {
        dropped := IngestQuery(m, ns, ms);
      } else {
        dropped := IngestResponse(m, ns);
      }
      if !dropped {
        PruneCaches(ns);
      }
    }

    /**
     * Whatever happened before: the log lists what it should and keeps every answer. As long as time never ran
     * backwards, it also changes exactly as a scan from the front would change it.
     */
    method Ingest(m: Message, ns: u64, ms: u64)
      requires Valid() && nextId < MAX_U64
      modifies this
      ensures Valid() && now == ns && nextId <= old(nextId) + 1
      ensures Ingested(old(Current()), maxRecords, m, ns, ms, Current())
      ensures ideal == IdealIngest(old(ideal), maxRecords, m, ns, ms)
      ensures orderly <==> old(orderly) && old(now) <= ns
      ensures faithful <==> old(faithful) && old(now) <= ns && QuietAfter(ideal, ns, maxRecords)
      ensures m.isQuery || orderly ==>
                LogOf(State())
                == Listed(LogOf(old(State())), old(recentQueries), old(recentResponses), maxRecords, m, ns, ms)
      ensures !m.isQuery ==>
                order == old(order) && MapSeq(Origin, LogOf(State())) == MapSeq(Origin, LogOf(old(State())))
      ensures KeepsAnswers(old(State()), State())
    {
      ghost var before := Current();
      IngestAndPrune(m, ns, ms);
      IngestedEffects(before, maxRecords, ideal, m, now, ns, ms, Current(), orderly, faithful);
      Advance(m, ns, ms);
    }

    /** The list model and the clock catch up. */
    ghost method Advance(m: Message, ns: u64, ms: u64)
      modifies this`ideal, this`now, this`orderly, this`faithful
      ensures ideal == IdealIngest(old(ideal), maxRecords, m, ns, ms) && now == ns
      ensures orderly <==> old(orderly) && old(now) <= ns
      ensures faithful <==> old(faithful) && old(now) <= ns && QuietAfter(ideal, ns, maxRecords)
    {
      ideal := IdealIngest(ideal, maxRecords, m, ns, ms);
      orderly := orderly && now <= ns;
      faithful := faithful && now <= ns && QuietAfter(ideal, ns, maxRecords);
      now := ns;
    }

    /** Start-up: the newest saved records are listed again, but no longer wait for a response. */
    method RestoreRecords(saved: seq<Record>)
      requires Valid() && Fresh()
      modifies this`records, this`order, this`nextId, this`ideal
      ensures Valid() && orderly && faithful && Starts(Current(), maxRecords)
      ensures LogOf(State()) == MapSeq(Restored, LastN(saved, maxRecords))
      ensures ideal == Ideal(LogOf(State()), map[], map[])
    {
      var newest := LastN(saved, maxRecords);
      RelistedIsConsistent(State(), newest, now, maxRecords);
      Relist(newest);
      ideal := Ideal(MapSeq(Restored, newest), map[], map[]);
    }

    method Relist(newest: seq<Record>)
      modifies this`records, this`order, this`nextId
      ensures State() == RelistedAll(old(State()), newest)
    {
      for i := 0 to |newest|
        invariant State() == RelistedAll(old(State()), newest[..i])
      {
        var r := newest[i];
        assert newest[..i + 1][..i] == newest[..i];
        records := records[nextId := Tracked(0, Restored(r).key, Restored(r).record)];
        order := order + [nextId];
        nextId := nextId + 1;
      }
      assert newest[..|newest|] == newest;
    }

    method RecordsForPersistence() returns (saved: seq<Record>)
      requires Valid()
      ensures saved == MapSeq(RecordOf, LogOf(State()))
    {
      saved := [];
      for i := 0 to |order|
        invariant saved == MapSeq(RecordOf, LogOf(State())[..i])
      {
        assert LogOf(State())[..i + 1] == LogOf(State())[..i] + [LogOf(State())[i]];
        saved := saved + [records[order[i]].record];
      }
      assert LogOf(State())[..|order|] == LogOf(State());
    }
  }
}
