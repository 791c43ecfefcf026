/** The histogram and its ring files together: a restart reproduces the completed hours held in memory. */
module Restart {
  import opened Bytes
  import opened Buckets
  import opened Histogram
  import opened RingCrash
  import opened RingFile
  import opened RingStore

  datatype System = System(hist: Hist, rings: map<SeriesKey, seq<byte>>, cap: u32)

  function Boot(cap: u32): System {
    System(EMPTY, map[], cap)
  }

  /**
   * One collector tick with its appends, the removal of a stale device, or a process restart: `found` are the rings on
   * disk, which the old process left when it stopped while working with capacity `tried`, and `cap` is the new one.
   */
  datatype Action =
    | Snapshot(ts: u64, rows: seq<Row>)
    | Remove(key: SeriesKey)
    | Reboot(found: map<SeriesKey, seq<byte>>, tried: u32, cap: u32, current: map<SeriesKey, Bucket>)

  function RingOf(rings: map<SeriesKey, seq<byte>>, k: SeriesKey): Option<seq<byte>> {
    if k in rings then Some(rings[k]) else None
  }

  ghost function AppendOne(rings: map<SeriesKey, seq<byte>>, cap: u32, e: Emitted): map<SeriesKey, seq<byte>> {
    var r := Appended(RingOf(rings, e.key), cap, e.bucket);
    if r.Some? then rings[e.key := r.value] else rings
  }

  ghost function AppendAll(rings: map<SeriesKey, seq<byte>>, cap: u32, out: seq<Emitted>): map<SeriesKey, seq<byte>> {
    if out == [] then rings else AppendOne(AppendAll(rings, cap, out[..|out| - 1]), cap, out[|out| - 1])
  }

  /** Opening resizes or migrates; then every record read is restored in order. */
  ghost function Loaded(content: Option<seq<byte>>, cap: u32): seq<Bucket> {
    var ring := Opened(content, cap);
    if ring.None? then [] else RestoreAll([], cap, Returned(ring))
  }

  ghost function Rebooted(found: map<SeriesKey, seq<byte>>, cap: u32, current: map<SeriesKey, Bucket>): System {
    System(Hist(current, map k | k in found :: Loaded(Some(found[k]), cap)),
           map k | k in found :: if Opened(Some(found[k]), cap).Some? then Opened(Some(found[k]), cap).value
                                 else found[k],
           cap)
  }

  ghost predicate Possible(s: System, a: Action) {
    a.Reboot? ==>
      0 < a.tried && 0 < a.cap && forall k :: LeftBehind(RingOf(s.rings, k), a.tried, RingOf(a.found, k))
  }

  ghost function Act(s: System, clock: Clock, a: Action): System {
    match a
    case Snapshot(ts, rows) =>
      var (h, out) := IngestRows(s.hist, s.cap, clock, ts, rows);
      s.(hist := h, rings := AppendAll(s.rings, s.cap, out))
    case Remove(k) => s.(hist := Forgotten(s.hist, k), rings := s.rings - {k})
    case Reboot(found, _, cap, current) => Rebooted(found, cap, current)
  }

  ghost function RunAll(cap: u32, clock: Clock, run: seq<Action>): System {
    if run == [] then Boot(cap) else Act(RunAll(cap, clock, run[..|run| - 1]), clock, run[|run| - 1])
  }

  ghost predicate PossibleRun(cap: u32, clock: Clock, run: seq<Action>) {
    run == []
    || (PossibleRun(cap, clock, run[..|run| - 1]) && Possible(RunAll(cap, clock, run[..|run| - 1]), run[|run| - 1]))
  }

  /** The ring of `k` shows exactly the completed hours of `k`, finalized. */
  ghost predicate InStep(h: Hist, rings: map<SeriesKey, seq<byte>>, k: SeriesKey) {
    && WellPlaced(RingOf(rings, k))
    && Contents(RingOf(rings, k)) == Some(MapSeq(Finalize, Completed(h, k)))
  }

  lemma PushInStep(h: Hist, rings: map<SeriesKey, seq<byte>>, cap: u32, k: SeriesKey, b: Bucket)
    requires 0 < cap && InStep(h, rings, k)
    ensures InStep(Push(h, cap, k, b), AppendOne(rings, cap, Emitted(k, Finalize(b))), k)
  {
    var q := Completed(h, k);
    AppendKeepsNewest(RingOf(rings, k), cap, Finalize(b));
    MapNewest(Finalize, q, b, cap);
  }

  lemma RowInStep(h: Hist, rings: map<SeriesKey, seq<byte>>, cap: u32, clock: Clock, ts: u64, row: Row, k: SeriesKey)
    requires 0 < cap && InStep(h, rings, k)
    ensures var (g, b) := IngestRow(h, cap, clock, ts, row);
            InStep(g, if b.Some? then AppendOne(rings, cap, Emitted(row.key, b.value)) else rings, k)
  {
    if k != row.key {
      OtherSeriesUntouched(h, cap, clock, ts, row, k);
    } else {
      var y := RowEffect(h, cap, clock, ts, row);
      SeriesInStep(h, IngestRow(h, cap, clock, ts, row).0, rings, cap, k, IngestRow(h, cap, clock, ts, row).1, y);
    }
  }

  /** A completed hour reaches the queue, finalized or not, and the ring, finalized. */
  lemma RowEffect(h: Hist, cap: nat, clock: Clock, ts: u64, row: Row) returns (y: Bucket)
    ensures var (g, b) := IngestRow(h, cap, clock, ts, row);
            if b.None? then Completed(g, row.key) == Completed(h, row.key)
            else b.value == Finalize(y) && Completed(g, row.key) == LastN(Completed(h, row.key) + [y], cap)
  {
    y := if row.key in h.current then h.current[row.key] else EmptyBucket(0, 0);
    if row.key.Device? && !row.online && row.sample == NO_TRAFFIC {
      FinalizeTwice(y);
      y := Finalize(y);
    }
  }

  lemma SeriesInStep(
    h: Hist, g: Hist, rings: map<SeriesKey, seq<byte>>, cap: u32, k: SeriesKey, b: Option<Bucket>, y: Bucket)
    requires 0 < cap && InStep(h, rings, k)
    requires b.None? ==> Completed(g, k) == Completed(h, k)
    requires b.Some? ==> b.value == Finalize(y) && Completed(g, k) == LastN(Completed(h, k) + [y], cap)
    ensures InStep(g, if b.Some? then AppendOne(rings, cap, Emitted(k, b.value)) else rings, k)
  {
    if b.Some? {
      PushInStep(h, rings, cap, k, y);
    }
  }

  lemma {:induction false} RowsInStep(
      h: Hist, rings: map<SeriesKey, seq<byte>>, cap: u32, clock: Clock, ts: u64, rows: seq<Row>, k: SeriesKey)
    requires 0 < cap && InStep(h, rings, k)
    ensures var (g, out) := IngestRows(h, cap, clock, ts, rows); InStep(g, AppendAll(rings, cap, out), k)
  {
    if rows != [] {
      var front, row := rows[..|rows| - 1], rows[|rows| - 1];
      RowsInStep(h, rings, cap, clock, ts, front, k);
      var (g, out) := IngestRows(h, cap, clock, ts, front);
      RowInStep(g, AppendAll(rings, cap, out), cap, clock, ts, row, k);
      var b := IngestRow(g, cap, clock, ts, row).1;
      if b.Some? {
        var more := out + [Emitted(row.key, b.value)];
        assert more[..|more| - 1] == out;
      }
    }
  }

  lemma LoadedInStep(found: Option<seq<byte>>, cap: u32, q: seq<Bucket>)
    requires 0 < cap && Opened(found, cap).Some? && Contents(Opened(found, cap)) == Some(LastN(q, cap))
    ensures Loaded(found, cap) == LastN(q, cap)
  {
    RestoreAllKeepsNewest(cap, LastN(q, cap));
  }

  lemma FinalizedTwice(q: seq<Bucket>, cap: u32)
    ensures MapSeq(Finalize, LastN(MapSeq(Finalize, q), cap)) == LastN(MapSeq(Finalize, q), cap)
  {
    var f := MapSeq(Finalize, q);
    forall i | 0 <= i < |f|
      ensures Finalize(Finalize(q[i])) == Finalize(q[i])
    {
      FinalizeTwice(q[i]);
    }
    MapTwice(Finalize, q, cap);
  }

  /** A restart finds the newest hours, however the old process stopped, unless it was overwriting or in a header. */
  lemma RebootKeepsNewest(s: System, a: Action, k: SeriesKey)
    requires a.Reboot? && Possible(s, a) && InStep(s.hist, s.rings, k)
    ensures var t, q := Rebooted(a.found, a.cap, a.current), MapSeq(Finalize, Completed(s.hist, k));
            && InStep(t.hist, t.rings, k)
            && (Completed(t.hist, k) == LastN(q, a.cap) || Completed(t.hist, k) == LastN(LastN(q, a.tried), a.cap))
  {
    var content, found := RingOf(s.rings, k), RingOf(a.found, k);
    var t, q := Rebooted(a.found, a.cap, a.current), MapSeq(Finalize, Completed(s.hist, k));
    LeftBehindReopens(content, a.tried, found, a.cap);
    if k in a.found {
      var kept := if Contents(Opened(found, a.cap)) == Some(LastN(q, a.cap)) then q else LastN(q, a.tried);
      LoadedInStep(found, a.cap, kept);
      FinalizedTwice(Completed(s.hist, k), a.cap);
      LoadedTwice(Completed(s.hist, k), a.tried, a.cap);
      assert Completed(t.hist, k) == LastN(kept, a.cap);
    } else {
      NothingFound(content, a.tried);
      assert q == [] && k !in t.rings && k !in t.hist.completed;
    }
  }

  lemma LoadedTwice(q: seq<Bucket>, tried: u32, cap: u32)
    ensures var f := LastN(LastN(MapSeq(Finalize, q), tried), cap); MapSeq(Finalize, f) == f
  {
    var f := MapSeq(Finalize, q);
    forall i | 0 <= i < |f|
      ensures Finalize(f[i]) == f[i]
    {
      FinalizeTwice(q[i]);
    }
  }

  /** A ring that is missing afterwards was missing before. */
  lemma NothingFound(content: Option<seq<byte>>, tried: u32)
    requires 0 < tried && WellPlaced(content) && Contents(content).Some? && LeftBehind(content, tried, None)
    ensures content == None
  {
    if content.Some? {
      OpenKeepsNewest(content, tried);
    }
  }

  /** After every step the rings show the completed hours; no more are kept than the capacity. */
  lemma {:induction false} RingsStayInStep(cap: u32, clock: Clock, run: seq<Action>, k: SeriesKey)
    requires 0 < cap && PossibleRun(cap, clock, run)
    ensures var s := RunAll(cap, clock, run);
            0 < s.cap && InStep(s.hist, s.rings, k) && |Completed(s.hist, k)| <= s.cap
  {
    if run != [] {
      var s, a := RunAll(cap, clock, run[..|run| - 1]), run[|run| - 1];
      RingsStayInStep(cap, clock, run[..|run| - 1], k);
      match a
      case Snapshot(ts, rows) =>
        RowsInStep(s.hist, s.rings, s.cap, clock, ts, rows, k);
        RowsBounded(s.hist, s.cap, clock, ts, rows, k);
      case Remove(key) =>
      case Reboot(_, _, _, _) =>
        RebootKeepsNewest(s, a, k);
    }
  }

  lemma {:induction false} RowsBounded(h: Hist, cap: u32, clock: Clock, ts: u64, rows: seq<Row>, k: SeriesKey)
    requires |Completed(h, k)| <= cap
    ensures |Completed(IngestRows(h, cap, clock, ts, rows).0, k)| <= cap
  {
    if rows != [] {
      RowsBounded(h, cap, clock, ts, rows[..|rows| - 1], k);
    }
  }

  /**
   * After any run of snapshots, removals and restarts, a restart with any capacity restores the newest completed hours
   * of every series: the same hours in the same order, finalized, and if all fit with the same byte totals.
   */
  lemma RestartReproducesMemory(cap: u32, clock: Clock, run: seq<Action>, k: SeriesKey, next: u32)
    requires 0 < cap && 0 < next && PossibleRun(cap, clock, run)
    ensures var s := RunAll(cap, clock, run);
            var loaded, done := Loaded(RingOf(s.rings, k), next), Completed(s.hist, k);
            && loaded == LastN(MapSeq(Finalize, done), next)
            && (|done| <= next ==> SumBytes(ZERO_BYTES, loaded) == SumBytes(ZERO_BYTES, done))
  {
    RingsStayInStep(cap, clock, run, k);
    var s := RunAll(cap, clock, run);
    OpenKeepsNewest(RingOf(s.rings, k), next);
    LoadedInStep(RingOf(s.rings, k), next, MapSeq(Finalize, Completed(s.hist, k)));
    FinalizedBytes(Completed(s.hist, k));
  }

  lemma {:induction false} FinalizedBytes(q: seq<Bucket>)
    ensures SumBytes(ZERO_BYTES, MapSeq(Finalize, q)) == SumBytes(ZERO_BYTES, q)
  {
    if q != [] {
      FinalizedBytes(q[..|q| - 1]);
      assert MapSeq(Finalize, q)[..|q| - 1] == MapSeq(Finalize, q[..|q| - 1]);
    }
  }

  /** Start-up for one ring file: resize or migrate it, read it back, and restore what was read. */
  method LoadSeries(store: Store, history: HistogramHistory, id: seq<byte>, key: SeriesKey, cap: u32, now: u64)
    returns (ok: bool)
    requires history.cap == cap && 0 < cap
    requires Ring(id) in store.files && key !in history.completed
    modifies store, history
    ensures ok <==> Opened(At(old(store.files), id), cap).Some? && !Blocked(old(store.files), id, cap, now)
    ensures ok ==> Completed(history.State(), key) == Loaded(At(old(store.files), id), cap)
    ensures forall k :: k != key ==> Completed(history.State(), k) == Completed(old(history.State()), k)
    ensures history.current == old(history.current)
  {
    ok := store.OpenOrCreateRing(id, cap, now);
    if ok {
      ReadableInPart(store.files[Ring(id)], UNLIMITED);
      var records := store.ReadRingRecordsLimited(id, UNLIMITED, now);
      history.RestoreBuckets(key, records);
    }
  }
}
