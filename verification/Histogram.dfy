/** The in-memory hourly histogram: what each sample does, and what no sequence of samples can lose. */
module Histogram {
  import opened Bytes
  import opened Buckets

  type Mac = s: seq<byte> | |s| == 6 witness [0, 0, 0, 0, 0, 0]

  datatype SeriesKey = Iface(ifindex: u32) | Device(devIndex: u32, mac: Mac)

  datatype Sample = Sample(bps: Quad<u64>, bytes: Quad<u64>)

  datatype Row = Row(key: SeriesKey, online: bool, sample: Sample)

  type Clock = u64 -> (u64, u64)

  datatype Hist = Hist(current: map<SeriesKey, Bucket>, completed: map<SeriesKey, seq<Bucket>>)

  const EMPTY := Hist(map[], map[])
  const NO_TRAFFIC := Sample(ZERO_BYTES, ZERO_BYTES)

  function Completed(h: Hist, k: SeriesKey): seq<Bucket> {
    if k in h.completed then h.completed[k] else []
  }

  // ----- one sample

  function Max(a: u64, b: u64): u64 {
    if a >= b then a else b
  }

  function AddRate(samples: u64, r: Rate, bps: u64): Rate {
    r.(min := if samples == 0 || bps < r.min then bps else r.min, max := Max(r.max, bps), sum := SatAdd(r.sum, bps))
  }

  function AddRates(samples: u64, q: Quad<Rate>, bps: Quad<u64>): Quad<Rate> {
    Quad(AddRate(samples, q.upV4, bps.upV4), AddRate(samples, q.downV4, bps.downV4),
         AddRate(samples, q.upV6, bps.upV6), AddRate(samples, q.downV6, bps.downV6))
  }

  function AddSample(b: Bucket, m: Sample): Bucket {
    b.(bytes := AddBytes(b.bytes, m.bytes),
       rates := AddRates(b.samples, b.rates, m.bps),
       samples := (b.samples + 1) % 0x1_0000_0000_0000_0000)
  }

  function Push(h: Hist, cap: nat, k: SeriesKey, b: Bucket): Hist {
    h.(completed := h.completed[k := LastN(Completed(h, k) + [b], cap)])
  }

  /** Files a sample under its hour; a change of hour completes the previous bucket. */
  function Ingest(h: Hist, cap: nat, clock: Clock, k: SeriesKey, ts: u64, m: Sample): (Hist, Option<Bucket>) {
    var (start, end) := clock(ts);
    var open := if k in h.current then h.current[k] else EmptyBucket(start, end);
    if open.start != start then
      var g := Push(h, cap, k, open);
      (g.(current := g.current[k := AddSample(EmptyBucket(start, end), m)]), Some(Finalize(open)))
    else (h.(current := h.current[k := AddSample(open, m)]), None)
  }

  /** An offline device with an expired hour has that hour completed without an empty sample. */
  function FlushOffline(h: Hist, cap: nat, k: SeriesKey, ts: u64): (Hist, Option<Bucket>) {
    if k in h.current && h.current[k].end < ts then
      var b := Finalize(h.current[k]);
      (Push(h, cap, k, b).(current := h.current - {k}), Some(b))
    else (h, None)
  }

  function IngestRow(h: Hist, cap: nat, clock: Clock, ts: u64, row: Row): (Hist, Option<Bucket>) {
    if row.key.Device? && !row.online && row.sample == NO_TRAFFIC then FlushOffline(h, cap, row.key, ts)
    else Ingest(h, cap, clock, row.key, ts, row.sample)
  }

  datatype Emitted = Emitted(key: SeriesKey, bucket: Bucket)

  function IngestRows(h: Hist, cap: nat, clock: Clock, ts: u64, rows: seq<Row>): (Hist, seq<Emitted>) {
    if rows == [] then (h, [])
    else
      var (g, out) := IngestRows(h, cap, clock, ts, rows[..|rows| - 1]);
      var (g', b) := IngestRow(g, cap, clock, ts, rows[|rows| - 1]);
      (g', if b.Some? then out + [Emitted(rows[|rows| - 1].key, b.value)] else out)
  }

  function RestoreAll(q: seq<Bucket>, cap: nat, records: seq<Bucket>): seq<Bucket> {
    if records == [] then q
    else LastN(RestoreAll(q, cap, records[..|records| - 1]) + [records[|records| - 1]], cap)
  }

  lemma {:induction false} RestoreAllKeepsNewest(cap: nat, records: seq<Bucket>)
    ensures RestoreAll([], cap, records) == LastN(records, cap)
  {
    if records != [] {
      var front := records[..|records| - 1];
      RestoreAllKeepsNewest(cap, front);
      LastNAppend(front, records[|records| - 1], cap);
      assert records == front + [records[|records| - 1]];
    }
  }

  // ----- the object

  class HistogramHistory {
    const cap: nat
    const clock: Clock
    var current: map<SeriesKey, Bucket>
    var completed: map<SeriesKey, seq<Bucket>>

    constructor (cap: nat, clock: Clock)
      ensures this.cap == cap && this.clock == clock && State() == EMPTY
    {
      this.cap, this.clock := cap, clock;
      current, completed := map[], map[];
    }

    function State(): Hist
      reads this
    {
      Hist(current, completed)
    }

    static method TrimHistogramCompleted(queue: seq<Bucket>, cap: nat) returns (q: seq<Bucket>)
      ensures q == LastN(queue, cap)
    {
      q := queue;
      while |q| > cap
        invariant LastN(q, cap) == LastN(queue, cap)
      {
        q := q[1..];
      }
    }

    method RestoreBucket(key: SeriesKey, b: Bucket)
      modifies this
      ensures State() == Push(old(State()), cap, key, b)
    {
      var queue := if key in completed then completed[key] else [];
      queue := TrimHistogramCompleted(queue + [b], cap);
      completed := completed[key := queue];
    }

    method RestoreBuckets(key: SeriesKey, records: seq<Bucket>)
      modifies this
      ensures current == old(current)
      ensures Completed(State(), key) == RestoreAll(Completed(old(State()), key), cap, records)
      ensures forall k :: k != key ==> Completed(State(), k) == Completed(old(State()), k)
    {
      for i := 0 to |records|
        invariant current == old(current)
        invariant Completed(State(), key) == RestoreAll(Completed(old(State()), key), cap, records[..i])
        invariant forall k :: k != key ==> Completed(State(), k) == Completed(old(State()), k)
      {
        assert records[..i + 1][..i] == records[..i];
        RestoreBucket(key, records[i]);
      }
      assert records[..|records|] == records;
    }

    method IngestSeries(key: SeriesKey, ts: u64, m: Sample) returns (done: Option<Bucket>)
      modifies this
      ensures (State(), done) == Ingest(old(State()), cap, clock, key, ts, m)
    {
      var (start, end) := clock(ts);
      done := None;
      var entry := if key in current then current[key] else EmptyBucket(start, end);
      if entry.start != start {
        done := Some(Finalize(entry));
        RestoreBucket(key, entry);
        entry := EmptyBucket(start, end);
      }
      current := current[key := AddSample(entry, m)];
    }

    method IngestSnapshotCollectCompleted(ts: u64, rows: seq<Row>) returns (out: seq<Emitted>)
      modifies this
      ensures (State(), out) == IngestRows(old(State()), cap, clock, ts, rows)
    {
      out := [];
      for i := 0 to |rows|
        invariant (State(), out) == IngestRows(old(State()), cap, clock, ts, rows[..i])
      {
        assert rows[..i + 1][..i] == rows[..i];
        var row := rows[i];
        var done: Option<Bucket> := None;
        if row.key.Device? && !row.online && row.sample == NO_TRAFFIC {
          if row.key in current && current[row.key].end < ts {
            var b := Finalize(current[row.key]);
            current := current - {row.key};
            RestoreBucket(row.key, b);
            done := Some(b);
          }
        } else {
          done := IngestSeries(row.key, ts, row.sample);
        }
        if done.Some? {
          out := out + [Emitted(row.key, done.value)];
        }
      }
      assert rows[..|rows|] == rows;
    }

    method RemoveDevice(key: SeriesKey)
      modifies this
      ensures State() == Forgotten(old(State()), key)
    {
      current := current - {key};
      completed := completed - {key};
    }

    method CumulativeFromCompleted() returns (total: map<SeriesKey, Quad<u64>>)
      ensures total.Keys == completed.Keys
      ensures forall k :: k in total ==> total[k] == SumBytes(ZERO_BYTES, completed[k])
    {
      total := map[];
      var left := completed.Keys;
      while left != {}
        invariant left <= completed.Keys && total.Keys == completed.Keys - left
        invariant forall k :: k in total ==> total[k] == SumBytes(ZERO_BYTES, completed[k])
      {
        var k :| k in left;
        var acc := SumQueue(completed[k]);
        total := total[k := acc];
        left := left - {k};
      }
    }

    /** Byte totals of every series, whatever order the maps are walked in. */
    method CumulativeFromAll() returns (total: map<SeriesKey, Quad<u64>>)
      ensures total.Keys == completed.Keys + current.Keys
      ensures forall k :: k in total ==> total[k] == Cumulative(State(), k)
    {
      total := CumulativeFromCompleted();
      var left := current.Keys;
      while left != {}
        invariant left <= current.Keys && total.Keys == completed.Keys + (current.Keys - left)
        invariant forall k :: k in total ==>
                    total[k] == (if k in left then SumBytes(ZERO_BYTES, Completed(State(), k))
                                 else Cumulative(State(), k))
      {
        var k :| k in left;
        var acc := if k in total then total[k] else ZERO_BYTES;
        total := total[k := AddBytes(acc, current[k].bytes)];
        left := left - {k};
      }
    }

    static method SumQueue(q: seq<Bucket>) returns (acc: Quad<u64>)
      ensures acc == SumBytes(ZERO_BYTES, q)
    {
      acc := ZERO_BYTES;
      for i := 0 to |q|
        invariant acc == SumBytes(ZERO_BYTES, q[..i])
      {
        assert q[..i + 1][..i] == q[..i];
        acc := AddBytes(acc, q[i].bytes);
      }
      assert q[..|q|] == q;
    }
  }

  function Forgotten(h: Hist, k: SeriesKey): Hist {
    Hist(h.current - {k}, h.completed - {k})
  }

  function SumBytes(acc: Quad<u64>, q: seq<Bucket>): Quad<u64> {
    if q == [] then acc else AddBytes(SumBytes(acc, q[..|q| - 1]), q[|q| - 1].bytes)
  }

  function Cumulative(h: Hist, k: SeriesKey): Quad<u64> {
    var done := SumBytes(ZERO_BYTES, Completed(h, k));
    if k in h.current then AddBytes(done, h.current[k].bytes) else done
  }

  // ----- conservation: an unbounded ledger beside the saturating counters

  /** Exact byte counts of one series: bytes trimmed away, per kept hour, and in the open hour. */
  datatype Ledger = Ledger(trimmed: nat, done: seq<nat>, open: nat)

  /** One row of a snapshot, an hour restored from disk, or the removal of a device. */
  datatype Event =
    | Tick(ts: u64, row: Row)
    | Restore(key: SeriesKey, bucket: Bucket)
    | Forget(key: SeriesKey)

  function Step(h: Hist, cap: nat, clock: Clock, e: Event): Hist {
    match e
    case Tick(ts, row) => IngestRow(h, cap, clock, ts, row).0
    case Restore(k, b) => Push(h, cap, k, b)
    case Forget(k) => Forgotten(h, k)
  }

  function Run(cap: nat, clock: Clock, es: seq<Event>): Hist {
    if es == [] then EMPTY else Step(Run(cap, clock, es[..|es| - 1]), cap, clock, es[|es| - 1])
  }

  /** Files an hour of `n` bytes behind the kept ones; what no longer fits is trimmed. */
  function File(l: Ledger, cap: nat, n: nat): Ledger {
    var all := l.done + [n];
    var kept := LastN(all, cap);
    Ledger(l.trimmed + Sum(all[..|all| - |kept|]), kept, l.open)
  }

  /** Moves the open hour to the kept ones. */
  function Close(l: Ledger, cap: nat): Ledger {
    File(l, cap, l.open).(open := 0)
  }

  /** Whether an event completes the open hour of `k`. */
  function Closes(h: Hist, cap: nat, clock: Clock, e: Event, k: SeriesKey): bool {
    e.Tick? && e.row.key == k && IngestRow(h, cap, clock, e.ts, e.row).1.Some?
  }

  function KeyOf(e: Event): SeriesKey {
    if e.Tick? then e.row.key else e.key
  }

  /** The bytes an event brings. */
  function BytesOf(e: Event, c: Channel): nat {
    match e
    case Tick(_, row) => Get(row.sample.bytes, c)
    case Restore(_, b) => Get(b.bytes, c)
    case Forget(_) => 0
  }

  function LedgerStep(l: Ledger, cap: nat, e: Event, closes: bool, k: SeriesKey, c: Channel): Ledger {
    if KeyOf(e) != k then l
    else
      match e
      case Forget(_) => Ledger(0, [], 0)
      case Restore(_, _) => File(l, cap, BytesOf(e, c))
      case Tick(_, _) =>
        var m := if closes then Close(l, cap) else l;
        m.(open := m.open + BytesOf(e, c))
  }

  function LedgerOf(cap: nat, clock: Clock, es: seq<Event>, k: SeriesKey, c: Channel): Ledger {
    if es == [] then Ledger(0, [], 0)
    else
      var front, e := es[..|es| - 1], es[|es| - 1];
      LedgerStep(LedgerOf(cap, clock, front, k, c), cap, e, Closes(Run(cap, clock, front), cap, clock, e, k), k, c)
  }

  /** Every byte sampled or restored for `k` since it was last forgotten. */
  function Sampled(es: seq<Event>, k: SeriesKey, c: Channel): nat {
    if es == [] then 0
    else
      var before, e := Sampled(es[..|es| - 1], k, c), es[|es| - 1];
      if KeyOf(e) != k then before else if e.Forget? then 0 else before + BytesOf(e, c)
  }

  function OpenBytes(h: Hist, k: SeriesKey, c: Channel): u64 {
    if k in h.current then Get(h.current[k].bytes, c) else 0
  }

  /** Hour by hour, the counter holds the exact number of bytes, saturated once. */
  ghost predicate HoursMatch(q: seq<Bucket>, exact: seq<nat>, c: Channel) {
    && |q| == |exact|
    && (q != [] ==>
          && Get(q[|q| - 1].bytes, c) == Cap64(exact[|q| - 1])
          && HoursMatch(q[..|q| - 1], exact[..|q| - 1], c))
  }

  lemma {:induction false} HoursMatchIff(q: seq<Bucket>, exact: seq<nat>, c: Channel)
    ensures HoursMatch(q, exact, c)
       <==> |q| == |exact| && forall i :: 0 <= i < |q| ==> Get(q[i].bytes, c) == Cap64(exact[i])
  {
    if q != [] && |q| == |exact| {
      HoursMatchIff(q[..|q| - 1], exact[..|q| - 1], c);
    }
  }

  lemma NewestHoursMatch(q: seq<Bucket>, exact: seq<nat>, c: Channel, b: Bucket, n: nat, cap: nat)
    requires HoursMatch(q, exact, c) && Get(b.bytes, c) == Cap64(n)
    ensures HoursMatch(LastN(q + [b], cap), LastN(exact + [n], cap), c)
  {
    HoursMatchIff(q, exact, c);
    HoursMatchIff(LastN(q + [b], cap), LastN(exact + [n], cap), c);
  }

  ghost predicate Matches(h: Hist, k: SeriesKey, c: Channel, l: Ledger) {
    && HoursMatch(Completed(h, k), l.done, c)
    && OpenBytes(h, k, c) == Cap64(l.open)
    && (k !in h.current ==> l.open == 0)
  }

  lemma {:induction false} SumAppend(s: seq<nat>, t: seq<nat>)
    ensures Sum(s + t) == Sum(s) + Sum(t)
  {
    if t == [] {
      assert s + t == s;
    } else {
      assert (s + t)[..|s + t| - 1] == s + t[..|t| - 1];
      SumAppend(s, t[..|t| - 1]);
    }
  }

  lemma FileConserves(l: Ledger, cap: nat, n: nat)
    ensures var m := File(l, cap, n); m.trimmed + Sum(m.done) == l.trimmed + Sum(l.done) + n
  {
    var all := l.done + [n];
    var kept := LastN(all, cap);
    SumAppend(all[..|all| - |kept|], kept);
    assert all == all[..|all| - |kept|] + kept;
    assert all[..|l.done|] == l.done;
  }

  lemma AddSampleBytes(b: Bucket, m: Sample, c: Channel)
    ensures Get(AddSample(b, m).bytes, c) == SatAdd(Get(b.bytes, c), Get(m.bytes, c))
  {
  }

  lemma StepMatches(h: Hist, cap: nat, clock: Clock, ts: u64, row: Row, c: Channel, l: Ledger)
    requires Matches(h, row.key, c, l)
    ensures var (g, done) := IngestRow(h, cap, clock, ts, row);
            var m := if done.Some? then Close(l, cap) else l;
            Matches(g, row.key, c, m.(open := m.open + Get(row.sample.bytes, c)))
  {
    if row.key.Device? && !row.online && row.sample == NO_TRAFFIC {
      FlushMatches(h, cap, row.key, ts, c, l);
    } else {
      IngestMatches(h, cap, clock, row.key, ts, row.sample, c, l);
    }
  }

  lemma FlushMatches(h: Hist, cap: nat, k: SeriesKey, ts: u64, c: Channel, l: Ledger)
    requires Matches(h, k, c, l)
    ensures var (g, done) := FlushOffline(h, cap, k, ts);
            Matches(g, k, c, if done.Some? then Close(l, cap) else l)
  {
    if k in h.current {
      NewestHoursMatch(Completed(h, k), l.done, c, Finalize(h.current[k]), l.open, cap);
    }
  }

  lemma IngestMatches(h: Hist, cap: nat, clock: Clock, k: SeriesKey, ts: u64, m: Sample, c: Channel, l: Ledger)
    requires Matches(h, k, c, l)
    ensures var (g, done) := Ingest(h, cap, clock, k, ts, m);
            var n := if done.Some? then Close(l, cap) else l;
            Matches(g, k, c, n.(open := n.open + Get(m.bytes, c)))
  {
    var (start, end) := clock(ts);
    var open := if k in h.current then h.current[k] else EmptyBucket(start, end);
    AddSampleBytes(open, m, c);
    AddSampleBytes(EmptyBucket(start, end), m, c);
    NewestHoursMatch(Completed(h, k), l.done, c, open, l.open, cap);
  }

  lemma RestoreMatches(h: Hist, cap: nat, k: SeriesKey, b: Bucket, c: Channel, l: Ledger)
    requires Matches(h, k, c, l)
    ensures Matches(Push(h, cap, k, b), k, c, File(l, cap, Get(b.bytes, c)))
  {
    NewestHoursMatch(Completed(h, k), l.done, c, b, Get(b.bytes, c), cap);
  }

  lemma OtherSeriesUntouched(h: Hist, cap: nat, clock: Clock, ts: u64, row: Row, k: SeriesKey)
    requires k != row.key
    ensures var g := IngestRow(h, cap, clock, ts, row).0;
            Completed(g, k) == Completed(h, k) && (k in g.current <==> k in h.current)
            && (k in h.current ==> g.current[k] == h.current[k])
  {
  }

  lemma OtherMatches(h: Hist, cap: nat, clock: Clock, e: Event, k: SeriesKey, c: Channel, l: Ledger)
    requires Matches(h, k, c, l) && KeyOf(e) != k
    ensures Matches(Step(h, cap, clock, e), k, c, l)
  {
    if e.Tick? {
      OtherSeriesUntouched(h, cap, clock, e.ts, e.row, k);
    }
    assert Completed(Step(h, cap, clock, e), k) == Completed(h, k);
  }

  lemma TickMatches(h: Hist, cap: nat, clock: Clock, e: Event, k: SeriesKey, c: Channel, l: Ledger, closes: bool)
    requires Matches(h, k, c, l) && e.Tick? && e.row.key == k && closes == Closes(h, cap, clock, e, k)
    ensures Matches(Step(h, cap, clock, e), k, c, LedgerStep(l, cap, e, closes, k, c))
  {
    StepMatches(h, cap, clock, e.ts, e.row, c, l);
  }

  lemma EventMatches(h: Hist, cap: nat, clock: Clock, e: Event, k: SeriesKey, c: Channel, l: Ledger, closes: bool)
    requires Matches(h, k, c, l) && closes == Closes(h, cap, clock, e, k)
    ensures Matches(Step(h, cap, clock, e), k, c, LedgerStep(l, cap, e, closes, k, c))
  {
    if KeyOf(e) != k {
      OtherMatches(h, cap, clock, e, k, c, l);
    } else if e.Tick? {
      TickMatches(h, cap, clock, e, k, c, l, closes);
    } else if e.Restore? {
      RestoreMatches(h, cap, k, e.bucket, c, l);
    }
  }

  lemma {:induction false} LedgerTracks(cap: nat, clock: Clock, es: seq<Event>, k: SeriesKey, c: Channel)
    ensures Matches(Run(cap, clock, es), k, c, LedgerOf(cap, clock, es, k, c))
  {
    if es != [] {
      var front := es[..|es| - 1];
      LedgerTracks(cap, clock, front, k, c);
      var h, e := Run(cap, clock, front), es[|es| - 1];
      EventMatches(h, cap, clock, e, k, c, LedgerOf(cap, clock, front, k, c), Closes(h, cap, clock, e, k));
    }
  }

  function Total(l: Ledger): nat {
    l.trimmed + Sum(l.done) + l.open
  }

  lemma LedgerStepConserves(l: Ledger, cap: nat, e: Event, closes: bool, k: SeriesKey, c: Channel)
    requires KeyOf(e) == k && !e.Forget?
    ensures Total(LedgerStep(l, cap, e, closes, k, c)) == Total(l) + BytesOf(e, c)
  {
    FileConserves(l, cap, if e.Restore? then BytesOf(e, c) else l.open);
  }

  lemma {:induction false} LedgerConserves(cap: nat, clock: Clock, es: seq<Event>, k: SeriesKey, c: Channel)
    ensures Total(LedgerOf(cap, clock, es, k, c)) == Sampled(es, k, c)
  {
    if es != [] {
      var front, e := es[..|es| - 1], es[|es| - 1];
      LedgerConserves(cap, clock, front, k, c);
      if KeyOf(e) == k && !e.Forget? {
        LedgerStepConserves(
          LedgerOf(cap, clock, front, k, c), cap, e, Closes(Run(cap, clock, front), cap, clock, e, k), k, c);
      }
    }
  }

  lemma {:induction false} SatSum(q: seq<Bucket>, s: seq<nat>, c: Channel)
    requires HoursMatch(q, s, c)
    ensures Get(SumBytes(ZERO_BYTES, q), c) == Cap64(Sum(s))
  {
    if q != [] {
      SatSum(q[..|q| - 1], s[..|s| - 1], c);
    }
  }

  /**
   * After any run the reported total of a series is the exact number of bytes sampled for it, less those in
   * trimmed hours, saturated once: neither hour boundaries nor intermediate saturation lose anything else.
   */
  lemma BytesConserved(cap: nat, clock: Clock, es: seq<Event>, k: SeriesKey, c: Channel)
    ensures var l := LedgerOf(cap, clock, es, k, c);
            && l.trimmed <= Sampled(es, k, c)
            && Get(Cumulative(Run(cap, clock, es), k), c) == Cap64(Sampled(es, k, c) - l.trimmed)
  {
    LedgerTracks(cap, clock, es, k, c);
    LedgerConserves(cap, clock, es, k, c);
    ReportedTotal(Run(cap, clock, es), k, c, LedgerOf(cap, clock, es, k, c), Sampled(es, k, c));
  }

  lemma ReportedTotal(h: Hist, k: SeriesKey, c: Channel, l: Ledger, n: nat)
    requires Matches(h, k, c, l) && Total(l) == n
    ensures l.trimmed <= n && Get(Cumulative(h, k), c) == Cap64(n - l.trimmed)
  {
    SatSum(Completed(h, k), l.done, c);
  }

  function CountStep(n: nat, e: Event, closes: bool, k: SeriesKey): nat {
    if KeyOf(e) != k then n else if e.Forget? then 0 else if e.Restore? || closes then n + 1 else n
  }

  /** The hours of `k` completed or restored since it was last forgotten. */
  function Completions(cap: nat, clock: Clock, es: seq<Event>, k: SeriesKey): nat {
    if es == [] then 0
    else
      var front, e := es[..|es| - 1], es[|es| - 1];
      CountStep(Completions(cap, clock, front, k), e, Closes(Run(cap, clock, front), cap, clock, e, k), k)
  }

  ghost predicate Counted(l: Ledger, n: nat, cap: nat) {
    |l.done| == Min(n, cap) && (n <= cap ==> l.trimmed == 0)
  }

  lemma StepCounts(l: Ledger, n: nat, cap: nat, e: Event, closes: bool, k: SeriesKey, c: Channel)
    requires Counted(l, n, cap) && (closes ==> e.Tick?)
    ensures Counted(LedgerStep(l, cap, e, closes, k, c), CountStep(n, e, closes, k), cap)
  {
  }

  lemma {:induction false} LedgerCounts(cap: nat, clock: Clock, es: seq<Event>, k: SeriesKey, c: Channel)
    ensures Counted(LedgerOf(cap, clock, es, k, c), Completions(cap, clock, es, k), cap)
  {
    if es != [] {
      var front, e := es[..|es| - 1], es[|es| - 1];
      LedgerCounts(cap, clock, front, k, c);
      StepCounts(LedgerOf(cap, clock, front, k, c), Completions(cap, clock, front, k), cap, e,
                 Closes(Run(cap, clock, front), cap, clock, e, k), k, c);
    }
  }

  /** As many hours are kept as were completed, up to `cap`, and nothing is trimmed until there were more than that. */
  lemma NothingTrimmedEarly(cap: nat, clock: Clock, es: seq<Event>, k: SeriesKey, c: Channel)
    ensures var n := Completions(cap, clock, es, k);
            |Completed(Run(cap, clock, es), k)| == Min(n, cap)
            && (n <= cap ==> LedgerOf(cap, clock, es, k, c).trimmed == 0)
  {
    LedgerTracks(cap, clock, es, k, c);
    LedgerCounts(cap, clock, es, k, c);
  }

  /** The rows of one snapshot as single events. */
  function Ticks(ts: u64, rows: seq<Row>): seq<Event> {
    if rows == [] then [] else Ticks(ts, rows[..|rows| - 1]) + [Tick(ts, rows[|rows| - 1])]
  }

  lemma RunOneMore(cap: nat, clock: Clock, es: seq<Event>, e: Event)
    ensures Run(cap, clock, es + [e]) == Step(Run(cap, clock, es), cap, clock, e)
  {
    assert (es + [e])[..|es|] == es;
  }

  /** Ingesting a snapshot is ingesting its rows one by one, so what holds over runs of rows holds over snapshots. */
  lemma {:induction false} SnapshotIsItsRows(cap: nat, clock: Clock, es: seq<Event>, ts: u64, rows: seq<Row>)
    ensures IngestRows(Run(cap, clock, es), cap, clock, ts, rows).0 == Run(cap, clock, es + Ticks(ts, rows))
  {
    if rows == [] {
      assert es + [] == es;
    } else {
      var front, last := rows[..|rows| - 1], rows[|rows| - 1];
      SnapshotIsItsRows(cap, clock, es, ts, front);
      assert es + Ticks(ts, rows) == (es + Ticks(ts, front)) + [Tick(ts, last)];
      RunOneMore(cap, clock, es + Ticks(ts, front), Tick(ts, last));
    }
  }

  /** Restoring a ring's records is restoring them one by one. */
  function Restores(k: SeriesKey, records: seq<Bucket>): seq<Event> {
    if records == [] then [] else Restores(k, records[..|records| - 1]) + [Restore(k, records[|records| - 1])]
  }

  lemma {:induction false} RestoringIsItsRecords(
      cap: nat, clock: Clock, es: seq<Event>, k: SeriesKey, records: seq<Bucket>)
    ensures Completed(Run(cap, clock, es + Restores(k, records)), k)
         == RestoreAll(Completed(Run(cap, clock, es), k), cap, records)
  {
    if records == [] {
      assert es + [] == es;
    } else {
      var front, last := records[..|records| - 1], records[|records| - 1];
      RestoringIsItsRecords(cap, clock, es, k, front);
      assert es + Restores(k, records) == (es + Restores(k, front)) + [Restore(k, last)];
      RunOneMore(cap, clock, es + Restores(k, front), Restore(k, last));
    }
  }
}
