/** Which hour a sample is filed under, and what each hour of a run therefore holds. */
module Hours {
  import opened Bytes
  import opened Buckets
  import opened Histogram

  // ----- the samples of a run, hour by hour

  /** Every row is a sample, except that of an offline device without traffic. */
  predicate IsSample(e: Event, k: SeriesKey) {
    e.Tick? && e.row.key == k
    && (k.Device? && !e.row.online ==> e.row.sample != Sample(Quad(0, 0, 0, 0), Quad(0, 0, 0, 0)))
  }

  predicate IsTick(e: Event, k: SeriesKey) {
    e.Tick? && e.row.key == k
  }

  /** The samples of `k`, since it was last forgotten, whose hour starts at `s`. */
  function SamplesIn(es: seq<Event>, clock: Clock, k: SeriesKey, s: u64): seq<Sample> {
    if es == [] then []
    else
      var before, e := SamplesIn(es[..|es| - 1], clock, k, s), es[|es| - 1];
      if e == Forget(k) then []
      else if IsSample(e, k) && clock(e.ts).0 == s then before + [e.row.sample]
      else before
  }

  /** The time of the last sample of `k` since it was last forgotten. */
  function LastSample(es: seq<Event>, k: SeriesKey): Option<u64> {
    if es == [] then None
    else
      var e := es[|es| - 1];
      if e == Forget(k) then None else if IsSample(e, k) then Some(e.ts) else LastSample(es[..|es| - 1], k)
  }

  function LastTick(es: seq<Event>, k: SeriesKey): Option<u64> {
    if es == [] then None
    else if IsTick(es[|es| - 1], k) then Some(es[|es| - 1].ts)
    else LastTick(es[..|es| - 1], k)
  }

  /** From one time to the next neither the time nor its hour runs backwards, and an hour keeps its end. */
  predicate Onward(clock: Clock, t: u64, u: u64) {
    && t <= u && clock(t).0 <= clock(u).0
    && (clock(t).0 == clock(u).0 ==> clock(t).1 == clock(u).1)
  }

  /** The rows of `k` come in order, none after the end of its hour. */
  predicate Orderly(es: seq<Event>, clock: Clock, k: SeriesKey) {
    es != [] ==>
      var front, e := es[..|es| - 1], es[|es| - 1];
      && Orderly(front, clock, k)
      && (IsTick(e, k) ==>
            e.ts <= clock(e.ts).1
            && var last := LastTick(front, k); last.Some? ==> Onward(clock, last.value, e.ts))
  }

  lemma {:induction false} LastSampleIsBeforeLastTick(es: seq<Event>, clock: Clock, k: SeriesKey)
    requires Orderly(es, clock, k) && LastSample(es, k).Some?
    ensures LastTick(es, k).Some? && Onward(clock, LastSample(es, k).value, LastTick(es, k).value)
  {
    var front, e := es[..|es| - 1], es[|es| - 1];
    if !IsSample(e, k) {
      LastSampleIsBeforeLastTick(front, clock, k);
    }
  }

  /** No sample was filed under a later hour than the last one. */
  lemma {:induction false} LastHourIsLatest(es: seq<Event>, clock: Clock, k: SeriesKey, s: u64)
    requires Orderly(es, clock, k) && SamplesIn(es, clock, k, s) != []
    ensures LastSample(es, k).Some? && s <= clock(LastSample(es, k).value).0
  {
    var front, e := es[..|es| - 1], es[|es| - 1];
    if SamplesIn(front, clock, k, s) != [] {
      LastHourIsLatest(front, clock, k, s);
      LastSampleIsBeforeLastTick(front, clock, k);
    }
  }

  // ----- what a bucket holds

  function BytesIn(list: seq<Sample>, c: Channel): nat {
    if list == [] then 0 else BytesIn(list[..|list| - 1], c) + Get(list[|list| - 1].bytes, c)
  }

  function RatesIn(list: seq<Sample>, c: Channel): (r: seq<u64>)
    ensures |r| == |list|
  {
    if list == [] then [] else RatesIn(list[..|list| - 1], c) + [Get(list[|list| - 1].bps, c)]
  }

  /** The sum of the rates, the largest and the smallest. (After 2^64 samples the minimum starts over.) */
  ghost predicate HoldsRates(r: Rate, vs: seq<u64>) {
    && r.sum == Cap64(Sum(vs))
    && (if vs == [] then r.max == 0 else r.max in vs && forall v :: v in vs ==> v <= r.max)
    && (0 < |vs| < 0x1_0000_0000_0000_0000 ==> r.min in vs && forall v :: v in vs ==> r.min <= v)
  }

  ghost predicate HoldsChannel(b: Bucket, list: seq<Sample>, c: Channel) {
    Get(b.bytes, c) == Cap64(BytesIn(list, c)) && HoldsRates(RateIn(b.rates, c), RatesIn(list, c))
  }

  /** The bucket holds exactly the samples of `list`. */
  ghost predicate Holds(b: Bucket, list: seq<Sample>) {
    b.samples == |list| % 0x1_0000_0000_0000_0000 && forall c: Channel :: HoldsChannel(b, list, c)
  }

  lemma RateGrows(samples: u64, r: Rate, vs: seq<u64>, v: u64)
    requires HoldsRates(r, vs) && samples == |vs| % 0x1_0000_0000_0000_0000
    ensures HoldsRates(AddRate(samples, r, v), vs + [v])
  {
    var more, s := vs + [v], AddRate(samples, r, v);
    assert more[..|vs|] == vs;
    assert more[|vs|] == v && v in more;
    assert forall x :: x in more <==> x in vs || x == v;
    assert Sum(more) == Sum(vs) + v;
  }

  lemma ChannelGrows(b: Bucket, list: seq<Sample>, m: Sample, c: Channel)
    requires HoldsChannel(b, list, c) && b.samples == |list| % 0x1_0000_0000_0000_0000
    ensures HoldsChannel(AddSample(b, m), list + [m], c)
  {
    var more := list + [m];
    assert more[..|list|] == list;
    RateGrows(b.samples, RateIn(b.rates, c), RatesIn(list, c), Get(m.bps, c));
    AddSampleBytes(b, m, c);
  }

  lemma BucketGrows(b: Bucket, list: seq<Sample>, m: Sample)
    requires Holds(b, list)
    ensures Holds(AddSample(b, m), list + [m])
  {
    forall c: Channel
      ensures HoldsChannel(AddSample(b, m), list + [m], c)
    {
      ChannelGrows(b, list, m, c);
    }
  }

  lemma EmptyHolds(start: u64, end: u64)
    ensures Holds(EmptyBucket(start, end), [])
  {
  }

  /** Finalizing fills in the average and the 95th percentile and leaves the rest. */
  lemma FinalizedHolds(b: Bucket, list: seq<Sample>)
    requires Holds(b, list)
    ensures Holds(Finalize(b), list) && Finalize(b).start == b.start && Finalize(b).end == b.end
  {
    forall c: Channel
      ensures HoldsChannel(Finalize(b), list, c)
    {
      assert HoldsChannel(b, list, c);
    }
  }

  // ----- one row

  /** A sample ends up in the hour of its time; the open hour is completed exactly when it is another one. */
  lemma SampleGoesToItsHour(h: Hist, cap: nat, clock: Clock, k: SeriesKey, ts: u64, m: Sample)
    ensures var (g, done) := Ingest(h, cap, clock, k, ts, m);
            && k in g.current && g.current[k].start == clock(ts).0
            && (done.Some? <==> k in h.current && h.current[k].start != clock(ts).0)
            && (k in h.current && h.current[k].start == clock(ts).0 ==>
                  g == h.(current := h.current[k := AddSample(h.current[k], m)]))
            && (k !in h.current || done.Some? ==>
                  g.current[k] == AddSample(EmptyBucket(clock(ts).0, clock(ts).1), m))
            && (done.Some? ==>
                  && done == Some(Finalize(h.current[k]))
                  && Completed(g, k) == LastN(Completed(h, k) + [h.current[k]], cap))
            && (done.None? ==> Completed(g, k) == Completed(h, k))
  {
  }

  /** An offline device without traffic gets no sample; its open hour is completed exactly when it has passed. */
  lemma OfflineRow(h: Hist, cap: nat, clock: Clock, ts: u64, row: Row)
    requires row.key.Device? && !row.online && row.sample == Sample(Quad(0, 0, 0, 0), Quad(0, 0, 0, 0))
    ensures var (g, done) := IngestRow(h, cap, clock, ts, row);
            if row.key in h.current && h.current[row.key].end < ts then
              && done == Some(Finalize(h.current[row.key])) && row.key !in g.current
              && Completed(g, row.key) == LastN(Completed(h, row.key) + [done.value], cap)
            else g == h && done.None?
  {
  }

  // ----- whole runs

  ghost predicate WasRestored(es: seq<Event>, k: SeriesKey, b: Bucket) {
    exists i :: 0 <= i < |es| && es[i] == Restore(k, b)
  }

  /** The bucket is one hour of the run: it holds all samples of that hour, and there are some. */
  ghost predicate IsHour(es: seq<Event>, clock: Clock, k: SeriesKey, b: Bucket) {
    SamplesIn(es, clock, k, b.start) != [] && Holds(b, SamplesIn(es, clock, k, b.start))
  }

  /** An hour other than the open one, or a bucket restored from disk. */
  ghost predicate HourOrRestored(es: seq<Event>, clock: Clock, k: SeriesKey, b: Bucket, open: Option<u64>) {
    WasRestored(es, k, b) || (IsHour(es, clock, k, b) && Some(b.start) != open)
  }

  ghost predicate AllHours(es: seq<Event>, clock: Clock, k: SeriesKey, q: seq<Bucket>, open: Option<u64>) {
    forall b {:trigger HourOrRestored(es, clock, k, b, open)} :: b in q ==> HourOrRestored(es, clock, k, b, open)
  }

  /** Without an open hour the last row came after the end of the last sampled hour. */
  ghost predicate Filed(h: Hist, es: seq<Event>, clock: Clock, k: SeriesKey) {
    var last := LastSample(es, k);
    if k in h.current then
      && last.Some? && (h.current[k].start, h.current[k].end) == clock(last.value)
      && IsHour(es, clock, k, h.current[k])
      && AllHours(es, clock, k, Completed(h, k), Some(h.current[k].start))
    else
      && AllHours(es, clock, k, Completed(h, k), None)
      && (last.Some? ==> LastTick(es, k).Some? && clock(last.value).1 < LastTick(es, k).value)
  }

  lemma OneMoreEvent(es: seq<Event>, e: Event, clock: Clock, k: SeriesKey, s: u64)
    ensures var all := es + [e];
            && SamplesIn(all, clock, k, s)
            == (if e == Forget(k) then []
                else if IsSample(e, k) && clock(e.ts).0 == s then SamplesIn(es, clock, k, s) + [e.row.sample]
                else SamplesIn(es, clock, k, s))
            && LastSample(all, k)
            == (if e == Forget(k) then None else if IsSample(e, k) then Some(e.ts) else LastSample(es, k))
            && LastTick(all, k) == (if IsTick(e, k) then Some(e.ts) else LastTick(es, k))
  {
    assert (es + [e])[..|es|] == es;
  }

  /** The hour a sample opens has had no sample before: hours do not come back. */
  lemma NewHourIsEmpty(h: Hist, es: seq<Event>, e: Event, clock: Clock, k: SeriesKey)
    requires Filed(h, es, clock, k) && Orderly(es, clock, k) && Orderly(es + [e], clock, k) && IsSample(e, k)
    requires k in h.current ==> h.current[k].start != clock(e.ts).0
    ensures SamplesIn(es, clock, k, clock(e.ts).0) == []
  {
    assert (es + [e])[..|es|] == es;
    if SamplesIn(es, clock, k, clock(e.ts).0) != [] {
      LastHourIsLatest(es, clock, k, clock(e.ts).0);
      LastSampleIsBeforeLastTick(es, clock, k);
    }
  }

  lemma HourKept(
      es: seq<Event>, e: Event, clock: Clock, k: SeriesKey, b: Bucket, open: Option<u64>, next: Option<u64>)
    requires HourOrRestored(es, clock, k, b, open) && e != Forget(k)
    requires if IsSample(e, k)
             then next == Some(clock(e.ts).0) && (next == open || SamplesIn(es, clock, k, next.value) == [])
             else next == open || next == None
    ensures HourOrRestored(es + [e], clock, k, b, next)
  {
    if WasRestored(es, k, b) {
      var i :| 0 <= i < |es| && es[i] == Restore(k, b);
      assert (es + [e])[i] == es[i];
    } else {
      OneMoreEvent(es, e, clock, k, b.start);
    }
  }

  lemma HoursKept(
      es: seq<Event>, e: Event, clock: Clock, k: SeriesKey, q: seq<Bucket>, open: Option<u64>, next: Option<u64>)
    requires AllHours(es, clock, k, q, open) && e != Forget(k)
    requires if IsSample(e, k)
             then next == Some(clock(e.ts).0) && (next == open || SamplesIn(es, clock, k, next.value) == [])
             else next == open || next == None
    ensures AllHours(es + [e], clock, k, q, next)
  {
    forall b | b in q
      ensures HourOrRestored(es + [e], clock, k, b, next)
    {
      HourKept(es, e, clock, k, b, open, next);
    }
  }

  lemma OneMoreHour(
      es: seq<Event>, clock: Clock, k: SeriesKey, q: seq<Bucket>, open: Option<u64>, b: Bucket, cap: nat)
    requires AllHours(es, clock, k, q, open) && HourOrRestored(es, clock, k, b, open)
    ensures AllHours(es, clock, k, LastN(q + [b], cap), open)
  {
    assert forall x :: x in LastN(q + [b], cap) ==> x in q || x == b;
  }

  lemma SampleFiled(h: Hist, cap: nat, es: seq<Event>, e: Event, clock: Clock, k: SeriesKey)
    requires Filed(h, es, clock, k) && Orderly(es, clock, k) && Orderly(es + [e], clock, k) && IsSample(e, k)
    ensures Filed(Step(h, cap, clock, e), es + [e], clock, k)
  {
    var all, s, g := es + [e], clock(e.ts).0, Step(h, cap, clock, e);
    OneMoreEvent(es, e, clock, k, s);
    SampleGoesToItsHour(h, cap, clock, k, e.ts, e.row.sample);
    if k in h.current && h.current[k].start == s {
      assert all[..|es|] == es;
      LastSampleIsBeforeLastTick(es, clock, k);
      BucketGrows(h.current[k], SamplesIn(es, clock, k, s), e.row.sample);
      HoursKept(es, e, clock, k, Completed(h, k), Some(s), Some(s));
    } else {
      NewHourIsEmpty(h, es, e, clock, k);
      EmptyHolds(s, clock(e.ts).1);
      BucketGrows(EmptyBucket(s, clock(e.ts).1), [], e.row.sample);
      var open := if k in h.current then Some(h.current[k].start) else None;
      HoursKept(es, e, clock, k, Completed(h, k), open, Some(s));
      if k in h.current {
        var b := h.current[k];
        OneMoreEvent(es, e, clock, k, b.start);
        OneMoreHour(all, clock, k, Completed(h, k), Some(s), b, cap);
      }
    }
  }

  lemma OfflineFiled(h: Hist, cap: nat, es: seq<Event>, e: Event, clock: Clock, k: SeriesKey)
    requires Filed(h, es, clock, k) && Orderly(es, clock, k) && Orderly(es + [e], clock, k)
    requires IsTick(e, k) && !IsSample(e, k)
    ensures Filed(Step(h, cap, clock, e), es + [e], clock, k)
  {
    var all := es + [e];
    OneMoreEvent(es, e, clock, k, 0);
    OfflineRow(h, cap, clock, e.ts, e.row);
    if k in h.current {
      var b := h.current[k];
      OneMoreEvent(es, e, clock, k, b.start);
      if b.end < e.ts {
        FinalizedHolds(b, SamplesIn(es, clock, k, b.start));
        HoursKept(es, e, clock, k, Completed(h, k), Some(b.start), None);
        OneMoreHour(all, clock, k, Completed(h, k), None, Finalize(b), cap);
      } else {
        HoursKept(es, e, clock, k, Completed(h, k), Some(b.start), Some(b.start));
      }
    } else {
      HoursKept(es, e, clock, k, Completed(h, k), None, None);
      assert all[..|es|] == es;
    }
  }

  lemma RestoreFiled(h: Hist, cap: nat, es: seq<Event>, e: Event, clock: Clock, k: SeriesKey)
    requires Filed(h, es, clock, k) && e.Restore? && e.key == k
    ensures Filed(Step(h, cap, clock, e), es + [e], clock, k)
  {
    var all, open := es + [e], if k in h.current then Some(h.current[k].start) else None;
    OneMoreEvent(es, e, clock, k, if k in h.current then h.current[k].start else 0);
    HoursKept(es, e, clock, k, Completed(h, k), open, open);
    assert all[|es|] == Restore(k, e.bucket);
    OneMoreHour(all, clock, k, Completed(h, k), open, e.bucket, cap);
  }

  lemma OtherFiled(h: Hist, cap: nat, es: seq<Event>, e: Event, clock: Clock, k: SeriesKey)
    requires Filed(h, es, clock, k) && KeyOf(e) != k
    ensures Filed(Step(h, cap, clock, e), es + [e], clock, k)
  {
    var open := if k in h.current then Some(h.current[k].start) else None;
    OneMoreEvent(es, e, clock, k, if k in h.current then h.current[k].start else 0);
    HoursKept(es, e, clock, k, Completed(h, k), open, open);
    if e.Tick? {
      OtherSeriesUntouched(h, cap, clock, e.ts, e.row, k);
    }
  }

  lemma {:induction false} RunFiled(cap: nat, es: seq<Event>, clock: Clock, k: SeriesKey)
    requires Orderly(es, clock, k)
    ensures Filed(Run(cap, clock, es), es, clock, k)
  {
    if es != [] {
      var front, e := es[..|es| - 1], es[|es| - 1];
      var h := Run(cap, clock, front);
      assert es == front + [e];
      RunFiled(cap, front, clock, k);
      if KeyOf(e) != k {
        OtherFiled(h, cap, front, e, clock, k);
      } else if e.Restore? {
        RestoreFiled(h, cap, front, e, clock, k);
      } else if e.Tick? {
        if IsSample(e, k) {
          SampleFiled(h, cap, front, e, clock, k);
        } else {
          OfflineFiled(h, cap, front, e, clock, k);
        }
      }
    }
  }

  /**
   * Over every run whose rows come in order: the open hour is that of the last sample and holds the samples of its
   * hour, and every completed hour that was not restored from disk holds all samples of its hour and no others.
   */
  lemma HoursHoldTheirSamples(cap: nat, es: seq<Event>, clock: Clock, k: SeriesKey)
    requires Orderly(es, clock, k)
    ensures var h := Run(cap, clock, es);
            && (k in h.current ==>
                  && LastSample(es, k).Some?
                  && (h.current[k].start, h.current[k].end) == clock(LastSample(es, k).value)
                  && Holds(h.current[k], SamplesIn(es, clock, k, h.current[k].start)))
            && forall b :: b in Completed(h, k) && !WasRestored(es, k, b) ==>
                 && SamplesIn(es, clock, k, b.start) != [] && Holds(b, SamplesIn(es, clock, k, b.start))
                 && (k in h.current ==> b.start != h.current[k].start)
  {
    RunFiled(cap, es, clock, k);
    var h := Run(cap, clock, es);
    var open := if k in h.current then Some(h.current[k].start) else None;
    forall b | b in Completed(h, k) && !WasRestored(es, k, b)
      ensures IsHour(es, clock, k, b) && Some(b.start) != open
    {
      assert HourOrRestored(es, clock, k, b, open);
    }
  }

  ghost predicate IsThere(h: Hist, k: SeriesKey, s: u64) {
    || (k in h.current && h.current[k].start == s)
    || exists i :: 0 <= i < |Completed(h, k)| && Completed(h, k)[i].start == s
  }

  lemma StaysThere(h: Hist, cap: nat, clock: Clock, e: Event, k: SeriesKey, s: u64)
    requires IsThere(h, k, s) && e != Forget(k)
    requires (KeyOf(e) == k && e.Restore?) || Closes(h, cap, clock, e, k) ==> |Completed(h, k)| < cap
    ensures IsThere(Step(h, cap, clock, e), k, s)
  {
    var g, q := Step(h, cap, clock, e), Completed(h, k);
    if KeyOf(e) != k {
      if e.Tick? {
        OtherSeriesUntouched(h, cap, clock, e.ts, e.row, k);
      }
      assert Completed(g, k) == q;
    } else {
      assert q <= Completed(g, k);
      if i :| 0 <= i < |q| && q[i].start == s {
        assert Completed(g, k)[i] == q[i];
      } else if !(k in g.current && g.current[k].start == s) {
        assert Completed(g, k)[|q|].start == s;
      }
    }
  }

  /** As long as no hour had to be trimmed, every hour that was sampled is there. */
  lemma {:induction false} SampledHoursAreThere(cap: nat, es: seq<Event>, clock: Clock, k: SeriesKey, s: u64)
    requires Completions(cap, clock, es, k) <= cap && SamplesIn(es, clock, k, s) != []
    ensures IsThere(Run(cap, clock, es), k, s)
  {
    var front, e := es[..|es| - 1], es[|es| - 1];
    var h := Run(cap, clock, front);
    if IsSample(e, k) && clock(e.ts).0 == s {
      SampleGoesToItsHour(h, cap, clock, k, e.ts, e.row.sample);
    } else {
      SampledHoursAreThere(cap, front, clock, k, s);
      NothingTrimmedEarly(cap, clock, front, k, UpV4);
      StaysThere(h, cap, clock, e, k, s);
    }
  }

  lemma RoundedDown(x: nat, n: nat)
    requires n > 0
    ensures x / n * n <= x < x / n * n + n
  {
  }

  /** The average rate, rounded down, and the maximum in place of a 95th percentile. */
  ghost predicate Reported(r: Rate, samples: nat) {
    && r.p95 == r.max
    && (samples > 0 ==> r.avg * samples <= r.sum < r.avg * samples + samples)
  }

  lemma FinalizedIsReported(samples: u64, r: Rate)
    ensures Reported(FinalizeRate(samples, r), samples)
  {
    if samples > 0 {
      RoundedDown(r.sum, samples);
    }
  }

  lemma FinalizedReports(b: Bucket, c: Channel, samples: nat)
    requires samples == b.samples
    ensures Reported(RateIn(Finalize(b).rates, c), samples)
  {
    FinalizedIsReported(b.samples, RateIn(b.rates, c));
  }

  /** What is written to disk when an hour is completed: all its samples, with average and maximum. */
  lemma CompletedHourIsWritten(
      cap: nat, es: seq<Event>, clock: Clock, ts: u64, row: Row, b: Bucket, c: Channel, samples: nat)
    requires Orderly(es, clock, row.key) && IngestRow(Run(cap, clock, es), cap, clock, ts, row).1 == Some(b)
    requires samples == b.samples
    ensures SamplesIn(es, clock, row.key, b.start) != [] && Holds(b, SamplesIn(es, clock, row.key, b.start))
    ensures Reported(RateIn(b.rates, c), samples)
  {
    RunFiled(cap, es, clock, row.key);
    var open := Run(cap, clock, es).current[row.key];
    FinalizedHolds(open, SamplesIn(es, clock, row.key, open.start));
    FinalizedReports(open, c, samples);
  }
}
