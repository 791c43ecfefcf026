/** Merging an hourly list into days keeps every byte, wherever the day boundaries fall. */
module DailyMerge {
  import opened Bytes
  import opened Buckets
  import opened Histogram

  /** A day keeps the smallest non-zero minimum it has seen. */
  function MergeMin(acc: u64, v: u64): u64 {
    if acc == 0 || (v > 0 && v < acc) then v else acc
  }

  function MergeRate(samples: u64, acc: Rate, r: Rate): Rate {
    var sum, max := SatAdd(acc.sum, r.sum), Max(acc.max, r.max);
    Rate(sum, max, MergeMin(acc.min, r.min), if samples > 0 then sum / samples else acc.avg, max)
  }

  function MergeRates(samples: u64, q: Quad<Rate>, r: Quad<Rate>): Quad<Rate> {
    Quad(MergeRate(samples, q.upV4, r.upV4), MergeRate(samples, q.downV4, r.downV4),
         MergeRate(samples, q.upV6, r.upV6), MergeRate(samples, q.downV6, r.downV6))
  }

  function Merge(acc: Bucket, b: Bucket): Bucket {
    var samples := SatAdd(acc.samples, b.samples);
    acc.(samples := samples, bytes := AddBytes(acc.bytes, b.bytes),
         rates := MergeRates(samples, acc.rates, b.rates))
  }

  /** All bytes of the hours of one day, unbounded. */
  function DayTotal(hourly: seq<Bucket>, day: Clock, d: u64, c: Channel): nat {
    if hourly == [] then 0
    else
      var b := hourly[|hourly| - 1];
      DayTotal(hourly[..|hourly| - 1], day, d, c) + (if day(b.start).0 == d then Get(b.bytes, c) else 0)
  }

  function HourlyTotal(hourly: seq<Bucket>, c: Channel): nat {
    if hourly == [] then 0 else HourlyTotal(hourly[..|hourly| - 1], c) + Get(hourly[|hourly| - 1].bytes, c)
  }

  /** The hours of one day merged in order, starting from an empty bucket. */
  function DayBucket(hourly: seq<Bucket>, day: Clock, d: u64): Option<Bucket> {
    if hourly == [] then None
    else
      var acc, b := DayBucket(hourly[..|hourly| - 1], day, d), hourly[|hourly| - 1];
      if day(b.start).0 != d then acc
      else Some(Merge(if acc.Some? then acc.value else EmptyBucket(d, day(b.start).1), b))
  }

  ghost predicate StrictlySorted(days: seq<u64>) {
    forall i, j :: 0 <= i < j < |days| ==> days[i] < days[j]
  }

  /** One entry per day that has an hour. */
  ghost predicate CoversDays(byDay: map<u64, Bucket>, hourly: seq<Bucket>, day: Clock) {
    && (forall d :: d in byDay ==> byDay[d].start == d)
    && (forall b :: b in hourly ==> day(b.start).0 in byDay)
    && (forall d :: d in byDay ==> exists b :: b in hourly && day(b.start).0 == d)
  }

  /** Each entry holds the capped total of its day's hours. */
  ghost predicate HoldsTotals(byDay: map<u64, Bucket>, hourly: seq<Bucket>, day: Clock) {
    && (forall d, c :: d in byDay ==> Get(byDay[d].bytes, c) == Cap64(DayTotal(hourly, day, d, c)))
    && (forall d, c :: d !in byDay ==> DayTotal(hourly, day, d, c) == 0)
  }

  ghost predicate HoldsDays(byDay: map<u64, Bucket>, hourly: seq<Bucket>, day: Clock) {
    forall d: u64 :: DayBucket(hourly, day, d) == if d in byDay then Some(byDay[d]) else None
  }

  ghost predicate Grouped(byDay: map<u64, Bucket>, hourly: seq<Bucket>, day: Clock) {
    CoversDays(byDay, hourly, day) && HoldsTotals(byDay, hourly, day) && HoldsDays(byDay, hourly, day)
  }

  lemma GroupOne(byDay: map<u64, Bucket>, hourly: seq<Bucket>, day: Clock, b: Bucket)
    requires Grouped(byDay, hourly, day)
    ensures var (dayStart, dayEnd) := day(b.start);
            var acc := if dayStart in byDay then byDay[dayStart] else EmptyBucket(dayStart, dayEnd);
            Grouped(byDay[dayStart := Merge(acc, b)], hourly + [b], day)
  {
    var (dayStart, dayEnd) := day(b.start);
    var acc := if dayStart in byDay then byDay[dayStart] else EmptyBucket(dayStart, dayEnd);
    var more, grown := hourly + [b], byDay[dayStart := Merge(acc, b)];
    DaysStay(byDay, hourly, day, b, grown, more);
    TotalsStay(byDay, hourly, day, b, acc, grown, more);
    BucketsStay(byDay, hourly, day, b, acc, grown, more);
  }

  lemma TotalsStay(
    byDay: map<u64, Bucket>, hourly: seq<Bucket>, day: Clock, b: Bucket, acc: Bucket, grown: map<u64, Bucket>,
    more: seq<Bucket>)
    requires HoldsTotals(byDay, hourly, day) && more == hourly + [b]
    requires var d := day(b.start).0;
             && acc == (if d in byDay then byDay[d] else EmptyBucket(d, day(b.start).1))
             && grown == byDay[d := Merge(acc, b)]
    ensures HoldsTotals(grown, more, day)
  {
    var dayStart := day(b.start).0;
    assert more[..|hourly|] == hourly;
    forall d: u64, c: Channel
      ensures DayTotal(more, day, d, c) == DayTotal(hourly, day, d, c) + (if d == dayStart then Get(b.bytes, c) else 0)
      ensures Get(Merge(acc, b).bytes, c) == Cap64(DayTotal(more, day, dayStart, c))
    {
      MergedBytes(acc, b, DayTotal(hourly, day, dayStart, c), c);
    }
  }

  lemma BucketsStay(
    byDay: map<u64, Bucket>, hourly: seq<Bucket>, day: Clock, b: Bucket, acc: Bucket, grown: map<u64, Bucket>,
    more: seq<Bucket>)
    requires HoldsDays(byDay, hourly, day) && more == hourly + [b]
    requires var d := day(b.start).0;
             && acc == (if d in byDay then byDay[d] else EmptyBucket(d, day(b.start).1))
             && grown == byDay[d := Merge(acc, b)]
    ensures HoldsDays(grown, more, day)
  {
    assert more[..|hourly|] == hourly;
    forall d: u64
      ensures DayBucket(more, day, d) == if d in grown then Some(grown[d]) else None
    {
      assert DayBucket(hourly, day, d) == if d in byDay then Some(byDay[d]) else None;
    }
  }

  lemma DaysStay(
    byDay: map<u64, Bucket>, hourly: seq<Bucket>, day: Clock, b: Bucket, grown: map<u64, Bucket>, more: seq<Bucket>)
    requires forall d :: d in byDay ==> exists x :: x in hourly && day(x.start).0 == d
    requires forall x :: x in hourly ==> day(x.start).0 in byDay
    requires grown.Keys == byDay.Keys + {day(b.start).0} && more == hourly + [b]
    ensures forall d :: d in grown ==> exists x :: x in more && day(x.start).0 == d
    ensures forall x :: x in more ==> day(x.start).0 in grown
  {
    forall d | d in grown
      ensures exists x :: x in more && day(x.start).0 == d
    {
      if d == day(b.start).0 {
        assert b in more;
      } else {
        var x :| x in hourly && day(x.start).0 == d;
        assert x in more;
      }
    }
  }

  method MergeHourlyToDaily(hourly: seq<Bucket>, day: Clock) returns (result: seq<Bucket>)
    ensures StrictlySorted(Starts(result))
    ensures forall b :: b in hourly ==> day(b.start).0 in Starts(result)
    ensures forall r :: r in result ==> exists b :: b in hourly && day(b.start).0 == r.start
    ensures forall r :: r in result ==> DayBucket(hourly, day, r.start) == Some(r)
    ensures forall r, c :: r in result ==> Get(r.bytes, c) == Cap64(DayTotal(hourly, day, r.start, c))
    ensures forall c :: Get(SumBytes(ZERO_BYTES, result), c) == Get(SumBytes(ZERO_BYTES, hourly), c)
  {
    var byDay: map<u64, Bucket> := map[];
    for i := 0 to |hourly|
      invariant Grouped(byDay, hourly[..i], day)
    {
      assert hourly[..i + 1] == hourly[..i] + [hourly[i]];
      GroupOne(byDay, hourly[..i], day, hourly[i]);
      var (dayStart, dayEnd) := day(hourly[i].start);
      var acc := if dayStart in byDay then byDay[dayStart] else EmptyBucket(dayStart, dayEnd);
      byDay := byDay[dayStart := Merge(acc, hourly[i])];
    }
    assert hourly[..|hourly|] == hourly;
    result := SortedByStart(byDay);
    forall c: Channel
      ensures Get(SumBytes(ZERO_BYTES, result), c) == Get(SumBytes(ZERO_BYTES, hourly), c)
    {
      DailyTotalsEqualHourly(hourly, day, result, c);
    }
  }

  lemma MergedBytes(acc: Bucket, b: Bucket, n: nat, c: Channel)
    requires Get(acc.bytes, c) == Cap64(n)
    ensures Get(Merge(acc, b).bytes, c) == Cap64(n + Get(b.bytes, c))
  {
  }

  function Starts(s: seq<Bucket>): (r: seq<u64>)
    ensures |r| == |s| && forall i :: 0 <= i < |s| ==> r[i] == s[i].start
  {
    seq(|s|, i requires 0 <= i < |s| => s[i].start)
  }

  method SortedByStart(byDay: map<u64, Bucket>) returns (result: seq<Bucket>)
    requires forall d :: d in byDay ==> byDay[d].start == d
    ensures StrictlySorted(Starts(result))
    ensures forall d :: d in byDay ==> d in Starts(result)
    ensures forall r :: r in result ==> r.start in byDay && byDay[r.start] == r
  {
    result := [];
    var left := byDay.Keys;
    while left != {}
      invariant left <= byDay.Keys && StrictlySorted(Starts(result))
      invariant forall d :: d in byDay && d !in left ==> d in Starts(result)
      invariant forall r :: r in result ==> r.start in byDay && byDay[r.start] == r
      invariant forall r, d :: r in result && d in left ==> r.start < d
    {
      var least := Least(left);
      var more := result + [byDay[least]];
      assert Starts(more) == Starts(result) + [least];
      result := more;
      left := left - {least};
    }
  }

  method Least(s: set<u64>) returns (m: u64)
    requires s != {}
    ensures m in s && forall x :: x in s ==> m <= x
  {
    m :| m in s;
    var left := s - {m};
    while left != {}
      invariant left <= s && m in s && forall x :: x in s && x !in left ==> m <= x
    {
      var x :| x in left;
      left := left - {x};
      m := if x < m then x else m;
    }
  }

  // ----- the day totals add up to the hourly total

  function SumDays(hourly: seq<Bucket>, day: Clock, days: seq<u64>, c: Channel): nat {
    if days == [] then 0
    else SumDays(hourly, day, days[..|days| - 1], c) + DayTotal(hourly, day, days[|days| - 1], c)
  }

  lemma {:induction false} OneMoreHour(hourly: seq<Bucket>, day: Clock, days: seq<u64>, c: Channel)
    requires hourly != [] && StrictlySorted(days)
    ensures var b := hourly[|hourly| - 1];
            SumDays(hourly, day, days, c)
            == SumDays(hourly[..|hourly| - 1], day, days, c) + (if day(b.start).0 in days then Get(b.bytes, c) else 0)
  {
    if days != [] {
      var front := days[..|days| - 1];
      OneMoreHour(hourly, day, front, c);
      assert days == front + [days[|days| - 1]];
    }
  }

  lemma {:induction false} DaysCoverHours(hourly: seq<Bucket>, day: Clock, days: seq<u64>, c: Channel)
    requires StrictlySorted(days) && forall b :: b in hourly ==> day(b.start).0 in days
    ensures SumDays(hourly, day, days, c) == HourlyTotal(hourly, c)
  {
    if hourly == [] {
      NoHours(day, days, c);
    } else {
      DaysCoverHours(hourly[..|hourly| - 1], day, days, c);
      OneMoreHour(hourly, day, days, c);
    }
  }

  lemma {:induction false} NoHours(day: Clock, days: seq<u64>, c: Channel)
    ensures SumDays([], day, days, c) == 0
  {
    if days != [] {
      NoHours(day, days[..|days| - 1], c);
    }
  }

  lemma {:induction false} HourlySum(hourly: seq<Bucket>, c: Channel)
    ensures Get(SumBytes(ZERO_BYTES, hourly), c) == Cap64(HourlyTotal(hourly, c))
  {
    if hourly != [] {
      HourlySum(hourly[..|hourly| - 1], c);
    }
  }

  lemma {:induction false} DailySum(hourly: seq<Bucket>, day: Clock, result: seq<Bucket>, c: Channel)
    requires forall r :: r in result ==> Get(r.bytes, c) == Cap64(DayTotal(hourly, day, r.start, c))
    ensures Get(SumBytes(ZERO_BYTES, result), c) == Cap64(SumDays(hourly, day, Starts(result), c))
  {
    if result != [] {
      var front := result[..|result| - 1];
      DailySum(hourly, day, front, c);
      assert Starts(result)[..|result| - 1] == Starts(front);
    }
  }

  /** The daily list of any hourly list reports the same saturated byte totals. */
  lemma DailyTotalsEqualHourly(hourly: seq<Bucket>, day: Clock, result: seq<Bucket>, c: Channel)
    requires StrictlySorted(Starts(result))
    requires forall b :: b in hourly ==> day(b.start).0 in Starts(result)
    requires forall r :: r in result ==> Get(r.bytes, c) == Cap64(DayTotal(hourly, day, r.start, c))
    ensures Get(SumBytes(ZERO_BYTES, result), c) == Get(SumBytes(ZERO_BYTES, hourly), c)
  {
    DailySum(hourly, day, result, c);
    DaysCoverHours(hourly, day, Starts(result), c);
    HourlySum(hourly, c);
  }

  // ----- what a day's bucket says about its hours

  predicate InDay(hourly: seq<Bucket>, i: int, day: Clock, d: u64) {
    0 <= i < |hourly| && day(hourly[i].start).0 == d
  }

  function DaySamples(hourly: seq<Bucket>, day: Clock, d: u64): nat {
    if hourly == [] then 0
    else
      var b := hourly[|hourly| - 1];
      DaySamples(hourly[..|hourly| - 1], day, d) + (if day(b.start).0 == d then b.samples else 0)
  }

  function DayRateSum(hourly: seq<Bucket>, day: Clock, d: u64, c: Channel): nat {
    if hourly == [] then 0
    else
      var b := hourly[|hourly| - 1];
      DayRateSum(hourly[..|hourly| - 1], day, d, c) + (if day(b.start).0 == d then RateIn(b.rates, c).sum else 0)
  }

  /** The maximum is that of the hours, the minimum the least positive one, if any. */
  ghost predicate Extremes(hourly: seq<Bucket>, day: Clock, d: u64, c: Channel, r: Rate) {
    && (forall i :: InDay(hourly, i, day, d) ==> RateIn(hourly[i].rates, c).max <= r.max)
    && (exists i :: InDay(hourly, i, day, d) && RateIn(hourly[i].rates, c).max == r.max)
    && (forall i :: InDay(hourly, i, day, d) && RateIn(hourly[i].rates, c).min > 0 ==>
          0 < r.min <= RateIn(hourly[i].rates, c).min)
    && (r.min > 0 ==> exists i :: InDay(hourly, i, day, d) && RateIn(hourly[i].rates, c).min == r.min)
  }

  /** Counters are summed, saturating; the average is recomputed and the 95th percentile is the maximum. */
  ghost predicate Summed(b: Bucket, d: u64, samples: nat, sum: nat, c: Channel) {
    var r := RateIn(b.rates, c);
    && b.start == d && b.samples == Cap64(samples) && r.sum == Cap64(sum)
    && (b.samples > 0 ==> r.avg == r.sum / b.samples) && r.p95 == r.max
  }

  lemma MergeSums(acc: Bucket, d: u64, samples: nat, sum: nat, b: Bucket, c: Channel)
    requires (acc == EmptyBucket(d, acc.end) && samples == 0 && sum == 0) || Summed(acc, d, samples, sum, c)
    ensures Summed(Merge(acc, b), d, samples + b.samples, sum + RateIn(b.rates, c).sum, c)
  {
  }

  lemma {:induction false} DaySums(hourly: seq<Bucket>, day: Clock, d: u64, c: Channel)
    ensures var b, samples, sum := DayBucket(hourly, day, d), DaySamples(hourly, day, d), DayRateSum(hourly, day, d, c);
            if b.None? then samples == 0 && sum == 0 else Summed(b.value, d, samples, sum, c)
  {
    if hourly != [] {
      var front, b := hourly[..|hourly| - 1], hourly[|hourly| - 1];
      DaySums(front, day, d, c);
      if day(b.start).0 == d {
        var acc := DayBucket(front, day, d);
        MergeSums(if acc.Some? then acc.value else EmptyBucket(d, day(b.start).1), d, DaySamples(front, day, d),
                  DayRateSum(front, day, d, c), b, c);
      }
    }
  }

  lemma {:induction false} DayExtremes(hourly: seq<Bucket>, day: Clock, d: u64, c: Channel)
    ensures var b := DayBucket(hourly, day, d);
            if b.None? then forall i :: !InDay(hourly, i, day, d)
            else Extremes(hourly, day, d, c, RateIn(b.value.rates, c))
  {
    if hourly != [] {
      var front, b := hourly[..|hourly| - 1], hourly[|hourly| - 1];
      assert hourly == front + [b];
      DayExtremes(front, day, d, c);
      var acc := DayBucket(front, day, d);
      if day(b.start).0 != d {
        OtherDay(front, b, day, d, c, acc);
      } else if acc.Some? {
        ExtremesGrow(front, b, day, d, c, RateIn(acc.value.rates, c), RateIn(DayBucket(hourly, day, d).value.rates, c));
      } else {
        FirstOfDay(front, b, day, d, c, RateIn(DayBucket(hourly, day, d).value.rates, c));
      }
    }
  }

  lemma OtherDay(front: seq<Bucket>, b: Bucket, day: Clock, d: u64, c: Channel, acc: Option<Bucket>)
    requires day(b.start).0 != d
    requires if acc.None? then forall i :: !InDay(front, i, day, d)
             else Extremes(front, day, d, c, RateIn(acc.value.rates, c))
    ensures if acc.None? then forall i :: !InDay(front + [b], i, day, d)
            else Extremes(front + [b], day, d, c, RateIn(acc.value.rates, c))
  {
    var all := front + [b];
    assert forall i :: InDay(front, i, day, d) <==> InDay(all, i, day, d);
    assert forall i :: InDay(front, i, day, d) ==> all[i] == front[i];
  }

  lemma FirstOfDay(front: seq<Bucket>, b: Bucket, day: Clock, d: u64, c: Channel, r: Rate)
    requires day(b.start).0 == d && forall i :: !InDay(front, i, day, d)
    requires r.max == RateIn(b.rates, c).max && r.min == RateIn(b.rates, c).min
    ensures Extremes(front + [b], day, d, c, r)
  {
    var all := front + [b];
    assert InDay(all, |front|, day, d) && all[|front|] == b;
    assert forall i :: InDay(all, i, day, d) ==> i == |front| || InDay(front, i, day, d);
  }

  lemma {:induction false} DayEnds(hourly: seq<Bucket>, day: Clock, d: u64)
    ensures var b := DayBucket(hourly, day, d);
            b.Some? ==> exists i :: InDay(hourly, i, day, d) && day(hourly[i].start).1 == b.value.end
  {
    if hourly != [] {
      var front, b := hourly[..|hourly| - 1], hourly[|hourly| - 1];
      DayEnds(front, day, d);
      if DayBucket(front, day, d).Some? {
        var i :| InDay(front, i, day, d) && day(front[i].start).1 == DayBucket(front, day, d).value.end;
        assert InDay(hourly, i, day, d);
      } else if day(b.start).0 == d {
        assert InDay(hourly, |hourly| - 1, day, d);
      }
    }
  }

  /** A day's bucket covers the day, and its counters and rates are those of the day's hours taken together. */
  lemma DayIsItsHours(hourly: seq<Bucket>, day: Clock, d: u64, c: Channel)
    requires DayBucket(hourly, day, d).Some?
    ensures var b := DayBucket(hourly, day, d).value;
            && Summed(b, d, DaySamples(hourly, day, d), DayRateSum(hourly, day, d, c), c)
            && Extremes(hourly, day, d, c, RateIn(b.rates, c))
            && exists i :: InDay(hourly, i, day, d) && day(hourly[i].start) == (b.start, b.end)
  {
    DaySums(hourly, day, d, c);
    DayExtremes(hourly, day, d, c);
    DayEnds(hourly, day, d);
  }

  lemma ExtremesGrow(front: seq<Bucket>, b: Bucket, day: Clock, d: u64, c: Channel, acc: Rate, r: Rate)
    requires Extremes(front, day, d, c, acc) && day(b.start).0 == d
    requires r.max == Max(acc.max, RateIn(b.rates, c).max) && r.min == MergeMin(acc.min, RateIn(b.rates, c).min)
    ensures Extremes(front + [b], day, d, c, r)
  {
    var all := front + [b];
    assert InDay(all, |front|, day, d) && all[|front|] == b;
    assert forall i :: InDay(front, i, day, d) ==> InDay(all, i, day, d) && all[i] == front[i];
    assert forall i :: InDay(all, i, day, d) ==> i == |front| || InDay(front, i, day, d);
  }
}
