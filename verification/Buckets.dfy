/** One aggregated hour of traffic, and the statistics computed on it. */
module Buckets {
  import opened Bytes

  /** The four counters kept side by side everywhere: direction by address family. */
  datatype Quad<+T> = Quad(upV4: T, downV4: T, upV6: T, downV6: T)

  datatype Channel = UpV4 | DownV4 | UpV6 | DownV6

  function Get(q: Quad<u64>, c: Channel): u64 {
    match c
    case UpV4 => q.upV4
    case DownV4 => q.downV4
    case UpV6 => q.upV6
    case DownV6 => q.downV6
  }

  datatype Rate = Rate(sum: u64, max: u64, min: u64, avg: u64, p95: u64)

  datatype Bucket = Bucket(start: u64, end: u64, samples: u64, bytes: Quad<u64>, rates: Quad<Rate>)

  function RateIn(q: Quad<Rate>, c: Channel): Rate {
    match c
    case UpV4 => q.upV4
    case DownV4 => q.downV4
    case UpV6 => q.upV6
    case DownV6 => q.downV6
  }

  const ZERO_BYTES: Quad<u64> := Quad(0, 0, 0, 0)
  const ZERO_RATE := Rate(0, 0, 0, 0, 0)
  const ZERO_RATES := Quad(ZERO_RATE, ZERO_RATE, ZERO_RATE, ZERO_RATE)

  function EmptyBucket(start: u64, end: u64): Bucket {
    Bucket(start, end, 0, ZERO_BYTES, ZERO_RATES)
  }

  function MapQuad<A, B>(f: A -> B, q: Quad<A>): Quad<B> {
    Quad(f(q.upV4), f(q.downV4), f(q.upV6), f(q.downV6))
  }

  function AddBytes(q: Quad<u64>, r: Quad<u64>): Quad<u64> {
    Quad(SatAdd(q.upV4, r.upV4), SatAdd(q.downV4, r.downV4), SatAdd(q.upV6, r.upV6), SatAdd(q.downV6, r.downV6))
  }

  /** Averages from sum and count; p95 is reported as the maximum. */
  function FinalizeRate(samples: u64, r: Rate): Rate {
    r.(avg := if samples > 0 then r.sum / samples else r.avg, p95 := r.max)
  }

  function FinalizeRates(samples: u64, q: Quad<Rate>): Quad<Rate> {
    Quad(FinalizeRate(samples, q.upV4), FinalizeRate(samples, q.downV4),
         FinalizeRate(samples, q.upV6), FinalizeRate(samples, q.downV6))
  }

  function Finalize(b: Bucket): Bucket {
    b.(rates := FinalizeRates(b.samples, b.rates))
  }

  /** Finalizing is idempotent, so it does not matter whether a stored bucket was finalized before. */
  lemma FinalizeTwice(b: Bucket)
    ensures Finalize(Finalize(b)) == Finalize(b)
    ensures Finalize(b).bytes == b.bytes
  {
  }
}
