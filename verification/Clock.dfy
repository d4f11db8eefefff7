/** Server clock estimation from round trips (shared/clock-sync.ts). Milliseconds are reals. */
module Clock {
  import opened Results

  const MAX_SAMPLES := 9
  const MAX_ROUND_TRIP_MS := 10_000.0

  /** One round trip as it arrives: None stands for anything but a finite number. */
  datatype Sample = Sample(sentAt: Option<real>, serverTime: Option<real>, receivedAt: Option<real>)

  predicate IsFiniteMs(v: Option<real>) {
    v.Some? && v.value > 0.0
  }

  predicate Usable(s: Sample) {
    && IsFiniteMs(s.sentAt) && IsFiniteMs(s.serverTime) && IsFiniteMs(s.receivedAt)
    && 0.0 <= s.receivedAt.value - s.sentAt.value <= MAX_ROUND_TRIP_MS
  }

  function RoundTrip(s: Sample): real
    requires Usable(s)
  {
    s.receivedAt.value - s.sentAt.value
  }

  function OffsetOf(s: Sample): real
    requires Usable(s)
  {
    s.serverTime.value - (s.sentAt.value + RoundTrip(s) / 2.0)
  }

  // ---------------------------------------------------------------- the estimate

  ghost predicate Sorted(xs: seq<real>) {
    forall i, j :: 0 <= i < j < |xs| ==> xs[i] <= xs[j]
  }

  function Insert(xs: seq<real>, x: real): seq<real> {
    if xs == [] || x < xs[0] then [x] + xs else [xs[0]] + Insert(xs[1..], x)
  }

  /** `[...offsets].sort((a, b) => a - b)`. */
  function Sort(xs: seq<real>): seq<real> {
    if xs == [] then [] else Insert(Sort(xs[1..]), xs[0])
  }

  function Median(sorted: seq<real>): real
    requires sorted != []
  {
    var middle := |sorted| / 2;
    if |sorted| % 2 == 1 then sorted[middle] else (sorted[middle - 1] + sorted[middle]) / 2.0
  }

  /** `Math.round`. */
  function Round(x: real): int {
    (x + 0.5).Floor
  }

  /** The estimate from the retained offsets; 0 without any. */
  function Estimate(offsets: seq<real>): int {
    if offsets == [] then 0
    else
      SortSorts(offsets);
      Round(Median(Sort(offsets)))
  }

  /** The window after one more accepted offset. */
  function Slide(offsets: seq<real>, maxSamples: nat, x: real): seq<real> {
    var longer := offsets + [x];
    if |longer| > maxSamples then longer[1..] else longer
  }

  class ServerClockEstimator {
    const maxSamples: nat
    var offsets: seq<real>

    constructor (maxSamples: nat := MAX_SAMPLES)
      ensures this.maxSamples == maxSamples && offsets == []
    {
      this.maxSamples, this.offsets := maxSamples, [];
    }

    method AddSample(s: Sample) returns (used: bool)
      modifies this
      ensures used == Usable(s)
      ensures used <==> exists sent, server, received ::
                s == Sample(Some(sent), Some(server), Some(received))
                && sent > 0.0 && server > 0.0 && received > 0.0 && 0.0 <= received - sent <= 10_000.0
      ensures offsets == if used then Slide(old(offsets), maxSamples, OffsetOf(s)) else old(offsets)
    {
      if !IsFiniteMs(s.sentAt) || !IsFiniteMs(s.serverTime) || !IsFiniteMs(s.receivedAt) { return false; }
      var roundTrip := s.receivedAt.value - s.sentAt.value;
      if roundTrip < 0.0 || roundTrip > MAX_ROUND_TRIP_MS { return false; }
      var offset := s.serverTime.value - (s.sentAt.value + roundTrip / 2.0);
      offsets := offsets + [offset];
      if |offsets| > maxSamples {
        offsets := offsets[1..];
      }
      used := true;
    }

    predicate Synchronized()
      reads this
      ensures Synchronized() <==> offsets != []
    {
      |offsets| > 0
    }

    function OffsetMs(): (r: int)
      reads this
      ensures r == Estimate(offsets)
    {
      Estimate(offsets)
    }

    function ServerToLocal(serverMs: real): (r: real)
      reads this
      ensures r + OffsetMs() as real == serverMs
    {
      serverMs - OffsetMs() as real
    }
  }

  // ---------------------------------------------------------------- the window

  /** The usable samples, in order. */
  function Accepted(samples: seq<Sample>): (r: seq<Sample>)
    ensures forall i :: 0 <= i < |r| ==> Usable(r[i])
  {
    if samples == [] then []
    else
      var init, last := samples[..|samples| - 1], samples[|samples| - 1];
      if Usable(last) then Accepted(init) + [last] else Accepted(init)
  }

  /** The offsets an estimator holds after these samples. */
  function Window(maxSamples: nat, samples: seq<Sample>): seq<real> {
    if samples == [] then []
    else
      var init, last := samples[..|samples| - 1], samples[|samples| - 1];
      if Usable(last) then Slide(Window(maxSamples, init), maxSamples, OffsetOf(last)) else Window(maxSamples, init)
  }

  function Last(samples: seq<Sample>, n: nat): (r: seq<Sample>)
    ensures (forall i :: 0 <= i < |samples| ==> Usable(samples[i])) ==> forall i :: 0 <= i < |r| ==> Usable(r[i])
  {
    if |samples| <= n then samples else samples[|samples| - n..]
  }

  function Offsets(samples: seq<Sample>): (r: seq<real>)
    requires forall i :: 0 <= i < |samples| ==> Usable(samples[i])
    ensures |r| == |samples| && forall i :: 0 <= i < |r| ==> r[i] == OffsetOf(samples[i])
  {
    seq(|samples|, i requires 0 <= i < |samples| => OffsetOf(samples[i]))
  }

  /** The window always holds the offsets of the last accepted samples, at most `maxSamples` of them. */
  lemma {:induction false} WindowHoldsLast(maxSamples: nat, samples: seq<Sample>)
    ensures Window(maxSamples, samples) == Offsets(Last(Accepted(samples), maxSamples))
  {
    if samples != [] {
      var init, last := samples[..|samples| - 1], samples[|samples| - 1];
      WindowHoldsLast(maxSamples, init);
      if Usable(last) {
        SlideIsLast(maxSamples, Accepted(init), last);
      }
    }
  }

  lemma SlideIsLast(maxSamples: nat, accepted: seq<Sample>, s: Sample)
    requires (forall i :: 0 <= i < |accepted| ==> Usable(accepted[i])) && Usable(s)
    ensures Slide(Offsets(Last(accepted, maxSamples)), maxSamples, OffsetOf(s))
            == Offsets(Last(accepted + [s], maxSamples))
  {
    hide OffsetOf, Usable;
  }

  // ---------------------------------------------------------------- the median

  function Count(xs: seq<real>, lo: real, hi: real): nat {
    if xs == [] then 0 else (if lo <= xs[0] <= hi then 1 else 0) + Count(xs[1..], lo, hi)
  }

  lemma {:induction false} InsertInserts(xs: seq<real>, x: real)
    requires Sorted(xs)
    ensures Sorted(Insert(xs, x)) && |Insert(xs, x)| == |xs| + 1
    ensures forall y :: y in Insert(xs, x) <==> y in xs || y == x
  {
    if xs != [] && x >= xs[0] {
      var t := Insert(xs[1..], x);
      InsertInserts(xs[1..], x);
      assert forall y :: y in xs <==> y == xs[0] || y in xs[1..];
      assert forall i :: 0 <= i < |t| ==> t[i] in t;
    }
  }

  lemma {:induction false} SortSorts(xs: seq<real>)
    ensures Sorted(Sort(xs)) && |Sort(xs)| == |xs|
  {
    if xs != [] {
      SortSorts(xs[1..]);
      InsertInserts(Sort(xs[1..]), xs[0]);
    }
  }

  lemma {:induction false} CountInsert(xs: seq<real>, x: real, lo: real, hi: real)
    ensures Count(Insert(xs, x), lo, hi) == Count(xs, lo, hi) + (if lo <= x <= hi then 1 else 0)
  {
    if xs == [] || x < xs[0] {
      assert ([x] + xs)[1..] == xs;
    } else {
      CountInsert(xs[1..], x, lo, hi);
      assert ([xs[0]] + Insert(xs[1..], x))[1..] == Insert(xs[1..], x);
    }
  }

  lemma {:induction false} CountSort(xs: seq<real>, lo: real, hi: real)
    ensures Count(Sort(xs), lo, hi) == Count(xs, lo, hi)
  {
    if xs != [] {
      CountSort(xs[1..], lo, hi);
      CountInsert(Sort(xs[1..]), xs[0], lo, hi);
    }
  }

  /** Entries outside the interval at both ends of a list bound how many lie inside. */
  lemma {:induction false} CountBound(xs: seq<real>, lo: real, hi: real, below: nat, above: nat)
    requires below + above <= |xs|
    requires forall i :: 0 <= i < below ==> xs[i] < lo
    requires forall i :: |xs| - above <= i < |xs| ==> xs[i] > hi
    ensures Count(xs, lo, hi) <= |xs| - below - above
  {
    if xs != [] {
      if below > 0 {
        CountBound(xs[1..], lo, hi, below - 1, above);
      } else if above == |xs| {
        CountBound(xs[1..], lo, hi, 0, above - 1);
      } else {
        CountBound(xs[1..], lo, hi, 0, above);
      }
    }
  }

  /** In a sorted list of which more than half lies in an interval, the middle lies in it. */
  lemma MiddleInside(xs: seq<real>, lo: real, hi: real, m: nat)
    requires Sorted(xs) && 2 * Count(xs, lo, hi) > |xs| && m < |xs|
    requires m == |xs| / 2 || (|xs| % 2 == 0 && m == |xs| / 2 - 1)
    ensures lo <= xs[m] <= hi
  {
    if xs[m] < lo {
      CountBound(xs, lo, hi, m + 1, 0);
    }
    if xs[m] > hi {
      CountBound(xs, lo, hi, 0, |xs| - m);
    }
  }

  /** The median of a mirrored list is the mirrored median, so neither middle value is preferred to the other: of an
      even number of offsets it is the mean of the middle two. */
  lemma MedianReflects(xs: seq<real>, c: real)
    requires xs != [] && Sorted(xs)
    ensures var ys := Mirrored(xs, c); Sorted(ys) && Median(ys) == c - Median(xs)
  {
  }

  function Mirrored(xs: seq<real>, c: real): (r: seq<real>)
    ensures |r| == |xs|
  {
    seq(|xs|, i requires 0 <= i < |xs| => c - xs[|xs| - 1 - i])
  }

  /** Where more than half of the offsets lie, their median lies. */
  lemma MedianInside(offsets: seq<real>, lo: real, hi: real)
    requires 2 * Count(offsets, lo, hi) > |offsets|
    ensures Sort(offsets) != [] && lo <= Median(Sort(offsets)) <= hi
  {
    var xs := Sort(offsets);
    SortSorts(offsets);
    CountSort(offsets, lo, hi);
    MiddleInside(xs, lo, hi, |xs| / 2);
    if |xs| % 2 == 0 {
      MiddleInside(xs, lo, hi, |xs| / 2 - 1);
    }
    hide Sort, Sorted, Count;
  }

  /** Rounding is to the nearest integer, and up from the middle between two. */
  lemma RoundIsNearest(x: real)
    ensures -0.5 <= x - Round(x) as real < 0.5
  {
  }

  /** The estimate is the rounded median; without offsets it is nothing. */
  lemma EstimateIsMedian(offsets: seq<real>)
    ensures offsets == [] ==> Estimate(offsets) == 0
    ensures offsets != [] ==>
              Sort(offsets) != [] && -0.5 <= Median(Sort(offsets)) - Estimate(offsets) as real < 0.5
  {
    if offsets != [] {
      SortSorts(offsets);
      RoundIsNearest(Median(Sort(offsets)));
    }
  }

  /** If strictly more than half of the retained offsets lie in an interval, the estimate lies in that
      interval widened by half a millisecond, for odd and even counts alike. */
  lemma MajorityBoundsEstimate(offsets: seq<real>, lo: real, hi: real)
    requires 2 * Count(offsets, lo, hi) > |offsets|
    ensures lo - 0.5 <= Estimate(offsets) as real <= hi + 0.5
  {
    assert offsets == [] ==> Count(offsets, lo, hi) == 0;
    MedianInside(offsets, lo, hi);
    hide Sort, Count, Median;
    EstimateIsMedian(offsets);
  }

  // ---------------------------------------------------------------- accuracy

  /** The server, whose clock is `offset` ahead of ours, stamped its time while the round trip was under way. */
  ghost predicate Honest(s: Sample, offset: real)
    requires Usable(s)
  {
    s.sentAt.value + offset <= s.serverTime.value <= s.receivedAt.value + offset
  }

  /** A sample stamped between send and receive errs by at most half its round trip. */
  lemma SampleError(s: Sample, offset: real)
    requires Usable(s) && Honest(s, offset)
    ensures offset - RoundTrip(s) / 2.0 <= OffsetOf(s) <= offset + RoundTrip(s) / 2.0
  {
  }

  ghost function HonestWithin(samples: seq<Sample>, offset: real, limit: real): nat
    requires forall i :: 0 <= i < |samples| ==> Usable(samples[i])
  {
    if samples == [] then 0
    else (if Honest(samples[0], offset) && RoundTrip(samples[0]) <= limit then 1 else 0)
         + HonestWithin(samples[1..], offset, limit)
  }

  lemma {:induction false} HonestAreCounted(samples: seq<Sample>, offset: real, limit: real)
    requires forall i :: 0 <= i < |samples| ==> Usable(samples[i])
    ensures HonestWithin(samples, offset, limit) <= Count(Offsets(samples), offset - limit / 2.0, offset + limit / 2.0)
  {
    if samples != [] {
      HonestAreCounted(samples[1..], offset, limit);
      assert Offsets(samples)[1..] == Offsets(samples[1..]);
      assert Offsets(samples)[0] == OffsetOf(samples[0]);
      if Honest(samples[0], offset) {
        SampleError(samples[0], offset);
      }
    }
  }

  /** After any samples whatever: if more than half of the last accepted ones were stamped under way on
      round trips of at most `limit`, a server time translated by the estimator is off by at most half
      of `limit` plus half a millisecond. */
  lemma EstimateIsClose(maxSamples: nat, samples: seq<Sample>, offset: real, limit: real, serverMs: real)
    requires var last := Last(Accepted(samples), maxSamples); 2 * HonestWithin(last, offset, limit) > |last|
    ensures var local := serverMs - Estimate(Window(maxSamples, samples)) as real;
            -(limit / 2.0 + 0.5) <= local - (serverMs - offset) <= limit / 2.0 + 0.5
  {
    hide *;
    var last := Last(Accepted(samples), maxSamples);
    WindowHoldsLast(maxSamples, samples);
    HonestAreCounted(last, offset, limit);
    MajorityBoundsEstimate(Offsets(last), offset - limit / 2.0, offset + limit / 2.0);
  }
}
