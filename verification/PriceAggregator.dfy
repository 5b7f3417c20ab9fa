/** Outlier rejection by median absolute deviation, then a median of what is left
    (oracle/src/services/price-aggregator.ts). Prices are exact integers; weights are reals. */
module PriceAggregator {
  import opened Numeric

  datatype PriceData = PriceData(price: int, source: string, volume24h: Option<int>)
  datatype Provider = Provider(name: string, weight: real)
  datatype Config = Config(minSources: int, useWeightedMedian: bool, madZScoreThreshold: real)

  // ---------------------------------------------------------------------------
  // Sorting, counting and medians
  // ---------------------------------------------------------------------------

  /** Insertion after everything not greater, so that sorting by it is stable. */
  function Insert(s: seq<PriceData>, p: PriceData): (r: seq<PriceData>)
    ensures |r| == |s| + 1
  {
    if s == [] || s[|s| - 1].price <= p.price then s + [p]
    else Insert(s[..|s| - 1], p) + [s[|s| - 1]]
  }

  function SortByPrice(s: seq<PriceData>): (r: seq<PriceData>)
    ensures |r| == |s|
  {
    if s == [] then [] else Insert(SortByPrice(s[..|s| - 1]), s[|s| - 1])
  }

  function InsertInt(s: seq<int>, x: int): (r: seq<int>)
    ensures |r| == |s| + 1
  {
    if s == [] || s[|s| - 1] <= x then s + [x]
    else InsertInt(s[..|s| - 1], x) + [s[|s| - 1]]
  }

  function SortInts(s: seq<int>): (r: seq<int>)
    ensures |r| == |s|
  {
    if s == [] then [] else InsertInt(SortInts(s[..|s| - 1]), s[|s| - 1])
  }

  function Values(s: seq<PriceData>): (r: seq<int>)
    ensures |r| == |s| && forall i :: 0 <= i < |s| ==> r[i] == s[i].price
  {
    seq(|s|, i requires 0 <= i < |s| => s[i].price)
  }

  ghost predicate Ascending(s: seq<int>) {
    forall i, j :: 0 <= i <= j < |s| ==> s[i] <= s[j]
  }

  /** How many elements lie in `[lo, hi]`. */
  function Count(s: seq<int>, lo: int, hi: int): nat {
    if s == [] then 0
    else Count(s[..|s| - 1], lo, hi) + if lo <= s[|s| - 1] <= hi then 1 else 0
  }

  lemma {:induction false} InsertIntPermutes(s: seq<int>, x: int)
    ensures multiset(InsertInt(s, x)) == multiset(s) + multiset{x}
  {
    if s != [] && s[|s| - 1] > x {
      assert s == s[..|s| - 1] + [s[|s| - 1]];
      InsertIntPermutes(s[..|s| - 1], x);
    }
  }

  lemma {:induction false} InsertIntCounts(s: seq<int>, x: int, lo: int, hi: int)
    ensures Count(InsertInt(s, x), lo, hi) == Count(s, lo, hi) + if lo <= x <= hi then 1 else 0
  {
    if s == [] || s[|s| - 1] <= x {
      assert (s + [x])[..|s|] == s;
    } else {
      var r := InsertInt(s[..|s| - 1], x);
      InsertIntCounts(s[..|s| - 1], x, lo, hi);
      assert (r + [s[|s| - 1]])[..|r|] == r;
    }
  }

  lemma {:induction false} InsertIntAscends(s: seq<int>, x: int, most: int)
    requires Ascending(s)
    ensures Ascending(InsertInt(s, x))
    ensures (forall i :: 0 <= i < |s| ==> s[i] <= most) && x <= most ==>
              forall i :: 0 <= i < |InsertInt(s, x)| ==> InsertInt(s, x)[i] <= most
  {
    if s != [] && s[|s| - 1] > x {
      InsertIntAscends(s[..|s| - 1], x, s[|s| - 1]);
    }
  }

  /** Sorting yields an ascending permutation. */
  lemma {:induction false} SortIntsSorts(s: seq<int>)
    ensures Ascending(SortInts(s)) && multiset(SortInts(s)) == multiset(s)
  {
    if s == [] {
    } else {
      var front, last := s[..|s| - 1], s[|s| - 1];
      SortIntsSorts(front);
      assert s == front + [last];
      InsertIntPermutes(SortInts(front), last);
      InsertIntAscends(SortInts(front), last, 0);
    }
  }

  lemma {:induction false} SortIntsCounts(s: seq<int>, lo: int, hi: int)
    ensures Count(SortInts(s), lo, hi) == Count(s, lo, hi)
  {
    if s == [] {
    } else {
      SortIntsCounts(s[..|s| - 1], lo, hi);
      InsertIntCounts(SortInts(s[..|s| - 1]), s[|s| - 1], lo, hi);
    }
  }

  lemma SortedValue(s: seq<int>, i: nat)
    requires i < |SortInts(s)|
    ensures SortInts(s)[i] in s
  {
    SortIntsSorts(s);
    assert SortInts(s)[i] in multiset(SortInts(s));
  }

  lemma {:induction false} InsertMatches(s: seq<PriceData>, p: PriceData)
    ensures Values(Insert(s, p)) == InsertInt(Values(s), p.price)
    ensures multiset(Insert(s, p)) == multiset(s) + multiset{p}
  {
    if s == [] || s[|s| - 1].price <= p.price {
      assert Values(s + [p]) == Values(s) + [p.price];
    } else {
      var front, last := s[..|s| - 1], s[|s| - 1];
      assert s == front + [last];
      InsertMatches(front, p);
      assert Values(s)[..|s| - 1] == Values(front);
      assert Values(Insert(front, p) + [last]) == Values(Insert(front, p)) + [last.price];
    }
  }

  /** Sorting records by price sorts their prices. */
  lemma {:induction false} SortByPriceSorts(s: seq<PriceData>)
    ensures Values(SortByPrice(s)) == SortInts(Values(s))
    ensures multiset(SortByPrice(s)) == multiset(s)
  {
    if s == [] {
    } else {
      var front := s[..|s| - 1];
      assert s == front + [s[|s| - 1]];
      assert Values(s)[..|s| - 1] == Values(front);
      SortByPriceSorts(front);
      InsertMatches(SortByPrice(front), s[|s| - 1]);
    }
  }

  lemma {:induction false} CountSplit(s: seq<int>, k: nat, lo: int, hi: int)
    requires k <= |s|
    ensures Count(s, lo, hi) == Count(s[..k], lo, hi) + Count(s[k..], lo, hi)
  {
    if k < |s| {
      CountSplit(s[..|s| - 1], k, lo, hi);
      assert s[..|s| - 1][..k] == s[..k];
      assert s[k..][..|s| - k - 1] == s[..|s| - 1][k..];
    } else {
      assert s[..k] == s;
    }
  }

  lemma {:induction false} CountBounds(s: seq<int>, lo: int, hi: int)
    ensures Count(s, lo, hi) <= |s|
    ensures (forall i :: 0 <= i < |s| ==> s[i] < lo || s[i] > hi) ==> Count(s, lo, hi) == 0
    ensures (forall i :: 0 <= i < |s| ==> lo <= s[i] <= hi) ==> Count(s, lo, hi) == |s|
  {
    if s == [] {
    } else {
      CountBounds(s[..|s| - 1], lo, hi);
    }
  }

  /** `bigintMedian`: the middle element, or the truncated mean of the two middle ones. */
  function BigintMedian(sorted: seq<int>): int
    requires sorted != []
  {
    var mid := |sorted| / 2;
    if |sorted| % 2 == 1 then sorted[mid] else TruncDiv(sorted[mid - 1] + sorted[mid], 2)
  }

  lemma MeanIsBetween(a: int, b: int)
    requires a <= b
    ensures a <= TruncDiv(a + b, 2) <= b
  {
  }

  lemma AtMostAbove(s: seq<int>, lo: int, hi: int, k: nat)
    requires Ascending(s) && k < |s| && s[k] < lo
    ensures Count(s, lo, hi) < |s| - k
  {
    hide Count;
    CountSplit(s, k + 1, lo, hi);
    CountBounds(s[..k + 1], lo, hi);
    CountBounds(s[k + 1..], lo, hi);
  }

  lemma AtMostBelow(s: seq<int>, lo: int, hi: int, k: nat)
    requires Ascending(s) && k < |s| && s[k] > hi
    ensures Count(s, lo, hi) <= k
  {
    hide Count;
    CountSplit(s, k, lo, hi);
    CountBounds(s[..k], lo, hi);
    CountBounds(s[k..], lo, hi);
  }

  /** The middle element, or half the sum of the two middle ones, rounded toward zero. */
  lemma MedianIsMiddle(s: seq<int>)
    requires s != []
    ensures |s| % 2 == 1 ==> BigintMedian(s) == s[|s| / 2]
    ensures |s| % 2 == 0 ==>
              var sum := s[|s| / 2 - 1] + s[|s| / 2];
              Abs(2 * BigintMedian(s) - sum) <= 1 && Abs(2 * BigintMedian(s)) <= Abs(sum)
  {
  }

  /** Position `k` of an ascending sequence lies in `[lo, hi]` when a strict majority does and `k` is a middle. */
  lemma MiddleInMajority(s: seq<int>, lo: int, hi: int, k: nat)
    requires Ascending(s) && 2 * Count(s, lo, hi) > |s|
    requires k < |s| && (k == |s| / 2 || (|s| % 2 == 0 && k == |s| / 2 - 1))
    ensures lo <= s[k] <= hi
  {
    hide Count, Ascending;
    if s[k] < lo {
      AtMostAbove(s, lo, hi, k);
    }
    if s[k] > hi {
      AtMostBelow(s, lo, hi, k);
    }
  }

  /** A median lies wherever a strict majority lies. */
  lemma MedianInMajority(s: seq<int>, lo: int, hi: int)
    requires Ascending(s) && s != [] && 2 * Count(s, lo, hi) > |s|
    ensures lo <= BigintMedian(s) <= hi
  {
    var mid := |s| / 2;
    MiddleInMajority(s, lo, hi, mid);
    if |s| % 2 == 0 {
      MiddleInMajority(s, lo, hi, mid - 1);
      MeanIsBetween(s[mid - 1], s[mid]);
    }
  }

  lemma MedianIsBetweenHalves(s: seq<int>)
    requires Ascending(s) && s != []
    ensures forall i :: 0 <= i < (|s| + 1) / 2 ==> s[i] <= BigintMedian(s)
    ensures forall i :: |s| / 2 <= i < |s| ==> BigintMedian(s) <= s[i]
  {
    if |s| % 2 == 0 {
      MeanIsBetween(s[|s| / 2 - 1], s[|s| / 2]);
    }
  }

  /** At least half of an ascending sequence is not above its median, and at least half not below it. */
  lemma MedianSplitsInHalf(s: seq<int>, least: int, greatest: int)
    requires Ascending(s) && s != []
    requires forall i :: 0 <= i < |s| ==> least <= s[i] <= greatest
    ensures 2 * Count(s, least, BigintMedian(s)) >= |s|
    ensures 2 * Count(s, BigintMedian(s), greatest) >= |s|
  {
    var mid, below := |s| / 2, (|s| + 1) / 2;
    var med := BigintMedian(s);
    MedianIsBetweenHalves(s);
    hide Count, BigintMedian, Ascending;
    CountSplit(s, below, least, med);
    CountBounds(s[..below], least, med);
    CountSplit(s, mid, med, greatest);
    CountBounds(s[mid..], med, greatest);
  }

  // ---------------------------------------------------------------------------
  // The outlier filter
  // ---------------------------------------------------------------------------

  function Deviations(s: seq<int>, med: int): (r: seq<int>)
    ensures |r| == |s| && forall i :: 0 <= i < |s| ==> r[i] == Abs(s[i] - med)
  {
    seq(|s|, i requires 0 <= i < |s| => Abs(s[i] - med))
  }

  /** Median of an unsorted list. */
  function MedianOf(s: seq<int>): int
    requires s != []
  {
    BigintMedian(SortInts(s))
  }

  /** Median absolute deviation from the median. */
  function MadOf(s: seq<int>): int
    requires s != []
  {
    MedianOf(Deviations(SortInts(s), MedianOf(s)))
  }

  function Median(prices: seq<PriceData>): int
    requires prices != []
  {
    MedianOf(Values(prices))
  }

  function Mad(prices: seq<PriceData>): int
    requires prices != []
  {
    MadOf(Values(prices))
  }

  /** The median of any list lies wherever a strict majority of the list lies. */
  lemma MedianOfInMajority(s: seq<int>, lo: int, hi: int)
    requires s != [] && 2 * Count(s, lo, hi) > |s|
    ensures lo <= MedianOf(s) <= hi
  {
    SortIntsSorts(s);
    SortIntsCounts(s, lo, hi);
    MedianInMajority(SortInts(s), lo, hi);
  }

  /** `Math.round(zMax * 14826)`. */
  function ScaledThreshold(zMax: real): int {
    (zMax * 14826.0 + 0.5).Floor
  }

  /** `z` is the integer nearest to `x`, halves upward. */
  ghost predicate IsNearest(z: int, x: real) {
    z as real - 0.5 <= x < z as real + 0.5
  }

  lemma ThresholdIsNearest(zMax: real)
    ensures IsNearest(ScaledThreshold(zMax), zMax * 14826.0)
  {
  }

  predicate Accepts(p: PriceData, med: int, limit: int) {
    Abs(p.price - med) * 10000 <= limit
  }

  function Keep(prices: seq<PriceData>, med: int, limit: int): seq<PriceData> {
    if prices == [] then []
    else
      var front := Keep(prices[..|prices| - 1], med, limit);
      if Accepts(prices[|prices| - 1], med, limit) then front + [prices[|prices| - 1]] else front
  }

  function FilterOutliersByMad(prices: seq<PriceData>, zMax: real): seq<PriceData> {
    if zMax <= 0.0 || |prices| <= 2 || Mad(prices) == 0 then prices
    else Keep(prices, Median(prices), ScaledThreshold(zMax) * Mad(prices))
  }

  /** The filter keeps exactly the acceptable prices, each as often as it was given. */
  lemma {:induction false} KeepIsFilter(prices: seq<PriceData>, med: int, limit: int)
    ensures forall p :: p in Keep(prices, med, limit) <==> p in prices && Accepts(p, med, limit)
    ensures forall p :: multiset(Keep(prices, med, limit))[p] == if Accepts(p, med, limit) then multiset(prices)[p] else 0
  {
    if prices == [] {
    } else {
      KeepIsFilter(prices[..|prices| - 1], med, limit);
      assert prices == prices[..|prices| - 1] + [prices[|prices| - 1]];
    }
  }

  /** What the filter keeps, exactly: every price when it is off, has too few prices or sees no deviation, and
      otherwise those whose distance from the median, times 10000, is at most the nearest integer to
      14826 times the threshold, times the deviation. */
  lemma FilterKeeps(prices: seq<PriceData>, zMax: real, z: int, p: PriceData)
    requires IsNearest(z, zMax * 14826.0)
    ensures multiset(FilterOutliersByMad(prices, zMax))[p] ==
            if zMax <= 0.0 || |prices| <= 2 || Mad(prices) == 0
               || Abs(p.price - Median(prices)) * 10_000 <= z * Mad(prices)
            then multiset(prices)[p] else 0
  {
    hide Mad, Median;
    ThresholdIsNearest(zMax);
    assert z == ScaledThreshold(zMax);
    if !(zMax <= 0.0 || |prices| <= 2 || Mad(prices) == 0) {
      KeepIsFilter(prices, Median(prices), z * Mad(prices));
    }
  }

  lemma {:induction false} KeepAtLeast(prices: seq<PriceData>, med: int, limit: int, d: nat)
    requires d * 10000 <= limit
    ensures |Keep(prices, med, limit)| >= Count(Values(prices), med - d, med + d)
  {
    if prices == [] {
    } else {
      var front := prices[..|prices| - 1];
      KeepAtLeast(front, med, limit, d);
      assert Values(prices)[..|prices| - 1] == Values(front);
    }
  }

  /** Being within `d` of the centre is lying in the interval around it. */
  lemma {:induction false} DeviationCount(s: seq<int>, med: int, d: int)
    ensures Count(Deviations(s, med), 0, d) == Count(s, med - d, med + d)
  {
    if s == [] {
    } else {
      DeviationCount(s[..|s| - 1], med, d);
      assert Deviations(s, med)[..|s| - 1] == Deviations(s[..|s| - 1], med);
    }
  }

  lemma {:induction false} CountMono(s: seq<int>, lo: int, hi: int, lo': int, hi': int)
    requires lo' <= lo && hi <= hi'
    ensures Count(s, lo, hi) <= Count(s, lo', hi')
  {
    if s == [] {
    } else {
      CountMono(s[..|s| - 1], lo, hi, lo', hi');
    }
  }

  /** A strict majority in `[lo, hi]` pins the median there and bounds the deviation by the spread. */
  lemma MajorityPinsMedianAndMad(s: seq<int>, lo: int, hi: int)
    requires s != [] && 2 * Count(s, lo, hi) > |s|
    ensures lo <= MedianOf(s) <= hi
    ensures 0 <= MadOf(s) <= hi - lo
  {
    hide SortInts, Count, BigintMedian;
    MedianOfInMajority(s, lo, hi);
    SortIntsCounts(s, lo, hi);
    DeviationCount(SortInts(s), MedianOf(s), hi - lo);
    CountMono(SortInts(s), lo, hi, MedianOf(s) - (hi - lo), MedianOf(s) + (hi - lo));
    MedianOfInMajority(Deviations(SortInts(s), MedianOf(s)), 0, hi - lo);
  }

  /** Position `k` of an ascending sequence is at most `d` exactly when more than `k` members are. */
  lemma AtMostIff(s: seq<int>, k: nat, d: int)
    requires Ascending(s) && k < |s| && forall i :: 0 <= i < |s| ==> s[i] >= 0
    ensures s[k] <= d <==> Count(s, 0, d) > k
  {
    hide Count;
    if s[k] <= d {
      CountSplit(s, k + 1, 0, d);
      CountBounds(s[..k + 1], 0, d);
    } else {
      CountSplit(s, k, 0, d);
      CountBounds(s[..k], 0, d);
      CountBounds(s[k..], 0, d);
    }
  }

  /** `at` of `n` members hold the middle; for even `n` half of them is enough, if more than half are `near`. */
  ghost predicate HoldsMiddle(n: nat, at: nat, near: nat) {
    if n % 2 == 1 then 2 * at > n else 2 * at >= n && 2 * near > n
  }

  lemma MedianIsZeroIff(s: seq<int>)
    requires Ascending(s) && s != [] && forall i :: 0 <= i < |s| ==> s[i] >= 0
    ensures BigintMedian(s) == 0 <==> HoldsMiddle(|s|, Count(s, 0, 0), Count(s, 0, 1))
  {
    hide Count;
    var mid := |s| / 2;
    AtMostIff(s, mid, 0);
    AtMostIff(s, mid, 1);
    if |s| % 2 == 0 {
      AtMostIff(s, mid - 1, 0);
    }
  }

  /** The deviation is zero exactly when the median itself makes up more than half of the list, or, for
      a list of even length, half of it, with a strict majority within one unit. */
  lemma MadIsZeroIff(s: seq<int>)
    requires s != []
    ensures var med := MedianOf(s);
            MadOf(s) == 0 <==> HoldsMiddle(|s|, Count(s, med, med), Count(s, med - 1, med + 1))
  {
    hide Count, SortInts, BigintMedian, Ascending, HoldsMiddle, Deviations, MadOf, MedianOf;
    var med := MedianOf(s);
    MadUnfolds(s);
    SortedDeviations(s, med);
    MedianIsZeroIff(SortInts(Deviations(SortInts(s), med)));
    DeviationsCounted(s, med, 0, med, med);
    DeviationsCounted(s, med, 1, med - 1, med + 1);
  }

  lemma MadUnfolds(s: seq<int>)
    requires s != []
    ensures MadOf(s) == BigintMedian(SortInts(Deviations(SortInts(s), MedianOf(s))))
  {
    hide SortInts, BigintMedian, Deviations;
  }

  lemma SortedDeviations(s: seq<int>, med: int)
    ensures var ds := SortInts(Deviations(SortInts(s), med));
            |ds| == |s| && Ascending(ds) && forall i :: 0 <= i < |ds| ==> ds[i] >= 0
  {
    var devs := Deviations(SortInts(s), med);
    SortIntsSorts(devs);
    forall i | 0 <= i < |devs| ensures SortInts(devs)[i] >= 0 {
      SortedValue(devs, i);
    }
  }

  lemma DeviationsCounted(s: seq<int>, med: int, d: int, lo: int, hi: int)
    requires lo == med - d && hi == med + d
    ensures Count(SortInts(Deviations(SortInts(s), med)), 0, d) == Count(s, lo, hi)
  {
    SortIntsCounts(Deviations(SortInts(s), med), 0, d);
    DeviationCount(SortInts(s), med, d);
    SortIntsCounts(s, lo, hi);
  }

  /** At least half of any list is within one deviation of its median. */
  lemma HalfWithinOneMad(s: seq<int>)
    requires s != []
    ensures MadOf(s) >= 0
    ensures 2 * Count(s, MedianOf(s) - MadOf(s), MedianOf(s) + MadOf(s)) >= |s|
  {
    hide BigintMedian, Count, SortInts;
    var med, sorted := MedianOf(s), SortInts(s);
    var devs := Deviations(sorted, med);
    HalfWithinMad(devs);
    var mad := MedianOf(devs);
    DeviationCount(sorted, med, mad);
    SortIntsCounts(s, med - mad, med + mad);
    assert Count(s, med - mad, med + mad) == Count(devs, 0, mad);
  }

  /** With a threshold of at least one deviation, at least half the prices survive. */
  lemma HalfSurvive(prices: seq<PriceData>, zMax: real)
    requires ScaledThreshold(zMax) >= 10000
    ensures 2 * |FilterOutliersByMad(prices, zMax)| >= |prices|
  {
    if !(zMax <= 0.0 || |prices| <= 2 || Mad(prices) == 0) {
      var med, mad, z := Median(prices), Mad(prices), ScaledThreshold(zMax);
      HalfWithinOneMad(Values(prices));
      MulMono(10000, z, mad);
      KeepAtLeast(prices, med, z * mad, mad);
    }
  }

  lemma HalfWithinMad(devs: seq<int>)
    requires devs != [] && forall i :: 0 <= i < |devs| ==> devs[i] >= 0
    ensures MedianOf(devs) >= 0
    ensures 2 * Count(devs, 0, MedianOf(devs)) >= |devs|
  {
    var ds := SortInts(devs);
    SortIntsSorts(devs);
    forall i | 0 <= i < |ds| ensures 0 <= ds[i] <= ds[|ds| - 1] {
      SortedValue(devs, i);
    }
    MedianSplitsInHalf(ds, 0, ds[|ds| - 1]);
    CountBounds(ds, 0, BigintMedian(ds));
    SortIntsCounts(devs, 0, BigintMedian(ds));
  }

  // ---------------------------------------------------------------------------
  // Medians of the surviving prices
  // ---------------------------------------------------------------------------

  function ProviderWeight(providers: seq<Provider>, name: string): real {
    if providers == [] then 0.1
    else if providers[0].name == name then providers[0].weight
    else ProviderWeight(providers[1..], name)
  }

  function Weight(p: PriceData, providers: seq<Provider>): real {
    if p.volume24h.Some? && p.volume24h.value > 0 then p.volume24h.value as real
    else ProviderWeight(providers, p.source)
  }

  /** What a record weighs: its volume when it has a positive one, else the weight of the first provider of
      its source's name, else a tenth. */
  lemma WeightIsChosen(p: PriceData, providers: seq<Provider>)
    ensures p.volume24h.Some? && p.volume24h.value > 0 ==> Weight(p, providers) == p.volume24h.value as real
    ensures p.volume24h.None? || p.volume24h.value <= 0 ==>
              if forall q :: q in providers ==> q.name != p.source then Weight(p, providers) == 0.1
              else exists i :: 0 <= i < |providers| && IsFirst(providers, p.source, i) && Weight(p, providers) == providers[i].weight
  {
    FirstProvider(providers, p.source);
  }

  ghost predicate IsFirst(providers: seq<Provider>, name: string, i: nat)
    requires i < |providers|
  {
    providers[i].name == name && forall j :: 0 <= j < i ==> providers[j].name != name
  }

  lemma {:induction false} FirstProvider(providers: seq<Provider>, name: string)
    ensures if forall q :: q in providers ==> q.name != name then ProviderWeight(providers, name) == 0.1
            else exists i :: 0 <= i < |providers| && IsFirst(providers, name, i) && ProviderWeight(providers, name) == providers[i].weight
  {
    if providers == [] {
    } else if providers[0].name == name {
      assert providers[0] in providers && IsFirst(providers, name, 0);
    } else {
      var rest := providers[1..];
      FirstProvider(rest, name);
      assert providers == [providers[0]] + rest;
      if exists q :: q in rest && q.name == name {
        var i :| 0 <= i < |rest| && IsFirst(rest, name, i) && ProviderWeight(rest, name) == rest[i].weight;
        assert forall j :: 0 < j < |providers| ==> providers[j] == rest[j - 1];
        assert IsFirst(providers, name, i + 1);
      }
    }
  }

  ghost predicate NonNegativeWeights(providers: seq<Provider>) {
    forall q :: q in providers ==> q.weight >= 0.0
  }

  lemma {:induction false} WeightsAreNonNegative(p: PriceData, providers: seq<Provider>)
    requires NonNegativeWeights(providers)
    ensures Weight(p, providers) >= 0.0
  {
    ProviderWeightNonNegative(providers, p.source);
  }

  lemma {:induction false} ProviderWeightNonNegative(providers: seq<Provider>, name: string)
    requires NonNegativeWeights(providers)
    ensures ProviderWeight(providers, name) >= 0.0
  {
    if providers == [] {
    } else {
      assert providers[0] in providers;
      ProviderWeightNonNegative(providers[1..], name);
    }
  }

  /** Total weight of the records whose price lies in `[lo, hi]`. */
  function WeightIn(s: seq<PriceData>, providers: seq<Provider>, lo: int, hi: int): real {
    if s == [] then 0.0
    else WeightIn(s[..|s| - 1], providers, lo, hi)
         + if lo <= s[|s| - 1].price <= hi then Weight(s[|s| - 1], providers) else 0.0
  }

  function TotalWeight(s: seq<PriceData>, providers: seq<Provider>): real {
    if s == [] then 0.0 else TotalWeight(s[..|s| - 1], providers) + Weight(s[|s| - 1], providers)
  }

  /** First position at which the running weight reaches half, from position `i` on; the last one otherwise. */
  function HalfPoint(sorted: seq<PriceData>, providers: seq<Provider>, half: real, i: nat): (k: nat)
    requires i < |sorted|
    ensures i <= k < |sorted|
    decreases |sorted| - i
  {
    if i + 1 == |sorted| || TotalWeight(sorted[..i + 1], providers) >= half then i
    else HalfPoint(sorted, providers, half, i + 1)
  }

  function WeightedMedianOf(prices: seq<PriceData>, providers: seq<Provider>): int
    requires prices != []
  {
    var sorted := SortByPrice(prices);
    sorted[HalfPoint(sorted, providers, TotalWeight(sorted, providers) / 2.0, 0)].price
  }

  /** `weightedMedian`. No value stands for the exception on an empty list. */
  method WeightedMedian(prices: seq<PriceData>, providers: seq<Provider>) returns (r: Option<int>)
    ensures r == if prices == [] then None else Some(WeightedMedianOf(prices, providers))
  {
    hide SortByPrice, Weight, Values;
    var sorted := SortByPrice(prices);
    var totalWeight := 0.0;
    for i := 0 to |sorted|
      invariant totalWeight == TotalWeight(sorted[..i], providers)
    {
      assert sorted[..i + 1][..i] == sorted[..i];
      totalWeight := totalWeight + Weight(sorted[i], providers);
    }
    assert sorted[..|sorted|] == sorted;
    var halfWeight := totalWeight / 2.0;
    var cumWeight := 0.0;
    for i := 0 to |sorted|
      invariant cumWeight == TotalWeight(sorted[..i], providers)
      invariant 0 < i < |sorted| ==> cumWeight < halfWeight
      invariant i < |sorted| ==> HalfPoint(sorted, providers, halfWeight, 0) == HalfPoint(sorted, providers, halfWeight, i)
      invariant 0 < i == |sorted| ==> HalfPoint(sorted, providers, halfWeight, 0) == i - 1
    {
      assert sorted[..i + 1][..i] == sorted[..i];
      cumWeight := cumWeight + Weight(sorted[i], providers);
      if cumWeight >= halfWeight {
        return Some(sorted[i].price);
      }
    }
    return if sorted == [] then None else Some(sorted[|sorted| - 1].price);
  }

  /** `simpleMedian`. */
  function SimpleMedianOf(prices: seq<PriceData>): int
    requires prices != []
  {
    BigintMedian(Values(SortByPrice(prices)))
  }

  lemma {:induction false} HalfPointIsHalf(s: seq<PriceData>, providers: seq<Provider>, half: real, i: nat)
    requires i < |s| && half <= TotalWeight(s, providers)
    requires i == 0 || TotalWeight(s[..i], providers) < half
    ensures var k := HalfPoint(s, providers, half, i);
            && (k == 0 || TotalWeight(s[..k], providers) < half)
            && TotalWeight(s[..k + 1], providers) >= half
    decreases |s| - i
  {
    assert s[..|s|] == s;
    if i + 1 < |s| && TotalWeight(s[..i + 1], providers) < half {
      HalfPointIsHalf(s, providers, half, i + 1);
    }
  }

  lemma {:induction false} WeightSplit(s: seq<PriceData>, providers: seq<Provider>, k: nat)
    requires k <= |s|
    ensures TotalWeight(s, providers) == TotalWeight(s[..k], providers) + TotalWeight(s[k..], providers)
  {
    if k < |s| {
      WeightSplit(s[..|s| - 1], providers, k);
      assert s[..|s| - 1][..k] == s[..k];
      assert s[k..][..|s| - k - 1] == s[..|s| - 1][k..];
    } else {
      assert s[..k] == s;
    }
  }

  lemma {:induction false} WeightInSplit(s: seq<PriceData>, providers: seq<Provider>, k: nat, lo: int, hi: int)
    requires k <= |s|
    ensures WeightIn(s, providers, lo, hi) == WeightIn(s[..k], providers, lo, hi) + WeightIn(s[k..], providers, lo, hi)
  {
    if k < |s| {
      WeightInSplit(s[..|s| - 1], providers, k, lo, hi);
      assert s[..|s| - 1][..k] == s[..k];
      assert s[k..][..|s| - k - 1] == s[..|s| - 1][k..];
    } else {
      assert s[..k] == s;
    }
  }

  lemma {:induction false} WeightInBounds(s: seq<PriceData>, providers: seq<Provider>, lo: int, hi: int)
    requires NonNegativeWeights(providers)
    ensures 0.0 <= WeightIn(s, providers, lo, hi) <= TotalWeight(s, providers)
    ensures (forall i :: 0 <= i < |s| ==> s[i].price < lo || s[i].price > hi) ==> WeightIn(s, providers, lo, hi) == 0.0
  {
    if s == [] {
    } else {
      WeightInBounds(s[..|s| - 1], providers, lo, hi);
      WeightsAreNonNegative(s[|s| - 1], providers);
    }
  }

  lemma {:induction false} WeightInInsert(s: seq<PriceData>, p: PriceData, providers: seq<Provider>, lo: int, hi: int)
    ensures WeightIn(Insert(s, p), providers, lo, hi) ==
            WeightIn(s, providers, lo, hi) + if lo <= p.price <= hi then Weight(p, providers) else 0.0
    ensures TotalWeight(Insert(s, p), providers) == TotalWeight(s, providers) + Weight(p, providers)
  {
    if s == [] || s[|s| - 1].price <= p.price {
      assert (s + [p])[..|s|] == s;
    } else {
      var front, last := s[..|s| - 1], s[|s| - 1];
      WeightInInsert(front, p, providers, lo, hi);
      assert (Insert(front, p) + [last])[..|Insert(front, p)|] == Insert(front, p);
    }
  }

  lemma {:induction false} WeightInSort(s: seq<PriceData>, providers: seq<Provider>, lo: int, hi: int)
    ensures WeightIn(SortByPrice(s), providers, lo, hi) == WeightIn(s, providers, lo, hi)
    ensures TotalWeight(SortByPrice(s), providers) == TotalWeight(s, providers)
  {
    if s == [] {
    } else {
      WeightInSort(s[..|s| - 1], providers, lo, hi);
      WeightInInsert(SortByPrice(s[..|s| - 1]), s[|s| - 1], providers, lo, hi);
    }
  }

  /** The weighted median is one of the prices, and no price range avoiding it carries more than half
      the weight on either side. */
  lemma WeightedMedianBalances(prices: seq<PriceData>, providers: seq<Provider>, lo: int, hi: int)
    requires prices != [] && NonNegativeWeights(providers)
    ensures exists p :: p in prices && p.price == WeightedMedianOf(prices, providers)
    ensures hi < WeightedMedianOf(prices, providers) || WeightedMedianOf(prices, providers) < lo ==>
              2.0 * WeightIn(prices, providers, lo, hi) <= TotalWeight(prices, providers)
  {
    hide SortByPrice, SortInts, WeightIn, HalfPoint, Values;
    WeightedMedianIsAPrice(prices, providers);
    var s := SortByPrice(prices);
    SortByPriceSorts(prices);
    SortIntsSorts(Values(prices));
    WeightInSort(prices, providers, lo, hi);
    WeightInBounds(s, providers, lo, hi);
    var half := TotalWeight(s, providers) / 2.0;
    HalfPointIsHalf(s, providers, half, 0);
    var k := HalfPoint(s, providers, half, 0);
    assert TotalWeight(s[..0], providers) == 0.0;
    RangeBesideHalfPoint(s, providers, k, lo, hi);
  }

  /** Exactly when the weighted median is at most a bound: when half of a positive total weight is. */
  lemma WeightedMedianAtMostIff(prices: seq<PriceData>, providers: seq<Provider>, least: int, hi: int)
    requires prices != [] && NonNegativeWeights(providers) && TotalWeight(prices, providers) > 0.0
    requires forall p :: p in prices ==> least <= p.price
    ensures WeightedMedianOf(prices, providers) <= hi <==>
            2.0 * WeightIn(prices, providers, least, hi) >= TotalWeight(prices, providers)
  {
    hide SortByPrice, SortInts, WeightIn, TotalWeight, HalfPoint, Ascending;
    var s := SortByPrice(prices);
    SortByPriceSorts(prices);
    SortIntsSorts(Values(prices));
    assert forall p :: p in s ==> p in multiset(prices);
    WeightInSort(prices, providers, least, hi);
    HalfPointSplits(s, providers, least, hi);
  }

  lemma HalfPointSplits(s: seq<PriceData>, providers: seq<Provider>, least: int, hi: int)
    requires s != [] && Ascending(Values(s)) && NonNegativeWeights(providers) && TotalWeight(s, providers) > 0.0
    requires forall p :: p in s ==> least <= p.price
    ensures s[HalfPoint(s, providers, TotalWeight(s, providers) / 2.0, 0)].price <= hi <==>
            2.0 * WeightIn(s, providers, least, hi) >= TotalWeight(s, providers)
  {
    var half := TotalWeight(s, providers) / 2.0;
    assert TotalWeight(s[..0], providers) == 0.0;
    hide WeightIn, TotalWeight, Ascending, Values;
    HalfPointIsHalf(s, providers, half, 0);
    var k := HalfPoint(s, providers, half, 0);
    hide HalfPoint;
    RangeBesideHalfPoint(s, providers, k, least, hi);
    if s[k].price <= hi {
      HeadWithin(s, providers, k, least, hi);
    }
  }

  /** The records up to position `k` all weigh in a range that reaches up to it. */
  lemma HeadWithin(s: seq<PriceData>, providers: seq<Provider>, k: nat, least: int, hi: int)
    requires k < |s| && Ascending(Values(s)) && NonNegativeWeights(providers)
    requires s[k].price <= hi && forall p :: p in s ==> least <= p.price
    ensures WeightIn(s, providers, least, hi) >= TotalWeight(s[..k + 1], providers)
  {
    hide WeightIn, TotalWeight;
    var vs := Values(s);
    assert forall i :: 0 <= i <= k ==> vs[i] <= vs[k];
    forall i | 0 <= i <= k ensures least <= s[i].price <= hi {
      assert s[i] in s && vs[i] == s[i].price;
    }
    WeightInSplit(s, providers, k + 1, least, hi);
    WeightInAll(s[..k + 1], providers, least, hi);
    WeightInBounds(s[k + 1..], providers, least, hi);
  }

  lemma {:induction false} WeightInAll(s: seq<PriceData>, providers: seq<Provider>, lo: int, hi: int)
    requires forall i :: 0 <= i < |s| ==> lo <= s[i].price <= hi
    ensures WeightIn(s, providers, lo, hi) == TotalWeight(s, providers)
  {
    if s == [] {
    } else {
      WeightInAll(s[..|s| - 1], providers, lo, hi);
    }
  }

  /** So it lies in `[lo, hi]` exactly when at least half of the weight is at most `hi` and less than half
      is below `lo`. */
  lemma WeightedMedianWithinIff(prices: seq<PriceData>, providers: seq<Provider>, least: int, lo: int, hi: int)
    requires prices != [] && NonNegativeWeights(providers) && TotalWeight(prices, providers) > 0.0
    requires forall p :: p in prices ==> least <= p.price
    ensures lo <= WeightedMedianOf(prices, providers) <= hi <==>
            && 2.0 * WeightIn(prices, providers, least, hi) >= TotalWeight(prices, providers)
            && 2.0 * WeightIn(prices, providers, least, lo - 1) < TotalWeight(prices, providers)
  {
    hide WeightedMedianOf, WeightIn, TotalWeight;
    WeightedMedianAtMostIff(prices, providers, least, hi);
    WeightedMedianAtMostIff(prices, providers, least, lo - 1);
  }

  /** All prices are used when the filter keeps them all or leaves fewer than the quorum. */
  lemma AllPricesUsed(prices: seq<PriceData>, cfg: Config)
    requires cfg.madZScoreThreshold <= 0.0 || |prices| <= 2 || Mad(prices) == 0
             || |FilterOutliersByMad(prices, cfg.madZScoreThreshold)| < cfg.minSources
    ensures ActivePrices(prices, cfg) == prices
  {
  }

  /** The whole aggregate is then in range exactly under that condition on the weights of all the prices,
      whatever majority they form by number; without weights, a majority by number suffices. */
  lemma UnfilteredAggregateWithinIff(prices: seq<PriceData>, providers: seq<Provider>, cfg: Config, least: int, lo: int, hi: int)
    requires |prices| >= 2 && NonNegativeWeights(providers) && TotalWeight(prices, providers) > 0.0
    requires cfg.madZScoreThreshold <= 0.0 || |prices| <= 2 || Mad(prices) == 0
             || |FilterOutliersByMad(prices, cfg.madZScoreThreshold)| < cfg.minSources
    requires forall p :: p in prices ==> least <= p.price
    ensures AggregatePrice(prices, providers, cfg).Some?
    ensures cfg.useWeightedMedian ==>
              (lo <= AggregatePrice(prices, providers, cfg).value <= hi <==>
                && 2.0 * WeightIn(prices, providers, least, hi) >= TotalWeight(prices, providers)
                && 2.0 * WeightIn(prices, providers, least, lo - 1) < TotalWeight(prices, providers))
    ensures !cfg.useWeightedMedian && 2 * Count(Values(prices), lo, hi) > |prices| ==>
              lo <= AggregatePrice(prices, providers, cfg).value <= hi
  {
    AllPricesUsed(prices, cfg);
    hide WeightedMedianOf, SimpleMedianOf, WeightIn, TotalWeight, ActivePrices, Count, Mad, FilterOutliersByMad;
    WeightedMedianWithinIff(prices, providers, least, lo, hi);
    if 2 * Count(Values(prices), lo, hi) > |prices| {
      SimpleMedianIsRobust(prices, lo, hi);
    }
  }

  /** Records that weigh nothing at all leave the least price. */
  lemma WeightlessMedianIsLeast(prices: seq<PriceData>, providers: seq<Provider>)
    requires prices != [] && NonNegativeWeights(providers) && TotalWeight(prices, providers) == 0.0
    ensures forall p :: p in prices ==> WeightedMedianOf(prices, providers) <= p.price
  {
    hide SortByPrice, SortInts;
    var s := SortByPrice(prices);
    SortByPriceSorts(prices);
    SortIntsSorts(Values(prices));
    WeightInSort(prices, providers, 0, 0);
    assert TotalWeight(s[..1], providers) >= 0.0 by {
      WeightInBounds(s[..1], providers, 0, 0);
    }
    forall p | p in prices ensures s[0].price <= p.price {
      assert p in multiset(prices) && p in s;
      var i :| 0 <= i < |s| && s[i] == p;
      assert Values(s)[0] <= Values(s)[i];
    }
  }

  /** In ascending records, a range on one side of position `k` weighs no more than that side. */
  lemma RangeBesideHalfPoint(s: seq<PriceData>, providers: seq<Provider>, k: nat, lo: int, hi: int)
    requires k < |s| && Ascending(Values(s)) && NonNegativeWeights(providers)
    ensures hi < s[k].price ==> WeightIn(s, providers, lo, hi) <= TotalWeight(s[..k], providers)
    ensures s[k].price < lo ==>
              WeightIn(s, providers, lo, hi) <= TotalWeight(s, providers) - TotalWeight(s[..k + 1], providers)
  {
    hide WeightIn, TotalWeight;
    var vs := Values(s);
    if hi < s[k].price {
      assert forall i :: k <= i < |s| ==> vs[k] <= vs[i];
      WeightInSplit(s, providers, k, lo, hi);
      WeightInBounds(s[..k], providers, lo, hi);
      WeightInBounds(s[k..], providers, lo, hi);
    }
    if s[k].price < lo {
      assert forall i :: 0 <= i <= k ==> vs[i] <= vs[k];
      WeightInSplit(s, providers, k + 1, lo, hi);
      WeightSplit(s, providers, k + 1);
      WeightInBounds(s[..k + 1], providers, lo, hi);
      WeightInBounds(s[k + 1..], providers, lo, hi);
    }
  }

  // ---------------------------------------------------------------------------
  // The aggregated price
  // ---------------------------------------------------------------------------

  function ActivePrices(prices: seq<PriceData>, cfg: Config): seq<PriceData> {
    var filtered := FilterOutliersByMad(prices, cfg.madZScoreThreshold);
    if |filtered| >= cfg.minSources then filtered else prices
  }

  /** The price chosen by `aggregate`; no value stands for the exception on an empty list. */
  function AggregatePrice(prices: seq<PriceData>, providers: seq<Provider>, cfg: Config): Option<int> {
    if |prices| == 1 then Some(prices[0].price)
    else
      var active := ActivePrices(prices, cfg);
      if active == [] then None
      else if cfg.useWeightedMedian then Some(WeightedMedianOf(active, providers))
      else Some(SimpleMedianOf(active))
  }

  /** Any median of a list lies where every price of the list lies. */
  lemma MedianOfBounded(prices: seq<PriceData>, lo: int, hi: int)
    requires prices != [] && forall p :: p in prices ==> lo <= p.price <= hi
    ensures lo <= SimpleMedianOf(prices) <= hi
  {
    SortByPriceSorts(prices);
    CountBounds(Values(prices), lo, hi);
    MedianOfInMajority(Values(prices), lo, hi);
  }

  lemma SortedRecord(prices: seq<PriceData>, k: nat)
    requires k < |SortByPrice(prices)|
    ensures SortByPrice(prices)[k] in prices
  {
    SortByPriceSorts(prices);
    assert SortByPrice(prices)[k] in multiset(SortByPrice(prices));
  }

  lemma WeightedMedianIsAPrice(prices: seq<PriceData>, providers: seq<Provider>)
    requires prices != []
    ensures exists p :: p in prices && p.price == WeightedMedianOf(prices, providers)
  {
    var s := SortByPrice(prices);
    SortedRecord(prices, HalfPoint(s, providers, TotalWeight(s, providers) / 2.0, 0));
  }

  /** Main result. Three or more prices, a strict majority in `[lo, hi]`, a positive threshold and a
      non-zero deviation: whatever the other prices and all the weights are, the aggregate of the
      filtered list stays within Z (hi - lo) / 10000 of `[lo, hi]`. */
  lemma AggregateIsRobust(prices: seq<PriceData>, providers: seq<Provider>, cfg: Config, lo: int, hi: int)
    requires |prices| >= 3 && 2 * Count(Values(prices), lo, hi) > |prices|
    requires cfg.madZScoreThreshold > 0.0 && Mad(prices) != 0
    requires |FilterOutliersByMad(prices, cfg.madZScoreThreshold)| >= Max(cfg.minSources, 1)
    ensures AggregatePrice(prices, providers, cfg).Some?
    ensures var v := AggregatePrice(prices, providers, cfg).value;
            var z := ScaledThreshold(cfg.madZScoreThreshold);
            && IsNearest(z, cfg.madZScoreThreshold * 14826.0)
            && 10000 * (lo - v) <= z * (hi - lo) && 10000 * (v - hi) <= z * (hi - lo)
  {
    ThresholdIsNearest(cfg.madZScoreThreshold);
    hide Count, MadOf, MedianOf, Keep, ScaledThreshold, IsNearest, SimpleMedianOf, WeightedMedianOf;
    MajorityPinsMedianAndMad(Values(prices), lo, hi);
    var med, mad := Median(prices), Mad(prices);
    var z := ScaledThreshold(cfg.madZScoreThreshold);
    KeepIsFilter(prices, med, z * mad);
    assert 0 <= z by { ThresholdIsNonNegative(cfg.madZScoreThreshold); }
    MulMono(mad, hi - lo, z);
    var limit := z * (hi - lo);
    assert mad * z <= limit && z * mad <= limit;
    var active := ActivePrices(prices, cfg);
    assert active == Keep(prices, med, z * mad);
    forall p | p in active ensures Accepts(p, med, limit) {
      assert Accepts(p, med, z * mad);
    }
    MediansWithin(active, providers, med, limit);
  }

  lemma ThresholdIsNonNegative(zMax: real)
    requires zMax > 0.0
    ensures ScaledThreshold(zMax) >= 0
  {
  }

  /** Both medians of a list stay within the reach of its members. */
  lemma MediansWithin(active: seq<PriceData>, providers: seq<Provider>, med: int, limit: int)
    requires active != [] && forall p :: p in active ==> Accepts(p, med, limit)
    ensures Abs(SimpleMedianOf(active) - med) * 10000 <= limit
    ensures Abs(WeightedMedianOf(active, providers) - med) * 10000 <= limit
  {
    var reach := limit / 10000;
    forall p | p in active ensures med - reach <= p.price <= med + reach {
      assert Accepts(p, med, limit);
    }
    MedianOfBounded(active, med - reach, med + reach);
    WeightedMedianIsAPrice(active, providers);
  }

  /** Under the same majority, a threshold of one deviation or more and a quorum of at most half the
      prices, the filtered list is the one used, so the bound holds unconditionally. */
  lemma AggregateIsRobustBelowHalfQuorum(prices: seq<PriceData>, providers: seq<Provider>, cfg: Config, lo: int, hi: int)
    requires |prices| >= 3 && 2 * Count(Values(prices), lo, hi) > |prices|
    requires ScaledThreshold(cfg.madZScoreThreshold) >= 10000 && Mad(prices) != 0
    requires 2 * cfg.minSources <= |prices|
    ensures AggregatePrice(prices, providers, cfg).Some?
    ensures var v := AggregatePrice(prices, providers, cfg).value;
            var z := ScaledThreshold(cfg.madZScoreThreshold);
            && IsNearest(z, cfg.madZScoreThreshold * 14826.0)
            && 10000 * (lo - v) <= z * (hi - lo) && 10000 * (v - hi) <= z * (hi - lo)
  {
    HalfSurvive(prices, cfg.madZScoreThreshold);
    AggregateIsRobust(prices, providers, cfg, lo, hi);
  }

  /** When every price is used, the plain median still lies with the majority. */
  lemma SimpleMedianIsRobust(prices: seq<PriceData>, lo: int, hi: int)
    requires prices != [] && 2 * Count(Values(prices), lo, hi) > |prices|
    ensures lo <= SimpleMedianOf(prices) <= hi
  {
    SortByPriceSorts(prices);
    MedianOfInMajority(Values(prices), lo, hi);
  }

  // ---------------------------------------------------------------------------
  // Zero deviation
  // ---------------------------------------------------------------------------

  /** Three sources at 100 and one, of nine times the volume, at `x`. */
  function Lopsided(x: int): seq<PriceData> {
    [PriceData(100, "a", Some(1)), PriceData(100, "b", Some(1)),
     PriceData(100, "c", Some(1)), PriceData(x, "d", Some(9))]
  }

  lemma {:induction false} AscendingIsSorted(s: seq<int>)
    requires Ascending(s)
    ensures SortInts(s) == s
  {
    if s == [] {
    } else {
      AscendingIsSorted(s[..|s| - 1]);
    }
  }

  lemma {:induction false} AscendingRecordsAreSorted(s: seq<PriceData>)
    requires Ascending(Values(s))
    ensures SortByPrice(s) == s
  {
    if s == [] {
    } else {
      var front, last := s[..|s| - 1], s[|s| - 1];
      AscendingFront(s);
      hide Ascending, Insert;
      AscendingRecordsAreSorted(front);
      InsertGreatest(front, last);
      assert s == front + [last];
    }
  }

  lemma AscendingFront(s: seq<PriceData>)
    requires s != [] && Ascending(Values(s))
    ensures Ascending(Values(s[..|s| - 1]))
    ensures |s| >= 2 ==> s[|s| - 2].price <= s[|s| - 1].price
  {
    assert Values(s[..|s| - 1]) == Values(s)[..|s| - 1];
    assert |s| >= 2 ==> Values(s)[|s| - 2] <= Values(s)[|s| - 1];
  }

  lemma InsertGreatest(s: seq<PriceData>, p: PriceData)
    requires s == [] || s[|s| - 1].price <= p.price
    ensures Insert(s, p) == s + [p]
  {
  }

  lemma LopsidedDeviation(x: int)
    requires x > 100
    ensures Mad(Lopsided(x)) == 0 && 2 * Count(Values(Lopsided(x)), 100, 100) > 4
  {
    hide SortInts, Count;
    var vs := Values(Lopsided(x));
    assert vs == [100, 100, 100, x];
    AscendingIsSorted(vs);
    assert MedianOf(vs) == 100;
    var devs := Deviations(vs, 100);
    assert devs == [0, 0, 0, x - 100];
    AscendingIsSorted(devs);
    assert MedianOf(devs) == 0;
    CountSplit(vs, 3, 100, 100);
    CountBounds(vs[..3], 100, 100);
  }

  lemma LopsidedWeights(x: int)
    requires x > 100
    ensures WeightedMedianOf(Lopsided(x), []) == x
  {
    var ps := Lopsided(x);
    assert Values(ps) == [100, 100, 100, x];
    AscendingRecordsAreSorted(ps);
    assert ps[..4] == ps;
    assert ps[..3][..2] == ps[..2] && ps[..2][..1] == ps[..1] && ps[..1][..0] == ps[..0] == [];
    assert TotalWeight(ps[..1], []) == 1.0;
    assert TotalWeight(ps[..2], []) == 2.0;
    assert TotalWeight(ps[..3], []) == 3.0;
    assert TotalWeight(ps, []) == 12.0;
    assert HalfPoint(ps, [], 6.0, 2) == 3;
    assert HalfPoint(ps, [], 6.0, 1) == 3;
  }

  /** A zero deviation does not mean the prices agree: three sources at 100 and one at any `x` have
      deviation zero, so nothing is rejected, and the volume of the fourth makes `x` the answer. */
  lemma ZeroDeviationKeepsOutlier(x: int)
    requires x > 100
    ensures Mad(Lopsided(x)) == 0
    ensures 2 * Count(Values(Lopsided(x)), 100, 100) > |Lopsided(x)|
    ensures AggregatePrice(Lopsided(x), [], Config(1, true, 3.5)) == Some(x)
  {
    LopsidedDeviation(x);
    LopsidedWeights(x);
  }
}
