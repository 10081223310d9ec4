/** The pricing analysis of 2021 Honda Accords over the saved listings: the
    Accords sorted by mileage, grouped by trim, the ten closest to 85,000
    miles, the price statistics of the 70,000-100,000 mile band, the mileage
    endpoints of the depreciation estimate and the negotiation ladder. Reading
    the JSON file and printing are left to the caller. */
module PricingAnalysis {
  import opened Results
  import opened Listings
  import Seqs

  // ---------------------------------------------------------------------------
  // The Accords, by mileage

  /** A 2021 Honda Accord with a (truthy) price and mileage. */
  predicate IsAccord(l: Listing) {
    && l.build.Some?
    && l.build.value.year == 2021
    && l.build.value.make == "Honda"
    && l.build.value.model == "Accord"
    && l.price != 0 && l.miles != 0
  }

  /** The Accords among the listings, ascending by miles; listings with equal
      miles keep their order (see `AccordsStable`). */
  function Accords(listings: seq<Listing>): (r: seq<Listing>)
    ensures forall x :: multiset(r)[x] == if IsAccord(x) then multiset(listings)[x] else 0
    ensures Seqs.SortedBy(r, Miles)
  {
    var accords := Seqs.Filter(listings, IsAccord);
    forall x ensures multiset(accords)[x] == if IsAccord(x) then multiset(listings)[x] else 0 {
      Seqs.FilterMultiset(listings, IsAccord, x);
    }
    Seqs.SortBy(accords, Miles)
  }

  /** Accords with the same mileage appear in listing order. */
  lemma AccordsStable(listings: seq<Listing>, miles: int)
    ensures Seqs.Having(Accords(listings), Miles, miles)
         == Seqs.Having(Seqs.Filter(listings, IsAccord), Miles, miles)
  {
    Seqs.SortStable(Seqs.Filter(listings, IsAccord), Miles, miles);
  }

  lemma AccordMembers(listings: seq<Listing>)
    ensures forall i :: 0 <= i < |Accords(listings)| ==> IsAccord(Accords(listings)[i])
  {
    var r := Accords(listings);
    forall i | 0 <= i < |r| ensures IsAccord(r[i]) {
      assert multiset(r)[r[i]] > 0;
    }
  }

  // ---------------------------------------------------------------------------
  // By trim

  /** `car.build.trim || 'Unknown'`. The Accord filter guarantees a build, so
      the last case is never reached. */
  function TrimKey(l: Listing): string {
    match l.build
    case Some(b) => if b.trim.Some? && b.trim.value != "" then b.trim.value else "Unknown"
    case None => "Unknown"
  }

  /** `byTrim`: the Accords grouped by trim key. */
  function ByTrim(accords: seq<Listing>): seq<(string, seq<Listing>)> {
    Seqs.GroupBy(accords, TrimKey)
  }

  /** Every Accord lands in exactly one trim group: the keys are the distinct
      trims in order of first appearance, each group holds exactly the Accords
      of its trim in order, and the group sizes add up to the Accord count. */
  lemma ByTrimPartition(accords: seq<Listing>)
    ensures Seqs.GroupKeys(ByTrim(accords)) == Seqs.Dedupe(Seqs.Map(TrimKey, accords))
    ensures forall i :: 0 <= i < |ByTrim(accords)| ==>
      ByTrim(accords)[i].1 == Seqs.Having(accords, TrimKey, ByTrim(accords)[i].0)
    ensures Seqs.TotalSize(ByTrim(accords)) == |accords|
  {
    Seqs.GroupByKeys(accords, TrimKey);
    Seqs.GroupByGroups(accords, TrimKey);
    Seqs.GroupBySize(accords, TrimKey);
  }

  // ---------------------------------------------------------------------------
  // Closest to 85,000 miles

  const TargetMiles := 85000

  function Abs(x: int): nat { if x < 0 then -x else x }

  /** How far a listing's mileage is from the target. */
  function Diff(l: Listing): int { Abs(l.miles - TargetMiles) }

  /** The first ten Accords by distance from 85,000 miles. */
  function Closest(accords: seq<Listing>): (r: seq<Listing>)
    ensures |r| == if |accords| < 10 then |accords| else 10
    ensures Seqs.SortedBy(r, Diff)
    ensures multiset(r) <= multiset(accords)
  {
    var sorted := Seqs.SortBy(accords, Diff);
    var r := Seqs.Take(sorted, 10);
    SortedPrefix(sorted, Diff, |r|);
    r
  }

  /** A prefix of a sorted list is sorted and takes nothing the list lacks. */
  lemma SortedPrefix<T>(s: seq<T>, key: T -> int, k: nat)
    requires Seqs.SortedBy(s, key) && k <= |s|
    ensures Seqs.SortedBy(s[..k], key)
    ensures multiset(s[..k]) <= multiset(s)
  {
    assert s == s[..k] + s[k..];
    assert multiset(s) == multiset(s[..k]) + multiset(s[k..]);
  }

  /** No Accord left out is strictly closer to the target than one kept. */
  lemma ClosestNoneCloser(accords: seq<Listing>, x: Listing, y: Listing)
    requires x in multiset(accords) - multiset(Closest(accords))
    requires y in Closest(accords)
    ensures Diff(y) <= Diff(x)
  {
    var sorted := Seqs.SortBy(accords, Diff);
    var r := Closest(accords);
    assert r == sorted[..|r|];
    var rest := sorted[|r|..];
    assert sorted == r + rest;
    assert multiset(accords) - multiset(r) == multiset(rest);
    assert x in rest;
    SortedSplit(sorted, Diff, |r|, x, y);
  }

  /** In a sorted list, what precedes a position has no greater key than what follows. */
  lemma SortedSplit<T>(s: seq<T>, key: T -> int, k: nat, x: T, y: T)
    requires Seqs.SortedBy(s, key) && k <= |s|
    requires x in s[k..] && y in s[..k]
    ensures key(y) <= key(x)
  {
    var j :| 0 <= j < |s[k..]| && s[k..][j] == x;
    var i :| 0 <= i < k && s[..k][i] == y;
    assert s[i] == y && s[k + j] == x;
  }

  // ---------------------------------------------------------------------------
  // The 70,000-100,000 mile band

  predicate InBand(l: Listing) { 70000 <= l.miles <= 100000 }

  /** `similar`: the Accords within the band, in their order. */
  function Similar(accords: seq<Listing>): (r: seq<Listing>)
    ensures forall i :: 0 <= i < |r| ==> InBand(r[i])
    ensures forall x :: multiset(r)[x] == if InBand(x) then multiset(accords)[x] else 0
    ensures Seqs.Sublist(r, accords)
  {
    Seqs.FilterSublist(accords, InBand);
    forall x ensures multiset(Seqs.Filter(accords, InBand))[x] ==
      if InBand(x) then multiset(accords)[x] else 0 {
      Seqs.FilterMultiset(accords, InBand, x);
    }
    Seqs.Filter(accords, InBand)
  }

  function Id(x: int): int { x }

  /** The figures printed for the band; the average is floating point and left out. */
  datatype PriceStats = PriceStats(count: nat, low: int, high: int, median: int)

  /** Nothing is printed for an empty band; otherwise the lowest and highest
      price and the price at index `n / 2` of the ascending prices. */
  function Stats(similar: seq<Listing>): (r: Option<PriceStats>)
    ensures r.Some? <==> |similar| > 0
    ensures r.Some? ==> r.value.count == |similar|
    ensures r.Some? ==> r.value.low <= r.value.median <= r.value.high
    ensures r.Some? ==> r.value.median in Seqs.Map(Price, similar)
    ensures r.Some? ==> r.value.low in Seqs.Map(Price, similar) && r.value.high in Seqs.Map(Price, similar)
    ensures r.Some? ==> forall i :: 0 <= i < |similar| ==> r.value.low <= similar[i].price <= r.value.high
  {
    if similar == [] then None
    else
      var prices := Seqs.Map(Price, similar);
      var sorted := Seqs.SortBy(prices, Id);
      var median := sorted[|sorted| / 2];
      assert median in multiset(prices);
      Some(PriceStats(|similar|, Seqs.MinOf(prices), Seqs.MaxOf(prices), median))
  }

  function Below(m: int): int -> bool { x => x < m }
  function Above(m: int): int -> bool { x => x > m }

  /** The median splits the prices: at most `n / 2` are below it and at most
      `n - n / 2 - 1` above it. */
  lemma MedianSplits(similar: seq<Listing>)
    requires |similar| > 0
    ensures var m := Stats(similar).value.median;
      |Seqs.Filter(Seqs.Map(Price, similar), Below(m))| <= |similar| / 2
    ensures var m := Stats(similar).value.median;
      |Seqs.Filter(Seqs.Map(Price, similar), Above(m))| <= |similar| - |similar| / 2 - 1
  {
    var prices := Seqs.Map(Price, similar);
    var sorted := Seqs.SortBy(prices, Id);
    var m := sorted[|sorted| / 2];
    assert Stats(similar).value.median == m;
    SameFilterLength(prices, sorted, Below(m));
    SameFilterLength(prices, sorted, Above(m));
    SortedMiddle(sorted);
  }

  /** The middle element of a sorted list splits it. */
  lemma SortedMiddle(sorted: seq<int>)
    requires Seqs.SortedBy(sorted, Id) && |sorted| > 0
    ensures |Seqs.Filter(sorted, Below(sorted[|sorted| / 2]))| <= |sorted| / 2
    ensures |Seqs.Filter(sorted, Above(sorted[|sorted| / 2]))| <= |sorted| - |sorted| / 2 - 1
  {
    var n, k := |sorted|, |sorted| / 2;
    var m := sorted[k];
    forall i | 0 <= i < n && !(0 <= i < k) ensures !Below(m)(sorted[i]) {
      assert Id(sorted[k]) <= Id(sorted[i]);
    }
    CountWithin(sorted, Below(m), 0, k);
    forall i | 0 <= i < n && !(k + 1 <= i < n) ensures !Above(m)(sorted[i]) {
      assert Id(sorted[i]) <= Id(sorted[k]);
    }
    CountWithin(sorted, Above(m), k + 1, n);
  }

  /** Lists with the same elements have filters of the same length. */
  lemma SameFilterLength(a: seq<int>, b: seq<int>, p: int -> bool)
    requires multiset(a) == multiset(b)
    ensures |Seqs.Filter(a, p)| == |Seqs.Filter(b, p)|
  {
    forall x ensures multiset(Seqs.Filter(a, p))[x] == multiset(Seqs.Filter(b, p))[x] {
      Seqs.FilterMultiset(a, p, x);
      Seqs.FilterMultiset(b, p, x);
    }
    assert multiset(Seqs.Filter(a, p)) == multiset(Seqs.Filter(b, p));
    assert |multiset(Seqs.Filter(a, p))| == |Seqs.Filter(a, p)|;
  }

  /** When only positions `lo..hi` can satisfy `p`, at most `hi - lo` elements do. */
  lemma CountWithin(s: seq<int>, p: int -> bool, lo: nat, hi: nat)
    requires lo <= hi <= |s|
    requires forall i :: 0 <= i < |s| && !(lo <= i < hi) ==> !p(s[i])
    ensures |Seqs.Filter(s, p)| <= hi - lo
  {
    var a, b, c := s[..lo], s[lo..hi], s[hi..];
    assert s == (a + b) + c by {
      assert s == s[..hi] + c;
      assert s[..hi] == a + b;
    }
    assert Seqs.Filter(a, p) == [] by {
      forall i | 0 <= i < |a| ensures !p(a[i]) {
        assert a[i] == s[i];
      }
      Seqs.FilterNone(a, p);
    }
    assert Seqs.Filter(c, p) == [] by {
      forall i | 0 <= i < |c| ensures !p(c[i]) {
        assert c[i] == s[hi + i];
      }
      Seqs.FilterNone(c, p);
    }
    assert |Seqs.Filter(s, p)| == |Seqs.Filter(a, p)| + |Seqs.Filter(b, p)| + |Seqs.Filter(c, p)| by {
      Seqs.FilterConcat(a + b, c, p);
      Seqs.FilterConcat(a, b, p);
    }
  }

  // ---------------------------------------------------------------------------
  // Trim breakdown of the band

  /** `String(car.build.trim)` as an object key: a missing trim becomes `undefined`. */
  function RawTrimKey(l: Listing): string {
    match l.build
    case Some(b) => if b.trim.Some? then b.trim.value else "undefined"
    case None => "undefined"
  }

  datatype TrimStat = TrimStat(trim: string, count: nat, low: int, high: int)

  /** `trimStats`: per trim of the band, in order of first appearance, the
      number of vehicles and their lowest and highest price. */
  function TrimStats(similar: seq<Listing>): (r: seq<TrimStat>)
    ensures |r| == |Seqs.GroupBy(similar, RawTrimKey)|
    ensures forall i :: 0 <= i < |r| ==> r[i].trim == Seqs.GroupBy(similar, RawTrimKey)[i].0
    ensures forall i, j :: 0 <= i < j < |r| ==> r[i].trim != r[j].trim
    ensures forall i :: 0 <= i < |r| ==> r[i].count >= 1 && r[i].low <= r[i].high
    ensures forall i :: 0 <= i < |r| ==>
      r[i].count == |Seqs.Having(similar, RawTrimKey, r[i].trim)|
    ensures forall i :: 0 <= i < |r| ==>
      r[i].low in Seqs.Map(Price, Seqs.Having(similar, RawTrimKey, r[i].trim))
      && r[i].high in Seqs.Map(Price, Seqs.Having(similar, RawTrimKey, r[i].trim))
    ensures forall i, l :: 0 <= i < |r| && l in Seqs.Having(similar, RawTrimKey, r[i].trim) ==>
      r[i].low <= l.price <= r[i].high
  {
    var groups := Seqs.GroupBy(similar, RawTrimKey);
    GroupsNonEmpty(similar, RawTrimKey);
    Seqs.GroupByGroups(similar, RawTrimKey);
    Seqs.GroupByDistinct(similar, RawTrimKey);
    assert Seqs.Distinct(Seqs.GroupKeys(groups));
    StatsOf(groups)
  }

  /** The statistics of one non-empty trim group. */
  function StatOf(trim: string, group: seq<Listing>): (r: TrimStat)
    requires |group| > 0
    ensures r.trim == trim && r.count == |group| && r.low <= r.high
    ensures r.low in Seqs.Map(Price, group) && r.high in Seqs.Map(Price, group)
    ensures forall l :: l in group ==> r.low <= l.price <= r.high
  {
    var prices := Seqs.Map(Price, group);
    var r := TrimStat(trim, |group|, Seqs.MinOf(prices), Seqs.MaxOf(prices));
    forall l | l in group ensures r.low <= l.price <= r.high {
      var j :| 0 <= j < |group| && group[j] == l;
      assert prices[j] == l.price;
    }
    r
  }

  function StatsOf(groups: seq<(string, seq<Listing>)>): (r: seq<TrimStat>)
    requires forall i :: 0 <= i < |groups| ==> |groups[i].1| > 0
    ensures |r| == |groups|
    ensures forall i :: 0 <= i < |r| ==> r[i] == StatOf(groups[i].0, groups[i].1)
  {
    if groups == [] then []
    else
      var rest := StatsOf(groups[1..]);
      assert forall i :: 1 <= i < |groups| ==> groups[1..][i - 1] == groups[i];
      var r := [StatOf(groups[0].0, groups[0].1)] + rest;
      assert forall i :: 1 <= i < |r| ==> r[i] == rest[i - 1];
      r
  }

  /** A group is only opened for an element that goes into it. */
  lemma GroupsNonEmpty<T(!new)>(s: seq<T>, key: T -> string)
    ensures forall i :: 0 <= i < |Seqs.GroupBy(s, key)| ==> |Seqs.GroupBy(s, key)[i].1| > 0
  {
    var g := Seqs.GroupBy(s, key);
    Seqs.GroupByGroups(s, key);
    forall i | 0 <= i < |g| ensures |g[i].1| > 0 {
      var k := g[i].0;
      assert k in Seqs.GroupKeys(g);
      Seqs.GroupByKeyMembers(s, key, k);
      var j :| 0 <= j < |s| && Seqs.Map(key, s)[j] == k;
      Seqs.FilterMultiset(s, Seqs.KeyIs(key, k), s[j]);
      assert s[j] in multiset(s);
    }
  }

  // ---------------------------------------------------------------------------
  // Depreciation endpoints

  predicate PastFortyThousand(l: Listing) { l.miles >= 40000 }

  /** The lowest- and highest-mileage Accords with at least 40,000 miles, when
      there are two or more of them. */
  function Endpoints(accords: seq<Listing>): (r: Option<(Listing, Listing)>)
    ensures r.Some? <==> |Seqs.Filter(accords, PastFortyThousand)| >= 2
    ensures r.Some? ==> r.value.0 in accords && r.value.1 in accords
    ensures r.Some? ==> PastFortyThousand(r.value.0) && PastFortyThousand(r.value.1)
    ensures r.Some? ==> r.value.0.miles <= r.value.1.miles
  {
    var pool := Seqs.Filter(accords, PastFortyThousand);
    var sorted := Seqs.SortBy(pool, Miles);
    if |sorted| < 2 then None
    else
      var low, high := sorted[0], sorted[|sorted| - 1];
      assert low in multiset(sorted) && high in multiset(sorted);
      assert low in pool && high in pool;
      Seqs.FilterSublist(accords, PastFortyThousand);
      assert Miles(low) <= Miles(high);
      Some((low, high))
  }

  /** The endpoints bracket every Accord past 40,000 miles. */
  lemma EndpointsExtremal(accords: seq<Listing>, x: Listing)
    requires Endpoints(accords).Some?
    requires x in accords && PastFortyThousand(x)
    ensures Endpoints(accords).value.0.miles <= x.miles <= Endpoints(accords).value.1.miles
  {
    var pool := Seqs.Filter(accords, PastFortyThousand);
    var sorted := Seqs.SortBy(pool, Miles);
    Seqs.FilterMultiset(accords, PastFortyThousand, x);
    assert x in multiset(sorted);
    var j :| 0 <= j < |sorted| && sorted[j] == x;
    assert Miles(sorted[0]) <= Miles(sorted[j]) <= Miles(sorted[|sorted| - 1]);
  }

  // ---------------------------------------------------------------------------
  // Negotiation ladder

  /** The offers as percentages of the median (hundredths of a median). */
  datatype Ladder = Ladder(opening: int, acceptableLow: int, counter: int, target: int, walkAway: int)

  function LadderOf(median: int): Ladder {
    Ladder(88 * median, 90 * median, 92 * median, 95 * median, 105 * median)
  }

  /** For a non-negative median the offers climb from the opening offer to the
      walk-away price; the target price is also the final offer. */
  lemma LadderOrdered(median: int)
    requires median >= 0
    ensures var l := LadderOf(median);
      l.opening <= l.acceptableLow <= l.counter <= l.target <= l.walkAway
    ensures median > 0 ==> var l := LadderOf(median);
      l.opening < l.acceptableLow < l.counter < l.target < l.walkAway
  {
  }
}
