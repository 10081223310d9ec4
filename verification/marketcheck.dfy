/** The MarketCheck scraper: it asks the recent-listings endpoint for 2021
    Honda Accords in each of a few states, gathers the listings, asks the
    history endpoint about every distinct VIN, keeps the non-empty histories,
    and writes one CSV summary row per vehicle.

    The network is a parameter: `fetchListings` and `fetchHistory` map a
    request URL to what the request came back with (a `Failure` for a request
    or JSON error the script catches, `Success(None)` for a response without a
    usable array). Timestamps become calendar dates through the `dateOf`
    parameter. */
module MarketCheck {
  import opened Results
  import opened Text
  import opened Listings
  import Seqs

  const ApiKey := "INSERT_KEY"
  const BaseUrl := "https://api.marketcheck.com/v2"
  const DefaultLimit := 100
  const SearchMake := "Honda"
  const SearchModel := "Accord"
  const SearchYear := 2021
  const States := ["NJ", "PA"]

  // ---------------------------------------------------------------------------
  // Request URLs

  function Param(name: string, value: string): string { name + "=" + value }

  const RecentsPath := BaseUrl + "/search/car/recents"

  /** The query parameters of a recent-listings request, in order. The values
      are interpolated as they are, without percent-encoding. */
  function RecentsParams(make: string, model: string, year: int, state: string, limit: int): (r: seq<string>)
    ensures |r| == 6
  {
    [Param("api_key", ApiKey), Param("make", make), Param("model", model),
     Param("year", IntToString(year)), Param("state", state), Param("limit", IntToString(limit))]
  }

  function RecentsUrl(make: string, model: string, year: int, state: string, limit: int): string {
    RecentsPath + "?" + Join(RecentsParams(make, model, year, state, limit), '&')
  }

  /** The request the scraper sends for one state. */
  function StateUrl(state: string): string {
    RecentsUrl(SearchMake, SearchModel, SearchYear, state, DefaultLimit)
  }

  /** The query string of a recent-listings URL, if `url` is one. */
  function RecentsQuery(url: string): (r: Option<string>)
    ensures r.Some? ==> url == RecentsPath + "?" + r.value
  {
    var p := RecentsPath + "?";
    if StartsWith(url, p) then
      assert url == p + url[|p|..];
      Some(url[|p|..])
    else None
  }

  /** The value of the first `name=value` piece. */
  function FindParam(pieces: seq<string>, name: string): (r: Option<string>)
    ensures r.Some? ==> exists i :: 0 <= i < |pieces| && pieces[i] == Param(name, r.value)
  {
    if pieces == [] then None
    else if StartsWith(pieces[0], name + "=") then
      var v := pieces[0][|name| + 1..];
      assert pieces[0] == Param(name, v);
      Some(v)
    else
      var r := FindParam(pieces[1..], name);
      if r.Some? then
        var i :| 0 <= i < |pieces[1..]| && pieces[1..][i] == Param(name, r.value);
        assert pieces[i + 1] == Param(name, r.value);
        r
      else r
  }

  /** How a server reads parameter `name` from a query string. */
  function QueryValue(query: string, name: string): Option<string> {
    FindParam(SplitOn(query, '&'), name)
  }

  function QueryInt(query: string, name: string): Option<int> {
    match QueryValue(query, name)
    case None => None
    case Some(v) => ParseInt(v)
  }

  lemma {:induction false} FindParamAt(pieces: seq<string>, i: nat, name: string, value: string)
    requires i < |pieces| && pieces[i] == Param(name, value)
    requires forall j :: 0 <= j < i ==> !StartsWith(pieces[j], name + "=")
    ensures FindParam(pieces, name) == Some(value)
  {
    if i == 0 {
      assert pieces[0][..|name| + 1] == name + "=";
      assert pieces[0][|name| + 1..] == value;
    } else {
      FindParamAt(pieces[1..], i - 1, name, value);
    }
  }

  /** Parameter pieces of different names never shadow each other. */
  lemma ParamNoAmp(name: string, value: string)
    requires forall k :: 0 <= k < |name| ==> name[k] != '&'
    requires '&' !in value
    ensures '&' !in Param(name, value)
  {
    var p := Param(name, value);
    forall k | 0 <= k < |p| ensures p[k] != '&' {
      if k > |name| {
        assert p[k] == value[k - |name| - 1];
      }
    }
  }

  lemma IntNoAmp(n: int)
    ensures '&' !in IntToString(n)
  {
    var s := IntToString(n);
    assert forall k :: 0 <= k < |s| ==> s[k] != '&';
  }

  /** Every piece of the query is a `name=value` without a stray `&` when the
      caller's values hold none. */
  lemma RecentsPieces(make: string, model: string, year: int, state: string, limit: int)
    requires '&' !in make && '&' !in model && '&' !in state
    ensures SplitOn(Join(RecentsParams(make, model, year, state, limit), '&'), '&')
         == RecentsParams(make, model, year, state, limit)
  {
    var ps := RecentsParams(make, model, year, state, limit);
    assert '&' !in ApiKey by {
      assert forall k :: 0 <= k < |ApiKey| ==> ApiKey[k] != '&';
    }
    ParamNoAmp("api_key", ApiKey);
    ParamNoAmp("make", make);
    ParamNoAmp("model", model);
    IntNoAmp(year);
    ParamNoAmp("year", IntToString(year));
    ParamNoAmp("state", state);
    IntNoAmp(limit);
    ParamNoAmp("limit", IntToString(limit));
    SplitJoin(ps, '&');
  }

  /** The query of a recent-listings URL splits into its parameters. */
  lemma RecentsQueryPieces(make: string, model: string, year: int, state: string, limit: int)
    requires '&' !in make && '&' !in model && '&' !in state
    ensures RecentsQuery(RecentsUrl(make, model, year, state, limit))
         == Some(Join(RecentsParams(make, model, year, state, limit), '&'))
    ensures SplitOn(Join(RecentsParams(make, model, year, state, limit), '&'), '&')
         == RecentsParams(make, model, year, state, limit)
  {
    var p := RecentsPath + "?";
    var url := RecentsUrl(make, model, year, state, limit);
    assert url[..|p|] == p;
    assert url[|p|..] == Join(RecentsParams(make, model, year, state, limit), '&');
    RecentsPieces(make, model, year, state, limit);
  }

  /** A server reading the URL back gets the make that was asked for ... */
  lemma RecentsUrlMake(make: string, model: string, year: int, state: string, limit: int)
    requires '&' !in make && '&' !in model && '&' !in state
    ensures RecentsQuery(RecentsUrl(make, model, year, state, limit)).Some?
    ensures QueryValue(RecentsQuery(RecentsUrl(make, model, year, state, limit)).value, "make") == Some(make)
  {
    var ps := RecentsParams(make, model, year, state, limit);
    RecentsQueryPieces(make, model, year, state, limit);
    assert !StartsWith(ps[0], "make=") by {
      assert ps[0][0] != 'm';
    }
    FindParamAt(ps, 1, "make", make);
  }

  /** ... the model ... */
  lemma RecentsUrlModel(make: string, model: string, year: int, state: string, limit: int)
    requires '&' !in make && '&' !in model && '&' !in state
    ensures RecentsQuery(RecentsUrl(make, model, year, state, limit)).Some?
    ensures QueryValue(RecentsQuery(RecentsUrl(make, model, year, state, limit)).value, "model") == Some(model)
  {
    var ps := RecentsParams(make, model, year, state, limit);
    RecentsQueryPieces(make, model, year, state, limit);
    forall j | 0 <= j < 2 ensures !StartsWith(ps[j], "model=") {
      assert ps[j][1] != 'o';
    }
    FindParamAt(ps, 2, "model", model);
  }

  /** ... the year ... */
  lemma RecentsUrlYear(make: string, model: string, year: int, state: string, limit: int)
    requires '&' !in make && '&' !in model && '&' !in state
    ensures RecentsQuery(RecentsUrl(make, model, year, state, limit)).Some?
    ensures QueryInt(RecentsQuery(RecentsUrl(make, model, year, state, limit)).value, "year") == Some(year)
  {
    var ps := RecentsParams(make, model, year, state, limit);
    RecentsQueryPieces(make, model, year, state, limit);
    var q := RecentsQuery(RecentsUrl(make, model, year, state, limit)).value;
    assert QueryValue(q, "year") == Some(IntToString(year)) by {
      OtherParam("api_key", ApiKey, "year");
      OtherParam("make", make, "year");
      OtherParam("model", model, "year");
      FindParamAt(ps, 3, "year", IntToString(year));
    }
    ParseIntOfIntToString(year);
  }

  /** ... the state ... */
  lemma RecentsUrlState(make: string, model: string, year: int, state: string, limit: int)
    requires '&' !in make && '&' !in model && '&' !in state
    ensures RecentsQuery(RecentsUrl(make, model, year, state, limit)).Some?
    ensures QueryValue(RecentsQuery(RecentsUrl(make, model, year, state, limit)).value, "state") == Some(state)
  {
    var ps := RecentsParams(make, model, year, state, limit);
    RecentsQueryPieces(make, model, year, state, limit);
    OtherParam("api_key", ApiKey, "state");
    OtherParam("make", make, "state");
    OtherParam("model", model, "state");
    OtherParam("year", IntToString(year), "state");
    FindParamAt(ps, 4, "state", state);
  }

  /** A parameter is not taken for one whose name starts differently. */
  lemma OtherParam(name: string, value: string, other: string)
    requires name != [] && other != [] && name[0] != other[0]
    ensures !StartsWith(Param(name, value), other + "=")
  {
    assert Param(name, value)[0] == name[0];
  }

  /** ... and the limit. */
  lemma RecentsUrlLimit(make: string, model: string, year: int, state: string, limit: int)
    requires '&' !in make && '&' !in model && '&' !in state
    ensures RecentsQuery(RecentsUrl(make, model, year, state, limit)).Some?
    ensures QueryInt(RecentsQuery(RecentsUrl(make, model, year, state, limit)).value, "limit") == Some(limit)
  {
    var ps := RecentsParams(make, model, year, state, limit);
    RecentsQueryPieces(make, model, year, state, limit);
    var q := RecentsQuery(RecentsUrl(make, model, year, state, limit)).value;
    assert QueryValue(q, "limit") == Some(IntToString(limit)) by {
      OtherParam("api_key", ApiKey, "limit");
      OtherParam("make", make, "limit");
      OtherParam("model", model, "limit");
      OtherParam("year", IntToString(year), "limit");
      OtherParam("state", state, "limit");
      FindParamAt(ps, 5, "limit", IntToString(limit));
    }
    ParseIntOfIntToString(limit);
  }

  const HistoryPath := BaseUrl + "/history/car/"
  const KeySuffix := "?api_key=" + ApiKey

  /** The history request for one VIN: the VIN is a path segment. */
  function HistoryUrl(vin: string): string { HistoryPath + vin + KeySuffix }

  /** The VIN a history URL asks about, if `url` is one. */
  function HistoryVin(url: string): Option<string> {
    if |url| >= |HistoryPath| + |KeySuffix| && url[..|HistoryPath|] == HistoryPath
       && url[|url| - |KeySuffix|..] == KeySuffix
    then Some(url[|HistoryPath|..|url| - |KeySuffix|])
    else None
  }

  /** History URLs and VINs correspond one to one. */
  lemma HistoryUrlVin(vin: string, url: string)
    ensures HistoryVin(HistoryUrl(vin)) == Some(vin)
    ensures HistoryVin(url) == Some(vin) ==> HistoryUrl(vin) == url
  {
    var u := HistoryUrl(vin);
    assert u[..|HistoryPath|] == HistoryPath;
    assert u[|u| - |KeySuffix|..] == KeySuffix;
    assert u[|HistoryPath|..|u| - |KeySuffix|] == vin;
    if HistoryVin(url) == Some(vin) {
      assert url == url[..|HistoryPath|] + url[|HistoryPath|..|url| - |KeySuffix|] + url[|url| - |KeySuffix|..];
    }
  }

  // ---------------------------------------------------------------------------
  // Gathering listings

  /** What one state's response adds: its listings when it has a non-empty
      array of them, nothing when it has none or the request failed. */
  function Contribution(response: Result<Option<seq<Listing>>, string>): seq<Listing> {
    match response
    case Success(Some(ls)) => if |ls| > 0 then ls else []
    case _ => []
  }

  /** `allListings`: the states' contributions, concatenated in state order. */
  function Gather(states: seq<string>, fetchListings: string -> Result<Option<seq<Listing>>, string>): seq<Listing> {
    if states == [] then []
    else Contribution(fetchListings(StateUrl(states[0]))) + Gather(states[1..], fetchListings)
  }

  lemma {:induction false} GatherConcat(a: seq<string>, b: seq<string>, fetchListings: string -> Result<Option<seq<Listing>>, string>)
    ensures Gather(a + b, fetchListings) == Gather(a, fetchListings) + Gather(b, fetchListings)
  {
    if a != [] {
      assert (a + b)[0] == a[0] && (a + b)[1..] == a[1..] + b;
      GatherConcat(a[1..], b, fetchListings);
      var c := Contribution(fetchListings(StateUrl(a[0])));
      assert c + (Gather(a[1..], fetchListings) + Gather(b, fetchListings))
          == (c + Gather(a[1..], fetchListings)) + Gather(b, fetchListings);
    } else {
      assert a + b == b;
    }
  }

  /** A state whose request fails, or whose response has no listings, adds
      nothing and does not disturb the other states. */
  lemma SkippedState(a: seq<string>, s: string, b: seq<string>, fetchListings: string -> Result<Option<seq<Listing>>, string>)
    requires fetchListings(StateUrl(s)).Failure? || fetchListings(StateUrl(s)) == Success(None)
    ensures Gather(a + [s] + b, fetchListings) == Gather(a, fetchListings) + Gather(b, fetchListings)
  {
    assert Gather([s], fetchListings) == [] by {
      assert [s][0] == s && [s][1..] == [];
    }
    GatherConcat(a + [s], b, fetchListings);
    GatherConcat(a, [s], fetchListings);
    assert Gather(a, fetchListings) + [] == Gather(a, fetchListings);
  }

  /** A listing is gathered exactly when some state's response holds it. */
  lemma {:induction false} GatherMembers(states: seq<string>, fetchListings: string -> Result<Option<seq<Listing>>, string>, l: Listing)
    ensures l in Gather(states, fetchListings)
        <==> exists i :: 0 <= i < |states| && l in Contribution(fetchListings(StateUrl(states[i])))
  {
    if states != [] {
      GatherMembers(states[1..], fetchListings, l);
      if l in Gather(states[1..], fetchListings) {
        var i :| 0 <= i < |states[1..]| && l in Contribution(fetchListings(StateUrl(states[1..][i])));
        assert states[i + 1] == states[1..][i];
      }
      if exists i :: 0 <= i < |states| && l in Contribution(fetchListings(StateUrl(states[i]))) {
        var i :| 0 <= i < |states| && l in Contribution(fetchListings(StateUrl(states[i])));
        if i > 0 {
          assert states[i] == states[1..][i - 1];
        }
      }
    }
  }

  // ---------------------------------------------------------------------------
  // Distinct VINs and their histories

  /** `[...new Set(allListings.map(l => l.vin))]`: the listings' VINs, each
      once, in order of first appearance. */
  function UniqueVins(listings: seq<Listing>): (r: seq<string>)
    ensures Seqs.Distinct(r)
    ensures forall v :: v in r <==> v in Seqs.Map(Vin, listings)
    ensures forall i, j :: 0 <= i < j < |r| ==>
      Seqs.FirstIndex(Seqs.Map(Vin, listings), r[i]) < Seqs.FirstIndex(Seqs.Map(Vin, listings), r[j])
  {
    Seqs.Dedupe(Seqs.Map(Vin, listings))
  }

  /** Every listing's VIN is among them, and each of them is some listing's. */
  lemma UniqueVinsCover(listings: seq<Listing>, v: string)
    ensures v in UniqueVins(listings) <==> exists l :: l in listings && l.vin == v
  {
    var vins := Seqs.Map(Vin, listings);
    if exists l :: l in listings && l.vin == v {
      var l :| l in listings && l.vin == v;
      var i :| 0 <= i < |listings| && listings[i] == l;
      assert vins[i] == v;
    }
    if v in vins {
      var i :| 0 <= i < |vins| && vins[i] == v;
      assert listings[i] in listings;
    }
  }

  /** One price observation of a vehicle's history: a price (0 when absent)
      and the Unix times it was first and last seen at. */
  datatype Observation = Observation(price: int, firstSeenAt: int, lastSeenAt: int)

  datatype VehicleHistory = VehicleHistory(vin: string, history: seq<Observation>)

  function HistoryOf(v: VehicleHistory): string { v.vin }

  /** `allHistory`: for each VIN in turn, its history when the request
      succeeded with a non-empty array. */
  function CollectHistory(vins: seq<string>, fetchHistory: string -> Result<Option<seq<Observation>>, string>): (r: seq<VehicleHistory>)
    ensures |r| <= |vins|
    ensures forall i :: 0 <= i < |r| ==> |r[i].history| > 0
    ensures forall i :: 0 <= i < |r| ==> fetchHistory(HistoryUrl(r[i].vin)) == Success(Some(r[i].history))
  {
    if vins == [] then []
    else
      var rest := CollectHistory(vins[1..], fetchHistory);
      match fetchHistory(HistoryUrl(vins[0]))
      case Success(Some(h)) =>
        if |h| > 0 then [VehicleHistory(vins[0], h)] + rest else rest
      case _ => rest
  }

  /** The collected VINs keep the order of the VINs asked about. */
  lemma {:induction false} CollectSublist(vins: seq<string>, fetchHistory: string -> Result<Option<seq<Observation>>, string>)
    ensures Seqs.Sublist(Seqs.Map(HistoryOf, CollectHistory(vins, fetchHistory)), vins)
  {
    var r := CollectHistory(vins, fetchHistory);
    if vins == [] {
      assert Seqs.Map(HistoryOf, r) == [];
    } else {
      var rest := CollectHistory(vins[1..], fetchHistory);
      CollectSublist(vins[1..], fetchHistory);
      var m := Seqs.Map(HistoryOf, rest);
      if r == rest {
        if m != [] {
          assert Seqs.Sublist(m, vins[1..]);
        }
      } else {
        assert r == [VehicleHistory(vins[0], r[0].history)] + rest;
        assert Seqs.Map(HistoryOf, r) == [vins[0]] + m;
        assert ([vins[0]] + m)[1..] == m;
      }
    }
  }

  /** ... so, asked about distinct VINs, it holds at most one history per VIN. */
  lemma CollectDistinct(vins: seq<string>, fetchHistory: string -> Result<Option<seq<Observation>>, string>)
    requires Seqs.Distinct(vins)
    ensures Seqs.Distinct(Seqs.Map(HistoryOf, CollectHistory(vins, fetchHistory)))
  {
    CollectSublist(vins, fetchHistory);
    Seqs.SublistDistinct(Seqs.Map(HistoryOf, CollectHistory(vins, fetchHistory)), vins);
  }

  /** Every VIN whose history came back non-empty is kept. */
  lemma {:induction false} CollectComplete(vins: seq<string>, fetchHistory: string -> Result<Option<seq<Observation>>, string>, i: nat)
    requires i < |vins|
    requires fetchHistory(HistoryUrl(vins[i])).Success? && fetchHistory(HistoryUrl(vins[i])).value.Some?
    requires |fetchHistory(HistoryUrl(vins[i])).value.value| > 0
    ensures vins[i] in Seqs.Map(HistoryOf, CollectHistory(vins, fetchHistory))
  {
    var r := CollectHistory(vins, fetchHistory);
    if i == 0 {
      assert HistoryOf(r[0]) == vins[0];
    } else {
      CollectComplete(vins[1..], fetchHistory, i - 1);
      var rest := CollectHistory(vins[1..], fetchHistory);
      var k :| 0 <= k < |rest| && HistoryOf(rest[k]) == vins[i];
      if r != rest {
        assert r[k + 1] == rest[k];
      }
      assert HistoryOf(r[|r| - |rest| + k]) == vins[i];
    }
  }

  // ---------------------------------------------------------------------------
  // The summary CSV

  /** `allListings.find(l => l.vin === vin)`. */
  function FindListing(listings: seq<Listing>, vin: string): (r: Option<Listing>)
    ensures r.None? <==> forall l :: l in listings ==> l.vin != vin
    ensures r.Some? ==> r.value in listings && r.value.vin == vin
  {
    if listings == [] then None
    else if listings[0].vin == vin then Some(listings[0])
    else
      var r := FindListing(listings[1..], vin);
      assert forall l :: l in listings ==> l == listings[0] || l in listings[1..];
      r
  }

  /** The listing found is the first one with that VIN. */
  lemma {:induction false} FindListingFirst(listings: seq<Listing>, vin: string)
    requires FindListing(listings, vin).Some?
    ensures exists i :: (0 <= i < |listings| && listings[i] == FindListing(listings, vin).value &&
                         forall k :: 0 <= k < i ==> listings[k].vin != vin)
  {
    if listings[0].vin != vin {
      FindListingFirst(listings[1..], vin);
      var i :| 0 <= i < |listings[1..]| && listings[1..][i] == FindListing(listings, vin).value
        && forall k :: 0 <= k < i ==> listings[1..][k].vin != vin;
      assert listings[i + 1] == listings[1..][i];
      forall k | 0 <= k < i + 1 ensures listings[k].vin != vin {
        if k > 0 {
          assert listings[k] == listings[1..][k - 1];
        }
      }
    }
  }

  const NotAvailable := "N/A"

  /** `s || 'N/A'` for a text. */
  function TextOrNA(s: string): string { if s == "" then NotAvailable else s }

  /** `n || 'N/A'` for a number, rendered as JavaScript renders an integer. */
  function IntOrNA(n: int): string { if n == 0 then NotAvailable else IntToString(n) }

  /** The strictly positive prices of a history, in order. */
  function PositivePrices(history: seq<Observation>): seq<int> {
    if history == [] then []
    else (if history[0].price > 0 then [history[0].price] else []) + PositivePrices(history[1..])
  }

  lemma {:induction false} PositivePricesMembers(history: seq<Observation>, p: int)
    ensures p in PositivePrices(history) <==> p > 0 && exists i :: 0 <= i < |history| && history[i].price == p
  {
    if history != [] {
      PositivePricesMembers(history[1..], p);
      if exists i :: 0 <= i < |history[1..]| && history[1..][i].price == p {
        var i :| 0 <= i < |history[1..]| && history[1..][i].price == p;
        assert history[i + 1].price == p;
      }
      if exists i :: 0 <= i < |history| && history[i].price == p {
        var i :| 0 <= i < |history| && history[i].price == p;
        if i > 0 {
          assert history[1..][i - 1].price == p;
        }
      }
    }
  }

  /** The lowest and highest strictly positive price of a history. */
  function PriceRange(history: seq<Observation>): Option<(int, int)> {
    var ps := PositivePrices(history);
    if |ps| > 0 then Some((Seqs.MinOf(ps), Seqs.MaxOf(ps))) else None
  }

  /** The range exists exactly when some price is positive; then both ends
      are prices of the history and every positive price lies between them. */
  lemma PriceRangeBounds(history: seq<Observation>)
    ensures PriceRange(history).Some? <==> exists i :: 0 <= i < |history| && history[i].price > 0
    ensures PriceRange(history).Some? ==>
      var (lo, hi) := PriceRange(history).value;
      0 < lo <= hi
      && (exists i :: 0 <= i < |history| && history[i].price == lo)
      && (exists i :: 0 <= i < |history| && history[i].price == hi)
      && forall i :: 0 <= i < |history| && history[i].price > 0 ==> lo <= history[i].price <= hi
  {
    var ps := PositivePrices(history);
    forall p ensures p in ps <==> p > 0 && exists i :: 0 <= i < |history| && history[i].price == p {
      PositivePricesMembers(history, p);
    }
    if exists i :: 0 <= i < |history| && history[i].price > 0 {
      var i :| 0 <= i < |history| && history[i].price > 0;
      assert history[i].price in ps;
    }
    if |ps| > 0 {
      var lo, hi := Seqs.MinOf(ps), Seqs.MaxOf(ps);
      assert lo in ps && hi in ps;
      forall i | 0 <= i < |history| && history[i].price > 0 ensures lo <= history[i].price <= hi {
        assert history[i].price in ps;
        var k :| 0 <= k < |ps| && ps[k] == history[i].price;
      }
    }
  }

  const Columns := ["VIN", "Make", "Model", "Year", "Trim", "Current_Price", "Current_Miles",
                    "First_Seen", "Last_Seen", "Price_History_Count", "Lowest_Price", "Highest_Price"]

  function Header(): string { Join(Columns, ',') }

  /** The header splits back into its twelve column names. */
  lemma HeaderColumns()
    ensures SplitOn(Header(), ',') == Columns && |Columns| == 12
  {
    ColumnsHaveNoComma();
    SplitJoin(Columns, ',');
  }

  lemma ColumnsHaveNoComma()
    ensures forall i :: 0 <= i < |Columns| ==> ',' !in Columns[i]
  {
    forall i | 0 <= i < |Columns| ensures ',' !in Columns[i] {
      assert forall k :: 0 <= k < |Columns[i]| ==> Columns[i][k] != ',';
    }
  }

  function MakeField(b: Option<Build>): string {
    if b.Some? then TextOrNA(b.value.make) else NotAvailable
  }

  function ModelField(b: Option<Build>): string {
    if b.Some? then TextOrNA(b.value.model) else NotAvailable
  }

  function YearField(b: Option<Build>): string {
    if b.Some? then IntOrNA(b.value.year) else NotAvailable
  }

  function TrimField(b: Option<Build>): string {
    if b.Some? && b.value.trim.Some? then TextOrNA(b.value.trim.value) else NotAvailable
  }

  /** The date the oldest observation (the last one) was first seen. */
  function FirstSeenField(history: seq<Observation>, dateOf: int -> string): string {
    if |history| > 0 then dateOf(history[|history| - 1].firstSeenAt) else NotAvailable
  }

  /** The date the newest observation (the first one) was last seen. */
  function LastSeenField(history: seq<Observation>, dateOf: int -> string): string {
    if |history| > 0 then dateOf(history[0].lastSeenAt) else NotAvailable
  }

  function LowestField(history: seq<Observation>): string {
    var range := PriceRange(history);
    if range.Some? then IntToString(range.value.0) else NotAvailable
  }

  function HighestField(history: seq<Observation>): string {
    var range := PriceRange(history);
    if range.Some? then IntToString(range.value.1) else NotAvailable
  }

  /** The twelve fields of one vehicle's summary row, in header order. */
  function SummaryFields(vin: string, l: Listing, history: seq<Observation>, dateOf: int -> string): (r: seq<string>)
    ensures |r| == |Columns|
  {
    [vin, MakeField(l.build), ModelField(l.build), YearField(l.build), TrimField(l.build),
     IntOrNA(l.price), IntOrNA(l.miles),
     FirstSeenField(history, dateOf), LastSeenField(history, dateOf),
     IntToString(|history|), LowestField(history), HighestField(history)]
  }

  /** A falsy number renders as "N/A"; any other number is never mistaken
      for it, and reads back as itself. Price and mileage render this way. */
  lemma IntOrNAReads(n: int)
    ensures IntOrNA(n) == NotAvailable <==> n == 0
    ensures n != 0 ==> ParseInt(IntOrNA(n)) == Some(n)
  {
    if n != 0 {
      ParseIntOfIntToString(n);
      var s := IntToString(n);
      assert IsDigit(s[0]) || s[0] == '-';
      assert NotAvailable[0] == 'N';
    }
  }

  /** A missing build or a falsy year renders as "N/A"; any other year reads
      back as itself. */
  lemma YearFieldReads(b: Option<Build>)
    ensures YearField(b) == NotAvailable <==> b.None? || b.value.year == 0
    ensures b.Some? && b.value.year != 0 ==> ParseInt(YearField(b)) == Some(b.value.year)
  {
    if b.Some? {
      IntOrNAReads(b.value.year);
    }
  }

  /** The lowest and highest price fields are "N/A" exactly when no price is
      positive; otherwise they read back as the ends of the positive range. */
  lemma PriceFieldsRead(history: seq<Observation>)
    ensures LowestField(history) == NotAvailable <==> forall i :: 0 <= i < |history| ==> history[i].price <= 0
    ensures HighestField(history) == NotAvailable <==> forall i :: 0 <= i < |history| ==> history[i].price <= 0
    ensures PriceRange(history).Some? ==>
      ParseInt(LowestField(history)) == Some(PriceRange(history).value.0)
      && ParseInt(HighestField(history)) == Some(PriceRange(history).value.1)
  {
    PriceRangeBounds(history);
    var range := PriceRange(history);
    if range.Some? {
      IntOrNAReads(range.value.0);
      IntOrNAReads(range.value.1);
    }
  }

  /** One row: the fields joined by commas, without quoting. */
  function Row(fields: seq<string>): string { Join(fields, ',') }

  /** A row splits back into the twelve columns of the header exactly when no
      field holds a comma; a comma in, say, a trim shifts every later column. */
  lemma RowColumns(vin: string, l: Listing, history: seq<Observation>, dateOf: int -> string)
    ensures var fields := SummaryFields(vin, l, history, dateOf);
      (|SplitOn(Row(fields), ',')| == |Columns| <==> forall i :: 0 <= i < |fields| ==> ',' !in fields[i])
      && ((forall i :: 0 <= i < |fields| ==> ',' !in fields[i]) ==> SplitOn(Row(fields), ',') == fields)
  {
    JoinSplitsBack(SummaryFields(vin, l, history, dateOf), ',');
  }

  /** The summary row of one vehicle and its listing. */
  function VehicleRow(v: VehicleHistory, l: Listing, dateOf: int -> string): string {
    Row(SummaryFields(v.vin, l, v.history, dateOf))
  }

  /** The row of a vehicle, if some listing carries its VIN. */
  function RowIn(listings: seq<Listing>, dateOf: int -> string, v: VehicleHistory): Option<string> {
    match FindListing(listings, v.vin)
    case None => None
    case Some(l) => Some(VehicleRow(v, l, dateOf))
  }

  /** One row per collected vehicle whose VIN some listing carries. */
  function SummaryRows(vehicles: seq<VehicleHistory>, listings: seq<Listing>, dateOf: int -> string): (r: seq<string>)
    ensures |r| <= |vehicles|
  {
    Seqs.FilterMap(vehicles, v => RowIn(listings, dateOf, v))
  }

  /** When every vehicle's VIN has a listing, no vehicle is skipped and the
      rows follow the vehicles. */
  lemma SummaryRowsAll(vehicles: seq<VehicleHistory>, listings: seq<Listing>, dateOf: int -> string)
    requires forall i :: 0 <= i < |vehicles| ==> FindListing(listings, vehicles[i].vin).Some?
    ensures |SummaryRows(vehicles, listings, dateOf)| == |vehicles|
    ensures forall i :: 0 <= i < |vehicles| ==>
      SummaryRows(vehicles, listings, dateOf)[i] == VehicleRow(vehicles[i], FindListing(listings, vehicles[i].vin).value, dateOf)
  {
    Seqs.FilterMapAll(vehicles, v => RowIn(listings, dateOf, v));
  }

  function SummaryCsv(vehicles: seq<VehicleHistory>, listings: seq<Listing>, dateOf: int -> string): string {
    Join([Header()] + SummaryRows(vehicles, listings, dateOf), '\n')
  }

  // ---------------------------------------------------------------------------
  // The whole run

  datatype Scrape = Scrape(listings: seq<Listing>, vins: seq<string>, histories: seq<VehicleHistory>, summary: string)

  function Run(fetchListings: string -> Result<Option<seq<Listing>>, string>,
               fetchHistory: string -> Result<Option<seq<Observation>>, string>,
               dateOf: int -> string): Scrape
  {
    var listings := Gather(States, fetchListings);
    var vins := UniqueVins(listings);
    var histories := CollectHistory(vins, fetchHistory);
    Scrape(listings, vins, histories, SummaryCsv(histories, listings, dateOf))
  }

  /** Over a run, the histories hold each VIN at most once, in the order the
      VINs first appear among the listings. */
  lemma RunHistories(fetchListings: string -> Result<Option<seq<Listing>>, string>,
                     fetchHistory: string -> Result<Option<seq<Observation>>, string>,
                     dateOf: int -> string)
    ensures var s := Run(fetchListings, fetchHistory, dateOf);
      Seqs.Distinct(Seqs.Map(HistoryOf, s.histories))
      && Seqs.Sublist(Seqs.Map(HistoryOf, s.histories), s.vins)
  {
    var s := Run(fetchListings, fetchHistory, dateOf);
    CollectDistinct(s.vins, fetchHistory);
    CollectSublist(s.vins, fetchHistory);
  }

  /** Every collected history finds its listing. */
  lemma HistoriesListed(listings: seq<Listing>, vins: seq<string>, histories: seq<VehicleHistory>,
                        fetchHistory: string -> Result<Option<seq<Observation>>, string>)
    requires forall v :: v in vins ==> v in Seqs.Map(Vin, listings)
    requires histories == CollectHistory(vins, fetchHistory)
    ensures forall i :: 0 <= i < |histories| ==> FindListing(listings, histories[i].vin).Some?
  {
    CollectSublist(vins, fetchHistory);
    var hv := Seqs.Map(HistoryOf, histories);
    Seqs.SublistMembers(hv, vins);
    forall i | 0 <= i < |histories| ensures FindListing(listings, histories[i].vin).Some? {
      assert hv[i] == histories[i].vin && hv[i] in hv;
      var vs := Seqs.Map(Vin, listings);
      assert histories[i].vin in vs;
      var k :| 0 <= k < |vs| && vs[k] == histories[i].vin;
      assert listings[k] in listings && listings[k].vin == histories[i].vin;
    }
  }

  /** So the summary is the header and one row per history, none skipped. */
  lemma RunRows(fetchListings: string -> Result<Option<seq<Listing>>, string>,
                fetchHistory: string -> Result<Option<seq<Observation>>, string>,
                dateOf: int -> string)
    ensures var s := Run(fetchListings, fetchHistory, dateOf);
      |SummaryRows(s.histories, s.listings, dateOf)| == |s.histories|
      && s.summary == Join([Header()] + SummaryRows(s.histories, s.listings, dateOf), '\n')
  {
    var listings := Gather(States, fetchListings);
    var vins := UniqueVins(listings);
    var histories := CollectHistory(vins, fetchHistory);
    HistoriesListed(listings, vins, histories, fetchHistory);
    SummaryRowsAll(histories, listings, dateOf);
    assert Run(fetchListings, fetchHistory, dateOf).histories == histories;
  }
}
