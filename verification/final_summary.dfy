/** The final summary of the Honda Accord search: the data lines of the CSV
    file, one vehicle per line, sorted by price, split at the $27,500 budget,
    and the ten cheapest within budget ranked. Reading the file and printing
    are left to the caller.

    The script reads a line by splitting it at every comma (`NaiveVehicle`),
    which misreads the records its own CSV writer quotes; `ParsedVehicle`
    reads them quote-aware, and `Run` is the summary over that reader. */
module FinalSummary {
  import opened Results
  import opened Text
  import Seqs
  import Csv

  const Budget := 27500

  /** The characters the price key strips: `/[\$,"]/g`. */
  const PriceJunk: set<char> := {'$', ',', '"'}

  predicate LongLine(l: string) { |l| > 10 }

  /** The lines after the header that are longer than ten characters. */
  function DataLines(csv: string): (r: seq<string>)
    ensures forall i :: 0 <= i < |r| ==> |r[i]| > 10 && '\n' !in r[i]
    ensures Seqs.Sublist(r, SplitOn(csv, '\n')[1..])
    ensures forall l :: l in SplitOn(csv, '\n')[1..] && |l| > 10 ==> l in r
    ensures forall l :: multiset(r)[l] == if |l| > 10 then multiset(SplitOn(csv, '\n')[1..])[l] else 0
  {
    var lines := SplitOn(csv, '\n')[1..];
    Seqs.FilterSublist(lines, LongLine);
    forall l ensures multiset(Seqs.Filter(lines, LongLine))[l] == if |l| > 10 then multiset(lines)[l] else 0 {
      Seqs.FilterMultiset(lines, LongLine, l);
    }
    forall l | l in lines && LongLine(l) ensures l in Seqs.Filter(lines, LongLine) {
      Seqs.FilterMultiset(lines, LongLine, l);
      assert l in multiset(lines);
    }
    Seqs.Filter(lines, LongLine)
  }

  // ---------------------------------------------------------------------------
  // One vehicle per line

  /** The columns the summary keeps; a column past the end of the line is
      `undefined`, here `None`. */
  datatype Vehicle = Vehicle(year: Option<string>, name: Option<string>, mileage: Option<string>,
                             price: Option<string>, dealer: Option<string>)

  function Part(parts: seq<string>, i: nat): Option<string> {
    if i < |parts| then Some(parts[i]) else None
  }

  /** Columns 0 to 3 and column 7 (the dealership name) of a record. */
  function FromParts(parts: seq<string>): Vehicle {
    Vehicle(Part(parts, 0), Part(parts, 1), Part(parts, 2), Part(parts, 3), Part(parts, 7))
  }

  /** The script's reader: `line.split(',')`, whatever the quoting. */
  function NaiveVehicle(line: string): Vehicle {
    FromParts(SplitOn(line, ','))
  }

  /** The quote-aware reader; a malformed record yields no columns. */
  function ParsedVehicle(line: string): Vehicle {
    match Csv.ParseRow(line)
    case Some(parts) => FromParts(parts)
    case None => FromParts([])
  }

  /** The quote-aware reader gets back the columns of every written record. */
  lemma ParsedReadsWritten(fields: seq<string>)
    requires |fields| >= 1
    ensures ParsedVehicle(Csv.RenderRow(fields)) == FromParts(fields)
  {
    Csv.ParseRender(fields);
  }

  /** The naive reader agrees with it on records whose fields need no quotes. */
  lemma NaiveReadsPlain(fields: seq<string>)
    requires |fields| >= 1
    requires forall i :: 0 <= i < |fields| ==> !Csv.NeedsQuote(fields[i])
    ensures NaiveVehicle(Csv.RenderRow(fields)) == FromParts(fields)
  {
    RenderPlain(fields);
    SplitJoin(fields, ',');
  }

  /** A record with no field to quote is its fields joined by commas. */
  lemma {:induction false} RenderPlain(fields: seq<string>)
    requires forall i :: 0 <= i < |fields| ==> !Csv.NeedsQuote(fields[i])
    ensures Csv.RenderRow(fields) == Join(fields, ',')
  {
    if |fields| > 1 {
      RenderPlain(fields[1..]);
    }
  }

  // ---------------------------------------------------------------------------
  // The price key

  /** `parseInt(price.replace(/[\$,"]/g, ''))`; `None` is `NaN`. */
  function PriceKey(price: string): Option<int> {
    ParseInt(RemoveChars(price, PriceJunk))
  }

  /** `n.toLocaleString()` for the en-US locale: digits grouped by threes. */
  function Grouped(n: nat): (r: string)
    ensures |r| >= 1
    ensures forall i :: 0 <= i < |r| ==> IsDigit(r[i]) || r[i] == ','
  {
    if n < 1000 then Decimal(n)
    else Grouped(n / 1000) + "," + PadStart(Decimal(n % 1000), 3, '0')
  }

  /** A price as the CSV writers of the search write it: `$` and grouped digits. */
  function Dollars(n: nat): string { "$" + Grouped(n) }

  /** The price key reads a written price back, quoted or not. */
  lemma PriceKeyDollars(n: nat)
    ensures PriceKey(Dollars(n)) == Some(n)
    ensures PriceKey("\"" + Dollars(n) + "\"") == Some(n)
  {
    GroupedDigits(n);
    var d := RemoveChars(Grouped(n), PriceJunk);
    RemoveCharsConcat("$", Grouped(n), PriceJunk);
    assert RemoveChars("$", PriceJunk) == "";
    assert RemoveChars(Dollars(n), PriceJunk) == d;
    RemoveCharsConcat("\"", Dollars(n), PriceJunk);
    RemoveCharsConcat("\"" + Dollars(n), "\"", PriceJunk);
    assert RemoveChars("\"", PriceJunk) == "";
    assert RemoveChars("\"" + Dollars(n) + "\"", PriceJunk) == d;
    ParseIntAllDigits(d);
  }

  /** Dropping the separators leaves digits worth `n`. */
  lemma {:induction false} GroupedDigits(n: nat)
    ensures var d := RemoveChars(Grouped(n), PriceJunk);
      |d| >= 1 && (forall i :: 0 <= i < |d| ==> IsDigit(d[i])) && DigitsValue(d) == n
  {
    if n < 1000 {
      DigitsKept(Decimal(n));
      DecimalValue(n);
    } else {
      var hi, lo := Grouped(n / 1000), PadStart(Decimal(n % 1000), 3, '0');
      GroupedDigits(n / 1000);
      DecimalShort(n % 1000);
      DigitsKept(lo);
      RemoveCharsConcat(hi + ",", lo, PriceJunk);
      RemoveCharsConcat(hi, ",", PriceJunk);
      assert RemoveChars(",", PriceJunk) == "";
      var dhi := RemoveChars(hi, PriceJunk);
      assert RemoveChars(Grouped(n), PriceJunk) == dhi + lo;
      PaddedValue(n % 1000);
      DigitsValueConcat(dhi, lo);
      Pow10Values();
    }
  }

  lemma DecimalShort(n: nat)
    requires n < 1000
    ensures |Decimal(n)| <= 3
  {
    if n >= 10 {
      assert |Decimal(n / 10)| <= 2 by {
        if n / 10 >= 10 {
          assert |Decimal(n / 100)| == 1;
        }
      }
    }
  }

  /** Zero-padding a number to three places keeps its value. */
  lemma PaddedValue(n: nat)
    requires n < 1000
    ensures var p := PadStart(Decimal(n), 3, '0');
      |p| == 3 && (forall i :: 0 <= i < 3 ==> IsDigit(p[i])) && DigitsValue(p) == n
  {
    DecimalShort(n);
    var d := Decimal(n);
    var z := Repeat('0', 3 - |d|);
    var p := PadStart(d, 3, '0');
    assert p == z + d;
    ZerosValue(3 - |d|);
    DigitsValueConcat(z, d);
    DecimalValue(n);
  }

  lemma {:induction false} ZerosValue(k: nat)
    ensures DigitsValue(Repeat('0', k)) == 0
  {
    if k > 0 {
      var z := Repeat('0', k);
      assert z[..k - 1] == Repeat('0', k - 1);
      ZerosValue(k - 1);
    }
  }

  /** The value of a digit string is the value of its head shifted past its tail. */
  lemma {:induction false} DigitsValueConcat(a: string, b: string)
    requires forall i :: 0 <= i < |a| ==> IsDigit(a[i])
    requires forall i :: 0 <= i < |b| ==> IsDigit(b[i])
    ensures DigitsValue(a + b) == DigitsValue(a) * Pow10(|b|) + DigitsValue(b)
  {
    if b == [] {
      assert a + b == a;
    } else {
      var b', last := b[..|b| - 1], b[|b| - 1];
      var ab := a + b;
      assert ab[..|ab| - 1] == a + b' && ab[|ab| - 1] == last;
      assert DigitsValue(a + b') == DigitsValue(a) * Pow10(|b'|) + DigitsValue(b') by {
        DigitsValueConcat(a, b');
      }
      ShiftDigit(DigitsValue(a), Pow10(|b'|), DigitsValue(b'), DigitValue(last));
    }
  }

  /** One more digit on the right multiplies the head's weight by ten. */
  lemma ShiftDigit(x: int, p: int, y: int, d: int)
    ensures (x * p + y) * 10 + d == x * (10 * p) + (y * 10 + d)
  {
  }

  /** A string of digits has nothing to remove. */
  lemma DigitsKept(s: string)
    requires forall i :: 0 <= i < |s| ==> IsDigit(s[i])
    ensures RemoveChars(s, PriceJunk) == s
  {
    RemoveCharsNone(s, PriceJunk);
  }

  // ---------------------------------------------------------------------------
  // The summary

  function Key(v: Vehicle): Option<int> {
    if v.price.Some? then PriceKey(v.price.value) else None
  }

  function KeyValue(v: Vehicle): int {
    if Key(v).Some? then Key(v).value else 0
  }

  predicate Priced(v: Vehicle) { v.price.Some? }

  predicate WithinBudget(v: Vehicle) { Key(v).Some? && Key(v).value <= Budget }

  predicate OverBudget(v: Vehicle) { Key(v).Some? && Key(v).value > Budget }

  /** Neither side of the budget: a price that reads as `NaN`. */
  predicate Unreadable(v: Vehicle) { Key(v).None? }

  predicate AllKeyed(vs: seq<Vehicle>) { forall i :: 0 <= i < |vs| ==> Key(vs[i]).Some? }

  /** The price sort: ascending and stable when every price reads as a
      number; a `NaN` key makes the comparator inconsistent, and the model then
      keeps the lines in file order. */
  function SortByPrice(vs: seq<Vehicle>): (r: seq<Vehicle>)
    ensures multiset(r) == multiset(vs)
    ensures AllKeyed(vs) ==> Seqs.SortedBy(r, KeyValue)
  {
    if AllKeyed(vs) then Seqs.SortBy(vs, KeyValue) else vs
  }

  /** `price` is undefined on some line: `replace` raises a `TypeError`. */
  datatype SummaryError = MissingPrice

  datatype Summary = Summary(total: nat, within: seq<Vehicle>, over: seq<Vehicle>)

  /** The vehicles sorted and split at the budget. */
  function Summarize(vs: seq<Vehicle>): (r: Result<Summary, SummaryError>)
    ensures r.Success? <==> forall i :: 0 <= i < |vs| ==> Priced(vs[i])
    ensures r.Success? ==> r.value.total == |vs|
    ensures r.Success? ==> forall i :: 0 <= i < |r.value.within| ==> WithinBudget(r.value.within[i])
    ensures r.Success? ==> forall i :: 0 <= i < |r.value.over| ==> OverBudget(r.value.over[i])
  {
    if exists i :: 0 <= i < |vs| && !Priced(vs[i]) then Failure(MissingPrice)
    else
      var sorted := SortByPrice(vs);
      Success(Summary(|vs|, Seqs.Filter(sorted, WithinBudget), Seqs.Filter(sorted, OverBudget)))
  }

  /** Each vehicle is within budget, over it, or unreadable, so the two counts
      miss exactly the unreadable prices; and each side holds exactly the
      vehicles of that side. */
  lemma SummaryPartition(vs: seq<Vehicle>)
    requires Summarize(vs).Success?
    ensures var s := Summarize(vs).value;
      |s.within| + |s.over| + |Seqs.Filter(vs, Unreadable)| == |vs|
    ensures var s := Summarize(vs).value;
      forall v :: multiset(s.within)[v] == (if WithinBudget(v) then multiset(vs)[v] else 0)
    ensures var s := Summarize(vs).value;
      forall v :: multiset(s.over)[v] == (if OverBudget(v) then multiset(vs)[v] else 0)
  {
    var sorted := SortByPrice(vs);
    var s := Summarize(vs).value;
    forall v ensures multiset(s.within)[v] == (if WithinBudget(v) then multiset(vs)[v] else 0)
      && multiset(s.over)[v] == (if OverBudget(v) then multiset(vs)[v] else 0)
    {
      Seqs.FilterMultiset(sorted, WithinBudget, v);
      Seqs.FilterMultiset(sorted, OverBudget, v);
    }
    ThreeWay(sorted);
    SameUnreadable(vs, sorted);
  }

  lemma {:induction false} ThreeWay(vs: seq<Vehicle>)
    ensures |Seqs.Filter(vs, WithinBudget)| + |Seqs.Filter(vs, OverBudget)|
          + |Seqs.Filter(vs, Unreadable)| == |vs|
  {
    if vs != [] {
      ThreeWay(vs[1..]);
    }
  }

  lemma SameUnreadable(a: seq<Vehicle>, b: seq<Vehicle>)
    requires multiset(a) == multiset(b)
    ensures |Seqs.Filter(a, Unreadable)| == |Seqs.Filter(b, Unreadable)|
  {
    forall x ensures multiset(Seqs.Filter(a, Unreadable))[x] == multiset(Seqs.Filter(b, Unreadable))[x] {
      Seqs.FilterMultiset(a, Unreadable, x);
      Seqs.FilterMultiset(b, Unreadable, x);
    }
    assert multiset(Seqs.Filter(a, Unreadable)) == multiset(Seqs.Filter(b, Unreadable));
    assert |multiset(Seqs.Filter(a, Unreadable))| == |Seqs.Filter(a, Unreadable)|;
  }

  /** With every price a number, the budget sides come out cheapest first. */
  lemma SummarySorted(vs: seq<Vehicle>)
    requires Summarize(vs).Success? && AllKeyed(vs)
    ensures Seqs.SortedBy(Summarize(vs).value.within, KeyValue)
    ensures Seqs.SortedBy(Summarize(vs).value.over, KeyValue)
  {
    var sorted := SortByPrice(vs);
    Seqs.FilterSublist(sorted, WithinBudget);
    Seqs.FilterSublist(sorted, OverBudget);
    SublistSorted(Seqs.Filter(sorted, WithinBudget), sorted);
    SublistSorted(Seqs.Filter(sorted, OverBudget), sorted);
  }

  lemma SublistSorted(a: seq<Vehicle>, b: seq<Vehicle>)
    requires Seqs.Sublist(a, b) && Seqs.SortedBy(b, KeyValue)
    ensures Seqs.SortedBy(a, KeyValue)
  {
    Seqs.SublistSorted(a, b, KeyValue);
  }

  // ---------------------------------------------------------------------------
  // The top ten

  /** `String(i + 1).padStart(2, ' ')`. */
  function Rank(i: nat): string { PadStart(IntToString(i + 1), 2, ' ') }

  /** The first ten vehicles within budget with their printed ranks. */
  function TopDeals(within: seq<Vehicle>): (r: seq<(string, Vehicle)>)
    ensures |r| == if |within| < 10 then |within| else 10
    ensures forall i :: 0 <= i < |r| ==> r[i].1 == within[i]
    ensures forall i :: 0 <= i < |r| ==> |r[i].0| == 2 && ParseInt(r[i].0) == Some(i + 1)
  {
    var top := Seqs.Take(within, 10);
    forall i | 0 <= i < |top| ensures |Rank(i)| == 2 && ParseInt(Rank(i)) == Some(i + 1) {
      RankReadsBack(i);
    }
    seq(|top|, i requires 0 <= i < |top| => (Rank(i), top[i]))
  }

  /** The padding is white space, which `parseInt` skips, so a rank reads back
      as itself; ranks below 99 take two characters. */
  lemma RankReadsBack(i: nat)
    ensures ParseInt(Rank(i)) == Some(i + 1)
    ensures i < 99 ==> |Rank(i)| == 2
  {
    var d := IntToString(i + 1);
    assert ParseInt(Rank(i)) == ParseInt(d) by {
      if |d| < 2 {
        assert Rank(i) == Repeat(' ', 2 - |d|) + d;
        ParseIntSkipsSpaces(2 - |d|, d);
      }
    }
    ParseIntOfIntToString(i + 1);
    if i < 99 {
      RankWidth(i);
    }
  }

  lemma RankWidth(i: nat)
    requires i < 99
    ensures |Rank(i)| == 2
  {
    assert |Decimal(i + 1)| <= 2 by {
      if i + 1 >= 10 {
        assert |Decimal((i + 1) / 10)| == 1;
      }
    }
  }

  // ---------------------------------------------------------------------------
  // The whole summary

  /** The summary as the script computes it, splitting lines at every comma:
      it fails exactly when some data line has no price column, counts every
      data line, and puts each vehicle on its side of the budget as often as
      its line occurs. */
  function RunAsWritten(csv: string): (r: Result<Summary, SummaryError>)
    ensures r.Success? <==> forall i :: 0 <= i < |DataLines(csv)| ==> Priced(NaiveVehicle(DataLines(csv)[i]))
    ensures r.Success? ==> r.value.total == |DataLines(csv)|
    ensures r.Success? ==>
      forall v :: multiset(r.value.within)[v] ==
                    if WithinBudget(v) then multiset(Seqs.Map(NaiveVehicle, DataLines(csv)))[v] else 0
    ensures r.Success? ==>
      forall v :: multiset(r.value.over)[v] ==
                    if OverBudget(v) then multiset(Seqs.Map(NaiveVehicle, DataLines(csv)))[v] else 0
  {
    var vs := Seqs.Map(NaiveVehicle, DataLines(csv));
    if Summarize(vs).Success? then
      SummaryPartition(vs);
      Summarize(vs)
    else
      Summarize(vs)
  }

  /** The summary over the quote-aware reader, with the same promises. */
  function Run(csv: string): (r: Result<Summary, SummaryError>)
    ensures r.Success? <==> forall i :: 0 <= i < |DataLines(csv)| ==> Priced(ParsedVehicle(DataLines(csv)[i]))
    ensures r.Success? ==> r.value.total == |DataLines(csv)|
    ensures r.Success? ==>
      forall v :: multiset(r.value.within)[v] ==
                    if WithinBudget(v) then multiset(Seqs.Map(ParsedVehicle, DataLines(csv)))[v] else 0
    ensures r.Success? ==>
      forall v :: multiset(r.value.over)[v] ==
                    if OverBudget(v) then multiset(Seqs.Map(ParsedVehicle, DataLines(csv)))[v] else 0
  {
    var vs := Seqs.Map(ParsedVehicle, DataLines(csv));
    if Summarize(vs).Success? then
      SummaryPartition(vs);
      Summarize(vs)
    else
      Summarize(vs)
  }

  /** On a file whose records need no quoting both readers give the same summary. */
  lemma RunAgrees(csv: string)
    requires forall l :: l in DataLines(csv) ==> exists fields ::
      IsPlainRecord(fields) && l == Csv.RenderRow(fields)
    ensures RunAsWritten(csv) == Run(csv)
  {
    var lines := DataLines(csv);
    forall i | 0 <= i < |lines| ensures NaiveVehicle(lines[i]) == ParsedVehicle(lines[i]) {
      assert lines[i] in lines;
      var fields :| IsPlainRecord(fields) && lines[i] == Csv.RenderRow(fields);
      NaiveReadsPlain(fields);
      ParsedReadsWritten(fields);
    }
    assert Seqs.Map(NaiveVehicle, lines) == Seqs.Map(ParsedVehicle, lines);
  }

  predicate IsPlainRecord(fields: seq<string>) {
    |fields| >= 1 && forall i :: 0 <= i < |fields| ==> !Csv.NeedsQuote(fields[i])
  }

  // ---------------------------------------------------------------------------
  // Records with grouped numbers

  /** A record whose mileage and price each hold one comma, as the CSV writer
      quotes them: the naive reader takes the half after the mileage's comma
      as the price, and the record's sixth field as the dealership, while the
      quote-aware reader gets every column. */
  lemma GroupedRecordRead(year: string, name: string, m1: string, m2: string, p1: string, p2: string,
                          rest: seq<string>)
    requires !Csv.NeedsQuote(year) && !Csv.NeedsQuote(name)
    requires !Csv.NeedsQuote(m1) && !Csv.NeedsQuote(m2) && !Csv.NeedsQuote(p1) && !Csv.NeedsQuote(p2)
    requires |rest| >= 4 && !Csv.NeedsQuote(rest[0]) && !Csv.NeedsQuote(rest[1])
    ensures var line := Csv.RenderRow([year, name, m1 + "," + m2, p1 + "," + p2] + rest);
      NaiveVehicle(line) == Vehicle(Some(year), Some(name), Some("\"" + m1), Some(m2 + "\""), Some(rest[1]))
    ensures var line := Csv.RenderRow([year, name, m1 + "," + m2, p1 + "," + p2] + rest);
      ParsedVehicle(line) == Vehicle(Some(year), Some(name), Some(m1 + "," + m2), Some(p1 + "," + p2), Some(rest[3]))
  {
    var f := [year, name, m1 + "," + m2, p1 + "," + p2] + rest;
    GroupedNaive(f, year, name, m1, m2, p1, p2, rest);
    GroupedParsed(f, year, name, m1, m2, p1, p2, rest);
  }

  lemma GroupedNaive(f: seq<string>, year: string, name: string, m1: string, m2: string, p1: string, p2: string,
                     rest: seq<string>)
    requires f == [year, name, m1 + "," + m2, p1 + "," + p2] + rest
    requires !Csv.NeedsQuote(year) && !Csv.NeedsQuote(name)
    requires !Csv.NeedsQuote(m1) && !Csv.NeedsQuote(m2) && !Csv.NeedsQuote(p1) && !Csv.NeedsQuote(p2)
    requires |rest| >= 4 && !Csv.NeedsQuote(rest[0]) && !Csv.NeedsQuote(rest[1])
    ensures NaiveVehicle(Csv.RenderRow(f))
         == Vehicle(Some(year), Some(name), Some("\"" + m1), Some(m2 + "\""), Some(rest[1]))
  {
    var g := [m1 + "," + m2, p1 + "," + p2] + rest;
    assert f == [year] + ([name] + g);
    var parts := SplitOn(Csv.RenderRow(f), ',');
    assert |parts| > 7 && parts[0] == year && parts[1] == name && parts[2] == "\"" + m1
      && parts[3] == m2 + "\"" && parts[7] == rest[1] by {
      GroupedSplit(year, name, g, m1, m2, p1, p2, rest);
      PlainPair(rest);
    }
  }

  lemma GroupedParsed(f: seq<string>, year: string, name: string, m1: string, m2: string, p1: string, p2: string,
                      rest: seq<string>)
    requires f == [year, name, m1 + "," + m2, p1 + "," + p2] + rest
    requires |rest| >= 4
    ensures ParsedVehicle(Csv.RenderRow(f))
         == Vehicle(Some(year), Some(name), Some(m1 + "," + m2), Some(p1 + "," + p2), Some(rest[3]))
  {
    ParsedReadsWritten(f);
    assert f[7] == rest[3];
  }

  /** The pieces of such a record at its commas. */
  lemma GroupedSplit(year: string, name: string, g: seq<string>, m1: string, m2: string, p1: string, p2: string,
                     rest: seq<string>)
    requires g == [m1 + "," + m2, p1 + "," + p2] + rest
    requires !Csv.NeedsQuote(year) && !Csv.NeedsQuote(name)
    requires !Csv.NeedsQuote(m1) && !Csv.NeedsQuote(m2) && !Csv.NeedsQuote(p1) && !Csv.NeedsQuote(p2)
    requires |rest| >= 1
    ensures SplitOn(Csv.RenderRow([year] + ([name] + g)), ',')
         == [year] + ([name] + (["\"" + m1, m2 + "\""] + (["\"" + p1, p2 + "\""] + SplitOn(Csv.RenderRow(rest), ','))))
  {
    var tail := SplitGrouped(g, m1, m2, p1, p2, rest);
    PlainFirst([name] + g, name, g, tail);
    PlainFirst([year] + ([name] + g), year, [name] + g, [name] + tail);
  }

  /** A plain first field splits off a record. */
  lemma PlainFirst(f: seq<string>, x: string, g: seq<string>, tail: seq<string>)
    requires f == [x] + g && |g| >= 1 && !Csv.NeedsQuote(x)
    requires SplitOn(Csv.RenderRow(g), ',') == tail
    ensures SplitOn(Csv.RenderRow(f), ',') == [x] + tail
  {
    assert f[1..] == g;
    RenderCons(f);
    SplitCons(x, Csv.RenderRow(g));
  }

  /** The two quoted fields and what follows them. */
  lemma SplitGrouped(g: seq<string>, m1: string, m2: string, p1: string, p2: string, rest: seq<string>)
    returns (tail: seq<string>)
    requires g == [m1 + "," + m2, p1 + "," + p2] + rest
    requires !Csv.NeedsQuote(m1) && !Csv.NeedsQuote(m2) && !Csv.NeedsQuote(p1) && !Csv.NeedsQuote(p2)
    requires |rest| >= 1
    ensures tail == SplitOn(Csv.RenderRow(g), ',')
    ensures tail == ["\"" + m1, m2 + "\""] + (["\"" + p1, p2 + "\""] + SplitOn(Csv.RenderRow(rest), ','))
  {
    var h := [p1 + "," + p2] + rest;
    var htail := QuotedFirst(h, p1, p2, rest, SplitOn(Csv.RenderRow(rest), ','));
    assert g == [m1 + "," + m2] + h by {
      assert [m1 + "," + m2, p1 + "," + p2] == [m1 + "," + m2] + [p1 + "," + p2];
      Seqs.ConcatAssoc([m1 + "," + m2], [p1 + "," + p2], rest);
    }
    tail := QuotedFirst(g, m1, m2, h, htail);
  }

  /** Two plain leading fields are the first two pieces. */
  lemma PlainPair(rest: seq<string>)
    requires |rest| >= 3 && !Csv.NeedsQuote(rest[0]) && !Csv.NeedsQuote(rest[1])
    ensures var pieces := SplitOn(Csv.RenderRow(rest), ',');
      |pieces| >= 2 && pieces[0] == rest[0] && pieces[1] == rest[1]
  {
    var t := SplitOn(Csv.RenderRow(rest[2..]), ',');
    PlainFirst(rest[1..], rest[1], rest[2..], t);
    PlainFirst(rest, rest[0], rest[1..], [rest[1]] + t);
  }

  /** A quoted first field with one comma splits off a record as two pieces. */
  lemma QuotedFirst(f: seq<string>, a: string, b: string, g: seq<string>, tail: seq<string>)
    returns (r: seq<string>)
    requires f == [a + "," + b] + g && |g| >= 1
    requires !Csv.NeedsQuote(a) && !Csv.NeedsQuote(b)
    requires SplitOn(Csv.RenderRow(g), ',') == tail
    ensures r == SplitOn(Csv.RenderRow(f), ',')
    ensures r == ["\"" + a, b + "\""] + tail
  {
    assert f[1..] == g;
    RenderCons(f);
    QuotedSplit(a, b, Csv.RenderRow(g));
    r := SplitOn(Csv.RenderRow(f), ',');
  }

  lemma RenderCons(fields: seq<string>)
    requires |fields| >= 2
    ensures Csv.RenderRow(fields) == Csv.QuoteField(fields[0]) + "," + Csv.RenderRow(fields[1..])
  {
  }

  /** A comma-free first piece splits off. */
  lemma SplitCons(a: string, t: string)
    requires ',' !in a
    ensures SplitOn(a + "," + t, ',') == [a] + SplitOn(t, ',')
  {
    assert a + "," + t == a + ([','] + t);
    SplitPrefix(a, [','] + t, ',');
    assert ([','] + t)[1..] == t;
    assert a + "" == a;
  }

  /** A quoted field with one comma splits into two pieces, each keeping a quote. */
  lemma QuotedSplit(a: string, b: string, t: string)
    requires !Csv.NeedsQuote(a) && !Csv.NeedsQuote(b)
    ensures SplitOn(Csv.QuoteField(a + "," + b) + "," + t, ',') == ["\"" + a, b + "\""] + SplitOn(t, ',')
  {
    QuoteOneComma(a, b);
    var x, y := "\"" + a, b + "\"";
    assert Csv.QuoteField(a + "," + b) + "," + t == x + "," + (y + "," + t);
    SplitCons(x, y + "," + t);
    SplitCons(y, t);
  }

  /** A field with one comma is written in quotes. */
  lemma QuoteOneComma(a: string, b: string)
    requires !Csv.NeedsQuote(a) && !Csv.NeedsQuote(b)
    ensures Csv.QuoteField(a + "," + b) == "\"" + a + "," + b + "\""
  {
    var f := a + "," + b;
    assert Csv.NeedsQuote(f) by {
      assert f[|a|] == ',';
    }
    assert '"' !in f by {
      assert '"' !in a + ",";
    }
    EscapePlain(f);
    assert Csv.QuoteField(f) == "\"" + f + "\"";
    Seqs.ConcatAssoc("\"", a + ",", b);
    Seqs.ConcatAssoc("\"", a, ",");
  }

  lemma {:induction false} EscapePlain(f: string)
    requires '"' !in f
    ensures Csv.Escape(f) == f
  {
    if f != [] {
      EscapePlain(f[1..]);
    }
  }

  // ---------------------------------------------------------------------------
  // Records written with grouped numbers

  /** A record whose mileage and price are written grouped by thousands (between
      1,000 and 999,999): the script keys it by the last three digits of the
      mileage and takes its second field after the price as the dealership,
      while the quote-aware reader keys it by its price. */
  lemma NumbersRecordRead(year: string, name: string, miles: nat, price: nat, rest: seq<string>)
    requires 1000 <= miles < 1000000 && 1000 <= price < 1000000
    requires !Csv.NeedsQuote(year) && !Csv.NeedsQuote(name)
    requires |rest| >= 4 && !Csv.NeedsQuote(rest[0]) && !Csv.NeedsQuote(rest[1])
    ensures var line := Csv.RenderRow([year, name, Grouped(miles), Dollars(price)] + rest);
      Key(NaiveVehicle(line)) == Some(miles % 1000) && NaiveVehicle(line).dealer == Some(rest[1])
    ensures var line := Csv.RenderRow([year, name, Grouped(miles), Dollars(price)] + rest);
      Key(ParsedVehicle(line)) == Some(price) && ParsedVehicle(line).dealer == Some(rest[3])
  {
    NumbersNaive(year, name, miles, price, rest);
    NumbersParsed(year, name, miles, price, rest);
  }

  lemma NumbersNaive(year: string, name: string, miles: nat, price: nat, rest: seq<string>)
    requires 1000 <= miles < 1000000 && 1000 <= price < 1000000
    requires !Csv.NeedsQuote(year) && !Csv.NeedsQuote(name)
    requires |rest| >= 4 && !Csv.NeedsQuote(rest[0]) && !Csv.NeedsQuote(rest[1])
    ensures var line := Csv.RenderRow([year, name, Grouped(miles), Dollars(price)] + rest);
      Key(NaiveVehicle(line)) == Some(miles % 1000) && NaiveVehicle(line).dealer == Some(rest[1])
  {
    var m1, m2 := GroupedHalves(miles);
    var q1, p2 := GroupedHalves(price);
    var p1 := "$" + q1;
    assert !Csv.NeedsQuote(p1);
    assert Dollars(price) == p1 + "," + p2;
    var f := [year, name, m1 + "," + m2, p1 + "," + p2] + rest;
    GroupedNaive(f, year, name, m1, m2, p1, p2, rest);
    NaiveMileageKey(miles);
  }

  lemma NumbersParsed(year: string, name: string, miles: nat, price: nat, rest: seq<string>)
    requires 1000 <= price < 1000000
    requires |rest| >= 4
    ensures var line := Csv.RenderRow([year, name, Grouped(miles), Dollars(price)] + rest);
      Key(ParsedVehicle(line)) == Some(price) && ParsedVehicle(line).dealer == Some(rest[3])
  {
    var f := [year, name, Grouped(miles), Dollars(price)] + rest;
    ParsedReadsWritten(f);
    assert f[3] == Dollars(price) && f[7] == rest[3];
    PriceKeyDollars(price);
  }

  /** A number of four to six digits written grouped: two comma-free halves,
      the second the last three digits. */
  lemma GroupedHalves(n: nat) returns (hi: string, lo: string)
    requires 1000 <= n < 1000000
    ensures Grouped(n) == hi + "," + lo
    ensures !Csv.NeedsQuote(hi) && !Csv.NeedsQuote(lo) && hi == Decimal(n / 1000)
    ensures lo == PadStart(Decimal(n % 1000), 3, '0')
  {
    hi, lo := Decimal(n / 1000), PadStart(Decimal(n % 1000), 3, '0');
    PaddedValue(n % 1000);
    DigitsPlain(hi);
    DigitsPlain(lo);
  }

  lemma DigitsPlain(s: string)
    requires forall i :: 0 <= i < |s| ==> IsDigit(s[i])
    ensures !Csv.NeedsQuote(s)
  {
  }

  /** The price key of the mileage's last group with its closing quote. */
  lemma NaiveMileageKey(miles: nat)
    requires 1000 <= miles < 1000000
    ensures PriceKey(PadStart(Decimal(miles % 1000), 3, '0') + "\"") == Some(miles % 1000)
  {
    var p := PadStart(Decimal(miles % 1000), 3, '0');
    PaddedValue(miles % 1000);
    RemoveCharsConcat(p, "\"", PriceJunk);
    DigitsKept(p);
    assert RemoveChars("\"", PriceJunk) == "";
    assert RemoveChars(p + "\"", PriceJunk) == p;
    ParseIntAllDigits(p);
  }

  // ---------------------------------------------------------------------------
  // A Carvana record appended by the CSV writer

  /** The third Carvana vehicle from its stock number on. */
  const CarvanaTail: seq<string> := [
    "3966255", "TBD", "https://www.carvana.com/vehicle/3966255", "Carvana", "1-800-333-4554",
    "Online Delivery Nationwide", "support@carvana.com"]

  /** The $28,990 Carvana car with 12,464 miles, as appended: the script keys
      it at 464, within budget, with its VIN column, `TBD`, as the dealership;
      the quote-aware reader keys it at 28,990, over budget, at Carvana. */
  lemma CarvanaMisread()
    ensures var line := Csv.RenderRow(["2022", "2022 Honda Accord Hybrid Sport", Grouped(12464), Dollars(28990)]
                                      + CarvanaTail);
      && Key(NaiveVehicle(line)) == Some(464) && WithinBudget(NaiveVehicle(line))
      && NaiveVehicle(line).dealer == Some("TBD")
      && Key(ParsedVehicle(line)) == Some(28990) && OverBudget(ParsedVehicle(line))
      && ParsedVehicle(line).dealer == Some("Carvana")
  {
    CarvanaPlain();
    NumbersRecordRead("2022", "2022 Honda Accord Hybrid Sport", 12464, 28990, CarvanaTail);
  }

  /** The fields around the two grouped numbers need no quotes. */
  lemma CarvanaPlain()
    ensures !Csv.NeedsQuote("2022") && !Csv.NeedsQuote("2022 Honda Accord Hybrid Sport")
    ensures |CarvanaTail| >= 4 && CarvanaTail[1] == "TBD" && CarvanaTail[3] == "Carvana"
    ensures !Csv.NeedsQuote(CarvanaTail[0]) && !Csv.NeedsQuote(CarvanaTail[1])
  {
    assert !Csv.NeedsQuote("2022 Honda Accord Hybrid Sport") by {
      var name := "2022 Honda Accord Hybrid Sport";
      assert forall k :: 0 <= k < |name| ==> name[k] != ',' && name[k] != '"' && name[k] != '\n' && name[k] != '\r';
    }
    assert CarvanaTail[0] == "3966255" && CarvanaTail[1] == "TBD";
  }
}
