/** One CSV record as Python's `csv.writer` with its default dialect writes
    it: a field is wrapped in double quotes when it holds a comma, a double
    quote or a line break, and a double quote inside a wrapped field is
    doubled. The `csv-writer` package writes the same, except that a field
    holding `\r` but no `\n` stays unquoted. The reader here is the
    quote-aware inverse. */
module Csv {
  import opened Results
  import opened Text
  import Seqs

  predicate NeedsQuote(f: string) {
    ',' in f || '"' in f || '\n' in f || '\r' in f
  }

  /** The field's text with every double quote doubled. */
  function Escape(f: string): (r: string)
    ensures |r| >= |f|
  {
    if f == [] then []
    else (if f[0] == '"' then "\"\"" else [f[0]]) + Escape(f[1..])
  }

  function QuoteField(f: string): string {
    if NeedsQuote(f) then "\"" + Escape(f) + "\"" else f
  }

  /** One record: the fields, each quoted where needed, separated by commas. */
  function RenderRow(fields: seq<string>): string {
    if fields == [] then ""
    else if |fields| == 1 then QuoteField(fields[0])
    else QuoteField(fields[0]) + "," + RenderRow(fields[1..])
  }

  // ---------------------------------------------------------------------------
  // Reading

  /** The inside of a quoted field, `s` starting just after the opening quote:
      the field's text and what follows the closing quote; `None` when the
      quote is never closed. */
  function ParseQuoted(s: string): (r: Option<(string, string)>)
    ensures r.Some? ==> |r.value.1| < |s|
  {
    if s == [] then None
    else if s[0] == '"' then
      if |s| >= 2 && s[1] == '"' then
        match ParseQuoted(s[2..])
        case None => None
        case Some(p) => Some(("\"" + p.0, p.1))
      else Some(("", s[1..]))
    else
      match ParseQuoted(s[1..])
      case None => None
      case Some(p) => Some(([s[0]] + p.0, p.1))
  }

  predicate NotComma(c: char) { c != ',' }

  /** The first field of `s` and the text after it. */
  function ParseField(s: string): (r: Option<(string, string)>)
    ensures r.Some? ==> |r.value.1| <= |s|
  {
    if s != [] && s[0] == '"' then ParseQuoted(s[1..])
    else
      var f := TakeWhile(s, NotComma);
      Some((f, s[|f|..]))
  }

  /** The fields of one record; `None` for an unclosed quote or for text
      between a closing quote and the next comma. */
  function ParseRow(s: string): Option<seq<string>>
    decreases |s|
  {
    match ParseField(s)
    case None => None
    case Some(p) =>
      if p.1 == [] then Some([p.0])
      else if p.1[0] != ',' then None
      else
        match ParseRow(p.1[1..])
        case None => None
        case Some(rest) => Some([p.0] + rest)
  }

  // ---------------------------------------------------------------------------
  // Round trip

  /** The quoted reader undoes the escaping and stops at the closing quote. */
  lemma {:induction false} ParseQuotedEscape(f: string, t: string)
    requires t == [] || t[0] != '"'
    ensures ParseQuoted(Escape(f) + "\"" + t) == Some((f, t))
  {
    if f == [] {
      assert Escape(f) + "\"" + t == ['"'] + t;
    } else {
      var rest := Escape(f[1..]) + "\"" + t;
      assert ParseQuoted(rest) == Some((f[1..], t)) by {
        ParseQuotedEscape(f[1..], t);
      }
      EscapeCons(f, t);
      if f[0] == '"' {
        QuotedPair(rest);
      } else {
        QuotedChar(f[0], rest);
      }
      assert [f[0]] + f[1..] == f;
    }
  }

  /** Escaping works one character at a time. */
  lemma EscapeCons(f: string, t: string)
    requires f != []
    ensures Escape(f) + "\"" + t == (if f[0] == '"' then "\"\"" else [f[0]]) + (Escape(f[1..]) + "\"" + t)
  {
    var h := if f[0] == '"' then "\"\"" else [f[0]];
    assert Escape(f) == h + Escape(f[1..]);
    Seqs.ConcatAssoc(h, Escape(f[1..]), "\"");
    Seqs.ConcatAssoc(h, Escape(f[1..]) + "\"", t);
  }

  /** A doubled quote reads as one quote of the field. */
  lemma QuotedPair(rest: string)
    ensures ParseQuoted("\"\"" + rest) ==
      match ParseQuoted(rest)
      case None => None
      case Some(p) => Some(("\"" + p.0, p.1))
  {
    assert ("\"\"" + rest)[2..] == rest;
  }

  /** Any other character is part of the field. */
  lemma QuotedChar(c: char, rest: string)
    requires c != '"'
    ensures ParseQuoted([c] + rest) ==
      match ParseQuoted(rest)
      case None => None
      case Some(p) => Some(([c] + p.0, p.1))
  {
    assert ([c] + rest)[1..] == rest;
  }

  /** A field that needs no quotes is read up to the comma that ends it. */
  lemma PlainFieldRead(f: string, t: string)
    requires !NeedsQuote(f)
    requires t == [] || t[0] == ','
    ensures TakeWhile(f + t, NotComma) == f
  {
    var s := f + t;
    assert forall i :: 0 <= i < |f| ==> s[i] == f[i] && NotComma(s[i]);
    assert |s| == |f| || !NotComma(s[|f|]);
  }

  /** Reading a written field gives the field back, with the rest of the line. */
  lemma ParseFieldQuote(f: string, t: string)
    requires t == [] || t[0] == ','
    ensures ParseField(QuoteField(f) + t) == Some((f, t))
  {
    if NeedsQuote(f) {
      var s := "\"" + Escape(f) + "\"" + t;
      assert s[1..] == Escape(f) + "\"" + t;
      ParseQuotedEscape(f, t);
    } else {
      PlainFieldRead(f, t);
      var s := f + t;
      assert s == [] || s[0] != '"' by {
        if f != [] {
          assert s[0] == f[0];
        } else {
          assert s == t;
        }
      }
      assert s[|f|..] == t;
    }
  }

  /** Reading a written record gives its fields back, whatever they contain. */
  lemma {:induction false} ParseRender(fields: seq<string>)
    requires |fields| >= 1
    ensures ParseRow(RenderRow(fields)) == Some(fields)
  {
    if |fields| == 1 {
      ParseFieldQuote(fields[0], "");
      assert QuoteField(fields[0]) + "" == RenderRow(fields);
      assert [fields[0]] == fields;
    } else {
      var t := "," + RenderRow(fields[1..]);
      assert RenderRow(fields) == QuoteField(fields[0]) + t by {
        Seqs.ConcatAssoc(QuoteField(fields[0]), ",", RenderRow(fields[1..]));
      }
      ParseFieldQuote(fields[0], t);
      assert t[1..] == RenderRow(fields[1..]);
      assert ParseRow(t[1..]) == Some(fields[1..]) by {
        ParseRender(fields[1..]);
      }
      ParseRowStep(QuoteField(fields[0]) + t, fields[0], t);
      assert [fields[0]] + fields[1..] == fields;
    }
  }

  /** After a field and a comma, the record goes on with the next field. */
  lemma ParseRowStep(s: string, f: string, t: string)
    requires ParseField(s) == Some((f, t)) && t != [] && t[0] == ','
    ensures ParseRow(s) ==
      match ParseRow(t[1..])
      case None => None
      case Some(rest) => Some([f] + rest)
  {
  }
}
