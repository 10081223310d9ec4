/** Character-level helpers the scripts get from their language runtimes:
    Python's `str.strip`/`str.startswith`, JavaScript's `split`, `join`,
    `replace`, `padStart` and `parseInt`, and decimal rendering of integers. */
module Text {
  import opened Results

  /** Python's `str.isspace`, the set `str.strip()` removes. */
  predicate IsPySpace(c: char) {
    var n := c as int;
    || 9 <= n <= 13 || 28 <= n <= 32 || n == 0x85 || n == 0xA0 || n == 0x1680
    || 0x2000 <= n <= 0x200A || n == 0x2028 || n == 0x2029 || n == 0x202F || n == 0x205F
    || n == 0x3000
  }

  /** ECMAScript white space and line terminators, the set `parseInt` skips. */
  predicate IsJsSpace(c: char) {
    var n := c as int;
    || 9 <= n <= 13 || n == 32 || n == 0xA0 || n == 0x1680
    || 0x2000 <= n <= 0x200A || n == 0x2028 || n == 0x2029 || n == 0x202F || n == 0x205F
    || n == 0x3000 || n == 0xFEFF
  }

  predicate IsDigit(c: char) { '0' <= c <= '9' }

  predicate IsHexDigit(c: char) { IsDigit(c) || 'a' <= c <= 'f' || 'A' <= c <= 'F' }

  predicate AllPySpace(s: string) { forall k :: 0 <= k < |s| ==> IsPySpace(s[k]) }

  /** Neither starts nor ends with white space: what `strip()` leaves. */
  predicate Trimmed(s: string) {
    s == [] || (!IsPySpace(s[0]) && !IsPySpace(s[|s| - 1]))
  }

  predicate StartsWith(s: string, prefix: string) {
    |prefix| <= |s| && s[..|prefix|] == prefix
  }

  // ---------------------------------------------------------------------------
  // Python str.strip()

  function TrimStart(s: string): (r: string)
    ensures |r| <= |s| && r == s[|s| - |r|..]
    ensures r == [] || !IsPySpace(r[0])
  {
    if s != [] && IsPySpace(s[0]) then TrimStart(s[1..]) else s
  }

  function TrimEnd(s: string): (r: string)
    ensures |r| <= |s| && r == s[..|r|]
    ensures r == [] || !IsPySpace(r[|r| - 1])
  {
    if s != [] && IsPySpace(s[|s| - 1]) then TrimEnd(s[..|s| - 1]) else s
  }

  /** `s.strip()`: the text between the leading and the trailing white space. */
  function Strip(s: string): (r: string)
    ensures |r| <= |s|
    ensures Trimmed(r)
  {
    TrimEnd(TrimStart(s))
  }

  lemma AllSpaceConcat(a: string, b: string)
    requires AllPySpace(a) && AllPySpace(b)
    ensures AllPySpace(a + b)
  {
  }

  /** Strip is determined by the text it keeps: whatever white space surrounds a
      core that neither starts nor ends with white space is removed, and nothing else. */
  lemma {:induction false} StripOf(pre: string, core: string, post: string)
    requires AllPySpace(pre) && AllPySpace(post)
    requires Trimmed(core)
    ensures Strip(pre + core + post) == core
  {
    assert pre + core + post == pre + (core + post);
    if core == [] {
      assert pre + core + post == pre + post;
      AllSpaceConcat(pre, post);
      TrimStartAllSpace(pre + post);
    } else {
      TrimStartOf(pre, core + post);
      TrimEndOf(core, post);
    }
  }

  lemma {:induction false} TrimStartAllSpace(s: string)
    requires AllPySpace(s)
    ensures TrimStart(s) == []
  {
    if s != [] {
      TrimStartAllSpace(s[1..]);
    }
  }

  lemma {:induction false} TrimStartOf(pre: string, rest: string)
    requires AllPySpace(pre)
    requires rest == [] || !IsPySpace(rest[0])
    ensures TrimStart(pre + rest) == rest
    decreases |pre|
  {
    if pre != [] {
      assert (pre + rest)[1..] == pre[1..] + rest;
      TrimStartOf(pre[1..], rest);
    } else {
      assert pre + rest == rest;
    }
  }

  lemma {:induction false} TrimEndOf(core: string, post: string)
    requires AllPySpace(post)
    requires core == [] || !IsPySpace(core[|core| - 1])
    ensures TrimEnd(core + post) == core
    decreases |post|
  {
    if post != [] {
      assert (core + post)[..|core + post| - 1] == core + post[..|post| - 1];
      TrimEndOf(core, post[..|post| - 1]);
    } else {
      assert core + post == core;
    }
  }

  /** Stripping twice strips nothing more. */
  lemma StripIdempotent(s: string)
    ensures Strip(Strip(s)) == Strip(s)
  {
    var r := Strip(s);
    assert TrimStart(r) == r;
    assert TrimEnd(r) == r;
  }

  // ---------------------------------------------------------------------------
  // JavaScript String.prototype.split(c) and Array.prototype.join(c)

  /** `s.split(sep)` for a one-character separator: the maximal separator-free pieces. */
  function SplitOn(s: string, sep: char): (r: seq<string>)
    ensures |r| >= 1
    ensures forall i :: 0 <= i < |r| ==> sep !in r[i]
  {
    if s == [] then [""]
    else
      var rest := SplitOn(s[1..], sep);
      if s[0] == sep then [""] + rest else [[s[0]] + rest[0]] + rest[1..]
  }

  /** `parts.join(sep)`. */
  function Join(parts: seq<string>, sep: char): string
  {
    if |parts| == 0 then ""
    else if |parts| == 1 then parts[0]
    else parts[0] + [sep] + Join(parts[1..], sep)
  }

  /** Joining the pieces of a split gives back the original text. */
  lemma {:induction false} JoinSplit(s: string, sep: char)
    ensures Join(SplitOn(s, sep), sep) == s
  {
    if s != [] {
      var rest := SplitOn(s[1..], sep);
      JoinSplit(s[1..], sep);
      if s[0] == sep {
        assert SplitOn(s, sep) == [""] + rest;
        assert ([""] + rest)[1..] == rest;
      } else {
        var r := [[s[0]] + rest[0]] + rest[1..];
        assert SplitOn(s, sep) == r;
        if |rest| == 1 {
          assert Join(rest, sep) == rest[0];
        } else {
          assert r[1..] == rest[1..];
          assert Join(rest, sep) == rest[0] + [sep] + Join(rest[1..], sep);
        }
      }
    }
  }

  /** Splitting a text whose first characters are separator-free extends the first piece. */
  lemma {:induction false} SplitPrefix(a: string, t: string, sep: char)
    requires sep !in a
    ensures SplitOn(a + t, sep) == [a + SplitOn(t, sep)[0]] + SplitOn(t, sep)[1..]
    decreases |a|
  {
    var st := SplitOn(t, sep);
    if a == [] {
      assert a + t == t;
      assert a + st[0] == st[0];
      assert [st[0]] + st[1..] == st;
    } else {
      assert (a + t)[0] == a[0];
      assert (a + t)[1..] == a[1..] + t;
      SplitPrefix(a[1..], t, sep);
      assert [a[0]] + (a[1..] + st[0]) == a + st[0];
    }
  }

  /** Splitting a join of separator-free pieces gives back the pieces. */
  lemma {:induction false} SplitJoin(parts: seq<string>, sep: char)
    requires |parts| >= 1
    requires forall i :: 0 <= i < |parts| ==> sep !in parts[i]
    ensures SplitOn(Join(parts, sep), sep) == parts
  {
    if |parts| == 1 {
      SplitPrefix(parts[0], [], sep);
      assert parts[0] + [] == parts[0];
    } else {
      var j := Join(parts[1..], sep);
      SplitJoin(parts[1..], sep);
      assert Join(parts, sep) == parts[0] + ([sep] + j);
      SplitPrefix(parts[0], [sep] + j, sep);
      assert ([sep] + j)[1..] == j;
      assert SplitOn([sep] + j, sep) == [""] + parts[1..];
      assert parts[0] + "" == parts[0];
      assert [parts[0]] + parts[1..] == parts;
    }
  }

  /** A split has one piece more than the text has separators. */
  lemma {:induction false} SplitOnCount(s: string, sep: char)
    ensures |SplitOn(s, sep)| == multiset(s)[sep] + 1
  {
    if s != [] {
      SplitOnCount(s[1..], sep);
      assert s == [s[0]] + s[1..];
      assert multiset(s) == multiset{s[0]} + multiset(s[1..]);
    }
  }

  /** How many separators the pieces hold between them. */
  function SepCount(parts: seq<string>, sep: char): nat {
    if parts == [] then 0 else multiset(parts[0])[sep] + SepCount(parts[1..], sep)
  }

  /** Joining adds one separator between each two pieces. */
  lemma {:induction false} JoinCount(parts: seq<string>, sep: char)
    requires |parts| >= 1
    ensures multiset(Join(parts, sep))[sep] == |parts| - 1 + SepCount(parts, sep)
  {
    if |parts| > 1 {
      JoinCount(parts[1..], sep);
      var j := Join(parts[1..], sep);
      assert multiset(parts[0] + [sep] + j) == multiset(parts[0]) + multiset{sep} + multiset(j);
    }
  }

  lemma {:induction false} SepCountZero(parts: seq<string>, sep: char)
    ensures SepCount(parts, sep) == 0 <==> forall i :: 0 <= i < |parts| ==> sep !in parts[i]
  {
    if parts != [] {
      SepCountZero(parts[1..], sep);
      assert forall i :: 1 <= i < |parts| ==> parts[i] == parts[1..][i - 1];
      assert sep in parts[0] <==> multiset(parts[0])[sep] > 0;
    }
  }

  /** A join splits back into exactly its pieces when, and only when, no piece
      holds the separator; otherwise it splits into more pieces. */
  lemma JoinSplitsBack(parts: seq<string>, sep: char)
    requires |parts| >= 1
    ensures |SplitOn(Join(parts, sep), sep)| >= |parts|
    ensures |SplitOn(Join(parts, sep), sep)| == |parts| <==> forall i :: 0 <= i < |parts| ==> sep !in parts[i]
    ensures (forall i :: 0 <= i < |parts| ==> sep !in parts[i]) ==> SplitOn(Join(parts, sep), sep) == parts
  {
    SplitOnCount(Join(parts, sep), sep);
    JoinCount(parts, sep);
    SepCountZero(parts, sep);
    if forall i :: 0 <= i < |parts| ==> sep !in parts[i] {
      SplitJoin(parts, sep);
    }
  }

  // ---------------------------------------------------------------------------
  // Decimal rendering of integers (Python f"{n}", JavaScript String(n))

  function DigitChar(d: nat): (c: char)
    requires d < 10
    ensures IsDigit(c) && DigitValue(c) == d
  {
    ('0' as int + d) as char
  }

  function DigitValue(c: char): (d: int)
    ensures IsDigit(c) ==> 0 <= d < 10
  {
    c as int - '0' as int
  }

  /** The value of a run of decimal digits, most significant first. */
  function DigitsValue(s: string): (v: nat)
    requires forall i :: 0 <= i < |s| ==> IsDigit(s[i])
  {
    if s == [] then 0 else DigitsValue(s[..|s| - 1]) * 10 + DigitValue(s[|s| - 1])
  }

  /** The decimal digits of `n`, without leading zeros. */
  function Decimal(n: nat): (r: string)
    ensures |r| >= 1
    ensures forall i :: 0 <= i < |r| ==> IsDigit(r[i])
    ensures r[0] == '0' ==> n == 0
  {
    if n < 10 then [DigitChar(n)] else Decimal(n / 10) + [DigitChar(n % 10)]
  }

  /** Reading the digits back gives the number. */
  lemma {:induction false} DecimalValue(n: nat)
    ensures DigitsValue(Decimal(n)) == n
  {
    if n >= 10 {
      var d := Decimal(n);
      assert d[..|d| - 1] == Decimal(n / 10);
      DecimalValue(n / 10);
    }
  }

  function Pow10(k: nat): (p: nat)
    ensures p >= 1
  {
    if k == 0 then 1 else 10 * Pow10(k - 1)
  }

  lemma Pow10Values()
    ensures Pow10(2) == 100 && Pow10(3) == 1000 && Pow10(4) == 10000
    ensures Pow10(8) == 100000000 && Pow10(9) == 1000000000
  {
    assert Pow10(1) == 10;
    assert Pow10(2) == 100;
    assert Pow10(3) == 1000;
    assert Pow10(4) == 10000;
    assert Pow10(5) == 100000;
    assert Pow10(6) == 1000000;
    assert Pow10(7) == 10000000;
    assert Pow10(8) == 100000000;
  }

  /** A number with k digits renders as k characters. */
  lemma {:induction false} DecimalLength(n: nat, k: nat)
    requires k >= 1 && Pow10(k - 1) <= n < Pow10(k)
    ensures |Decimal(n)| == k
  {
    if k > 1 {
      assert Pow10(k - 2) <= n / 10 < Pow10(k - 1);
      DecimalLength(n / 10, k - 1);
    } else {
      assert n < 10;
    }
  }

  /** JavaScript's rendering of an integral Number. */
  function IntToString(n: int): (r: string)
    ensures |r| >= 1
    ensures forall i :: 0 <= i < |r| ==> IsDigit(r[i]) || (i == 0 && r[i] == '-')
  {
    if n < 0 then "-" + Decimal(-n) else Decimal(n)
  }

  // ---------------------------------------------------------------------------
  // JavaScript parseInt(s) with no radix

  /** The longest prefix of `s` made of characters satisfying `p`. */
  function TakeWhile(s: string, p: char -> bool): (r: string)
    ensures |r| <= |s| && r == s[..|r|]
    ensures forall i :: 0 <= i < |r| ==> p(r[i])
    ensures |r| == |s| || !p(s[|r|])
  {
    if s != [] && p(s[0]) then [s[0]] + TakeWhile(s[1..], p) else []
  }

  function HexValue(c: char): int
  {
    if IsDigit(c) then DigitValue(c)
    else if 'a' <= c <= 'f' then c as int - 'a' as int + 10
    else c as int - 'A' as int + 10
  }

  function HexDigitsValue(s: string): int
  {
    if s == [] then 0 else HexDigitsValue(s[..|s| - 1]) * 16 + HexValue(s[|s| - 1])
  }

  function DropJsSpace(s: string): (r: string)
    ensures |r| <= |s| && r == s[|s| - |r|..]
    ensures r == [] || !IsJsSpace(r[0])
  {
    if s != [] && IsJsSpace(s[0]) then DropJsSpace(s[1..]) else s
  }

  /** `parseInt(s)`: leading white space, an optional sign, a `0x` prefix selecting
      base 16, then the longest digit run; `None` stands for `NaN` (no digits). */
  function ParseInt(s: string): Option<int>
  {
    ParseSigned(DropJsSpace(s))
  }

  /** `parseInt` after the white space. */
  function ParseSigned(t: string): Option<int>
  {
    var negative := t != [] && t[0] == '-';
    var u := if t != [] && (t[0] == '-' || t[0] == '+') then t[1..] else t;
    if |u| >= 2 && u[0] == '0' && (u[1] == 'x' || u[1] == 'X') then
      var h := TakeWhile(u[2..], IsHexDigit);
      if h == [] then None
      else
        var v: int := HexDigitsValue(h);
        Some(if negative then -v else v)
    else
      var d := TakeWhile(u, IsDigit);
      if d == [] then None
      else
        var v: int := DigitsValue(d);
        Some(if negative then -v else v)
  }

  /** `parseInt` reads back every integer JavaScript renders. */
  lemma ParseIntOfIntToString(n: int)
    ensures ParseInt(IntToString(n)) == Some(n)
  {
    var s := IntToString(n);
    assert DropJsSpace(s) == s by {
      assert s[0] == '-' || IsDigit(s[0]);
      assert !IsJsSpace(s[0]);
    }
    if n < 0 {
      ParseSignedNegative(-n);
    } else {
      ParseSignedDecimal(n);
    }
  }

  lemma ParseSignedDecimal(m: nat)
    ensures ParseSigned(Decimal(m)) == Some(m)
  {
    var d := Decimal(m);
    assert d[0] != '-' && d[0] != '+';
    ParseIntOfDigits(m);
    DecimalValue(m);
  }

  lemma ParseSignedNegative(m: nat)
    ensures ParseSigned("-" + Decimal(m)) == Some(-(m as int))
  {
    var d := Decimal(m);
    var t := "-" + d;
    assert t[0] == '-' && t[1..] == d;
    assert d[0] != '-' && d[0] != '+';
    ParseIntOfDigits(m);
    DecimalValue(m);
  }

  /** `parseInt` reads a plain run of digits as its value. */
  lemma ParseIntAllDigits(s: string)
    requires |s| >= 1 && forall i :: 0 <= i < |s| ==> IsDigit(s[i])
    ensures ParseInt(s) == Some(DigitsValue(s))
  {
    assert !IsJsSpace(s[0]);
    assert DropJsSpace(s) == s;
    ParseSignedDigits(s);
  }

  lemma ParseSignedDigits(s: string)
    requires |s| >= 1 && forall i :: 0 <= i < |s| ==> IsDigit(s[i])
    ensures ParseSigned(s) == Some(DigitsValue(s))
  {
    assert s[0] != '-' && s[0] != '+';
    assert |s| >= 2 ==> s[1] != 'x' && s[1] != 'X';
    TakeAllDigits(s);
  }

  /** Leading white space is all dropped. */
  lemma {:induction false} DropSpaces(p: string, s: string)
    requires forall i :: 0 <= i < |p| ==> IsJsSpace(p[i])
    ensures DropJsSpace(p + s) == DropJsSpace(s)
  {
    if p == [] {
      assert p + s == s;
    } else {
      assert (p + s)[0] == p[0];
      assert (p + s)[1..] == p[1..] + s;
      DropSpaces(p[1..], s);
    }
  }

  /** `parseInt` skips leading spaces. */
  lemma ParseIntSkipsSpaces(k: nat, s: string)
    ensures ParseInt(Repeat(' ', k) + s) == ParseInt(s)
  {
    DropSpaces(Repeat(' ', k), s);
  }

  /** After its sign, `parseInt` reads a rendered number as all of its digits. */
  lemma ParseIntOfDigits(m: nat)
    ensures |Decimal(m)| >= 2 ==> Decimal(m)[0] != '0'
    ensures TakeWhile(Decimal(m), IsDigit) == Decimal(m)
  {
    if m < 10 {
      assert |Decimal(m)| == 1;
    }
    TakeAllDigits(Decimal(m));
  }

  lemma {:induction false} TakeAllDigits(s: string)
    requires forall i :: 0 <= i < |s| ==> IsDigit(s[i])
    ensures TakeWhile(s, IsDigit) == s
  {
    if s != [] {
      TakeAllDigits(s[1..]);
    }
  }

  // ---------------------------------------------------------------------------
  // JavaScript replace(/[...]/g, '') and padStart

  /** `s` with every character of `drop` removed. */
  function RemoveChars(s: string, drop: set<char>): (r: string)
    ensures |r| <= |s|
    ensures forall i :: 0 <= i < |r| ==> r[i] !in drop
  {
    if s == [] then ""
    else
      var rest := RemoveChars(s[1..], drop);
      if s[0] in drop then rest else [s[0]] + rest
  }

  /** Exactly the characters outside `drop` survive, as often as they occur. */
  lemma {:induction false} RemoveCharsMultiset(s: string, drop: set<char>, c: char)
    ensures multiset(RemoveChars(s, drop))[c] == if c in drop then 0 else multiset(s)[c]
  {
    if s != [] {
      RemoveCharsMultiset(s[1..], drop, c);
      assert s == [s[0]] + s[1..];
    }
  }

  /** A text with nothing to remove is kept as it is. */
  lemma {:induction false} RemoveCharsNone(s: string, drop: set<char>)
    requires forall i :: 0 <= i < |s| ==> s[i] !in drop
    ensures RemoveChars(s, drop) == s
  {
    if s != [] {
      RemoveCharsNone(s[1..], drop);
    }
  }

  /** Removing characters distributes over concatenation, so it keeps the order of
      the characters it keeps. */
  lemma {:induction false} RemoveCharsConcat(a: string, b: string, drop: set<char>)
    ensures RemoveChars(a + b, drop) == RemoveChars(a, drop) + RemoveChars(b, drop)
  {
    if a != [] {
      assert (a + b)[0] == a[0];
      assert (a + b)[1..] == a[1..] + b;
      RemoveCharsConcat(a[1..], b, drop);
    } else {
      assert a + b == b;
    }
  }

  function Repeat(c: char, k: nat): (r: string)
    ensures |r| == k && forall i :: 0 <= i < k ==> r[i] == c
  {
    if k == 0 then "" else [c] + Repeat(c, k - 1)
  }

  /** `s.padStart(width, fill)` with a one-character fill. */
  function PadStart(s: string, width: nat, fill: char): (r: string)
    ensures |r| == if |s| >= width then |s| else width
    ensures r[|r| - |s|..] == s
    ensures forall i :: 0 <= i < |r| - |s| ==> r[i] == fill
  {
    if |s| >= width then s else Repeat(fill, width - |s|) + s
  }
}
