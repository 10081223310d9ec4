/** List operations the scripts take from their runtimes: `Array.prototype.filter`
    and `map`, the stable `Array.prototype.sort` with a numeric comparator,
    `Math.min`/`Math.max`, grouping into an object keyed by a field, and
    `[...new Set(xs)]`. */
module Seqs {
  import opened Results

  /** `a` is `b` with some elements left out and the rest kept in order. */
  predicate Sublist<T(==)>(a: seq<T>, b: seq<T>)
    decreases |b|
  {
    if a == [] then true
    else if b == [] then false
    else (a[0] == b[0] && Sublist(a[1..], b[1..])) || Sublist(a, b[1..])
  }

  lemma {:induction false} SublistRefl<T(!new)>(s: seq<T>)
    ensures Sublist(s, s)
  {
    if s != [] {
      SublistRefl(s[1..]);
    }
  }

  /** Elements are drawn from the longer list. */
  lemma {:induction false} SublistMembers<T(!new)>(a: seq<T>, b: seq<T>)
    requires Sublist(a, b)
    ensures forall x :: x in a ==> x in b
    decreases |b|
  {
    if a != [] {
      if a[0] == b[0] && Sublist(a[1..], b[1..]) {
        SublistMembers(a[1..], b[1..]);
        assert forall x :: x in a ==> x == a[0] || x in a[1..];
      } else {
        SublistMembers(a, b[1..]);
      }
    }
  }

  /** Leaving elements out of a sorted list keeps it sorted. */
  lemma {:induction false} SublistSorted<T(!new)>(a: seq<T>, b: seq<T>, key: T -> int)
    requires Sublist(a, b) && SortedBy(b, key)
    ensures SortedBy(a, key)
    decreases |b|
  {
    if a != [] {
      assert SortedBy(b[1..], key) by {
        assert forall i :: 0 <= i < |b[1..]| ==> b[1..][i] == b[i + 1];
      }
      if a[0] == b[0] && Sublist(a[1..], b[1..]) {
        SublistSorted(a[1..], b[1..], key);
        SublistMembers(a[1..], b[1..]);
        forall j | 1 <= j < |a| ensures key(a[0]) <= key(a[j]) {
          assert a[1..][j - 1] in b[1..];
          var m :| 0 <= m < |b[1..]| && b[1..][m] == a[j];
          assert b[m + 1] == a[j];
        }
        forall i, j | 0 < i < j < |a| ensures key(a[i]) <= key(a[j]) {
          assert a[1..][i - 1] == a[i] && a[1..][j - 1] == a[j];
        }
      } else {
        SublistSorted(a, b[1..], key);
      }
    }
  }

  function Map<T, U>(f: T -> U, s: seq<T>): (r: seq<U>)
    ensures |r| == |s|
    ensures forall i :: 0 <= i < |s| ==> r[i] == f(s[i])
  {
    if s == [] then [] else [f(s[0])] + Map(f, s[1..])
  }

  lemma {:induction false} MapConcat<T, U>(f: T -> U, a: seq<T>, b: seq<T>)
    ensures Map(f, a + b) == Map(f, a) + Map(f, b)
  {
  }

  /** `s.filter(p)`: the elements satisfying `p`, each as often as in `s`, in order. */
  function Filter<T(==,!new)>(s: seq<T>, p: T -> bool): (r: seq<T>)
    ensures |r| <= |s|
    ensures forall i :: 0 <= i < |r| ==> p(r[i])
  {
    if s == [] then []
    else
      var rest := Filter(s[1..], p);
      if p(s[0]) then [s[0]] + rest else rest
  }

  /** The filter keeps elements in their order and invents none. */
  lemma {:induction false} FilterSublist<T(!new)>(s: seq<T>, p: T -> bool)
    ensures Sublist(Filter(s, p), s)
    ensures forall x :: x in Filter(s, p) ==> x in s
  {
    if s != [] {
      FilterSublist(s[1..], p);
      var rest := Filter(s[1..], p);
      if p(s[0]) {
        assert ([s[0]] + rest)[1..] == rest;
      }
      SublistMembers(Filter(s, p), s);
    }
  }

  /** The filter keeps every element satisfying `p` as often as it occurs, and nothing else. */
  lemma {:induction false} FilterMultiset<T(!new)>(s: seq<T>, p: T -> bool, x: T)
    ensures multiset(Filter(s, p))[x] == if p(x) then multiset(s)[x] else 0
  {
    if s != [] {
      FilterMultiset(s[1..], p, x);
      assert s == [s[0]] + s[1..];
    }
  }

  lemma {:induction false} FilterConcat<T(!new)>(a: seq<T>, b: seq<T>, p: T -> bool)
    ensures Filter(a + b, p) == Filter(a, p) + Filter(b, p)
  {
    if a == [] {
      assert a + b == b;
    } else {
      assert (a + b)[0] == a[0];
      assert (a + b)[1..] == a[1..] + b;
      FilterConcat(a[1..], b, p);
    }
  }

  /** Filtering by a property and by its negation splits a list in two. */
  lemma {:induction false} FilterComplement<T(!new)>(s: seq<T>, p: T -> bool, q: T -> bool)
    requires forall x :: q(x) == !p(x)
    ensures |Filter(s, p)| + |Filter(s, q)| == |s|
    ensures multiset(Filter(s, p)) + multiset(Filter(s, q)) == multiset(s)
  {
    if s != [] {
      FilterComplement(s[1..], p, q);
      assert s == [s[0]] + s[1..];
      var fp, fq := Filter(s[1..], p), Filter(s[1..], q);
      if p(s[0]) {
        assert Filter(s, p) == [s[0]] + fp && Filter(s, q) == fq;
        assert multiset(Filter(s, p)) == multiset{s[0]} + multiset(fp);
      } else {
        assert Filter(s, q) == [s[0]] + fq && Filter(s, p) == fp;
        assert multiset(Filter(s, q)) == multiset{s[0]} + multiset(fq);
      }
    }
  }

  /** A filter that rejects everything leaves nothing. */
  lemma {:induction false} FilterNone<T(!new)>(s: seq<T>, p: T -> bool)
    requires forall i :: 0 <= i < |s| ==> !p(s[i])
    ensures Filter(s, p) == []
  {
    if s != [] {
      assert forall i :: 0 <= i < |s[1..]| ==> s[1..][i] == s[i + 1];
      FilterNone(s[1..], p);
    }
  }

  /** A loop that turns each element into zero or one value, skipping the
      elements that give none. */
  function FilterMap<T, U>(s: seq<T>, f: T -> Option<U>): (r: seq<U>)
    ensures |r| <= |s|
  {
    if s == [] then []
    else (if f(s[0]).Some? then [f(s[0]).value] else []) + FilterMap(s[1..], f)
  }

  /** When no element is skipped, the values follow the elements one to one. */
  lemma {:induction false} FilterMapAll<T, U>(s: seq<T>, f: T -> Option<U>)
    requires forall i :: 0 <= i < |s| ==> f(s[i]).Some?
    ensures |FilterMap(s, f)| == |s|
    ensures forall i :: 0 <= i < |s| ==> FilterMap(s, f)[i] == f(s[i]).value
  {
    if s != [] {
      var rest := FilterMap(s[1..], f);
      assert forall i :: 0 <= i < |s[1..]| ==> f(s[1..][i]).Some? by {
        forall i | 0 <= i < |s[1..]| ensures f(s[1..][i]).Some? {
          assert s[1..][i] == s[i + 1];
        }
      }
      FilterMapAll(s[1..], f);
      assert FilterMap(s, f) == [f(s[0]).value] + rest;
      forall i | 0 <= i < |s| ensures FilterMap(s, f)[i] == f(s[i]).value {
        if i > 0 {
          assert FilterMap(s, f)[i] == rest[i - 1];
          assert s[i] == s[1..][i - 1];
        }
      }
    }
  }

  /** A loop that turns each element into zero or one value and stops at the
      first element that raises: the result is either every produced value, in
      order, or the first error. */
  function TryFilterMap<T, U(==), E(==)>(s: seq<T>, f: T -> Result<Option<U>, E>): (r: Result<seq<U>, E>)
    ensures r.Success? <==> forall i :: 0 <= i < |s| ==> f(s[i]).Success?
    ensures r.Success? ==> |r.value| <= |s|
  {
    if s == [] then Success([])
    else
      var first := f(s[0]);
      var rest := TryFilterMap(s[1..], f);
      assert forall i :: 1 <= i < |s| ==> s[i] == s[1..][i - 1];
      if first.Failure? then Failure(first.error)
      else if rest.Failure? then
        Failure(rest.error)
      else if first.value.None? then Success(rest.value)
      else
        Success([first.value.value] + rest.value)
  }

  /** The loop handles elements one at a time: running it over two blocks is
      running it over each and joining the values. */
  lemma {:induction false} TryFilterMapConcat<T, U, E>(a: seq<T>, b: seq<T>, f: T -> Result<Option<U>, E>)
    requires TryFilterMap(a, f).Success? && TryFilterMap(b, f).Success?
    ensures TryFilterMap(a + b, f) == Success(TryFilterMap(a, f).value + TryFilterMap(b, f).value)
  {
    var rb := TryFilterMap(b, f).value;
    if a == [] {
      assert a + b == b;
      assert TryFilterMap(a, f).value + rb == rb;
    } else {
      var ab := a + b;
      assert ab[0] == a[0] && ab[1..] == a[1..] + b;
      TryFilterMapConcat(a[1..], b, f);
      var ra := TryFilterMap(a[1..], f).value;
      var first := f(a[0]);
      var h := if first.value.Some? then [first.value.value] else [];
      assert TryFilterMap(a, f) == Success(h + ra) by {
        TryFilterMapCons(a, f);
      }
      assert TryFilterMap(ab, f) == Success(h + (ra + rb)) by {
        TryFilterMapCons(ab, f);
      }
      assert h + (ra + rb) == (h + ra) + rb;
    }
  }

  /** One step of the loop. */
  lemma TryFilterMapCons<T, U, E>(s: seq<T>, f: T -> Result<Option<U>, E>)
    requires s != []
    ensures var first, rest := f(s[0]), TryFilterMap(s[1..], f);
      TryFilterMap(s, f) ==
        if first.Failure? then Failure(first.error)
        else if rest.Failure? then Failure(rest.error)
        else Success((if first.value.Some? then [first.value.value] else []) + rest.value)
  {
    var first, rest := f(s[0]), TryFilterMap(s[1..], f);
    if first.Success? && rest.Success? && first.value.None? {
      assert [] + rest.value == rest.value;
    }
  }

  /** The loop over one element that does not raise. */
  lemma TryFilterMapOne<T, U, E>(x: T, f: T -> Result<Option<U>, E>)
    requires f(x).Success?
    ensures TryFilterMap([x], f) == Success(if f(x).value.Some? then [f(x).value.value] else [])
  {
    var s := [x];
    var none: seq<U> := [];
    assert s[0] == x && s[1..] == [];
    assert TryFilterMap(s[1..], f) == Success(none);
    TryFilterMapCons(s, f);
    if f(x).value.Some? {
      assert [f(x).value.value] + none == [f(x).value.value];
    } else {
      assert none + none == none;
    }
  }

  /** Every value the loop produces is one `f` produced, so a property of all of
      `f`'s values holds of the whole result. */
  lemma {:induction false} TryFilterMapAll<T, U, E>(s: seq<T>, f: T -> Result<Option<U>, E>, p: U -> bool)
    requires forall x :: f(x).Success? && f(x).value.Some? ==> p(f(x).value.value)
    ensures TryFilterMap(s, f).Success? ==>
      forall k :: 0 <= k < |TryFilterMap(s, f).value| ==> p(TryFilterMap(s, f).value[k])
  {
    if s != [] {
      TryFilterMapAll(s[1..], f, p);
      var r, rest := TryFilterMap(s, f), TryFilterMap(s[1..], f);
      if r.Success? && f(s[0]).value.Some? {
        assert r.value == [f(s[0]).value.value] + rest.value;
        forall k | 0 <= k < |r.value| ensures p(r.value[k]) {
          if k > 0 {
            assert r.value[k] == rest.value[k - 1];
          }
        }
      }
    }
  }

  /** Element `i` is the first that raises, and it raises `e`. */
  ghost predicate FirstError<T, U, E>(s: seq<T>, f: T -> Result<Option<U>, E>, i: int, e: E) {
    && 0 <= i < |s| && f(s[i]) == Failure(e)
    && forall j :: 0 <= j < i ==> f(s[j]).Success?
  }

  /** On failure the error is that of the first element that raised. */
  lemma {:induction false} TryFilterMapFirstError<T, U, E>(s: seq<T>, f: T -> Result<Option<U>, E>)
    requires TryFilterMap(s, f).Failure?
    ensures exists i :: FirstError(s, f, i, TryFilterMap(s, f).error)
  {
    if f(s[0]).Success? {
      TryFilterMapFirstError(s[1..], f);
      var i :| FirstError(s[1..], f, i, TryFilterMap(s[1..], f).error);
      assert f(s[i + 1]) == Failure(TryFilterMap(s, f).error);
      assert forall j :: 1 <= j < i + 1 ==> s[j] == s[1..][j - 1];
      assert FirstError(s, f, i + 1, TryFilterMap(s, f).error);
    } else {
      assert FirstError(s, f, 0, TryFilterMap(s, f).error);
    }
  }

  // ---------------------------------------------------------------------------
  // Stable sort by an integer key

  predicate SortedBy<T>(s: seq<T>, key: T -> int) {
    forall i, j :: 0 <= i < j < |s| ==> key(s[i]) <= key(s[j])
  }

  /** Inserts `x` after every element whose key is at most `key(x)`. */
  function InsertBy<T(==,!new)>(x: T, s: seq<T>, key: T -> int): (r: seq<T>)
    ensures |r| == |s| + 1
    ensures multiset(r) == multiset(s) + multiset{x}
  {
    if s == [] then [x]
    else if key(x) < key(s[0]) then [x] + s
    else
      assert s == [s[0]] + s[1..];
      [s[0]] + InsertBy(x, s[1..], key)
  }

  lemma SortedFirst<T>(s: seq<T>, key: T -> int, i: int)
    requires SortedBy(s, key) && 0 <= i < |s|
    ensures key(s[0]) <= key(s[i])
  {
  }

  lemma {:induction false} InsertSorted<T(!new)>(x: T, s: seq<T>, key: T -> int)
    requires SortedBy(s, key)
    ensures SortedBy(InsertBy(x, s, key), key)
    ensures s != [] ==> InsertBy(x, s, key)[0] in {x, s[0]}
  {
    if s == [] {
    } else if key(x) < key(s[0]) {
      SortedCons(x, s, key);
    } else {
      var rest := InsertBy(x, s[1..], key);
      assert SortedBy(s[1..], key);
      InsertSorted(x, s[1..], key);
      assert key(s[0]) <= key(rest[0]) by {
        if s[1..] != [] {
          SortedFirst(s, key, 1);
        }
      }
      SortedCons(s[0], rest, key);
    }
  }

  /** A sorted list stays sorted behind an element no larger than its head. */
  lemma SortedCons<T>(a: T, s: seq<T>, key: T -> int)
    requires SortedBy(s, key)
    requires s != [] ==> key(a) <= key(s[0])
    ensures SortedBy([a] + s, key)
  {
    var r := [a] + s;
    forall i, j | 0 <= i < j < |r| ensures key(r[i]) <= key(r[j]) {
      assert r[j] == s[j - 1];
      if i > 0 {
        assert r[i] == s[i - 1];
      }
    }
  }

  /** Ascending by `key`, keeping equal keys in their original order: the
      insertion sort that a stable `sort((a, b) => key(a) - key(b))` agrees with. */
  function SortBy<T(==,!new)>(s: seq<T>, key: T -> int): (r: seq<T>)
    ensures |r| == |s|
    ensures multiset(r) == multiset(s)
    ensures SortedBy(r, key)
  {
    if s == [] then []
    else
      InitLast(s);
      var sorted := SortBy(s[..|s| - 1], key);
      InsertSorted(s[|s| - 1], sorted, key);
      InsertBy(s[|s| - 1], sorted, key)
  }

  function KeyIs<T, K(==)>(key: T -> K, k: K): T -> bool
  {
    x => key(x) == k
  }

  /** The elements whose key is `k`, in order. */
  function Having<T(==,!new), K(==)>(s: seq<T>, key: T -> K, k: K): seq<T>
  {
    Filter(s, KeyIs(key, k))
  }

  lemma {:induction false} InsertHaving<T(!new)>(x: T, s: seq<T>, key: T -> int, k: int)
    requires SortedBy(s, key)
    ensures Having(InsertBy(x, s, key), key, k)
         == Having(s, key, k) + (if key(x) == k then [x] else [])
  {
    var hx := if key(x) == k then [x] else [];
    if s == [] {
      assert Having([x], key, k) == hx by { FilterCons([x], KeyIs(key, k)); }
    } else if key(x) < key(s[0]) {
      InsertFrontHaving(x, s, key, k);
    } else {
      assert SortedBy(s[1..], key);
      InsertHaving(x, s[1..], key, k);
      InsertBehindHaving(x, s, key, k);
    }
  }

  /** `x` goes in front of a list whose keys all exceed its own. */
  lemma InsertFrontHaving<T(!new)>(x: T, s: seq<T>, key: T -> int, k: int)
    requires SortedBy(s, key) && s != [] && key(x) < key(s[0])
    ensures Having([x] + s, key, k) == Having(s, key, k) + (if key(x) == k then [x] else [])
  {
    var p := KeyIs(key, k);
    var hx := if key(x) == k then [x] else [];
    assert Having([x] + s, key, k) == hx + Having(s, key, k) by {
      FilterCons([x] + s, p);
      assert ([x] + s)[1..] == s;
    }
    if key(x) == k {
      forall i | 0 <= i < |s| ensures !p(s[i]) {
        SortedFirst(s, key, i);
      }
      FilterNone(s, p);
    }
  }

  /** `x` goes somewhere behind the head. */
  lemma InsertBehindHaving<T(!new)>(x: T, s: seq<T>, key: T -> int, k: int)
    requires s != [] && key(x) >= key(s[0])
    requires Having(InsertBy(x, s[1..], key), key, k)
          == Having(s[1..], key, k) + (if key(x) == k then [x] else [])
    ensures Having(InsertBy(x, s, key), key, k)
         == Having(s, key, k) + (if key(x) == k then [x] else [])
  {
    var p := KeyIs(key, k);
    var hx := if key(x) == k then [x] else [];
    var rest := InsertBy(x, s[1..], key);
    var h0 := if key(s[0]) == k then [s[0]] else [];
    assert InsertBy(x, s, key) == [s[0]] + rest;
    assert Having([s[0]] + rest, key, k) == h0 + Having(rest, key, k) by {
      FilterCons([s[0]] + rest, p);
      assert ([s[0]] + rest)[1..] == rest;
    }
    assert Having(s, key, k) == h0 + Having(s[1..], key, k) by {
      FilterCons(s, p);
    }
    ConcatAssoc(h0, Having(s[1..], key, k), hx);
  }

  /** A non-empty list is its front followed by its last element. */
  lemma InitLast<T>(s: seq<T>)
    requires s != []
    ensures s == s[..|s| - 1] + [s[|s| - 1]]
  {
  }

  lemma ConcatAssoc<T>(a: seq<T>, b: seq<T>, c: seq<T>)
    ensures a + (b + c) == (a + b) + c
  {
  }

  /** One step of the filter. */
  lemma FilterCons<T(!new)>(s: seq<T>, p: T -> bool)
    requires s != []
    ensures Filter(s, p) == (if p(s[0]) then [s[0]] else []) + Filter(s[1..], p)
  {
    if !p(s[0]) {
      assert [] + Filter(s[1..], p) == Filter(s[1..], p);
    }
  }

  /** Appending an element extends the list of its key and no other. */
  lemma HavingSnoc<T(!new), K>(init: seq<T>, x: T, key: T -> K, k: K)
    ensures Having(init + [x], key, k) == Having(init, key, k) + (if key(x) == k then [x] else [])
  {
    FilterConcat(init, [x], KeyIs(key, k));
    assert Filter([x], KeyIs(key, k)) == if key(x) == k then [x] else [];
  }

  /** The sort is stable: among equal keys the original order survives, so the
      result is the unique sorted arrangement that keeps each key's order. */
  lemma {:induction false} SortStable<T(!new)>(s: seq<T>, key: T -> int, k: int)
    ensures Having(SortBy(s, key), key, k) == Having(s, key, k)
  {
    if s != [] {
      var init, x := s[..|s| - 1], s[|s| - 1];
      var sorted := SortBy(init, key);
      var e := if key(x) == k then [x] else [];
      assert Having(SortBy(s, key), key, k) == Having(sorted, key, k) + e by {
        assert SortBy(s, key) == InsertBy(x, sorted, key);
        InsertHaving(x, sorted, key, k);
      }
      assert Having(sorted, key, k) == Having(init, key, k) by {
        SortStable(init, key, k);
      }
      assert Having(s, key, k) == Having(init, key, k) + e by {
        InitLast(s);
        HavingSnoc(init, x, key, k);
      }
    }
  }

  // ---------------------------------------------------------------------------
  // Math.min(...s) and Math.max(...s)

  function MinOf(s: seq<int>): (m: int)
    requires |s| > 0
    ensures m in s
    ensures forall i :: 0 <= i < |s| ==> m <= s[i]
  {
    if |s| == 1 then s[0]
    else
      var rest := MinOf(s[1..]);
      assert forall i :: 1 <= i < |s| ==> s[i] == s[1..][i - 1];
      if s[0] <= rest then s[0] else rest
  }

  function MaxOf(s: seq<int>): (m: int)
    requires |s| > 0
    ensures m in s
    ensures forall i :: 0 <= i < |s| ==> s[i] <= m
  {
    if |s| == 1 then s[0]
    else
      var rest := MaxOf(s[1..]);
      assert forall i :: 1 <= i < |s| ==> s[i] == s[1..][i - 1];
      if s[0] >= rest then s[0] else rest
  }

  // ---------------------------------------------------------------------------
  // [...new Set(s)]: first occurrences, in order

  predicate Distinct<T(==)>(s: seq<T>) {
    forall i, j :: 0 <= i < j < |s| ==> s[i] != s[j]
  }

  /** Where `x` first occurs in `s`. */
  function FirstIndex<T(==)>(s: seq<T>, x: T): (i: nat)
    requires x in s
    ensures i < |s| && s[i] == x && x !in s[..i]
    ensures forall k :: 0 <= k < i ==> s[k] != x
  {
    if s[0] == x then 0
    else
      assert x in s[1..];
      var j := FirstIndex(s[1..], x);
      assert s[..j + 1] == [s[0]] + s[1..][..j];
      j + 1
  }

  lemma FirstIndexExtend<T(!new)>(s: seq<T>, x: T, y: T)
    requires y in s
    ensures FirstIndex(s + [x], y) == FirstIndex(s, y)
  {
    var i := FirstIndex(s, y);
    var j := FirstIndex(s + [x], y);
    assert (s + [x])[i] == y;
    assert j <= i;
    assert s[j] == (s + [x])[j];
  }

  /** The distinct elements of `s` in order of first occurrence. */
  function Dedupe<T(==,!new)>(s: seq<T>): (r: seq<T>)
    ensures Distinct(r)
    ensures forall x :: x in r <==> x in s
    ensures forall i, j :: 0 <= i < j < |r| ==> FirstIndex(s, r[i]) < FirstIndex(s, r[j])
  {
    if s == [] then []
    else
      var init, x := s[..|s| - 1], s[|s| - 1];
      var d := Dedupe(init);
      InitLast(s);
      forall y | y in init ensures FirstIndex(s, y) == FirstIndex(init, y) {
        FirstIndexExtend(init, x, y);
      }
      if x in d then d
      else
        assert FirstIndex(s, x) == |init| by {
          assert s[|init|] == x && x !in s[..|init|];
        }
        d + [x]
  }

  lemma DedupeSnoc<T(!new)>(s: seq<T>, x: T)
    ensures Dedupe(s + [x]) == if x in Dedupe(s) then Dedupe(s) else Dedupe(s) + [x]
  {
    var t := s + [x];
    assert t[..|t| - 1] == s && t[|t| - 1] == x;
  }

  /** A sublist of a list without repeats has none either. */
  lemma {:induction false} SublistDistinct<T(!new)>(a: seq<T>, b: seq<T>)
    requires Sublist(a, b) && Distinct(b)
    ensures Distinct(a)
    decreases |b|
  {
    if a != [] {
      assert Distinct(b[1..]) by {
        assert forall k :: 0 <= k < |b[1..]| ==> b[1..][k] == b[k + 1];
      }
      if a[0] == b[0] && Sublist(a[1..], b[1..]) {
        SublistDistinct(a[1..], b[1..]);
        SublistMembers(a[1..], b[1..]);
        assert b[0] !in b[1..] by {
          assert forall k :: 0 <= k < |b[1..]| ==> b[1..][k] == b[k + 1];
        }
        forall i, j | 0 <= i < j < |a| ensures a[i] != a[j] {
          assert a[j] == a[1..][j - 1];
          if i > 0 {
            assert a[i] == a[1..][i - 1];
          }
        }
      } else {
        SublistDistinct(a, b[1..]);
      }
    }
  }

  /** `s.slice(0, n)`. */
  function Take<T>(s: seq<T>, n: nat): (r: seq<T>)
    ensures |r| == if n <= |s| then n else |s|
    ensures r == s[..|r|]
  {
    if n <= |s| then s[..n] else s
  }

  // ---------------------------------------------------------------------------
  // Grouping into an object keyed by a field, one `push` at a time

  function GroupKeys<K, T>(g: seq<(K, seq<T>)>): (r: seq<K>)
    ensures |r| == |g|
    ensures forall i :: 0 <= i < |g| ==> r[i] == g[i].0
  {
    if g == [] then [] else [g[0].0] + GroupKeys(g[1..])
  }

  /** `if (!groups[k]) groups[k] = []; groups[k].push(x)`: `x` joins the group
      of key `k`, which is opened at the end when it is new. */
  function AddToGroup<K(==), T>(g: seq<(K, seq<T>)>, k: K, x: T): (r: seq<(K, seq<T>)>)
    ensures GroupKeys(r) == if k in GroupKeys(g) then GroupKeys(g) else GroupKeys(g) + [k]
  {
    if g == [] then [(k, [x])]
    else if g[0].0 == k then [(k, g[0].1 + [x])] + g[1..]
    else
      var rest := AddToGroup(g[1..], k, x);
      assert GroupKeys(g) == [g[0].0] + GroupKeys(g[1..]);
      assert GroupKeys([g[0]] + rest) == [g[0].0] + GroupKeys(rest);
      [g[0]] + rest
  }

  lemma {:induction false} DistinctTail<T>(s: seq<T>)
    requires s != [] && Distinct(s)
    ensures Distinct(s[1..]) && s[0] !in s[1..]
  {
    assert forall k :: 0 <= k < |s| - 1 ==> s[1..][k] == s[k + 1];
  }

  /** With distinct keys, `x` is pushed onto its own key's group and no other. */
  lemma {:induction false} AddToGroupContents<K, T>(g: seq<(K, seq<T>)>, k: K, x: T)
    requires Distinct(GroupKeys(g))
    ensures forall i :: 0 <= i < |g| ==>
      AddToGroup(g, k, x)[i].1 == g[i].1 + (if g[i].0 == k then [x] else [])
    ensures k !in GroupKeys(g) ==> AddToGroup(g, k, x)[|g|] == (k, [x])
  {
    if g != [] {
      var keys := GroupKeys(g);
      assert keys == [g[0].0] + GroupKeys(g[1..]);
      DistinctTail(keys);
      assert keys[1..] == GroupKeys(g[1..]);
      var r := AddToGroup(g, k, x);
      if g[0].0 == k {
        forall i | 1 <= i < |g| ensures g[i].0 != k {
          assert keys[i] == g[i].0;
        }
      } else {
        AddToGroupContents(g[1..], k, x);
        assert forall i :: 1 <= i < |r| ==> r[i] == AddToGroup(g[1..], k, x)[i - 1];
      }
    }
  }

  /** `s.forEach(x => push x into groups[key(x)])`. */
  function GroupBy<T, K(==)>(s: seq<T>, key: T -> K): (r: seq<(K, seq<T>)>)
  {
    if s == [] then []
    else AddToGroup(GroupBy(s[..|s| - 1], key), key(s[|s| - 1]), s[|s| - 1])
  }

  /** No key is opened twice. */
  lemma {:induction false} GroupByDistinct<T, K>(s: seq<T>, key: T -> K)
    ensures Distinct(GroupKeys(GroupBy(s, key)))
  {
    if s != [] {
      var g0 := GroupBy(s[..|s| - 1], key);
      GroupByDistinct(s[..|s| - 1], key);
      var k0 := GroupKeys(g0);
      var k := key(s[|s| - 1]);
      if k !in k0 {
        forall i, j | 0 <= i < j < |k0| + 1 ensures (k0 + [k])[i] != (k0 + [k])[j] {
          if j == |k0| {
            assert (k0 + [k])[i] == k0[i];
          } else {
            assert (k0 + [k])[i] == k0[i] && (k0 + [k])[j] == k0[j];
          }
        }
      }
    }
  }

  /** A key has a group exactly when some element carries it. */
  lemma GroupByKeyMembers<T(!new), K(!new)>(s: seq<T>, key: T -> K, k: K)
    ensures k in GroupKeys(GroupBy(s, key)) <==> k in Map(key, s)
  {
    GroupByKeys(s, key);
  }

  /** Each group holds exactly the elements of its key, in their original order. */
  lemma {:induction false} GroupByGroups<T(!new), K(!new)>(s: seq<T>, key: T -> K)
    ensures forall i :: 0 <= i < |GroupBy(s, key)| ==>
      GroupBy(s, key)[i].1 == Having(s, key, GroupBy(s, key)[i].0)
  {
    if s != [] {
      var init, x := s[..|s| - 1], s[|s| - 1];
      GroupByGroups(init, key);
      InitLast(s);
      GroupsSnoc(init, x, key);
    }
  }

  /** Pushing one more element keeps every group equal to the elements of its key. */
  lemma GroupsSnoc<T(!new), K(!new)>(init: seq<T>, x: T, key: T -> K)
    requires forall j :: 0 <= j < |GroupBy(init, key)| ==>
      GroupBy(init, key)[j].1 == Having(init, key, GroupBy(init, key)[j].0)
    ensures forall i :: 0 <= i < |GroupBy(init + [x], key)| ==>
      GroupBy(init + [x], key)[i].1 == Having(init + [x], key, GroupBy(init + [x], key)[i].0)
  {
    var g0 := GroupBy(init, key);
    assert GroupBy(init + [x], key) == AddToGroup(g0, key(x), x) by {
      assert (init + [x])[..|init|] == init;
    }
    GroupByDistinct(init, key);
    GroupByKeyMembers(init, key, key(x));
    var g := AddToGroup(g0, key(x), x);
    forall i | 0 <= i < |g| ensures g[i].1 == Having(init + [x], key, g[i].0) {
      GroupStep(init, x, key, g0, i);
    }
  }

  /** One `push` keeps every group equal to the elements of its key. */
  lemma GroupStep<T(!new), K(!new)>(init: seq<T>, x: T, key: T -> K, g0: seq<(K, seq<T>)>, i: nat)
    requires Distinct(GroupKeys(g0))
    requires forall j :: 0 <= j < |g0| ==> g0[j].1 == Having(init, key, g0[j].0)
    requires key(x) in GroupKeys(g0) <==> key(x) in Map(key, init)
    requires i < |AddToGroup(g0, key(x), x)|
    ensures AddToGroup(g0, key(x), x)[i].1 == Having(init + [x], key, AddToGroup(g0, key(x), x)[i].0)
  {
    var g := AddToGroup(g0, key(x), x);
    AddToGroupContents(g0, key(x), x);
    var k := g[i].0;
    HavingSnoc(init, x, key, k);
    if i < |g0| {
      assert GroupKeys(g)[i] == GroupKeys(g0)[i];
    } else {
      assert forall j :: 0 <= j < |init| ==> Map(key, init)[j] == key(init[j]);
      FilterNone(init, KeyIs(key, key(x)));
    }
  }

  /** The group keys are the distinct keys in order of first appearance. */
  lemma {:induction false} GroupByKeys<T(!new), K(!new)>(s: seq<T>, key: T -> K)
    ensures GroupKeys(GroupBy(s, key)) == Dedupe(Map(key, s))
  {
    if s != [] {
      GroupByKeys(s[..|s| - 1], key);
      GroupKeysSnoc(s, key);
      DedupeMapSnoc(s, key);
    }
  }

  lemma GroupKeysSnoc<T, K>(s: seq<T>, key: T -> K)
    requires s != []
    ensures var k0, k := GroupKeys(GroupBy(s[..|s| - 1], key)), key(s[|s| - 1]);
      GroupKeys(GroupBy(s, key)) == if k in k0 then k0 else k0 + [k]
  {
  }

  lemma DedupeMapSnoc<T, K(!new)>(s: seq<T>, key: T -> K)
    requires s != []
    ensures var d, k := Dedupe(Map(key, s[..|s| - 1])), key(s[|s| - 1]);
      Dedupe(Map(key, s)) == if k in d then d else d + [k]
  {
    MapSnoc(key, s);
    DedupeSnoc(Map(key, s[..|s| - 1]), key(s[|s| - 1]));
  }

  lemma MapSnoc<T, U>(f: T -> U, s: seq<T>)
    requires s != []
    ensures Map(f, s) == Map(f, s[..|s| - 1]) + [f(s[|s| - 1])]
  {
    var init, x := s[..|s| - 1], s[|s| - 1];
    InitLast(s);
    MapConcat(f, init, [x]);
  }

  function TotalSize<K, T>(g: seq<(K, seq<T>)>): nat {
    if g == [] then 0 else |g[0].1| + TotalSize(g[1..])
  }

  lemma {:induction false} AddToGroupSize<K, T>(g: seq<(K, seq<T>)>, k: K, x: T)
    ensures TotalSize(AddToGroup(g, k, x)) == TotalSize(g) + 1
  {
    if g != [] {
      if g[0].0 != k {
        AddToGroupSize(g[1..], k, x);
        var r := AddToGroup(g, k, x);
        assert r[1..] == AddToGroup(g[1..], k, x);
      }
    }
  }

  /** Every element lands in exactly one group: the group sizes add up to the length. */
  lemma {:induction false} GroupBySize<T, K>(s: seq<T>, key: T -> K)
    ensures TotalSize(GroupBy(s, key)) == |s|
  {
    if s != [] {
      GroupBySize(s[..|s| - 1], key);
      AddToGroupSize(GroupBy(s[..|s| - 1], key), key(s[|s| - 1]), s[|s| - 1]);
    }
  }
}
