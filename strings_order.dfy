/**
 * The order Python's `sorted` puts strings in: code point by code point, a proper prefix
 * before the longer string. Used by the name and university listings of the faculty store.
 */
module StringOrder {

  predicate Le(a: string, b: string)
    decreases |a|
  {
    a == [] || (b != [] && (a[0] < b[0] || (a[0] == b[0] && Le(a[1..], b[1..]))))
  }

  lemma {:induction false} LeTotal(a: string, b: string)
    ensures Le(a, b) || Le(b, a)
    decreases |a|
  {
    if a != [] && b != [] && a[0] == b[0] {
      LeTotal(a[1..], b[1..]);
    }
  }

  lemma {:induction false} LeTransitive(a: string, b: string, c: string)
    requires Le(a, b) && Le(b, c)
    ensures Le(a, c)
    decreases |a|
  {
    if a != [] && a[0] == b[0] && b[0] == c[0] {
      LeTransitive(a[1..], b[1..], c[1..]);
    }
  }

  lemma {:induction false} LeAntisymmetric(a: string, b: string)
    requires Le(a, b) && Le(b, a)
    ensures a == b
    decreases |a|
  {
    if a != [] {
      LeAntisymmetric(a[1..], b[1..]);
      assert a == [a[0]] + a[1..] && b == [b[0]] + b[1..];
    }
  }

  predicate Sorted(s: seq<string>)
  {
    forall i, j :: 0 <= i < j < |s| ==> Le(s[i], s[j])
  }

  /** Sorted and free of duplicates. */
  predicate StrictlySorted(s: seq<string>)
  {
    forall i, j :: 0 <= i < j < |s| ==> Le(s[i], s[j]) && s[i] != s[j]
  }

  /** Every element of `s` is at least `x`. */
  lemma BelowAll(x: string, s: seq<string>)
    requires s != [] && Le(x, s[0]) && Sorted(s)
    ensures forall j :: 0 <= j < |s| ==> Le(x, s[j])
  {
    forall j | 0 <= j < |s| ensures Le(x, s[j]) {
      if j > 0 {
        LeTransitive(x, s[0], s[j]);
      }
    }
  }

  function Insert(x: string, s: seq<string>): (r: seq<string>)
    requires Sorted(s)
    ensures Sorted(r)
    ensures multiset(r) == multiset(s) + multiset{x}
  {
    if s == [] then [x]
    else if Le(x, s[0]) then
      BelowAll(x, s);
      [x] + s
    else
      LeTotal(x, s[0]);
      var r := Insert(x, s[1..]);
      assert s == [s[0]] + s[1..];
      HeadBelow(s[0], x, s[1..], r);
      [s[0]] + r
  }

  /** A head at most `x` and at most every element of `rest` stays first once `x` joins `rest`. */
  lemma HeadBelow(h: string, x: string, rest: seq<string>, r: seq<string>)
    requires Le(h, x) && (forall y :: y in rest ==> Le(h, y))
    requires Sorted(r) && multiset(r) == multiset(rest) + multiset{x}
    ensures Sorted([h] + r)
  {
    forall j | 0 <= j < |r| ensures Le(h, r[j]) {
      assert r[j] in multiset(r);
      assert r[j] == x || r[j] in multiset(rest);
    }
    var t := [h] + r;
    forall i, j | 0 <= i < j < |t| ensures Le(t[i], t[j]) {
      if i > 0 {
        assert t[i] == r[i - 1] && t[j] == r[j - 1];
      } else {
        assert t[j] == r[j - 1];
      }
    }
  }

  /** Python's `sorted` on a list of strings. */
  function Sort(s: seq<string>): (r: seq<string>)
    ensures Sorted(r)
    ensures multiset(r) == multiset(s)
  {
    if s == [] then []
    else
      assert s == [s[0]] + s[1..];
      Insert(s[0], Sort(s[1..]))
  }

  function InsertNew(x: string, s: seq<string>): (r: seq<string>)
    requires StrictlySorted(s)
    ensures StrictlySorted(r)
    ensures forall y :: y in r <==> y == x || y in s
  {
    if s == [] then [x]
    else if x == s[0] then s
    else if Le(x, s[0]) then
      assert Sorted(s);
      BelowAll(x, s);
      StrictBelowAll(x, s);
      [x] + s
    else
      LeTotal(x, s[0]);
      var r := InsertNew(x, s[1..]);
      StrictHeadBelow(s[0], x, s[1..], r);
      [s[0]] + r
  }

  lemma StrictBelowAll(x: string, s: seq<string>)
    requires s != [] && Le(x, s[0]) && x != s[0] && StrictlySorted(s)
    requires forall j :: 0 <= j < |s| ==> Le(x, s[j])
    ensures StrictlySorted([x] + s)
  {
    forall j | 0 <= j < |s| ensures x != s[j] {
      if j > 0 && x == s[j] {
        LeAntisymmetric(s[0], s[j]);
      }
    }
    var t := [x] + s;
    forall i, j | 0 <= i < j < |t| ensures Le(t[i], t[j]) && t[i] != t[j] {
      if i > 0 {
        assert t[i] == s[i - 1] && t[j] == s[j - 1];
      } else {
        assert t[j] == s[j - 1];
      }
    }
  }

  lemma StrictHeadBelow(h: string, x: string, rest: seq<string>, r: seq<string>)
    requires Le(h, x) && h != x && (forall y :: y in rest ==> Le(h, y) && h != y)
    requires StrictlySorted(r) && (forall y :: y in r <==> y == x || y in rest)
    ensures StrictlySorted([h] + r)
  {
    forall j | 0 <= j < |r| ensures Le(h, r[j]) && h != r[j] {
      assert r[j] in r;
    }
    var t := [h] + r;
    forall i, j | 0 <= i < j < |t| ensures Le(t[i], t[j]) && t[i] != t[j] {
      if i > 0 {
        assert t[i] == r[i - 1] && t[j] == r[j - 1];
      } else {
        assert t[j] == r[j - 1];
      }
    }
  }

  /** `sorted` of the distinct values of `s`. */
  function SortDistinct(s: seq<string>): (r: seq<string>)
    ensures StrictlySorted(r)
    ensures forall y :: y in r <==> y in s
  {
    if s == [] then []
    else
      assert s == [s[0]] + s[1..];
      InsertNew(s[0], SortDistinct(s[1..]))
  }
}
