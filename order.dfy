/** Orders and the sorted, de-duplicated key lists that pandas' groupby and
    pivot_table produce (their group keys come out in ascending order). */
module Order {

  /** Python's `str < str`: lexicographic by code point, a proper prefix first. */
  predicate StrLess(a: string, b: string)
    decreases |a|
  {
    if |a| == 0 then |b| > 0
    else if |b| == 0 then false
    else if a[0] != b[0] then a[0] < b[0]
    else StrLess(a[1..], b[1..])
  }

  lemma {:induction false} StrLessIrreflexive(a: string)
    ensures !StrLess(a, a)
    decreases |a|
  {
    if |a| > 0 { StrLessIrreflexive(a[1..]); }
  }

  lemma {:induction false} StrLessTransitive(a: string, b: string, c: string)
    requires StrLess(a, b) && StrLess(b, c)
    ensures StrLess(a, c)
    decreases |a|
  {
    if |a| > 0 && a[0] == b[0] && b[0] == c[0] {
      StrLessTransitive(a[1..], b[1..], c[1..]);
    }
  }

  lemma {:induction false} StrLessTotal(a: string, b: string)
    requires a != b
    ensures StrLess(a, b) || StrLess(b, a)
    decreases |a|
  {
    if |a| > 0 && |b| > 0 && a[0] == b[0] {
      assert a == [a[0]] + a[1..] && b == [b[0]] + b[1..];
      StrLessTotal(a[1..], b[1..]);
    }
  }

  ghost predicate StrictTotalOrder<K(!new)>(less: (K, K) -> bool)
  {
    && (forall a :: !less(a, a))
    && (forall a, b, c :: less(a, b) && less(b, c) ==> less(a, c))
    && (forall a, b :: a != b ==> less(a, b) || less(b, a))
  }

  lemma StrLessIsStrictTotalOrder()
    ensures StrictTotalOrder(StrLess)
  {
    forall a: string ensures !StrLess(a, a) { StrLessIrreflexive(a); }
    forall a: string, b: string, c: string | StrLess(a, b) && StrLess(b, c)
      ensures StrLess(a, c)
    {
      StrLessTransitive(a, b, c);
    }
    forall a: string, b: string | a != b ensures StrLess(a, b) || StrLess(b, a) {
      StrLessTotal(a, b);
    }
  }

  /** The set of values in a sequence. */
  function Elems<K>(s: seq<K>): set<K>
  {
    set k | k in s
  }

  lemma ElemsConcat<K>(a: seq<K>, b: seq<K>)
    ensures Elems(a + b) == Elems(a) + Elems(b)
  {
    assert forall k :: k in a + b <==> k in a || k in b;
  }

  /** No value occurs twice. */
  predicate Distinct<K(==)>(s: seq<K>)
  {
    forall i, j :: 0 <= i < j < |s| ==> s[i] != s[j]
  }

  /** Strictly ascending, hence free of duplicates. */
  predicate Ascending<K>(less: (K, K) -> bool, s: seq<K>)
  {
    forall i, j :: 0 <= i < j < |s| ==> less(s[i], s[j])
  }

  /** Puts `x` into its place in an ascending list, unless it is there already. */
  function Insert<K(==)>(less: (K, K) -> bool, s: seq<K>, x: K): (r: seq<K>)
    ensures Elems(r) == Elems(s) + {x}
  {
    if |s| == 0 then [x]
    else if x == s[0] then s
    else if less(x, s[0]) then [x] + s
    else
      var t := Insert(less, s[1..], x);
      assert s == [s[0]] + s[1..];
      ElemsConcat([s[0]], s[1..]);
      ElemsConcat([s[0]], t);
      [s[0]] + t
  }

  lemma {:induction false} InsertAscending<K(!new)>(less: (K, K) -> bool, s: seq<K>, x: K)
    requires StrictTotalOrder(less) && Ascending(less, s)
    ensures Ascending(less, Insert(less, s, x))
  {
    if |s| > 0 && x != s[0] && !less(x, s[0]) {
      InsertAscending(less, s[1..], x);
      var t := Insert(less, s[1..], x);
      assert less(s[0], x);
      forall k | k in t ensures less(s[0], k) {
        assert k in Elems(t);
      }
      var r := [s[0]] + t;
      assert Insert(less, s, x) == r;
      forall i, j | 0 <= i < j < |r| ensures less(r[i], r[j]) {
        if i > 0 { assert r[i] == t[i - 1] && r[j] == t[j - 1]; }
        else { assert r[j] in t; }
      }
    }
  }

  /** The distinct values of `xs` in ascending order: the key column of a groupby. */
  function SortedKeys<K(==)>(less: (K, K) -> bool, xs: seq<K>): (r: seq<K>)
    ensures Elems(r) == Elems(xs)
  {
    if |xs| == 0 then []
    else
      var init := xs[..|xs| - 1];
      assert xs == init + [xs[|xs| - 1]];
      ElemsConcat(init, [xs[|xs| - 1]]);
      Insert(less, SortedKeys(less, init), xs[|xs| - 1])
  }

  lemma {:induction false} SortedKeysAscending<K(!new)>(less: (K, K) -> bool, xs: seq<K>)
    requires StrictTotalOrder(less)
    ensures Ascending(less, SortedKeys(less, xs))
  {
    if |xs| > 0 {
      SortedKeysAscending(less, xs[..|xs| - 1]);
      InsertAscending(less, SortedKeys(less, xs[..|xs| - 1]), xs[|xs| - 1]);
    }
  }

  /** An ascending list under a strict order has no duplicates. */
  lemma AscendingDistinct<K(!new)>(less: (K, K) -> bool, s: seq<K>)
    requires StrictTotalOrder(less) && Ascending(less, s)
    ensures Distinct(s)
  {
    forall i, j | 0 <= i < j < |s| ensures s[i] != s[j] {
      assert less(s[i], s[j]);
    }
  }

  /** The distinct values of `xs` in order of first appearance: pandas' `unique()`. */
  function Unique<K(==)>(xs: seq<K>): (r: seq<K>)
    ensures Elems(r) == Elems(xs)
    ensures forall i :: 0 <= i < |xs| ==> xs[i] in r
    ensures forall i :: 0 <= i < |r| ==> r[i] in xs
    ensures Distinct(r)
  {
    if |xs| == 0 then []
    else
      var init := xs[..|xs| - 1];
      var last := xs[|xs| - 1];
      assert xs == init + [last];
      ElemsConcat(init, [last]);
      var u := Unique(init);
      if last in u then u
      else
        ElemsConcat(u, [last]);
        assert forall i :: 0 <= i < |u| ==> u[i] in Elems(u);
        u + [last]
  }

  /** `unique()` lists values in order of first appearance: wherever a later
      value of the result occurs in `xs`, every earlier value of the result
      has already occurred before it. */
  lemma {:induction false} UniqueFirstAppearance<K>(xs: seq<K>)
    ensures forall i, j, b :: 0 <= i < j < |Unique(xs)| && 0 <= b < |xs| && xs[b] == Unique(xs)[j] ==>
              Unique(xs)[i] in xs[..b]
    decreases |xs|
  {
    if |xs| > 0 {
      var init := xs[..|xs| - 1];
      var last := xs[|xs| - 1];
      var u := Unique(init);
      var r := Unique(xs);
      UniqueFirstAppearance(init);
      assert r == if last in u then u else u + [last];
      forall i, j, b | 0 <= i < j < |r| && 0 <= b < |xs| && xs[b] == r[j] ensures r[i] in xs[..b] {
        assert r[i] == u[i];
        if j < |u| && b < |init| {
          assert init[b] == xs[b];
          assert u[i] in init[..b];
          assert init[..b] == xs[..b];
        } else if j < |u| {
          var b' :| 0 <= b' < |init| && init[b'] == u[j];
          assert u[i] in init[..b'];
          assert init[..b'] == xs[..b'];
          assert xs[..b'] <= xs[..b];
        } else if b == |init| {
          assert u[i] in init;
          assert xs[..b] == init;
        }
      }
    }
  }

  /** Two ascending lists holding the same values are the same list. */
  lemma {:induction false} AscendingUnique<K(!new)>(less: (K, K) -> bool, a: seq<K>, b: seq<K>)
    requires StrictTotalOrder(less) && Ascending(less, a) && Ascending(less, b)
    requires Elems(a) == Elems(b)
    ensures a == b
    decreases |a|
  {
    assert |b| == 0 || b[0] in Elems(b);
    if |a| > 0 {
      assert a[0] in Elems(b) && b[0] in Elems(b);
      var i :| 0 <= i < |a| && a[i] == b[0];
      var j :| 0 <= j < |b| && b[j] == a[0];
      assert a[0] == b[0];
      assert a == [a[0]] + a[1..] && b == [b[0]] + b[1..];
      ElemsConcat([a[0]], a[1..]);
      ElemsConcat([b[0]], b[1..]);
      assert a[0] !in Elems(a[1..]) by {
        forall t | 0 <= t < |a[1..]| ensures a[1..][t] != a[0] {
          assert less(a[0], a[t + 1]);
        }
      }
      assert b[0] !in Elems(b[1..]) by {
        forall t | 0 <= t < |b[1..]| ensures b[1..][t] != b[0] {
          assert less(b[0], b[t + 1]);
        }
      }
      AscendingUnique(less, a[1..], b[1..]);
    }
  }

  /** `unique()` of a column that never goes down is strictly ascending. */
  lemma {:induction false} UniqueOfNondecreasing<K(!new)>(less: (K, K) -> bool, xs: seq<K>)
    requires StrictTotalOrder(less)
    requires forall i, j :: 0 <= i < j < |xs| ==> xs[i] == xs[j] || less(xs[i], xs[j])
    ensures Ascending(less, Unique(xs))
    decreases |xs|
  {
    if |xs| > 0 {
      var init := xs[..|xs| - 1];
      var last := xs[|xs| - 1];
      UniqueOfNondecreasing(less, init);
      var u := Unique(init);
      if last !in u {
        forall i | 0 <= i < |u| ensures less(u[i], last) {
          var t :| 0 <= t < |init| && init[t] == u[i];
          assert xs[t] == u[i];
        }
      }
    }
  }

  /** The distinct values of a column holding one value only. */
  lemma {:induction false} UniqueConstant<K>(xs: seq<K>, x: K)
    requires |xs| > 0 && forall i :: 0 <= i < |xs| ==> xs[i] == x
    ensures Unique(xs) == [x]
    decreases |xs|
  {
    if |xs| > 1 {
      UniqueConstant(xs[..|xs| - 1], x);
    }
  }

  /** The sorted keys of a column holding one value only. */
  lemma {:induction false} SortedKeysConstant<K>(less: (K, K) -> bool, xs: seq<K>, x: K)
    requires |xs| > 0 && forall i :: 0 <= i < |xs| ==> xs[i] == x
    ensures SortedKeys(less, xs) == [x]
    decreases |xs|
  {
    if |xs| > 1 {
      SortedKeysConstant(less, xs[..|xs| - 1], x);
    }
  }

  /** Another occurrence of a value already present leaves the keys as they were. */
  lemma SortedKeysKnown<K(!new)>(less: (K, K) -> bool, xs: seq<K>, x: K)
    requires StrictTotalOrder(less) && x in xs
    ensures SortedKeys(less, xs + [x]) == SortedKeys(less, xs)
  {
    ElemsConcat(xs, [x]);
    assert Elems(xs + [x]) == Elems(xs);
    SortedKeysAscending(less, xs);
    SortedKeysAscending(less, xs + [x]);
    AscendingUnique(less, SortedKeys(less, xs + [x]), SortedKeys(less, xs));
  }

  /** The sorted string keys are ascending and duplicate-free. */
  lemma StringKeys(xs: seq<string>)
    ensures Ascending(StrLess, SortedKeys(StrLess, xs))
    ensures Distinct(SortedKeys(StrLess, xs))
  {
    StrLessIsStrictTotalOrder();
    SortedKeysAscending(StrLess, xs);
    AscendingDistinct(StrLess, SortedKeys(StrLess, xs));
  }

  lemma StringKeysKnown(xs: seq<string>, x: string)
    requires x in xs
    ensures SortedKeys(StrLess, xs + [x]) == SortedKeys(StrLess, xs)
  {
    StrLessIsStrictTotalOrder();
    SortedKeysKnown(StrLess, xs, x);
  }

  /** Two columns holding the same values have the same sorted keys. */
  lemma SortedKeysSame<K(!new)>(less: (K, K) -> bool, xs: seq<K>, ys: seq<K>)
    requires StrictTotalOrder(less) && Elems(xs) == Elems(ys)
    ensures SortedKeys(less, xs) == SortedKeys(less, ys)
  {
    SortedKeysAscending(less, xs);
    SortedKeysAscending(less, ys);
    AscendingUnique(less, SortedKeys(less, xs), SortedKeys(less, ys));
  }

  lemma StringKeysSame(xs: seq<string>, ys: seq<string>)
    requires Elems(xs) == Elems(ys)
    ensures SortedKeys(StrLess, xs) == SortedKeys(StrLess, ys)
  {
    StrLessIsStrictTotalOrder();
    SortedKeysSame(StrLess, xs, ys);
  }
}
