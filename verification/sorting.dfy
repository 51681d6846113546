/**
 * `Array.prototype.sort` with a comparator, which ECMA-262 requires to be
 * stable since its 2019 edition (section 22.1.3.27). A comparator returns a
 * negative number when its first argument goes first, a positive number when
 * its second argument goes first, and zero when their order is kept.
 *
 * The sort is modelled as a stable insertion sort. For a consistent
 * comparator the stable sorted order is unique, so any stable sort gives this
 * result; for an inconsistent one ECMA-262 leaves the order to the engine and
 * only promises a permutation, which is all that is proved in that case.
 */
module Sorting {

  /** The comparator behaves as a total preorder on the values of `univ`
      (the "consistent comparator" of ECMA-262). */
  ghost predicate ConsistentOn<T>(cmp: (T, T) -> int, univ: set<T>) {
    && (forall a, b | a in univ && b in univ ::
          (cmp(a, b) < 0 <==> cmp(b, a) > 0) && (cmp(a, b) == 0 <==> cmp(b, a) == 0))
    && (forall a, b, c {:trigger a in univ, b in univ, c in univ} | a in univ && b in univ && c in univ ::
          cmp(a, b) <= 0 && cmp(b, c) <= 0 ==> cmp(a, c) <= 0)
  }

  /** Every element is placed no later than those it does not come after. */
  ghost predicate SortedBy<T>(cmp: (T, T) -> int, s: seq<T>) {
    forall i, j | 0 <= i < j < |s| :: cmp(s[i], s[j]) <= 0
  }

  lemma Transitive<T>(cmp: (T, T) -> int, univ: set<T>, a: T, b: T, c: T)
    requires ConsistentOn(cmp, univ) && a in univ && b in univ && c in univ
    requires cmp(a, b) <= 0 && cmp(b, c) <= 0
    ensures cmp(a, c) <= 0
  {
  }

  /** The elements of `s` that `cmp` ties with `x`, in their order in `s`. */
  function Ties<T>(s: seq<T>, cmp: (T, T) -> int, x: T): (r: seq<T>)
    ensures forall y | y in r :: y in s && cmp(x, y) == 0
  {
    if s == [] then [] else (if cmp(x, s[0]) == 0 then [s[0]] else []) + Ties(s[1..], cmp, x)
  }

  /** Places `x` before the first element it does not come after. */
  function Insert<T>(x: T, t: seq<T>, cmp: (T, T) -> int): (r: seq<T>)
    ensures multiset(r) == multiset(t) + multiset{x}
  {
    if t == [] then [x]
    else if cmp(x, t[0]) <= 0 then [x] + t
    else
      assert t == [t[0]] + t[1..];
      [t[0]] + Insert(x, t[1..], cmp)
  }

  /** `s.sort(cmp)`: a permutation of `s`. */
  function Sort<T>(s: seq<T>, cmp: (T, T) -> int): (r: seq<T>)
    ensures multiset(r) == multiset(s)
  {
    if s == [] then []
    else
      assert s == [s[0]] + s[1..];
      Insert(s[0], Sort(s[1..], cmp), cmp)
  }

  /** A lower bound of `x` and of every element of `t` bounds every element of the insertion. */
  lemma {:induction false} InsertBounded<T>(p: T, x: T, t: seq<T>, cmp: (T, T) -> int)
    requires cmp(p, x) <= 0 && forall k | 0 <= k < |t| :: cmp(p, t[k]) <= 0
    ensures forall k | 0 <= k < |Insert(x, t, cmp)| :: cmp(p, Insert(x, t, cmp)[k]) <= 0
  {
    if t != [] && cmp(x, t[0]) > 0 {
      InsertBounded(p, x, t[1..], cmp);
    }
  }

  lemma {:induction false} InsertSorted<T>(x: T, t: seq<T>, cmp: (T, T) -> int, univ: set<T>)
    requires ConsistentOn(cmp, univ)
    requires x in univ && forall k | 0 <= k < |t| :: t[k] in univ
    requires SortedBy(cmp, t)
    ensures SortedBy(cmp, Insert(x, t, cmp))
  {
    if t == [] {
    } else if cmp(x, t[0]) <= 0 {
      forall k | 0 <= k < |t| ensures cmp(x, t[k]) <= 0 {
        if k > 0 {
          assert cmp(t[0], t[k]) <= 0;
        }
      }
    } else {
      var t' := t[1..];
      InsertSorted(x, t', cmp, univ);
      assert cmp(t[0], x) < 0;
      InsertBounded(t[0], x, t', cmp);
    }
  }

  lemma SortElements<T>(s: seq<T>, cmp: (T, T) -> int)
    ensures forall k | 0 <= k < |Sort(s, cmp)| :: Sort(s, cmp)[k] in s
  {
    var r := Sort(s, cmp);
    forall k | 0 <= k < |r| ensures r[k] in s {
      assert r[k] in multiset(r);
    }
  }

  /** Sorting with a consistent comparator yields a sorted sequence. */
  lemma {:induction false} SortSorted<T>(s: seq<T>, cmp: (T, T) -> int, univ: set<T>)
    requires ConsistentOn(cmp, univ)
    requires forall k | 0 <= k < |s| :: s[k] in univ
    ensures SortedBy(cmp, Sort(s, cmp))
  {
    if s != [] {
      SortSorted(s[1..], cmp, univ);
      SortElements(s[1..], cmp);
      InsertSorted(s[0], Sort(s[1..], cmp), cmp, univ);
    }
  }

  lemma {:induction false} TiesAppend<T>(a: seq<T>, b: seq<T>, cmp: (T, T) -> int, x: T)
    ensures Ties(a + b, cmp, x) == Ties(a, cmp, x) + Ties(b, cmp, x)
  {
    if a == [] {
      assert a + b == b;
    } else {
      assert (a + b)[1..] == a[1..] + b;
      TiesAppend(a[1..], b, cmp, x);
    }
  }

  /** Inserting `x` keeps, within each class of tied elements, `x` ahead of the rest. */
  lemma {:induction false} InsertTies<T>(x: T, t: seq<T>, cmp: (T, T) -> int, univ: set<T>, z: T)
    requires ConsistentOn(cmp, univ)
    requires x in univ && z in univ && forall k | 0 <= k < |t| :: t[k] in univ
    ensures Ties(Insert(x, t, cmp), cmp, z) == Ties([x] + t, cmp, z)
  {
    if t != [] && cmp(x, t[0]) > 0 {
      var t' := t[1..];
      var i' := Insert(x, t', cmp);
      assert Insert(x, t, cmp) == [t[0]] + i';
      InsertTies(x, t', cmp, univ, z);
      TiesCons(t[0], i', cmp, z);
      TiesCons(x, t', cmp, z);
      assert t[0] in univ;
      NotTiedAcross(cmp, univ, x, t[0], z);
      SwapUntied(t[0], x, t', cmp, z);
      assert t == [t[0]] + t';
    }
  }

  /** One step of `Ties`. */
  lemma TiesCons<T>(y: T, rest: seq<T>, cmp: (T, T) -> int, z: T)
    ensures Ties([y] + rest, cmp, z) == (if cmp(z, y) == 0 then [y] else []) + Ties(rest, cmp, z)
  {
    assert ([y] + rest)[1..] == rest;
  }

  /** Two neighbours that are not both tied with `z` can trade places without changing its ties. */
  lemma SwapUntied<T>(a: T, b: T, rest: seq<T>, cmp: (T, T) -> int, z: T)
    requires !(cmp(z, a) == 0 && cmp(z, b) == 0)
    ensures Ties([a] + ([b] + rest), cmp, z) == Ties([b] + ([a] + rest), cmp, z)
  {
    TiesCons(a, [b] + rest, cmp, z);
    TiesCons(b, rest, cmp, z);
    TiesCons(b, [a] + rest, cmp, z);
    TiesCons(a, rest, cmp, z);
  }

  /** Elements in strict order are never both tied with the same third element. */
  lemma NotTiedAcross<T>(cmp: (T, T) -> int, univ: set<T>, x: T, y: T, z: T)
    requires ConsistentOn(cmp, univ) && x in univ && y in univ && z in univ
    requires cmp(x, y) > 0
    ensures !(cmp(z, x) == 0 && cmp(z, y) == 0)
  {
    if cmp(z, x) == 0 && cmp(z, y) == 0 {
      Transitive(cmp, univ, x, z, y);
    }
  }

  /** Stability: tied elements leave the sort in the order they entered it. */
  lemma {:induction false} SortStable<T>(s: seq<T>, cmp: (T, T) -> int, univ: set<T>, z: T)
    requires ConsistentOn(cmp, univ)
    requires z in univ && forall k | 0 <= k < |s| :: s[k] in univ
    ensures Ties(Sort(s, cmp), cmp, z) == Ties(s, cmp, z)
  {
    if s != [] {
      var rest := Sort(s[1..], cmp);
      SortStable(s[1..], cmp, univ, z);
      SortElements(s[1..], cmp);
      InsertTies(s[0], rest, cmp, univ, z);
      TiesAppend([s[0]], rest, cmp, z);
      TiesAppend([s[0]], s[1..], cmp, z);
      assert s == [s[0]] + s[1..];
    }
  }

  /** A sequence that is already sorted is left as it is. */
  lemma {:induction false} SortOfSorted<T>(s: seq<T>, cmp: (T, T) -> int)
    requires SortedBy(cmp, s)
    ensures Sort(s, cmp) == s
  {
    if s != [] {
      SortOfSorted(s[1..], cmp);
      if |s| > 1 {
        assert cmp(s[0], s[1]) <= 0;
        assert s[1..][0] == s[1];
      }
      assert s == [s[0]] + s[1..];
    }
  }

  /** No two distinct values of `univ` are tied. */
  ghost predicate StrictOn<T>(cmp: (T, T) -> int, univ: set<T>) {
    forall u, v | u in univ && v in univ && cmp(u, v) == 0 :: u == v
  }

  /** The first element of a sorted sequence comes no later than any of its elements. */
  lemma HeadFirst<T>(a: seq<T>, cmp: (T, T) -> int, univ: set<T>, y: T)
    requires ConsistentOn(cmp, univ) && y in univ
    requires SortedBy(cmp, a) && y in a
    ensures cmp(a[0], y) <= 0
  {
    var j :| 0 <= j < |a| && a[j] == y;
    if j > 0 {
      assert cmp(a[0], a[j]) <= 0;
    } else {
      assert cmp(y, y) == 0;
    }
  }

  lemma MultisetTail<T>(a: seq<T>, b: seq<T>)
    requires a != [] && b != [] && a[0] == b[0] && multiset(a) == multiset(b)
    ensures multiset(a[1..]) == multiset(b[1..])
  {
    assert a == [a[0]] + a[1..] && b == [b[0]] + b[1..];
    assert multiset(a) == multiset{a[0]} + multiset(a[1..]);
    assert multiset(b) == multiset{a[0]} + multiset(b[1..]);
    assert multiset(a[1..]) == multiset(a) - multiset{a[0]};
    assert multiset(b[1..]) == multiset(b) - multiset{a[0]};
  }

  lemma SortedTail<T>(a: seq<T>, cmp: (T, T) -> int)
    requires SortedBy(cmp, a) && a != []
    ensures SortedBy(cmp, a[1..])
  {
    forall i, j | 0 <= i < j < |a| - 1 ensures cmp(a[1..][i], a[1..][j]) <= 0 {
      assert cmp(a[i + 1], a[j + 1]) <= 0;
    }
  }

  /** With no two distinct elements tied, a sorted arrangement of a multiset is unique. */
  lemma {:induction false} SortedUnique<T>(a: seq<T>, b: seq<T>, cmp: (T, T) -> int, univ: set<T>)
    requires ConsistentOn(cmp, univ) && StrictOn(cmp, univ)
    requires forall k | 0 <= k < |a| :: a[k] in univ
    requires multiset(a) == multiset(b)
    requires SortedBy(cmp, a) && SortedBy(cmp, b)
    ensures a == b
  {
    assert |a| == |multiset(a)| == |b|;
    if a != [] {
      var x, y := a[0], b[0];
      assert x in multiset(b) && y in multiset(a);
      assert x in univ && y in univ;
      HeadFirst(b, cmp, univ, x);
      HeadFirst(a, cmp, univ, y);
      assert cmp(x, y) == 0;
      assert x == y;
      var a', b' := a[1..], b[1..];
      MultisetTail(a, b);
      SortedTail(a, cmp);
      SortedTail(b, cmp);
      SortedUnique(a', b', cmp, univ);
    }
  }

  function Reverse<T>(s: seq<T>): (r: seq<T>)
    ensures |r| == |s| && forall i | 0 <= i < |s| :: r[i] == s[|s| - 1 - i]
  {
    seq(|s|, i requires 0 <= i < |s| => s[|s| - 1 - i])
  }

  lemma {:induction false} ReverseMultiset<T>(s: seq<T>)
    ensures multiset(Reverse(s)) == multiset(s)
  {
    if s != [] {
      var s' := s[1..];
      ReverseMultiset(s');
      assert Reverse(s) == Reverse(s') + [s[0]];
      assert s == [s[0]] + s';
    }
  }
}
