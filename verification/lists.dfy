/**
 * Mapping a partial function over a list and keeping the defined results:
 * the shape of every scraper in the application, which turns matched
 * elements into records and skips the ones it cannot use.
 */
module Lists {
  import opened Wrappers

  /** The results `f` gives, in the order of their arguments. */
  function FilterMap<A, B>(f: A -> Option<B>, s: seq<A>): (r: seq<B>)
    ensures |r| <= |s|
  {
    if s == [] then [] else Defined(f(s[0])) + FilterMap(f, s[1..])
  }

  /** An optional value as a list of zero or one. */
  function Defined<B>(o: Option<B>): (r: seq<B>)
    ensures |r| <= 1
    ensures o.Some? ==> r == [o.value]
    ensures o.None? ==> r == []
  {
    if o.Some? then [o.value] else []
  }

  /** Element `k` of `s` gives `b`. */
  ghost predicate GivesAt<A, B>(f: A -> Option<B>, s: seq<A>, k: int, b: B) {
    0 <= k < |s| && f(s[k]) == Some(b)
  }

  lemma {:induction false} FilterMapAppend<A, B>(f: A -> Option<B>, a: seq<A>, b: seq<A>)
    ensures FilterMap(f, a + b) == FilterMap(f, a) + FilterMap(f, b)
  {
    if a == [] {
      assert a + b == b;
    } else {
      assert (a + b)[0] == a[0];
      assert (a + b)[1..] == a[1..] + b;
      FilterMapAppend(f, a[1..], b);
    }
  }

  /** Every result comes from some element. */
  lemma {:induction false} FilterMapSound<A, B>(f: A -> Option<B>, s: seq<A>, b: B)
    requires b in FilterMap(f, s)
    ensures exists k :: GivesAt(f, s, k, b)
  {
    if f(s[0]) == Some(b) {
      assert GivesAt(f, s, 0, b);
    } else {
      assert b in FilterMap(f, s[1..]);
      FilterMapSound(f, s[1..], b);
      var k :| GivesAt(f, s[1..], k, b);
      assert s[1..][k] == s[k + 1];
      assert GivesAt(f, s, k + 1, b);
    }
  }

  /** Every element that gives a result contributes it. */
  lemma {:induction false} FilterMapComplete<A, B>(f: A -> Option<B>, s: seq<A>, k: int, b: B)
    requires GivesAt(f, s, k, b)
    ensures b in FilterMap(f, s)
  {
    if k > 0 {
      assert s[1..][k - 1] == s[k];
      FilterMapComplete(f, s[1..], k - 1, b);
    }
  }

  /** A property of every defined result holds of the whole output. */
  lemma {:induction false} FilterMapAll<A, B>(f: A -> Option<B>, s: seq<A>, p: B -> bool)
    requires forall a | f(a).Some? :: p(f(a).value)
    ensures forall k | 0 <= k < |FilterMap(f, s)| :: p(FilterMap(f, s)[k])
  {
    if s != [] {
      FilterMapAll(f, s[1..], p);
      var r := FilterMap(f, s);
      var head := Defined(f(s[0]));
      forall k | 0 <= k < |r| ensures p(r[k]) {
        if k < |head| {
          assert r[k] == f(s[0]).value;
        } else {
          assert r[k] == FilterMap(f, s[1..])[k - |head|];
        }
      }
    }
  }

  /** `s.filter(p)`: the elements of `s` that satisfy `p`, in their order. */
  function Filter<A>(p: A -> bool, s: seq<A>): (r: seq<A>)
    ensures |r| <= |s|
    ensures forall k | 0 <= k < |r| :: r[k] in s && p(r[k])
  {
    if s == [] then [] else Kept(p, s[0]) + Filter(p, s[1..])
  }

  /** `[a]` when `a` satisfies `p`, otherwise nothing. */
  function Kept<A>(p: A -> bool, a: A): (r: seq<A>)
    ensures p(a) ==> r == [a]
    ensures !p(a) ==> r == []
  {
    if p(a) then [a] else []
  }

  /** Copies of `x` in a concatenation are the copies in each part. */
  lemma CountAppend<A>(a: seq<A>, b: seq<A>, x: A)
    ensures multiset(a + b)[x] == multiset(a)[x] + multiset(b)[x]
  {
    assert multiset(a + b) == multiset(a) + multiset(b);
  }

  /** Filtering keeps every copy of an element that satisfies `p` and no copy of any other. */
  lemma {:induction false} FilterCount<A>(p: A -> bool, s: seq<A>, x: A)
    ensures multiset(Filter(p, s))[x] == if p(x) then multiset(s)[x] else 0
  {
    if s != [] {
      FilterCount(p, s[1..], x);
      CountAppend([s[0]], s[1..], x);
      CountAppend(Kept(p, s[0]), Filter(p, s[1..]), x);
      assert [s[0]] + s[1..] == s;
    }
  }

  /** An element is kept exactly when it is in `s` and satisfies `p`. */
  lemma FilterMembers<A>(p: A -> bool, s: seq<A>)
    ensures forall x :: x in Filter(p, s) <==> x in s && p(x)
  {
    forall x ensures x in Filter(p, s) <==> x in s && p(x) {
      FilterCount(p, s, x);
      assert x in Filter(p, s) <==> multiset(Filter(p, s))[x] > 0;
      assert x in s <==> multiset(s)[x] > 0;
    }
  }

  /** Filtering works element by element: it distributes over concatenation. */
  lemma {:induction false} FilterAppend<A>(p: A -> bool, a: seq<A>, b: seq<A>)
    ensures Filter(p, a + b) == Filter(p, a) + Filter(p, b)
  {
    if a == [] {
      assert a + b == b;
    } else {
      assert (a + b)[0] == a[0];
      assert (a + b)[1..] == a[1..] + b;
      FilterAppend(p, a[1..], b);
    }
  }

  /** A list whose every element satisfies `p` is kept whole, in its order. */
  lemma {:induction false} FilterAll<A>(p: A -> bool, s: seq<A>)
    requires forall k | 0 <= k < |s| :: p(s[k])
    ensures Filter(p, s) == s
  {
    if s != [] {
      FilterAll(p, s[1..]);
      assert [s[0]] + s[1..] == s;
    }
  }
}
