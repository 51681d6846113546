/**
 * The ranking view of the country page (src/pages/Country.tsx): the
 * case-insensitive username search, the four sort orders over the snapshot's
 * committers, and the page-by-page reveal of the sorted list.
 *
 * `String.prototype.localeCompare` depends on the host's collation tables and
 * is a parameter, `collate`; it is assumed to be a total preorder only in the
 * lemmas that need one.
 */
module Ranking {
  import opened JsText
  import opened JsNumber
  import opened Sorting
  import opened Committers
  import opened Lists

  /** The lowercased username contains the lowercased search text, which is not trimmed. */
  predicate Matches(c: Committer, search: string) {
    Includes(ToLower(c.username), ToLower(search))
  }

  /** The search as a predicate on records. */
  function Matcher(search: string): Committer -> bool {
    c => Matches(c, search)
  }

  /** `users.filter(u => Matches(u, search))`. */
  function Keep(users: seq<Committer>, search: string): (r: seq<Committer>)
    ensures |r| <= |users|
    ensures forall k | 0 <= k < |r| :: r[k] in users && Matches(r[k], search)
  {
    Filter(Matcher(search), users)
  }

  /** Filtering keeps every copy of a matching record and no copy of any other. */
  lemma KeepCount(users: seq<Committer>, search: string, c: Committer)
    ensures multiset(Keep(users, search))[c] == if Matches(c, search) then multiset(users)[c] else 0
  {
    FilterCount(Matcher(search), users, c);
  }

  /** Filtering works record by record: it distributes over concatenation. */
  lemma KeepAppend(a: seq<Committer>, b: seq<Committer>, search: string)
    ensures Keep(a + b, search) == Keep(a, search) + Keep(b, search)
  {
    FilterAppend(Matcher(search), a, b);
  }

  /** A list whose every record matches is kept whole, in its order. */
  lemma KeepAll(users: seq<Committer>, search: string)
    requires forall k | 0 <= k < |users| :: Matches(users[k], search)
    ensures Keep(users, search) == users
  {
    FilterAll(Matcher(search), users);
  }

  lemma KeepMembers(users: seq<Committer>, search: string)
    ensures forall c :: c in Keep(users, search) <==> c in users && Matches(c, search)
  {
    FilterMembers(Matcher(search), users);
  }

  /** The search step: a search text that trims to nothing filters nothing out;
      otherwise exactly the matching records stay. */
  function FilterUsers(users: seq<Committer>, search: string): (r: seq<Committer>)
    ensures AllWhitespace(search) ==> r == users
    ensures !AllWhitespace(search) ==> r == Keep(users, search)
    ensures forall c :: c in r <==> c in users && (AllWhitespace(search) || Matches(c, search))
  {
    KeepMembers(users, search);
    if Trim(search) == [] then users else Keep(users, search)
  }

  /** `b.commits - a.commits` as the sort reads it. */
  function ByCommitsDesc(a: Committer, b: Committer): int {
    CompareResult(Minus(b.commits, a.commits))
  }

  /** `a.commits - b.commits` as the sort reads it. */
  function ByCommitsAsc(a: Committer, b: Committer): int {
    CompareResult(Minus(a.commits, b.commits))
  }

  /** The comparator of a sort option; "commits-desc" and every unknown option share the default. */
  function ComparatorFor(sortBy: string, collate: (string, string) -> int): (Committer, Committer) -> int {
    if sortBy == "alphabetical-asc" then (a: Committer, b: Committer) => collate(a.username, b.username)
    else if sortBy == "alphabetical-desc" then (a: Committer, b: Committer) => collate(b.username, a.username)
    else if sortBy == "commits-asc" then ByCommitsAsc
    else ByCommitsDesc
  }

  /** `sortedAndFilteredUsers`: the search result, rearranged by the chosen order. */
  function SortedAndFiltered(users: seq<Committer>, search: string, sortBy: string,
                             collate: (string, string) -> int): (r: seq<Committer>)
    ensures multiset(r) == multiset(FilterUsers(users, search))
    ensures forall c :: c in r <==> c in users && (AllWhitespace(search) || Matches(c, search))
  {
    var filtered := FilterUsers(users, search);
    var r := Sort(filtered, ComparatorFor(sortBy, collate));
    assert forall c :: c in r <==> c in multiset(filtered);
    r
  }

  /** The records of `users`, as a set. */
  ghost function Members(users: seq<Committer>): set<Committer> {
    set c | c in users
  }

  ghost function Usernames(users: seq<Committer>): set<string> {
    set c | c in users :: c.username
  }

  /** Every commit count of `users` is a number (no NaN). */
  ghost predicate CountsNumeric(users: seq<Committer>) {
    forall k | 0 <= k < |users| :: users[k].commits.Int?
  }

  lemma CommitsConsistent(users: seq<Committer>)
    requires CountsNumeric(users)
    ensures ConsistentOn(ByCommitsDesc, Members(users))
    ensures ConsistentOn(ByCommitsAsc, Members(users))
  {
    forall c | c in Members(users) ensures c.commits.Int? {
      var k :| 0 <= k < |users| && users[k] == c;
    }
  }

  /** The sort works on the records of `users` only. */
  lemma SortedFromMembers(users: seq<Committer>, search: string)
    ensures forall k | 0 <= k < |FilterUsers(users, search)| :: FilterUsers(users, search)[k] in Members(users)
  {
  }

  /** A comparator that is consistent on `users` orders the result and keeps ties in search order. */
  lemma {:induction false} SortedAndFilteredOrdered(users: seq<Committer>, search: string, sortBy: string,
                                                     collate: (string, string) -> int)
    requires ConsistentOn(ComparatorFor(sortBy, collate), Members(users))
    ensures SortedBy(ComparatorFor(sortBy, collate), SortedAndFiltered(users, search, sortBy, collate))
    ensures forall z | z in users ::
      Ties(SortedAndFiltered(users, search, sortBy, collate), ComparatorFor(sortBy, collate), z)
        == Ties(FilterUsers(users, search), ComparatorFor(sortBy, collate), z)
  {
    var cmp := ComparatorFor(sortBy, collate);
    var filtered := FilterUsers(users, search);
    SortedFromMembers(users, search);
    SortSorted(filtered, cmp, Members(users));
    forall z | z in users
      ensures Ties(SortedAndFiltered(users, search, sortBy, collate), cmp, z) == Ties(filtered, cmp, z)
    {
      SortStable(filtered, cmp, Members(users), z);
    }
  }

  /** "commits-desc", and any option the page does not know: commit counts never increase down the list. */
  lemma CommitsDescOrder(users: seq<Committer>, search: string, sortBy: string, collate: (string, string) -> int)
    requires sortBy != "alphabetical-asc" && sortBy != "alphabetical-desc" && sortBy != "commits-asc"
    requires CountsNumeric(users)
    ensures var r := SortedAndFiltered(users, search, sortBy, collate);
      forall i, j | 0 <= i < j < |r| :: r[i].commits.Int? && r[j].commits.Int? && r[i].commits.value >= r[j].commits.value
  {
    var r := SortedAndFiltered(users, search, sortBy, collate);
    CommitsConsistent(users);
    SortedAndFilteredOrdered(users, search, sortBy, collate);
    assert ComparatorFor(sortBy, collate) == ByCommitsDesc;
    DescendingCounts(users, r);
  }

  /** A list of records of `users` in `ByCommitsDesc` order has non-increasing numeric counts. */
  lemma DescendingCounts(users: seq<Committer>, r: seq<Committer>)
    requires CountsNumeric(users)
    requires forall k | 0 <= k < |r| :: r[k] in users
    requires SortedBy(ByCommitsDesc, r)
    ensures forall i, j | 0 <= i < j < |r| :: r[i].commits.Int? && r[j].commits.Int? && r[i].commits.value >= r[j].commits.value
  {
    forall i, j | 0 <= i < j < |r|
      ensures r[i].commits.Int? && r[j].commits.Int? && r[i].commits.value >= r[j].commits.value
    {
      var a :| 0 <= a < |users| && users[a] == r[i];
      var b :| 0 <= b < |users| && users[b] == r[j];
      assert ByCommitsDesc(r[i], r[j]) <= 0;
    }
  }

  /** "commits-asc": commit counts never decrease down the list. */
  lemma CommitsAscOrder(users: seq<Committer>, search: string, collate: (string, string) -> int)
    requires CountsNumeric(users)
    ensures var r := SortedAndFiltered(users, search, "commits-asc", collate);
      forall i, j | 0 <= i < j < |r| :: r[i].commits.Int? && r[j].commits.Int? && r[i].commits.value <= r[j].commits.value
  {
    var r := SortedAndFiltered(users, search, "commits-asc", collate);
    CommitsConsistent(users);
    CommitComparators(collate);
    SortedAndFilteredOrdered(users, search, "commits-asc", collate);
    assert SortedBy(ByCommitsAsc, r);
    forall k | 0 <= k < |r| ensures r[k] in users {
      assert r[k] in r;
    }
    AscendingCounts(users, r);
  }

  /** The two commit orders, as the sort options name them. */
  lemma CommitComparators(collate: (string, string) -> int)
    ensures ComparatorFor("commits-asc", collate) == ByCommitsAsc
    ensures ComparatorFor("commits-desc", collate) == ByCommitsDesc
  {
    assert |"commits-asc"| == 11 && |"commits-desc"| == 12;
    assert |"alphabetical-asc"| == 16 && |"alphabetical-desc"| == 17;
  }

  /** A list of records of `users` in `ByCommitsAsc` order has non-decreasing numeric counts. */
  lemma AscendingCounts(users: seq<Committer>, r: seq<Committer>)
    requires CountsNumeric(users)
    requires forall k | 0 <= k < |r| :: r[k] in users
    requires SortedBy(ByCommitsAsc, r)
    ensures forall i, j | 0 <= i < j < |r| :: r[i].commits.Int? && r[j].commits.Int? && r[i].commits.value <= r[j].commits.value
  {
    forall i, j | 0 <= i < j < |r|
      ensures r[i].commits.Int? && r[j].commits.Int? && r[i].commits.value <= r[j].commits.value
    {
      var a :| 0 <= a < |users| && users[a] == r[i];
      var b :| 0 <= b < |users| && users[b] == r[j];
      assert ByCommitsAsc(r[i], r[j]) <= 0;
    }
  }

  lemma NamesConsistent(users: seq<Committer>, collate: (string, string) -> int)
    requires ConsistentOn(collate, Usernames(users))
    ensures ConsistentOn(ComparatorFor("alphabetical-asc", collate), Members(users))
    ensures ConsistentOn(ComparatorFor("alphabetical-desc", collate), Members(users))
  {
    forall c | c in Members(users) ensures c.username in Usernames(users) {
    }
  }

  /** "alphabetical-asc": each username comes no later, by `collate`, than the ones below it. */
  lemma AlphabeticalAscOrder(users: seq<Committer>, search: string, collate: (string, string) -> int)
    requires ConsistentOn(collate, Usernames(users))
    ensures var r := SortedAndFiltered(users, search, "alphabetical-asc", collate);
      forall i, j | 0 <= i < j < |r| :: collate(r[i].username, r[j].username) <= 0
  {
    NamesConsistent(users, collate);
    SortedAndFilteredOrdered(users, search, "alphabetical-asc", collate);
  }

  /** "alphabetical-desc": the mirror comparator, so each username comes no earlier than the ones below it. */
  lemma AlphabeticalDescOrder(users: seq<Committer>, search: string, collate: (string, string) -> int)
    requires ConsistentOn(collate, Usernames(users))
    ensures var r := SortedAndFiltered(users, search, "alphabetical-desc", collate);
      forall i, j | 0 <= i < j < |r| :: collate(r[j].username, r[i].username) <= 0
  {
    NamesConsistent(users, collate);
    SortedAndFilteredOrdered(users, search, "alphabetical-desc", collate);
  }

  /** Sorting the shown list again with the same search and order changes nothing. */
  lemma SortedAndFilteredIdempotent(users: seq<Committer>, search: string, sortBy: string,
                                    collate: (string, string) -> int)
    requires ConsistentOn(ComparatorFor(sortBy, collate), Members(users))
    ensures var r := SortedAndFiltered(users, search, sortBy, collate);
      SortedAndFiltered(r, search, sortBy, collate) == r
  {
    var r := SortedAndFiltered(users, search, sortBy, collate);
    SortedAndFilteredOrdered(users, search, sortBy, collate);
    if !AllWhitespace(search) {
      KeepAll(r, search);
    }
    assert FilterUsers(r, search) == r;
    SortOfSorted(r, ComparatorFor(sortBy, collate));
  }

  /** With pairwise different commit counts, "commits-desc" lists exactly the reverse of "commits-asc". */
  lemma {:induction false} CommitsDescReversesAsc(users: seq<Committer>, search: string, collate: (string, string) -> int)
    requires CountsNumeric(users)
    requires forall u, v | u in users && v in users && u.commits == v.commits :: u == v
    ensures SortedAndFiltered(users, search, "commits-desc", collate)
         == Reverse(SortedAndFiltered(users, search, "commits-asc", collate))
  {
    var a := SortedAndFiltered(users, search, "commits-desc", collate);
    var asc := SortedAndFiltered(users, search, "commits-asc", collate);
    CommitsConsistent(users);
    CommitComparators(collate);
    SortedAndFilteredOrdered(users, search, "commits-asc", collate);
    SortedAndFilteredOrdered(users, search, "commits-desc", collate);
    assert SortedBy(ByCommitsAsc, asc) && SortedBy(ByCommitsDesc, a);
    assert multiset(a) == multiset(asc);
    forall k | 0 <= k < |a| ensures a[k] in users {
      assert a[k] in a;
    }
    forall k | 0 <= k < |asc| ensures asc[k] in users {
      assert asc[k] in asc;
    }
    DescIsReversedAsc(users, a, asc);
  }

  /** Two arrangements of the same records of `users`, one descending and one ascending by
      pairwise different commit counts, are each other's reverse. */
  lemma DescIsReversedAsc(users: seq<Committer>, a: seq<Committer>, asc: seq<Committer>)
    requires CountsNumeric(users)
    requires forall u, v | u in users && v in users && u.commits == v.commits :: u == v
    requires forall k | 0 <= k < |a| :: a[k] in users
    requires forall k | 0 <= k < |asc| :: asc[k] in users
    requires multiset(a) == multiset(asc)
    requires SortedBy(ByCommitsDesc, a) && SortedBy(ByCommitsAsc, asc)
    ensures a == Reverse(asc)
  {
    var univ := Members(users);
    CommitsConsistent(users);
    ReverseAscIsDesc(users, asc);
    ReverseMultiset(asc);
    CommitsStrict(users);
    forall k | 0 <= k < |a| ensures a[k] in univ {
      assert a[k] in users;
    }
    SortedUnique(a, Reverse(asc), ByCommitsDesc, univ);
  }

  /** Read backwards, a list in ascending commit order is in descending commit order. */
  lemma ReverseAscIsDesc(users: seq<Committer>, asc: seq<Committer>)
    requires CountsNumeric(users)
    requires forall k | 0 <= k < |asc| :: asc[k] in users
    requires SortedBy(ByCommitsAsc, asc)
    ensures SortedBy(ByCommitsDesc, Reverse(asc))
  {
    var b := Reverse(asc);
    var n := |asc|;
    forall i, j | 0 <= i < j < |b| ensures ByCommitsDesc(b[i], b[j]) <= 0 {
      assert b[i] == asc[n - 1 - i] && b[j] == asc[n - 1 - j];
      assert ByCommitsAsc(asc[n - 1 - j], asc[n - 1 - i]) <= 0;
      assert asc[n - 1 - i] in users && asc[n - 1 - j] in users;
    }
  }

  /** Pairwise different commit counts leave no two records tied. */
  lemma CommitsStrict(users: seq<Committer>)
    requires CountsNumeric(users)
    requires forall u, v | u in users && v in users && u.commits == v.commits :: u == v
    ensures StrictOn(ByCommitsDesc, Members(users))
  {
    forall u, v | u in Members(users) && v in Members(users) && ByCommitsDesc(u, v) == 0 ensures u == v {
      assert u in users && v in users;
    }
  }

  /** Records revealed per page and the initial `visibleCount`. */
  const PageSize: nat := 20

  /** `sorted.slice(0, count)`: the first `count` records, or all of them. */
  function Visible<T>(sorted: seq<T>, count: nat): (r: seq<T>)
    ensures |r| == if count < |sorted| then count else |sorted|
    ensures r == sorted[..|r|]
  {
    if count < |sorted| then sorted[..count] else sorted
  }

  /** `hasMoreUsers`: some records are not yet shown. */
  predicate HasMore(count: nat, n: nat) {
    count < n
  }

  /** The whole list is shown exactly when nothing more is there to load. */
  lemma VisibleAllIffNoMore<T>(sorted: seq<T>, count: nat)
    ensures Visible(sorted, count) == sorted <==> !HasMore(count, |sorted|)
  {
  }

  /** `handleLoadMore`: one more page, unless a fetch is running or everything is shown. */
  function LoadMore(count: nat, isFetching: bool, n: nat): (r: nat)
    ensures r == count || r == count + PageSize
    ensures r != count <==> !isFetching && HasMore(count, n)
    ensures r == count || r < n + PageSize
  {
    if !isFetching && HasMore(count, n) then count + PageSize else count
  }

  /** Loading more keeps what was shown and shows up to one page more after it. */
  lemma LoadMoreExtends<T>(sorted: seq<T>, count: nat, isFetching: bool)
    ensures var before := Visible(sorted, count);
      var after := Visible(sorted, LoadMore(count, isFetching, |sorted|));
      && before == after[..|before|]
      && (!isFetching && HasMore(count, |sorted|) ==> |before| < |after| <= |before| + PageSize)
      && (isFetching || !HasMore(count, |sorted|) ==> after == before)
  {
  }

  /** What resets the page count: the ranking mode name, the search text and the sort option,
      each as the page read it. */
  datatype Settings = Settings(mode: string, search: string, sortBy: string)

  datatype Page = Page(settings: Settings, count: nat)

  /** A scroll to the end of the page while the list has `n` records, or new settings. */
  datatype Event = ScrolledToEnd(isFetching: bool, n: nat) | Changed(settings: Settings)

  function Initial(s: Settings): (p: Page)
    ensures p.count == PageSize
  {
    Page(s, PageSize)
  }

  /** One event: a scroll loads more; a change of any setting returns the count to one page. */
  function Step(p: Page, e: Event): (r: Page)
    ensures e.Changed? ==> r.settings == e.settings
    ensures e.Changed? && e.settings != p.settings ==> r.count == PageSize
    ensures e.Changed? && e.settings == p.settings ==> r == p
    ensures e.ScrolledToEnd? ==> r.settings == p.settings && r.count == LoadMore(p.count, e.isFetching, e.n)
  {
    match e
    case ScrolledToEnd(fetching, n) => p.(count := LoadMore(p.count, fetching, n))
    case Changed(s) => if s == p.settings then p else Page(s, PageSize)
  }

  function Run(p: Page, events: seq<Event>): Page
    decreases |events|
  {
    if events == [] then p else Run(Step(p, events[0]), events[1..])
  }

  /** The count is always a whole, non-zero number of pages. */
  ghost predicate WholePages(p: Page) {
    p.count >= PageSize && p.count % PageSize == 0
  }

  lemma {:induction false} RunWholePages(p: Page, events: seq<Event>)
    requires WholePages(p)
    ensures WholePages(Run(p, events))
    decreases |events|
  {
    if events != [] {
      RunWholePages(Step(p, events[0]), events[1..]);
    }
  }
}
