/**
 * The URL query of the country page as src/components/common/FilterBar.tsx
 * edits it, and as src/pages/Country.tsx reads it back.
 *
 * The query is a map from names to values with the `set` and `delete`
 * operations of URLSearchParams (section 6.2 of the WHATWG URL Standard),
 * restricted to queries that hold each name at most once.
 */
module FilterBar {
  import opened Wrappers
  import opened JsText
  import opened Committers

  type Params = map<string, string>

  /** `params.get(name)`: None for a missing name (JavaScript's null). */
  function Get(p: Params, name: string): (r: Option<string>)
    ensures r.Some? <==> name in p
  {
    if name in p then Some(p[name]) else None
  }

  /** `params.set(name, value)`. */
  function SetParam(p: Params, name: string, value: string): (r: Params)
    ensures Get(r, name) == Some(value)
    ensures forall other | other != name :: Get(r, other) == Get(p, other)
  {
    p[name := value]
  }

  /** `params.delete(name)`. */
  function DeleteParam(p: Params, name: string): (r: Params)
    ensures Get(r, name) == None
    ensures forall other | other != name :: Get(r, other) == Get(p, other)
  {
    p - {name}
  }

  /** The debounced search commit: the trimmed input, or no "search" at all when it trims to nothing. */
  function SearchCommit(p: Params, input: string): (r: Params)
    ensures AllWhitespace(input) <==> Get(r, "search") == None
    ensures !AllWhitespace(input) ==> Get(r, "search") == Some(Trim(input))
    ensures forall other | other != "search" :: Get(r, other) == Get(p, other)
  {
    var t := Trim(input);
    if t != "" then SetParam(p, "search", t) else DeleteParam(p, "search")
  }

  /** `onModeChange`: the default mode is written by removing "mode". */
  function ModeChange(p: Params, m: Mode): (r: Params)
    ensures m == Commits <==> Get(r, "mode") == None
    ensures m != Commits ==> Get(r, "mode") == Some(ModeName(m))
    ensures forall other | other != "mode" :: Get(r, other) == Get(p, other)
  {
    if m == Commits then DeleteParam(p, "mode") else SetParam(p, "mode", ModeName(m))
  }

  /** Choosing a sort option writes it to "sort". */
  function SortChange(p: Params, sortBy: string): (r: Params)
    ensures Get(r, "sort") == Some(sortBy)
    ensures forall other | other != "sort" :: Get(r, other) == Get(p, other)
  {
    SetParam(p, "sort", sortBy)
  }

  /** `get(name) || fallback`: a missing or empty value reads as the fallback. */
  function GetOrDefault(p: Params, name: string, fallback: string): (r: string)
    ensures r == fallback || (Get(p, name) == Some(r) && r != "")
    ensures Get(p, name).Some? && Get(p, name).value != "" ==> r == Get(p, name).value
    ensures Get(p, name).None? || Get(p, name).value == "" ==> r == fallback
  {
    match Get(p, name)
    case Some(v) => if v != "" then v else fallback
    case None => fallback
  }

  /** The mode name the page starts with. */
  function ReadMode(p: Params): string {
    GetOrDefault(p, "mode", "commits")
  }

  /** The sort option the page starts with. */
  function ReadSort(p: Params): string {
    GetOrDefault(p, "sort", "commits-desc")
  }

  /** The search text the page filters by. */
  function ReadSearch(p: Params): string {
    GetOrDefault(p, "search", "")
  }

  /** A committed search is read back as the trimmed input; the other settings are not disturbed. */
  lemma SearchRoundTrip(p: Params, input: string)
    ensures ReadSearch(SearchCommit(p, input)) == Trim(input)
    ensures ReadMode(SearchCommit(p, input)) == ReadMode(p)
    ensures ReadSort(SearchCommit(p, input)) == ReadSort(p)
  {
    var q := SearchCommit(p, input);
    assert Get(q, "search") == (if Trim(input) == "" then None else Some(Trim(input)));
    SearchReadBack(p, q, Trim(input));
  }

  /** A query whose "search" holds `t` (absent for "") and whose other names are those of `p`
      reads back as `t`, with the mode and sort of `p`. */
  lemma SearchReadBack(p: Params, q: Params, t: string)
    requires Get(q, "search") == (if t == "" then None else Some(t))
    requires forall other | other != "search" :: Get(q, other) == Get(p, other)
    ensures ReadSearch(q) == t
    ensures ReadMode(q) == ReadMode(p)
    ensures ReadSort(q) == ReadSort(p)
  {
    assert "mode" != "search" && "sort" != "search";
    assert Get(q, "mode") == Get(p, "mode") && Get(q, "sort") == Get(p, "sort");
  }

  /** Whatever mode is chosen, the page reads that mode back, even though "commits" is not written. */
  lemma ModeRoundTrip(p: Params, m: Mode)
    ensures ParseMode(ReadMode(ModeChange(p, m))) == Some(m)
    ensures ReadSearch(ModeChange(p, m)) == ReadSearch(p)
    ensures ReadSort(ModeChange(p, m)) == ReadSort(p)
  {
    ParseModeName(m);
  }

  /** A chosen sort option is read back as chosen. */
  lemma SortRoundTrip(p: Params, sortBy: string)
    requires sortBy != ""
    ensures ReadSort(SortChange(p, sortBy)) == sortBy
    ensures ReadSearch(SortChange(p, sortBy)) == ReadSearch(p)
    ensures ReadMode(SortChange(p, sortBy)) == ReadMode(p)
  {
  }

  /** The effect that follows the URL: a present sort that differs from the current one replaces it. */
  function SyncSort(urlSort: Option<string>, sortBy: string): (r: string)
    ensures urlSort.None? || urlSort.value == "" ==> r == sortBy
    ensures urlSort.Some? && urlSort.value != "" ==> r == urlSort.value
  {
    if urlSort.Some? && urlSort.value != "" && urlSort.value != sortBy then urlSort.value else sortBy
  }

  /** After one sync the sort agrees with the URL, so a second sync changes nothing. */
  lemma SyncSortIdempotent(urlSort: Option<string>, sortBy: string)
    ensures SyncSort(urlSort, SyncSort(urlSort, sortBy)) == SyncSort(urlSort, sortBy)
  {
  }

  /** The search box's clear button empties the input, which then commits as no search. */
  lemma ClearSearchCommits(p: Params)
    ensures Get(SearchCommit(p, ""), "search") == None
    ensures ReadSearch(SearchCommit(p, "")) == ""
  {
  }

  /** How `await refetch()` ended: thrown, or a result object with or without "error" and "data" keys. */
  datatype RefetchOutcome = Threw | Returned(hasError: bool, hasData: bool)

  datatype Toast = ErrorToast | SuccessToast | InfoToast

  /** `handleRefetch`: the notice shown after a manual refresh. */
  function RefetchToast(o: RefetchOutcome): (t: Toast)
    ensures t == ErrorToast <==> o.Threw? || o.hasError
    ensures t == SuccessToast <==> o.Returned? && !o.hasError && o.hasData
    ensures t == InfoToast <==> o.Returned? && !o.hasError && !o.hasData
  {
    match o
    case Threw => ErrorToast
    case Returned(hasError, hasData) =>
      if hasError then ErrorToast else if hasData then SuccessToast else InfoToast
  }
}
