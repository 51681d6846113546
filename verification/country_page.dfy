/**
 * The rest of src/pages/Country.tsx: the title built from the slug, the
 * "generated at" line, how the page reads its settings from the URL query,
 * and how a scroll near the end of the page reveals the next page of users.
 */
module CountryPage {
  import opened JsText
  import opened Ranking
  import opened FilterBar
  import opened InfiniteScroll

  /** `word.charAt(0).toUpperCase() + word.slice(1)`. */
  function Capitalize(w: string): (r: string)
    ensures |r| == |w|
    ensures w != [] ==> r[0] == UpperChar(w[0]) && r[1..] == w[1..]
  {
    if w == [] then [] else [UpperChar(w[0])] + w[1..]
  }

  function CapitalizeAll(words: seq<string>): (r: seq<string>)
    ensures |r| == |words| && forall k | 0 <= k < |words| :: r[k] == Capitalize(words[k])
  {
    seq(|words|, k requires 0 <= k < |words| => Capitalize(words[k]))
  }

  /** `formattedCountryName`: split on "-", capitalise each word, join with spaces. */
  function FormatCountryName(slug: string): string {
    Join(CapitalizeAll(Split(slug, '-')), ' ')
  }

  /** The character the title shows at position `i` of the slug: a hyphen becomes a space,
      and a letter that starts a word is upper-cased. */
  function TitleChar(slug: string, i: nat): char
    requires i < |slug|
  {
    if slug[i] == '-' then ' '
    else if i == 0 || slug[i - 1] == '-' then UpperChar(slug[i])
    else slug[i]
  }

  /** The title, character by character: same length as the slug, hyphens turned into
      spaces, and the first letter of each word upper-cased. */
  lemma {:induction false} FormatCountryNamePointwise(slug: string)
    ensures |FormatCountryName(slug)| == |slug|
    ensures forall i | 0 <= i < |slug| :: FormatCountryName(slug)[i] == TitleChar(slug, i)
    decreases |slug|
  {
    var r := FormatCountryName(slug);
    if '-' !in slug {
      FormatSingleWord(slug);
      forall i | 0 <= i < |slug| ensures r[i] == TitleChar(slug, i) {
        WordChar(slug, slug, i);
      }
    } else {
      var k := IndexOf(slug, '-');
      var rest := slug[k + 1..];
      FormatAtHyphen(slug);
      FormatCountryNamePointwise(rest);
      forall i | 0 <= i < |slug| ensures r[i] == TitleChar(slug, i) {
        if i < k {
          WordChar(slug[..k], slug, i);
        } else if i > k {
          RestChar(slug, k, i);
        }
      }
    }
  }

  lemma FormatSingleWord(slug: string)
    requires '-' !in slug
    ensures FormatCountryName(slug) == Capitalize(slug)
  {
    SplitAtFirst(slug, '-');
    assert CapitalizeAll([slug]) == [Capitalize(slug)];
  }

  lemma FormatAtHyphen(slug: string)
    requires '-' in slug
    ensures FormatCountryName(slug)
         == Capitalize(slug[..IndexOf(slug, '-')]) + [' '] + FormatCountryName(slug[IndexOf(slug, '-') + 1..])
  {
    var k := IndexOf(slug, '-');
    var w, rest := slug[..k], slug[k + 1..];
    SplitAtFirst(slug, '-');
    var tail := CapitalizeAll(Split(rest, '-'));
    assert CapitalizeAll(Split(slug, '-')) == [Capitalize(w)] + tail;
    assert ([Capitalize(w)] + tail)[1..] == tail;
  }

  /** Inside the first word of the slug, the title shows the capitalised word. */
  lemma WordChar(w: string, slug: string, i: nat)
    requires |w| <= |slug| && w == slug[..|w|] && '-' !in w && i < |w|
    ensures Capitalize(w)[i] == TitleChar(slug, i)
  {
    assert slug[i] == w[i] && w[i] != '-';
    if i > 0 {
      assert Capitalize(w)[i] == Capitalize(w)[1..][i - 1] == w[1..][i - 1];
      assert slug[i - 1] == w[i - 1] && w[i - 1] != '-';
    }
  }

  /** After the first hyphen, the title character is the one the rest of the slug gives. */
  lemma RestChar(slug: string, k: nat, i: nat)
    requires k < i < |slug| && slug[k] == '-'
    ensures TitleChar(slug[k + 1..], i - k - 1) == TitleChar(slug, i)
  {
    var rest, j := slug[k + 1..], i - k - 1;
    assert rest[j] == slug[i];
    if j > 0 {
      assert rest[j - 1] == slug[i - 1];
    }
  }

  /** `generatedAt.replace(/\s\+0000\.?$/, "")`: a whitespace character, "+0000" and
      an optional "." at the very end are removed; any other text is kept. */
  function StripUtcSuffix(s: string): (r: string)
    ensures |r| <= |s| && r == s[..|r|]
    ensures r == s || (IsWhitespace(s[|r|]) && (s[|r| + 1..] == "+0000" || s[|r| + 1..] == "+0000."))
  {
    var n := |s|;
    if n >= 7 && s[n - 6..] == "+0000." && IsWhitespace(s[n - 7]) then s[..n - 7]
    else if n >= 6 && s[n - 5..] == "+0000" && IsWhitespace(s[n - 6]) then s[..n - 6]
    else s
  }

  /** The site's timestamps lose their time-zone suffix, with or without the final period. */
  lemma StripUtcSuffixRemoves(t: string, ws: char)
    requires IsWhitespace(ws)
    ensures StripUtcSuffix(t + [ws] + "+0000") == t
    ensures StripUtcSuffix(t + [ws] + "+0000.") == t
  {
    var a := t + [ws] + "+0000";
    var b := t + [ws] + "+0000.";
    assert a[|a| - 5..] == "+0000" && a[|a| - 6] == ws && a[..|a| - 6] == t;
    assert b[|b| - 6..] == "+0000." && b[|b| - 7] == ws && b[..|b| - 7] == t;
    assert b[|b| - 5..] != "+0000" by {
      assert b[|b| - 5..][4] == '.';
    }
  }

  /** Text that does not end in "+0000" or "+0000." is shown unchanged. */
  lemma StripUtcSuffixKeeps(s: string)
    requires !EndsWith(s, "+0000") && !EndsWith(s, "+0000.")
    ensures StripUtcSuffix(s) == s
  {
  }

  /** The settings the page reads from the query. */
  function SettingsOf(p: Params): Settings {
    Settings(ReadMode(p), ReadSearch(p), ReadSort(p))
  }

  /** Committing a different search returns the list to its first page; the same search keeps the page. */
  lemma SearchCommitResets(page: Page, p: Params, input: string)
    requires page.settings == SettingsOf(p)
    ensures var next := Step(page, Changed(SettingsOf(SearchCommit(p, input))));
      && (Trim(input) != ReadSearch(p) ==> next.count == PageSize)
      && (Trim(input) == ReadSearch(p) ==> next == page)
  {
    SearchRoundTrip(p, input);
  }

  /** Choosing a different sort returns the list to its first page. */
  lemma SortChangeResets(page: Page, p: Params, sortBy: string)
    requires page.settings == SettingsOf(p) && sortBy != "" && sortBy != ReadSort(p)
    ensures Step(page, Changed(SettingsOf(SortChange(p, sortBy)))).count == PageSize
  {
    SortRoundTrip(p, sortBy);
  }

  /** The scroll hook as the page wires it: `isLoading` is the fetch state, `hasMore` the
      page's flag, the threshold 200 pixels, and the handler `handleLoadMore`. */
  function ScrollStep(count: nat, isFetching: bool, n: nat, v: Viewport): (r: nat)
    ensures r == count || r == count + PageSize
    ensures r == count + PageSize <==> LoadRequested(isFetching, HasMore(count, n), v, DefaultThreshold)
  {
    if LoadRequested(isFetching, HasMore(count, n), v, DefaultThreshold) then LoadMore(count, isFetching, n) else count
  }

  /** Scrolling never hides users already shown, and never reveals past the list's end plus a page. */
  lemma ScrollStepBounded<T>(sorted: seq<T>, count: nat, isFetching: bool, v: Viewport)
    ensures var next := ScrollStep(count, isFetching, |sorted|, v);
      && Visible(sorted, count) == Visible(sorted, next)[..|Visible(sorted, count)|]
      && (next == count || next < |sorted| + PageSize)
  {
    LoadMoreExtends(sorted, count, isFetching);
  }
}
