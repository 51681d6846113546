# committerstop in Dafny

A model of the client-side logic of committerstop. This web application shows the
most active GitHub users of a country, as scraped from committers.top. It lets a
user prove that they own one of the listed accounts by publishing a gist that holds
a generated token.

The model covers these parts:

- **The ranking pipeline of the country page**: search filter, four sort orders,
  paging by 20, and the reset of the page count when a setting changes.
- **The verified-user store**: what lives in local storage and in the page's copy of it.
- **The gist proof check**: the token, the verify handler, the query and button guards,
  and the rank-change message.
- **The scrapers**: HTML rows to committers, the country links, and the REST
  Countries flags.
- **Small state machines**: the infinite-scroll trigger, the URL query edits of the
  filter bar, the logout confirmation, and the theme switch.

Everything is a pure function over immutable values. The browser and network are
passed in as values:

- **Local storage** is an `Option` or a `StoredList`.
- **The URL query** is a `map<string, string>`.
- **`Math.random`** is its base-36 digits.
- **`localeCompare`** is an abstract comparator.
- **A scraped table row** is a record of optional cell texts.

Modules, one per source file or JavaScript facility:

| module | models |
|---|---|
| `Wrappers` | `Option` |
| `Lists` | mapping a partial function over a list (the shape of every scraper loop), and `filter` |
| `JsText` | `trim`, ASCII `toLowerCase`/`toUpperCase`, `includes`, `split`/`join`, `replace` of a one-character pattern |
| `JsNumber` | `parseInt(s, 10)` of ECMA-262 (section 18.2.5, 2019 edition) with `Num = Int \| NaN`, subtraction, and SortCompare's reading of NaN |
| `Sorting` | `Array.prototype.sort` as a stable insertion sort (stable since ECMA-262 2019) |
| `Committers` | `src/api/committersApi.ts` |
| `Ranking` | `sortedAndFilteredUsers`, `visibleUsers`, `hasMoreUsers`, `handleLoadMore` and the count reset of `src/pages/Country.tsx` |
| `VerifiedStore` | the `verifiedUsers` list of `src/pages/Country.tsx` and its storage slot |
| `GistVerify` | `src/api/verifyGistApi.ts` |
| `Token` | `generateToken` of both verification dialogs |
| `VerificationDialog` | `src/components/common/UserVerificationDialog.tsx` |
| `UserVerification` | `src/components/common/UserVerification.tsx` |
| `InfiniteScroll` | `src/hooks/useInfiniteScroll.ts` |
| `FilterBar` | `src/components/common/FilterBar.tsx` and the query reads of `src/pages/Country.tsx` |
| `CountryPage` | the title, the timestamp and the scroll wiring of `src/pages/Country.tsx` |
| `Countries`, `Flags`, `CountryCard` | `src/api/countriesApi.ts`, `src/api/flagsApi.ts`, `src/components/common/CountryCard.tsx` |
| `UserDropdown`, `Switcher` | `src/components/common/UserDropdown.tsx`, `src/components/common/Switcher.tsx` |

Details of the code that the model follows:

- **No token expiry.** Tokens never expire or rotate.
- **No stale-response guard.** Nothing discards an outdated response.
- **`visibleCount` is not clamped.** It can grow past the list length.
- **A non-numeric commits cell is NaN, not 0.** Only a missing or empty cell gives 0.
- **An empty timestamp is falsy.** The account menu says "Not verified" when
  `verifiedAt` is missing *or* empty.
- **`Committer` has a `realname`.** The `Committer` type of `src/types/index.ts`
  lacks `realname`, but the scraper sets it, so the model's record has it.

## Model

| member | source | states |
|---|---|---|
| Committers.ModeToUrl | src/api/committersApi.ts:4-8 | the commits page is `https://committers.top/` + country, the contributions page adds "_public" and the all page adds "_private"; only the commits page has no suffix |
| Committers.ModeToUrlInjective | src/api/committersApi.ts:4-8 | for one country, the three modes fetch three different pages |
| Committers.ParseModeName | src/api/committersApi.ts:4-8 | every mode name reads back as its mode |
| Committers.RankOf | src/api/committersApi.ts:31-36 | a missing cell, or one that is empty once its first "." is removed, gives rank 0; otherwise the rank is `parseInt` of the cell without its first "." |
| Committers.CommitsOf | src/api/committersApi.ts:42-45 | a missing or empty cell gives 0; otherwise the count is `parseInt` of the cell text |
| Committers.RankOfMissing | src/api/committersApi.ts:31-36 | a missing, empty or "." rank cell gives rank 0 |
| Committers.RankOfDotted | src/api/committersApi.ts:31-36 | a rank cell "n." gives rank n: the first "." is removed and the digits are read in radix 10 |
| Committers.CommitsOfMissing | src/api/committersApi.ts:42-45 | a missing or empty commits cell gives 0 |
| Committers.CommitsOfDecimal | src/api/committersApi.ts:42-45 | a commits cell holding a decimal number reads back as that number |
| Committers.CommitsOfNonNumeric | src/api/committersApi.ts:42-45 | a non-empty commits cell without digits gives NaN, not 0 |
| Committers.UsernameOf | src/api/committersApi.ts:38-39 | the username is `trim` of the link text, and "" without a user cell or link |
| Committers.UsernameTrimmed | src/api/committersApi.ts:38-39 | a username neither starts nor ends with whitespace |
| Committers.ProfileOf | src/api/committersApi.ts:40-41 | the profile is the link's `href` when there is one, and "" when the cell, the link or the attribute is missing |
| Committers.StripParens | src/api/committersApi.ts:56 | the result is the input without one leading "(" if present and without one trailing ")" if present and not that same character: nothing else is removed |
| Committers.StripParensOpenOnly | src/api/committersApi.ts:56 | "(t" becomes t when t does not end in ")" |
| Committers.StripParensCloseOnly | src/api/committersApi.ts:56 | "t)" becomes t when t does not start with "(" |
| Committers.StripParensWrapped | src/api/committersApi.ts:56 | "(t)" becomes t |
| Committers.StripParensBare | src/api/committersApi.ts:56 | a name without parentheses at its ends is kept as it is |
| Committers.RealnameOf | src/api/committersApi.ts:51-57 | the real name is the trimmed text after `<br>` with its parentheses stripped, and "" when there is no user cell or nothing after `<br>` |
| Committers.NormalizeRow | src/api/committersApi.ts:59-61 | a row yields a committer exactly when its trimmed username is not empty, and the committer carries that username |
| Committers.NormalizeRowFields | src/api/committersApi.ts:37-60 | a kept row has a link; its committer's username is the trimmed link text, the profile the `href`, the avatar the `data-src` and the real name the stripped text after `<br>`, each "" when missing |
| Committers.NormalizeRowNumbers | src/api/committersApi.ts:31-45 | a kept row's rank and commits are read from the first and third cells, 0 for a missing cell |
| Committers.NormalizeRows | src/api/committersApi.ts:29-62 | no more committers than rows, and none with an empty username |
| Committers.NormalizeRowsAppend | src/api/committersApi.ts:30-62 | rows are normalised one by one in row order: normalising a concatenation concatenates the results |
| Committers.NormalizeRowsMembers | src/api/committersApi.ts:29-62 | a committer is in the snapshot if and only if some row yields it |
| Committers.ParseSnapshot | src/api/committersApi.ts:22-63 | `generatedAt` is the text of the first `p code` element, or "" when there is none, and the users are the rows normalised in order |
| Lists.FilterMapAppend | src/api/committersApi.ts:30 | a scraper loop distributes over concatenation of its input |
| Lists.FilterMapSound | src/api/committersApi.ts:59-60 | every output comes from some input element |
| Lists.FilterMapComplete | src/api/committersApi.ts:59-60 | every input element with a result contributes it |
| Lists.FilterMapAll | src/api/committersApi.ts:59-60 | a property of every possible result holds of the whole output |
| Lists.Filter | src/pages/Country.tsx:84-86 | `filter` keeps only elements of the input that satisfy the predicate |
| Lists.FilterCount | src/pages/Country.tsx:84-86 | `filter` keeps every copy of a satisfying element and no copy of any other |
| Lists.FilterMembers | src/pages/Country.tsx:84-86 | an element is kept if and only if it is in the input and satisfies the predicate |
| Lists.FilterAppend | src/pages/Country.tsx:84-86 | `filter` distributes over concatenation |
| Lists.FilterAll | src/pages/Country.tsx:84-86 | a list whose elements all satisfy the predicate is kept whole |
| JsNumber.ParseInt | src/api/committersApi.ts:42-45 | `parseInt` is NaN exactly when no digit follows the leading whitespace and sign |
| JsNumber.ParseDecimal | src/api/committersApi.ts:42-45 | `parseInt` reads back the decimal rendering of any integer, sign included |
| JsNumber.ParseDecimalThenText | src/api/committersApi.ts:31-36 | text after the digits is ignored |
| JsNumber.ParseNonNumeric | src/api/committersApi.ts:42-45 | text without any digit is NaN |
| JsNumber.DecimalValue | src/api/committersApi.ts:42-45 | the decimal rendering of n has value n |
| JsNumber.CompareResult | src/pages/Country.tsx:97-101 | the sort reads a NaN comparator result as 0 (equal) |
| JsNumber.Minus | src/pages/Country.tsx:97-101 | subtraction is NaN when either count is NaN, and exact otherwise |
| JsText.Trim | src/api/committersApi.ts:39 | `trim` leaves the infix of the input between leading and trailing whitespace, and it is empty exactly for all-whitespace input |
| JsText.TrimIdempotent | src/components/common/FilterBar.tsx:49 | trimming twice is trimming once |
| JsText.IncludesIffOccurs | src/pages/Country.tsx:85 | `includes` holds exactly when the needle occurs at some position |
| JsText.ReplaceFirst | src/api/committersApi.ts:34 | `replace(".", "")` removes only the first "." |
| JsText.JoinSplit | src/pages/Country.tsx:147-150 | splitting on a character and joining with it gives back the input |
| JsText.SplitAtFirst | src/pages/Country.tsx:147-150 | the first piece of a split runs up to the first separator |
| Sorting.Sort | src/pages/Country.tsx:89-102 | the sort is a permutation of its input |
| Sorting.SortSorted | src/pages/Country.tsx:89-102 | with a comparator consistent on the input, the result is in comparator order |
| Sorting.SortStable | src/pages/Country.tsx:89-102 | elements that compare equal keep their relative order |
| Sorting.SortOfSorted | src/pages/Country.tsx:89-102 | a list already in order is left as it is |
| Sorting.SortedUnique | src/pages/Country.tsx:89-102 | with no ties, there is only one ordered arrangement of a multiset |
| Sorting.InsertSorted | src/pages/Country.tsx:89-102 | inserting into an ordered list keeps it ordered |
| Sorting.InsertTies | src/pages/Country.tsx:89-102 | an inserted element goes ahead of the elements it ties with |
| Sorting.ReverseMultiset | src/pages/Country.tsx:89-102 | reversing a list keeps its elements |
| Ranking.Keep | src/pages/Country.tsx:84-86 | filtering keeps only records of the input whose lowercased username includes the lowercased search |
| Ranking.KeepCount | src/pages/Country.tsx:84-86 | filtering keeps every copy of a matching record and no copy of any other |
| Ranking.KeepAppend | src/pages/Country.tsx:84-86 | filtering distributes over concatenation |
| Ranking.KeepAll | src/pages/Country.tsx:84-86 | a list whose records all match is kept whole |
| Ranking.KeepMembers | src/pages/Country.tsx:84-86 | a record is kept if and only if it is in the input and matches |
| Ranking.FilterUsers | src/pages/Country.tsx:81-87 | a search that trims to nothing filters nothing; otherwise the result is `filter` of the input: the matching records in input order, every copy kept |
| Ranking.SortedAndFiltered | src/pages/Country.tsx:80-105 | the shown list is a permutation of the filtered list, so a record is shown if and only if it is in the data and matches |
| Ranking.SortedAndFilteredOrdered | src/pages/Country.tsx:89-102 | with a comparator consistent on the data, the list is in comparator order and ties keep their filtered order |
| Ranking.CommitsDescOrder | src/pages/Country.tsx:99-101 | "commits-desc" and any unknown option: commit counts never increase down the list |
| Ranking.CommitsAscOrder | src/pages/Country.tsx:96-97 | "commits-asc": commit counts never decrease down the list |
| Ranking.AlphabeticalAscOrder | src/pages/Country.tsx:90-91 | "alphabetical-asc": usernames are in collation order |
| Ranking.AlphabeticalDescOrder | src/pages/Country.tsx:93-94 | "alphabetical-desc": usernames are in mirrored collation order |
| Ranking.SortedAndFilteredIdempotent | src/pages/Country.tsx:80-105 | filtering and sorting the shown list again changes nothing |
| Ranking.CommitsDescReversesAsc | src/pages/Country.tsx:96-101 | with distinct commit counts, "commits-desc" is exactly the reverse of "commits-asc" |
| Ranking.CommitsConsistent | src/pages/Country.tsx:97-101 | without NaN counts, both commit comparators are consistent |
| Ranking.NamesConsistent | src/pages/Country.tsx:90-94 | a consistent collation makes both alphabetical comparators consistent |
| Ranking.Visible | src/pages/Country.tsx:107-110 | the visible list is the prefix of length min(count, n) |
| Ranking.VisibleAllIffNoMore | src/pages/Country.tsx:107-112 | the whole list is visible exactly when `hasMore` is false |
| Ranking.LoadMore | src/pages/Country.tsx:114-118 | the count grows by exactly 20 when not fetching and more is there, and stays otherwise; it is not clamped |
| Ranking.LoadMoreExtends | src/pages/Country.tsx:107-118 | loading more keeps the shown records as a prefix and adds at most one page |
| Ranking.Initial | src/pages/Country.tsx:31 | the count starts at one page of 20 |
| Ranking.Step | src/pages/Country.tsx:127-129 | a change of mode, search or sort returns the count to 20; an unchanged setting keeps the page |
| Ranking.RunWholePages | src/pages/Country.tsx:114-129 | after any events the count is a non-zero multiple of 20 |
| VerifiedStore.Load | src/pages/Country.tsx:36-45 | the page starts from the stored list, or `[]` when the key is absent or the JSON is unreadable |
| VerifiedStore.Mount | src/pages/Country.tsx:36-45 | mounting reads the slot and does not write it |
| VerifiedStore.AddIfAbsent | src/pages/Country.tsx:49-57 | the username is listed afterwards; a listed one leaves the list as it was; otherwise exactly the record is appended at the end |
| VerifiedStore.AddIfAbsentUnique | src/pages/Country.tsx:47-61 | appending keeps usernames free of duplicates |
| VerifiedStore.AddIfAbsentTwice | src/pages/Country.tsx:49 | a second record for the same username is ignored |
| VerifiedStore.UserVerified | src/pages/Country.tsx:47-61 | an already listed user changes nothing; otherwise one record is appended and the whole list is written to storage |
| VerifiedStore.Logout | src/pages/Country.tsx:131-134 | logout removes the key and empties the list |
| VerifiedStore.CurrentUser | src/pages/Country.tsx:158 | the header shows the first record, or nobody for an empty list |
| VerifiedStore.ApplyAllKeeps | src/pages/Country.tsx:47-61 | no sequence of verifications and logouts creates a duplicate, and slot and list stay in step once written |
| VerifiedStore.LogoutForgets | src/pages/Country.tsx:131-134 | a logout forgets everything verified before it |
| GistVerify.FindProof | src/api/verifyGistApi.ts:20-22 | the first gist with a truthy description that includes the token, or none when no gist has one |
| GistVerify.FindProofComplete | src/api/verifyGistApi.ts:20-24 | a proof is found if and only if some gist proves the token |
| GistVerify.TransformResponse | src/api/verifyGistApi.ts:19-47 | verified iff a gist proves the token; the URL is the first proof's; no match leaves storage alone; a match stores the account only if absent; an unreadable stored list fails the query |
| GistVerify.TransformResponseStores | src/api/verifyGistApi.ts:24-42 | after a match the account is listed in storage and usernames stay unique |
| GistVerify.RequestPath | src/api/verifyGistApi.ts:18 | the path is "users/", then exactly the username, then "/gists" |
| GistVerify.RequestPathInjective | src/api/verifyGistApi.ts:18 | the path depends only on the username, and different usernames give different paths |
| Token.GenerateToken | src/components/common/UserVerificationDialog.tsx:24-26 | the token is the fixed prefix followed by the first up-to-8 base-36 digits of the random number |
| Token.TokenShape | src/components/common/UserVerification.tsx:11-13 | the suffix is at most eight base-36 characters |
| Token.TokenDeterminesDigits | src/components/common/UserVerificationDialog.tsx:24-26 | the token gives back the first eight digits of its random number |
| Token.DigitsDetermineToken | src/components/common/UserVerificationDialog.tsx:24-26 | digits after the eighth do not affect the token |
| Token.Slice | src/components/common/UserVerificationDialog.tsx:25 | `slice` clamps both bounds to the length and copies the characters in between; an end at or before the start gives "" |
| Token.Base36CharInjective | src/components/common/UserVerificationDialog.tsx:25 | different base-36 digits are written differently |
| VerificationDialog.HandleVerify | src/components/common/UserVerificationDialog.tsx:41-57 | the handler acts iff the refetch settles and the cached or fresh answer says verified; then `onVerified` (if given) comes first and closing last, with nothing else; a throw does nothing |
| VerificationDialog.CachedVerdictSuffices | src/components/common/UserVerificationDialog.tsx:44-50 | a cached positive answer closes the dialog whatever the fresh answer |
| VerificationDialog.QuerySkipped | src/components/common/UserVerificationDialog.tsx:38 | the gist listing is requested only while the dialog is open |
| VerificationDialog.VerifyDisabled | src/components/common/UserVerificationDialog.tsx:87 | the button is enabled iff nothing is fetching and the cached answer is not positive |
| VerificationDialog.DialogStep | src/components/common/UserVerificationDialog.tsx:50-53 | the dialog closes after a verify press exactly when the handler asks to close it |
| VerificationDialog.TokenFixed | src/components/common/UserVerificationDialog.tsx:34 | the token drawn on mount stays the same through every event |
| UserVerification.RankChangeOf | src/components/common/UserVerification.tsx:39-46 | no report unless both ranks are truthy; otherwise a drop or a rise by the positive difference, or no change |
| UserVerification.RankChangeSwap | src/components/common/UserVerification.tsx:41-44 | swapping the ranks turns a drop into a rise of the same size |
| UserVerification.RankMessage | src/components/common/UserVerification.tsx:39-46 | the message is empty iff there is nothing to report; drops and rises use their own wording, and an unchanged rank gives the fixed "no change" text |
| UserVerification.RankMessageNumber | src/components/common/UserVerification.tsx:41-44 | the number in the message reads back as the size of the move, and it is positive |
| UserVerification.QuerySkipped | src/components/common/UserVerification.tsx:36 | the query runs iff the username is non-empty and the dialog is open |
| InfiniteScroll.ThresholdOf | src/hooks/useInfiniteScroll.ts:14 | the threshold defaults to 200 |
| InfiniteScroll.ScrollTop | src/hooks/useInfiniteScroll.ts:20 | the document's scroll offset is used when `window.scrollY` is 0 |
| InfiniteScroll.LoadRequested | src/hooks/useInfiniteScroll.ts:16-26 | more is requested iff nothing loads, more can come, and the viewport bottom is within the threshold of the end |
| InfiniteScroll.ThresholdMonotone | src/hooks/useInfiniteScroll.ts:24 | a larger threshold fires wherever a smaller one does |
| InfiniteScroll.AtBottomFires | src/hooks/useInfiniteScroll.ts:17-26 | at the very end, a scroll requests more iff the handler is installed |
| FilterBar.SetParam | src/components/common/FilterBar.tsx:49 | `set` gives the name the value and leaves every other name alone |
| FilterBar.DeleteParam | src/components/common/FilterBar.tsx:50 | `delete` removes the name and leaves every other name alone |
| FilterBar.SearchCommit | src/components/common/FilterBar.tsx:47-52 | "search" is the trimmed input, or absent when it trims to nothing; other names are kept |
| FilterBar.ModeChange | src/components/common/FilterBar.tsx:75-79 | "mode" is absent exactly for "commits" and names the mode otherwise; other names are kept |
| FilterBar.SortChange | src/components/common/FilterBar.tsx:161-165 | "sort" holds the chosen option; other names are kept |
| FilterBar.GetOrDefault | src/pages/Country.tsx:23-34 | a setting is the query's value when it is present and non-empty, and the default otherwise |
| FilterBar.SearchRoundTrip | src/components/common/FilterBar.tsx:47-52 | the page reads a committed search back as the trimmed input, and mode and sort are undisturbed |
| FilterBar.ModeRoundTrip | src/components/common/FilterBar.tsx:75-79 | the page reads back every chosen mode, although "commits" is not written |
| FilterBar.SortRoundTrip | src/components/common/FilterBar.tsx:161-165 | the page reads back a chosen sort option |
| FilterBar.SyncSort | src/components/common/FilterBar.tsx:40-43 | a present URL sort becomes the sort; an absent or empty one changes nothing |
| FilterBar.SyncSortIdempotent | src/components/common/FilterBar.tsx:40-43 | a second sync changes nothing |
| FilterBar.ClearSearchCommits | src/components/common/FilterBar.tsx:83 | clearing the input commits as no search |
| FilterBar.RefetchToast | src/components/common/FilterBar.tsx:85-101 | an error key or a throw gives the error notice; else a data key gives success; else info |
| CountryPage.Capitalize | src/pages/Country.tsx:149 | the first character is upper-cased and the rest kept |
| CountryPage.FormatCountryNamePointwise | src/pages/Country.tsx:147-150 | the title has the slug's length, hyphens become spaces and each word's first letter is upper-cased |
| CountryPage.StripUtcSuffix | src/pages/Country.tsx:164 | the result is a prefix of the timestamp, and only a whitespace character followed by "+0000" or "+0000." at the end is removed |
| CountryPage.StripUtcSuffixRemoves | src/pages/Country.tsx:164 | the site's " +0000" and " +0000." suffixes are removed |
| CountryPage.StripUtcSuffixKeeps | src/pages/Country.tsx:164 | text not ending in "+0000" or "+0000." is unchanged |
| CountryPage.SearchCommitResets | src/pages/Country.tsx:127-129 | committing a different search returns the list to its first page, and the same search keeps the page |
| CountryPage.SortChangeResets | src/pages/Country.tsx:127-129 | choosing a different sort returns the list to its first page |
| CountryPage.ScrollStep | src/pages/Country.tsx:114-125 | a scroll adds one page exactly when the hook fires with the page's fetch state and `hasMore` |
| CountryPage.ScrollStepBounded | src/pages/Country.tsx:107-125 | one scroll, handled against the rendered count, never hides shown users and never reveals past the list end plus a page |
| Countries.TrimmedOr | src/api/countriesApi.ts:22-23 | the trimmed text, or the fallback when it is missing or trims to nothing |
| Countries.ToCountry | src/api/countriesApi.ts:21-25 | the slug is the trimmed `href` or "unknown", the name the trimmed text or "Unknown", so neither is empty; the flag URL is always "" |
| Countries.ToCountries | src/api/countriesApi.ts:20-25 | one country per link, in document order |
| Countries.SlugDefaults | src/api/countriesApi.ts:22 | a missing `href` gives "unknown", otherwise the trimmed `href`, and slugs are always trimmed |
| Flags.FlagUrlOf | src/api/flagsApi.ts:22 | the flag URL is the non-empty PNG address, or "" |
| Flags.ToFlags | src/api/flagsApi.ts:20-23 | one entry per country, same order, with `name.common` and the PNG address |
| Flags.SvgIgnored | src/api/flagsApi.ts:22 | the SVG image never affects the result |
| CountryCard.QueryFor | src/components/common/CountryCard.tsx:13-16 | the card always queries the "all" ranking of its own slug |
| CountryCard.FlagFor | src/components/common/CountryCard.tsx:19-21 | a flag is found iff flags are loaded and some flag has the country's name, ignoring case; it is the first such |
| CountryCard.FlagForCaseBlind | src/components/common/CountryCard.tsx:19-21 | the lookup does not depend on the capitalisation of the country name |
| CountryCard.TopUsers | src/components/common/CountryCard.tsx:23 | the prefix of length min(3, n), or none without data |
| UserDropdown.MenuStep | src/components/common/UserDropdown.tsx:41-44 | Sign Out closes the dropdown and opens the confirmation; closing the confirmation closes both; Cancel never logs out; Logout logs out exactly once and closes the confirmation |
| UserDropdown.LogoutsConfirmed | src/components/common/UserDropdown.tsx:144-165 | there are never more logouts than times the confirmation was opened |
| UserDropdown.SinceLabelOf | src/components/common/UserDropdown.tsx:102-105 | "Not verified" iff the timestamp is missing or empty |
| Switcher.ReadTheme | src/components/common/Switcher.tsx:11-14 | the theme is dark iff the stored value is exactly "dark" |
| Switcher.Toggle | src/components/common/Switcher.tsx:35-39 | a click switches to the other theme and stores its name |
| Switcher.ToggleTwice | src/components/common/Switcher.tsx:35-36 | two clicks give back the starting theme |
| Switcher.ToggleReadsBack | src/components/common/Switcher.tsx:11-14 | what a click stores reads back as the new theme |
| Switcher.Poll | src/components/common/Switcher.tsx:19-28 | the poll adopts the theme that storage says |
| Switcher.RootClasses | src/components/common/Switcher.tsx:30-33 | the root holds exactly one of "light" and "dark", the theme's, and every other class is kept |

## Left out

- **HTML parsing.** `DOMParser` and `querySelector` are not modelled. A table row, a country link and a gist are the values the scraper reads from them.
- **Network and caching.** Fetching, RTK Query caching, refetch policies, `githubApi.ts`, the store setup and `createApi` are not modelled. A query's answer is a parameter.
- **The `localData` copy.** The page clears it when the mode changes and refills it from the answer. The ranking functions take the current list as input.
- **JSON encoding.** It is not modelled. Stored text that parses to something other than a list is not modelled either; unparsable text is the `Invalid` slot.
- **Dates.** `Date`, `toISOString`, `toLocaleDateString` and `toLocaleTimeString` are left out. The timestamp is a parameter.
- **Timers and listeners.** Left out: the 300 ms search debounce, the 600 ms spinner reset, the 100 ms theme poll interval (only one poll step is modelled), adding and removing scroll listeners, `window.scrollTo`, and the sticky-switcher visibility.
  - Scroll events are modelled one per render: each is handled against the count and `hasMore` of the list as last rendered. Two scroll events before a re-render would each add a page, because the listener is replaced only after a commit. `LoadMore` and `ScrollStepBounded` state their page bound for a single handled event.
- **Render-time effects.** `onVerified()` is called during render in `UserVerification.tsx`; effect ordering is left out.
- **Presentational components.** Left out: `Header`, `Footer`, `UserTable`, `UserDialog`, `ErrorMessage`, `LoadingSpinner`, `Toast`, routes and pages other than the country page, and all markup.
  - The filter bar's display of `direction` and `rankMessage` of the first verified user is presentation only.
  - So are the prop mismatches between the page and its children.
- **Unknown modes.** A mode name in the query that is not one of the three has no page URL. `Settings.mode` keeps the raw text, and `ModeToUrl` is defined only for the three modes.
- Ranking.ComparatorFor: `localeCompare` is locale-dependent, so it is an abstract `collate` parameter. Alphabetical order is proved only for a collation that is a total preorder on the usernames.
- Ranking.CommitsDescOrder: when a commit count is NaN, the comparator is not consistent and ECMA-262 leaves the order implementation-defined. In that case only the permutation (`SortedAndFiltered`) is proved, not the order.
- Sorting.Sort: it is a stable insertion sort; the engine's algorithm is not modelled. Any stable sort gives the same result for a consistent comparator, but not necessarily for an inconsistent one.
- JsText.ToLower: upper- and lower-casing map ASCII letters only. Unicode case mapping is not modelled.
- JsNumber.ParseInt: numbers are unbounded integers. Doubles, their precision and -0 are not modelled, and neither are radix prefixes, which do not apply to radix 10.
- FilterBar.SetParam: the query holds each name at most once. The order of names in the serialised query and repeated names are not modelled.
- InfiniteScroll.LoadRequested: pixel values are real numbers, not doubles.
- Token.GenerateToken: a random number is given by its base-36 fraction digits. Whether every digit sequence is the rendering of some double is not modelled.
