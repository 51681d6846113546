/**
 * The country list of the home page, scraped from the leaderboard site's
 * index (src/api/countriesApi.ts). Each link of the country list is given by
 * its optional `href` attribute and text.
 */
module Countries {
  import opened Wrappers
  import opened JsText

  datatype Country = Country(slug: string, name: string, flagUrl: string)

  /** One `ul.country-list li a` element. */
  datatype Link = Link(href: Option<string>, text: Option<string>)

  /** `x?.trim() || fallback`. */
  function TrimmedOr(x: Option<string>, fallback: string): (r: string)
    ensures x.None? || AllWhitespace(x.value) ==> r == fallback
    ensures x.Some? && !AllWhitespace(x.value) ==> r == Trim(x.value)
  {
    if x.Some? && Trim(x.value) != "" then Trim(x.value) else fallback
  }

  function ToCountry(a: Link): (c: Country)
    ensures c.slug == TrimmedOr(a.href, "unknown") && c.name == TrimmedOr(a.text, "Unknown")
    ensures c.slug != "" && c.name != "" && c.flagUrl == ""
  {
    Country(TrimmedOr(a.href, "unknown"), TrimmedOr(a.text, "Unknown"), "")
  }

  /** `transformResponse`: one country per link, in document order. */
  function ToCountries(links: seq<Link>): (r: seq<Country>)
    ensures |r| == |links|
    ensures forall k | 0 <= k < |links| :: r[k] == ToCountry(links[k])
  {
    seq(|links|, k requires 0 <= k < |links| => ToCountry(links[k]))
  }

  /** A link whose `href` has text keeps it, trimmed; a link with none gets the slug "unknown". */
  lemma SlugDefaults(a: Link)
    ensures a.href.None? ==> ToCountry(a).slug == "unknown"
    ensures a.href.Some? && !AllWhitespace(a.href.value) ==> ToCountry(a).slug == Trim(a.href.value)
    ensures ToCountry(a).slug == Trim(ToCountry(a).slug)
  {
    if a.href.Some? && !AllWhitespace(a.href.value) {
      TrimIdempotent(a.href.value);
    } else {
      assert Trim("unknown") == "unknown" by {
        assert !IsWhitespace('u') && !IsWhitespace('n');
      }
    }
  }
}
