/**
 * Country flags from the REST Countries service (src/api/flagsApi.ts): each
 * country's common name with the address of its PNG flag.
 */
module Flags {
  import opened Wrappers

  /** The images of one country; either may be missing from the JSON. */
  datatype FlagImages = FlagImages(png: Option<string>, svg: Option<string>)

  /** One entry of the response. */
  datatype RestCountry = RestCountry(commonName: string, flags: Option<FlagImages>)

  datatype FlagData = FlagData(name: string, flagUrl: string)

  /** The request, relative to `https://restcountries.com/v3.1/`. */
  const FlagsPath: string := "all?fields=name,flags"

  /** `c.flags?.png || ""`: the SVG image is never used. */
  function FlagUrlOf(c: RestCountry): (url: string)
    ensures url != "" <==> c.flags.Some? && c.flags.value.png.Some? && c.flags.value.png.value != ""
    ensures url != "" ==> Some(url) == c.flags.value.png
  {
    if c.flags.Some? && c.flags.value.png.Some? then c.flags.value.png.value else ""
  }

  /** `transformResponse`: one entry per country, in response order. */
  function ToFlags(data: seq<RestCountry>): (r: seq<FlagData>)
    ensures |r| == |data|
    ensures forall k | 0 <= k < |data| :: r[k].name == data[k].commonName && r[k].flagUrl == FlagUrlOf(data[k])
  {
    seq(|data|, k requires 0 <= k < |data| => FlagData(data[k].commonName, FlagUrlOf(data[k])))
  }

  /** The SVG image has no influence on the result. */
  lemma SvgIgnored(name: string, png: Option<string>, svg1: Option<string>, svg2: Option<string>)
    ensures FlagUrlOf(RestCountry(name, Some(FlagImages(png, svg1))))
         == FlagUrlOf(RestCountry(name, Some(FlagImages(png, svg2))))
  {
  }
}
