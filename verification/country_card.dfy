/**
 * The card of one country on the home page
 * (src/components/common/CountryCard.tsx): its flag, looked up by name
 * without regard to case, and its three best users in the "all" ranking.
 */
module CountryCard {
  import opened Wrappers
  import opened JsText
  import opened Committers
  import opened Flags

  /** The card's query: the country's leaderboard in the "all" mode. */
  datatype CardQuery = CardQuery(country: string, mode: Mode)

  function QueryFor(slug: string): (q: CardQuery)
    ensures q.country == slug && q.mode == All
  {
    CardQuery(slug, All)
  }

  /** The flag names the country, ignoring the case of ASCII letters. */
  predicate SameName(f: FlagData, countryName: string) {
    ToLower(f.name) == ToLower(countryName)
  }

  /** `flags?.find(f => SameName(f, name))?.flagUrl`. */
  function FlagFor(flags: Option<seq<FlagData>>, countryName: string): (r: Option<string>)
    ensures r.Some? <==> flags.Some? && exists k | 0 <= k < |flags.value| :: SameName(flags.value[k], countryName)
    ensures r.Some? ==> exists k | 0 <= k < |flags.value| ::
      SameName(flags.value[k], countryName) && r.value == flags.value[k].flagUrl
      && forall j | 0 <= j < k :: !SameName(flags.value[j], countryName)
  {
    if flags.None? then None else FirstFlag(flags.value, countryName)
  }

  function FirstFlag(flags: seq<FlagData>, countryName: string): (r: Option<string>)
    ensures r.Some? <==> exists k | 0 <= k < |flags| :: SameName(flags[k], countryName)
    ensures r.Some? ==> exists k | 0 <= k < |flags| ::
      SameName(flags[k], countryName) && r.value == flags[k].flagUrl
      && forall j | 0 <= j < k :: !SameName(flags[j], countryName)
  {
    if flags == [] then None
    else if SameName(flags[0], countryName) then Some(flags[0].flagUrl)
    else
      var r := FirstFlag(flags[1..], countryName);
      if r.Some? then
        var k :| 0 <= k < |flags[1..]| && SameName(flags[1..][k], countryName) && r.value == flags[1..][k].flagUrl
          && forall j | 0 <= j < k :: !SameName(flags[1..][j], countryName);
        assert SameName(flags[k + 1], countryName) && r.value == flags[k + 1].flagUrl;
        assert forall j | 0 <= j < k + 1 :: !SameName(flags[j], countryName) by {
          forall j | 0 <= j < k + 1 ensures !SameName(flags[j], countryName) {
            if j > 0 {
              assert flags[j] == flags[1..][j - 1];
            }
          }
        }
        r
      else
        assert forall k | 0 <= k < |flags| :: !SameName(flags[k], countryName) by {
          forall k | 0 <= k < |flags| ensures !SameName(flags[k], countryName) {
            if k > 0 {
              assert flags[k] == flags[1..][k - 1];
            }
          }
        }
        r
  }

  /** The lookup does not depend on how the country name is capitalised. */
  lemma FlagForCaseBlind(flags: Option<seq<FlagData>>, a: string, b: string)
    requires ToLower(a) == ToLower(b)
    ensures FlagFor(flags, a) == FlagFor(flags, b)
  {
    if flags.Some? {
      FirstFlagCaseBlind(flags.value, a, b);
    }
  }

  lemma {:induction false} FirstFlagCaseBlind(flags: seq<FlagData>, a: string, b: string)
    requires ToLower(a) == ToLower(b)
    ensures FirstFlag(flags, a) == FirstFlag(flags, b)
  {
    if flags != [] {
      FirstFlagCaseBlind(flags[1..], a, b);
    }
  }

  /** `data?.users?.slice(0, 3) || []`: the first three users, fewer when there are fewer. */
  function TopUsers(data: Option<Snapshot>): (r: seq<Committer>)
    ensures data.None? ==> r == []
    ensures data.Some? ==> |r| == (if |data.value.users| < 3 then |data.value.users| else 3)
    ensures data.Some? ==> r == data.value.users[..|r|]
  {
    if data.None? then []
    else if |data.value.users| < 3 then data.value.users
    else data.value.users[..3]
  }
}
