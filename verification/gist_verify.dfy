/**
 * The ownership proof of src/api/verifyGistApi.ts: a user proves an account
 * by publishing a gist whose description holds a token, and the response of
 * the GitHub gist listing is searched for it. On success the account is also
 * added to the stored list of verified users.
 */
module GistVerify {
  import opened Wrappers
  import opened JsText
  import opened VerifiedStore

  /** One gist of the listing: its description (null in JSON when it has none) and its page. */
  datatype Gist = Gist(description: Option<string>, htmlUrl: string)

  /** A gist proves the token when its description is truthy and contains the token. */
  predicate Proves(g: Gist, token: string) {
    g.description.Some? && g.description.value != "" && Includes(g.description.value, token)
  }

  /** `response.find(...)`: the position of the first proving gist, in listing order. */
  function FindProof(gists: seq<Gist>, token: string): (r: Option<nat>)
    ensures r.Some? ==> r.value < |gists| && Proves(gists[r.value], token)
    ensures r.Some? ==> forall k | 0 <= k < r.value :: !Proves(gists[k], token)
    ensures r.None? ==> forall k | 0 <= k < |gists| :: !Proves(gists[k], token)
  {
    if gists == [] then None
    else if Proves(gists[0], token) then Some(0)
    else match FindProof(gists[1..], token)
      case None => None
      case Some(k) => Some(k + 1)
  }

  /** The gist that proves the token is found exactly when some gist proves it. */
  lemma FindProofComplete(gists: seq<Gist>, token: string)
    ensures FindProof(gists, token).Some? <==> exists k | 0 <= k < |gists| :: Proves(gists[k], token)
  {
  }

  datatype VerifyGistResponse = VerifyGistResponse(verified: bool, gistUrl: Option<string>)

  /** The outcome of `transformResponse`: the response and the storage slot after it. */
  datatype Outcome = Outcome(response: VerifyGistResponse, slot: StoredList)

  /** The record the gist check stores for a newly verified account. */
  function Contributor(username: string, gistUrl: string): VerifiedUser {
    VerifiedUser(username, gistUrl, None, Some("Contributor"))
  }

  /**
   * `transformResponse`: look for the token; on a match, read the stored list
   * (`[]` when the key is missing), append the account if it is not listed,
   * and answer with the first matching gist. None when reading the stored list
   * throws, which fails the query.
   */
  function TransformResponse(gists: seq<Gist>, username: string, token: string, slot: StoredList): (r: Option<Outcome>)
    ensures r.None? <==> FindProof(gists, token).Some? && slot.Invalid?
    ensures r.Some? ==> (r.value.response.verified <==> FindProof(gists, token).Some?)
    ensures r.Some? && FindProof(gists, token).None? ==> r.value == Outcome(VerifyGistResponse(false, None), slot)
    ensures r.Some? && FindProof(gists, token).Some? ==>
      r.value.response.gistUrl == Some(gists[FindProof(gists, token).value].htmlUrl)
    ensures r.Some? && FindProof(gists, token).Some? ==>
      r.value.slot == if HasUser(Load(slot), username) then slot
                      else Valid(Load(slot) + [Contributor(username, gists[FindProof(gists, token).value].htmlUrl)])
  {
    match FindProof(gists, token)
    case None => Some(Outcome(VerifyGistResponse(false, None), slot))
    case Some(k) =>
      if slot.Invalid? then None
      else
        var url := gists[k].htmlUrl;
        var stored := Load(slot);
        var slot' := if HasUser(stored, username) then slot else Valid(AddIfAbsent(stored, Contributor(username, url)));
        Some(Outcome(VerifyGistResponse(true, Some(url)), slot'))
  }

  /** After a successful check the account is listed in storage, and no username appears twice if none did. */
  lemma TransformResponseStores(gists: seq<Gist>, username: string, token: string, slot: StoredList)
    requires FindProof(gists, token).Some? && !slot.Invalid?
    requires Unique(Load(slot))
    ensures var r := TransformResponse(gists, username, token, slot);
      r.Some? && r.value.slot.Valid? && HasUser(r.value.slot.users, username) && Unique(r.value.slot.users)
  {
    var k := FindProof(gists, token).value;
    AddIfAbsentUnique(Load(slot), Contributor(username, gists[k].htmlUrl));
    if HasUser(Load(slot), username) {
      assert slot.Valid?;
    }
  }

  /** `users/${username}/gists`, relative to the GitHub API root. */
  function RequestPath(username: string): (p: string)
    ensures StartsWith(p, "users/") && EndsWith(p, "/gists")
    ensures |p| == |username| + 12 && p[6..|p| - 6] == username
  {
    "users/" + username + "/gists"
  }

  /** Different usernames are looked up at different paths. */
  lemma RequestPathInjective(a: string, b: string)
    requires RequestPath(a) == RequestPath(b)
    ensures a == b
  {
    assert a == RequestPath(a)[6..|RequestPath(a)| - 6];
    assert b == RequestPath(b)[6..|RequestPath(b)| - 6];
  }
}
