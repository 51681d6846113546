/**
 * The list of verified users kept under the "verifiedUsers" key of the
 * browser's local storage, and the page's in-memory copy of it
 * (src/pages/Country.tsx).
 *
 * The storage slot is a value: absent, a readable list, or text that
 * `JSON.parse` rejects. The JSON encoding itself is not modelled.
 */
module VerifiedStore {
  import opened Wrappers

  /** One verified account. The page writes `verifiedAt`, the gist check writes `rank`. */
  datatype VerifiedUser = VerifiedUser(
    username: string,
    gistUrl: string,
    verifiedAt: Option<string>,
    rank: Option<string>)

  /** The content of the storage slot. An empty string reads as `[]` everywhere, like a missing key. */
  datatype StoredList = Absent | Valid(users: seq<VerifiedUser>) | Invalid

  /** Some record of `list` belongs to `username` (`list.some(u => u.username === username)`). */
  predicate HasUser(list: seq<VerifiedUser>, username: string) {
    exists k | 0 <= k < |list| :: list[k].username == username
  }

  /** No username occurs twice. */
  ghost predicate Unique(list: seq<VerifiedUser>) {
    forall i, j | 0 <= i < j < |list| :: list[i].username != list[j].username
  }

  /** Appends `rec` unless its username is already listed. */
  function AddIfAbsent(list: seq<VerifiedUser>, rec: VerifiedUser): (r: seq<VerifiedUser>)
    ensures HasUser(r, rec.username)
    ensures HasUser(list, rec.username) ==> r == list
    ensures !HasUser(list, rec.username) ==> |r| == |list| + 1 && r[..|list|] == list && r[|list|] == rec
  {
    if HasUser(list, rec.username) then list
    else
      assert (list + [rec])[|list|] == rec;
      list + [rec]
  }

  /** A list without duplicate usernames keeps that property. */
  lemma AddIfAbsentUnique(list: seq<VerifiedUser>, rec: VerifiedUser)
    requires Unique(list)
    ensures Unique(AddIfAbsent(list, rec))
  {
    var r := AddIfAbsent(list, rec);
    if !HasUser(list, rec.username) {
      forall i, j | 0 <= i < j < |r| ensures r[i].username != r[j].username {
        if j == |list| {
          assert r[i] == list[i];
        } else {
          assert r[i] == list[i] && r[j] == list[j];
        }
      }
    }
  }

  /** A second record for the same username is ignored. */
  lemma AddIfAbsentTwice(list: seq<VerifiedUser>, rec: VerifiedUser, again: VerifiedUser)
    requires again.username == rec.username
    ensures AddIfAbsent(AddIfAbsent(list, rec), again) == AddIfAbsent(list, rec)
  {
  }

  /** The list the page starts from: the stored one, or `[]` when the slot is absent or unreadable. */
  function Load(slot: StoredList): (r: seq<VerifiedUser>)
    ensures slot.Valid? ==> r == slot.users
    ensures !slot.Valid? ==> r == []
  {
    match slot
    case Valid(users) => users
    case _ => []
  }

  /** The page's list together with what its storage slot holds. */
  datatype Session = Session(slot: StoredList, users: seq<VerifiedUser>)

  /** The page after mounting: its list is read from the slot, which is left as it was. */
  function Mount(slot: StoredList): (s: Session)
    ensures s.slot == slot
    ensures s.users == Load(slot)
  {
    Session(slot, Load(slot))
  }

  /**
   * `handleUserVerified`: the record `{username, gistUrl, verifiedAt: now}` is
   * appended to the page's list unless that username is already in it; only
   * then is the whole list written to storage, replacing what was there.
   */
  function UserVerified(s: Session, username: string, gistUrl: string, now: string): (r: Session)
    ensures HasUser(s.users, username) ==> r == s
    ensures !HasUser(s.users, username) ==>
      r.users == s.users + [VerifiedUser(username, gistUrl, Some(now), None)] && r.slot == Valid(r.users)
  {
    var updated := AddIfAbsent(s.users, VerifiedUser(username, gistUrl, Some(now), None));
    if HasUser(s.users, username) then s else Session(Valid(updated), updated)
  }

  /** `handleLogout`: the key is removed and the list emptied. */
  function Logout(s: Session): (r: Session)
    ensures r.slot == Absent && r.users == []
  {
    Session(Absent, [])
  }

  /** The account the header shows: the first record, if any. */
  function CurrentUser(list: seq<VerifiedUser>): (r: Option<VerifiedUser>)
    ensures r.None? <==> list == []
    ensures r.Some? ==> r.value == list[0]
  {
    if list == [] then None else Some(list[0])
  }

  /** What happens on the page: a verification or a logout. */
  datatype Action = Verified(username: string, gistUrl: string, now: string) | LoggedOut

  function Apply(s: Session, a: Action): Session {
    match a
    case Verified(username, gistUrl, now) => UserVerified(s, username, gistUrl, now)
    case LoggedOut => Logout(s)
  }

  function ApplyAll(s: Session, actions: seq<Action>): Session
    decreases |actions|
  {
    if actions == [] then s else ApplyAll(Apply(s, actions[0]), actions[1..])
  }

  /** Once the page writes the slot, the slot and the list agree. */
  ghost predicate InSync(s: Session) {
    s.slot == Valid(s.users) || (s.slot.Absent? && s.users == [])
  }

  /**
   * Starting from a list without duplicates, no sequence of verifications and
   * logouts creates one; and once the page has written or cleared the slot,
   * slot and list stay in step.
   */
  lemma {:induction false} ApplyAllKeeps(s: Session, actions: seq<Action>)
    requires Unique(s.users)
    ensures Unique(ApplyAll(s, actions).users)
    ensures InSync(s) ==> InSync(ApplyAll(s, actions))
    decreases |actions|
  {
    if actions != [] {
      var a := actions[0];
      if a.Verified? {
        AddIfAbsentUnique(s.users, VerifiedUser(a.username, a.gistUrl, Some(a.now), None));
      }
      ApplyAllKeeps(Apply(s, a), actions[1..]);
    }
  }

  /** A logout anywhere in the sequence forgets everyone verified before it. */
  lemma LogoutForgets(s: Session, before: seq<Action>, after: seq<Action>)
    ensures ApplyAll(s, before + [LoggedOut] + after) == ApplyAll(Session(Absent, []), after)
    decreases |before|
  {
    if before == [] {
      assert before + [LoggedOut] + after == [LoggedOut] + after;
    } else {
      assert (before + [LoggedOut] + after)[1..] == before[1..] + [LoggedOut] + after;
      LogoutForgets(Apply(s, before[0]), before[1..], after);
    }
  }
}
