/**
 * The account menu of a verified user (src/components/common/UserDropdown.tsx):
 * the dropdown, the logout confirmation, and the "Verified Since" line.
 */
module UserDropdown {
  import opened Wrappers

  /** The two open flags, and how many times `onLogout` has been called. */
  datatype Menu = Menu(dropdownOpen: bool, confirmOpen: bool, logouts: nat)

  datatype MenuEvent =
    | DropdownChange(open: bool)
    | SignOutClicked
    | ConfirmChange(open: bool)
    | CancelClicked
    | LogoutClicked

  /** One event. The Cancel and Logout buttons exist only while the confirmation is open. */
  function MenuStep(m: Menu, e: MenuEvent): (r: Menu)
    ensures e.SignOutClicked? ==> !r.dropdownOpen && r.confirmOpen
    ensures e.ConfirmChange? && !e.open ==> !r.dropdownOpen && !r.confirmOpen
    ensures e.CancelClicked? ==> !r.confirmOpen && r.logouts == m.logouts && r.dropdownOpen == m.dropdownOpen
    ensures e.LogoutClicked? && m.confirmOpen ==> r.logouts == m.logouts + 1 && !r.confirmOpen
    ensures !(e.LogoutClicked? && m.confirmOpen) ==> r.logouts == m.logouts
  {
    match e
    case DropdownChange(open) => m.(dropdownOpen := open)
    case SignOutClicked => m.(dropdownOpen := false, confirmOpen := true)
    case ConfirmChange(open) => if open then m.(confirmOpen := true) else m.(confirmOpen := false, dropdownOpen := false)
    case CancelClicked => if m.confirmOpen then m.(confirmOpen := false) else m
    case LogoutClicked => if m.confirmOpen then m.(logouts := m.logouts + 1, confirmOpen := false) else m
  }

  function MenuRun(m: Menu, events: seq<MenuEvent>): Menu
    decreases |events|
  {
    if events == [] then m else MenuRun(MenuStep(m, events[0]), events[1..])
  }

  /** The events that open the confirmation. */
  function Openings(events: seq<MenuEvent>): nat
    decreases |events|
  {
    if events == [] then 0
    else (if events[0].SignOutClicked? || events[0] == ConfirmChange(true) then 1 else 0) + Openings(events[1..])
  }

  function Pending(m: Menu): nat {
    if m.confirmOpen then 1 else 0
  }

  /** Every call of `onLogout` is confirmed: there are no more logouts than times the confirmation opened. */
  lemma {:induction false} LogoutsConfirmed(m: Menu, events: seq<MenuEvent>)
    ensures MenuRun(m, events).logouts + Pending(MenuRun(m, events)) <= m.logouts + Pending(m) + Openings(events)
    decreases |events|
  {
    if events != [] {
      LogoutsConfirmed(MenuStep(m, events[0]), events[1..]);
    }
  }

  /** The dropdown's "Verified Since" line. */
  datatype SinceLabel = NotVerified | VerifiedOn(iso: string)

  /** `verifiedAt ? date : "Not verified"`: an empty timestamp is falsy too. */
  function SinceLabelOf(verifiedAt: Option<string>): (l: SinceLabel)
    ensures l.NotVerified? <==> verifiedAt.None? || verifiedAt.value == ""
    ensures l.VerifiedOn? ==> Some(l.iso) == verifiedAt
  {
    if verifiedAt.Some? && verifiedAt.value != "" then VerifiedOn(verifiedAt.value) else NotVerified
  }
}
