/**
 * The verify button of src/components/common/UserVerificationDialog.tsx:
 * what `handleVerify` decides from the cached answer and the answer of a
 * fresh request, when the query runs, and when the button is disabled.
 *
 * The asynchronous refetch is a parameter: it either throws or settles with
 * an optional answer. The callbacks become a list of effects in call order.
 */
module VerificationDialog {
  import opened Wrappers
  import opened GistVerify

  /** How `await refetch()` ended; `Settled(None)` also covers a result without a "data" key. */
  datatype Refetch = Threw | Settled(data: Option<VerifyGistResponse>)

  /** The calls `handleVerify` makes: `onVerified()`, then `onOpenChange(false)`. */
  datatype Effect = CallOnVerified | CloseDialog

  /** `Boolean(data?.verified)`. */
  predicate SaysVerified(data: Option<VerifyGistResponse>) {
    data.Some? && data.value.verified
  }

  /**
   * `handleVerify`: the account counts as verified when the cached answer or
   * the fresh one says so. A thrown refetch ends the handler before anything
   * is decided.
   */
  function HandleVerify(cached: Option<VerifyGistResponse>, res: Refetch, hasOnVerified: bool): (effects: seq<Effect>)
    ensures effects != [] <==> res.Settled? && (SaysVerified(cached) || SaysVerified(res.data))
    ensures effects != [] ==> effects[|effects| - 1] == CloseDialog
    ensures CallOnVerified in effects <==> effects != [] && hasOnVerified
    ensures CallOnVerified in effects ==> effects[0] == CallOnVerified
    ensures effects != [] ==> |effects| == (if hasOnVerified then 2 else 1)
  {
    match res
    case Threw => []
    case Settled(data) =>
      var verified := SaysVerified(cached) || SaysVerified(data);
      if !verified then []
      else if hasOnVerified then [CallOnVerified, CloseDialog]
      else [CloseDialog]
  }

  /** An earlier positive answer is enough: the fresh one cannot undo it. */
  lemma CachedVerdictSuffices(cached: Option<VerifyGistResponse>, data: Option<VerifyGistResponse>, hasOnVerified: bool)
    requires SaysVerified(cached)
    ensures HandleVerify(cached, Settled(data), hasOnVerified) == HandleVerify(cached, Settled(Some(VerifyGistResponse(true, None))), hasOnVerified)
    ensures CloseDialog in HandleVerify(cached, Settled(data), hasOnVerified)
  {
  }

  /** `{ skip: !open }`: the gist listing is requested only while the dialog is open. */
  function QuerySkipped(open: bool): (skip: bool)
    ensures skip <==> !open
  {
    !open
  }

  /** `disabled={isFetching || data?.verified}`. */
  function VerifyDisabled(isFetching: bool, data: Option<VerifyGistResponse>): (disabled: bool)
    ensures !disabled <==> !isFetching && !SaysVerified(data)
  {
    isFetching || SaysVerified(data)
  }

  /** The dialog as seen by its parent: the token chosen on mount and whether it is open. */
  datatype Dialog = Dialog(token: string, open: bool)

  /** The parent opens or closes the dialog, or the user presses the verify button. */
  datatype DialogEvent =
    | SetOpen(open: bool)
    | VerifyPressed(cached: Option<VerifyGistResponse>, res: Refetch, hasOnVerified: bool)

  /** One event. A parent that honours `onOpenChange(false)` closes the dialog. */
  function DialogStep(d: Dialog, e: DialogEvent): (r: Dialog)
    ensures e.SetOpen? ==> r.open == e.open
    ensures e.VerifyPressed? ==> (r.open <==> d.open && CloseDialog !in HandleVerify(e.cached, e.res, e.hasOnVerified))
  {
    match e
    case SetOpen(open) => d.(open := open)
    case VerifyPressed(cached, res, hasOnVerified) =>
      if CloseDialog in HandleVerify(cached, res, hasOnVerified) then d.(open := false) else d
  }

  function DialogRun(d: Dialog, events: seq<DialogEvent>): Dialog
    decreases |events|
  {
    if events == [] then d else DialogRun(DialogStep(d, events[0]), events[1..])
  }

  /** `useState(generateToken)`: the token drawn on mount is the one shown for the dialog's whole life. */
  lemma {:induction false} TokenFixed(d: Dialog, events: seq<DialogEvent>)
    ensures DialogRun(d, events).token == d.token
    decreases |events|
  {
    if events != [] {
      TokenFixed(DialogStep(d, events[0]), events[1..]);
    }
  }
}
