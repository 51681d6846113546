/**
 * The rank report and the query guard of
 * src/components/common/UserVerification.tsx. Ranks arrive as optional
 * numbers; a rank counts only when it is truthy (present, not 0, not NaN).
 */
module UserVerification {
  import opened Wrappers
  import opened JsText
  import opened JsNumber

  /** `if (x)` on an optional number. */
  predicate Given(rank: Option<Num>) {
    rank.Some? && Truthy(rank.value)
  }

  /** How the rank moved since the last visit; a larger rank number is a worse place. */
  datatype RankChange = NoReport | Dropped(places: nat) | Rose(places: nat) | Unchanged

  function RankChangeOf(userRank: Option<Num>, lastRank: Option<Num>): (r: RankChange)
    ensures r.NoReport? <==> !(Given(userRank) && Given(lastRank))
    ensures r.Dropped? ==> r.places > 0 && r.places == userRank.value.value - lastRank.value.value
    ensures r.Rose? ==> r.places > 0 && r.places == lastRank.value.value - userRank.value.value
    ensures r.Unchanged? ==> userRank.value.value == lastRank.value.value
  {
    if !(Given(userRank) && Given(lastRank)) then NoReport
    else
      var u, l := userRank.value.value, lastRank.value.value;
      if u > l then Dropped(u - l)
      else if u < l then Rose(l - u)
      else Unchanged
  }

  /** Swapping the two ranks turns a drop into a rise of the same size, and back. */
  lemma RankChangeSwap(userRank: Option<Num>, lastRank: Option<Num>)
    ensures var r := RankChangeOf(userRank, lastRank);
      var s := RankChangeOf(lastRank, userRank);
      && (r.Dropped? <==> s.Rose?)
      && (r.Rose? <==> s.Dropped?)
      && (r.Dropped? || r.Rose? ==> r.places == s.places)
      && (r.Unchanged? <==> s.Unchanged?)
  {
  }

  const DroppedPrefix: string := "Вы опустились на "
  const RosePrefix: string := "Вы поднялись на "
  const PlaceSuffix: string := " место."
  const UnchangedText: string := "Ваша позиция не изменилась."

  /** `rankMessage`: the text shown under the dialog, "" when there is nothing to report. */
  function RankMessage(userRank: Option<Num>, lastRank: Option<Num>): (m: string)
    ensures m == "" <==> RankChangeOf(userRank, lastRank).NoReport?
    ensures RankChangeOf(userRank, lastRank).Dropped? ==> StartsWith(m, DroppedPrefix) && EndsWith(m, PlaceSuffix)
    ensures RankChangeOf(userRank, lastRank).Rose? ==> StartsWith(m, RosePrefix) && EndsWith(m, PlaceSuffix)
    ensures RankChangeOf(userRank, lastRank).Unchanged? ==> m == UnchangedText
  {
    match RankChangeOf(userRank, lastRank)
    case NoReport => ""
    case Dropped(places) => DroppedPrefix + Decimal(places) + PlaceSuffix
    case Rose(places) => RosePrefix + Decimal(places) + PlaceSuffix
    case Unchanged => UnchangedText
  }

  /** The number in a drop or rise message reads back as the size of the move, and it is positive. */
  lemma RankMessageNumber(userRank: Option<Num>, lastRank: Option<Num>)
    requires RankChangeOf(userRank, lastRank).Dropped? || RankChangeOf(userRank, lastRank).Rose?
    ensures var r := RankChangeOf(userRank, lastRank);
      var prefix := if r.Dropped? then DroppedPrefix else RosePrefix;
      var m := RankMessage(userRank, lastRank);
      |prefix| <= |m| && ParseInt(m[|prefix|..]) == Int(r.places) && r.places > 0
  {
    var r := RankChangeOf(userRank, lastRank);
    var prefix := if r.Dropped? then DroppedPrefix else RosePrefix;
    var m := RankMessage(userRank, lastRank);
    assert m == prefix + Decimal(r.places) + PlaceSuffix;
    assert m[|prefix|..] == Decimal(r.places) + PlaceSuffix;
    ParseDecimalThenText(r.places, PlaceSuffix);
  }

  /** `{ skip: !username || !open }`. */
  function QuerySkipped(username: string, open: bool): (skip: bool)
    ensures !skip <==> username != "" && open
  {
    username == "" || !open
  }
}
