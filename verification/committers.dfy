/**
 * The leaderboard snapshot of one country: the `Committer` record, the three
 * ranking modes with their page URLs, and the normalisation of scraped table
 * rows into committers (src/api/committersApi.ts).
 *
 * The HTML document itself is not modelled: a table row is given as the
 * optional texts and attributes the scraper reads from it.
 */
module Committers {
  import opened Wrappers
  import opened JsText
  import opened JsNumber
  import opened Lists

  /** One ranked user. `rank` and `commits` come from `parseInt` and so may be NaN. */
  datatype Committer = Committer(
    rank: Num,
    username: string,
    profile: string,
    commits: Num,
    avatar: string,
    realname: string)

  /** The ranking basis of a leaderboard. */
  datatype Mode = Commits | Contributions | All

  function ModeName(m: Mode): string {
    match m
    case Commits => "commits"
    case Contributions => "contributions"
    case All => "all"
  }

  /** Reads a mode name back; any other text names no mode. */
  function ParseMode(s: string): (r: Option<Mode>)
    ensures r.Some? ==> ModeName(r.value) == s
  {
    if s == "commits" then Some(Commits)
    else if s == "contributions" then Some(Contributions)
    else if s == "all" then Some(All)
    else None
  }

  lemma ParseModeName(m: Mode)
    ensures ParseMode(ModeName(m)) == Some(m)
  {
  }

  const SiteBase: string := "https://committers.top/"

  function ModeSuffix(m: Mode): string {
    match m
    case Commits => ""
    case Contributions => "_public"
    case All => "_private"
  }

  /** `modeToUrl(country)[mode]`: the country's page on the leaderboard site, with a
      suffix naming the mode, empty for the commits ranking. */
  function ModeToUrl(country: string, mode: Mode): (url: string)
    ensures StartsWith(url, SiteBase + country)
    ensures mode == Commits <==> url == SiteBase + country
    ensures mode == Contributions ==> url == SiteBase + country + "_public"
    ensures mode == All ==> url == SiteBase + country + "_private"
  {
    SiteBase + country + ModeSuffix(mode)
  }

  /** For one country, the three modes fetch three different pages. */
  lemma ModeToUrlInjective(country: string, m1: Mode, m2: Mode)
    requires ModeToUrl(country, m1) == ModeToUrl(country, m2)
    ensures m1 == m2
  {
    var base := SiteBase + country;
    assert ModeToUrl(country, m1)[|base|..] == ModeSuffix(m1);
    assert ModeToUrl(country, m2)[|base|..] == ModeSuffix(m2);
  }

  /** The link of the user cell: its text and its `href` attribute. */
  datatype Anchor = Anchor(text: string, href: Option<string>)

  /** The second cell of a row: the profile link, and the text of the node after
      its `<br>` (None when there is no `<br>` or nothing follows it). */
  datatype UserCell = UserCell(anchor: Option<Anchor>, afterBreak: Option<string>)

  /** One row of the users table: the text of cells 1 and 3, the user cell, and the
      `data-src` attribute of the image in cell 4. */
  datatype Row = Row(
    rankCell: Option<string>,
    userCell: Option<UserCell>,
    commitsCell: Option<string>,
    avatarSrc: Option<string>)

  /** `text || "0"`. */
  function OrZero(text: Option<string>): (r: string)
    ensures r != ""
  {
    if text.None? || text.value == "" then "0" else text.value
  }

  /** The rank: the cell text with its first "." removed, read by `parseInt`. */
  function RankOf(cell: Option<string>): (r: Num)
    ensures cell.None? ==> r == Int(0)
    ensures cell.Some? && ReplaceFirst(cell.value, '.') == "" ==> r == Int(0)
    ensures cell.Some? && ReplaceFirst(cell.value, '.') != "" ==> r == ParseInt(ReplaceFirst(cell.value, '.'))
  {
    ParseZero();
    var text := match cell
      case None => None
      case Some(t) => Some(ReplaceFirst(t, '.'));
    ParseInt(OrZero(text))
  }

  /** A missing rank cell, an empty one, or one holding just "." gives the rank 0. */
  lemma RankOfMissing()
    ensures RankOf(None) == Int(0) && RankOf(Some("")) == Int(0) && RankOf(Some(".")) == Int(0)
  {
    ParseZero();
    assert ReplaceFirst(".", '.') == "";
  }

  /** A rank cell as the site writes it, "12.", gives the rank 12. */
  lemma RankOfDotted(n: nat)
    ensures RankOf(Some(Decimal(n) + ".")) == Int(n)
  {
    var d := Decimal(n);
    assert '.' !in d;
    assert IndexOf(d + ".", '.') == |d|;
    assert ReplaceFirst(d + ".", '.') == d;
    ParseDecimalThenText(n, []);
    assert d + [] == d;
  }

  /** The commit count: the text of cell 3 read by `parseInt`. */
  function CommitsOf(cell: Option<string>): (r: Num)
    ensures cell.None? || cell.value == "" ==> r == Int(0)
    ensures cell.Some? && cell.value != "" ==> r == ParseInt(cell.value)
  {
    ParseZero();
    ParseInt(OrZero(cell))
  }

  /** A missing or empty commits cell gives 0. */
  lemma CommitsOfMissing()
    ensures CommitsOf(None) == Int(0) && CommitsOf(Some("")) == Int(0)
  {
    assert OrZero(None) == "0" && OrZero(Some("")) == "0";
    ParseZero();
  }

  lemma CommitsOfDecimal(n: nat)
    ensures CommitsOf(Some(Decimal(n))) == Int(n)
  {
    ParseDecimalThenText(n, []);
    assert Decimal(n) + [] == Decimal(n);
  }

  /** A cell with text but no digits is NaN, not 0. */
  lemma CommitsOfNonNumeric(t: string)
    requires t != [] && forall i | 0 <= i < |t| :: !IsDigit(t[i])
    ensures CommitsOf(Some(t)) == NaN
  {
    ParseNonNumeric(t);
  }

  /** The trimmed link text, or "" when there is no user cell or no link. */
  function UsernameOf(cell: Option<UserCell>): (r: string)
    ensures cell.Some? && cell.value.anchor.Some? ==> r == Trim(cell.value.anchor.value.text)
    ensures cell.None? || cell.value.anchor.None? ==> r == ""
  {
    match cell
    case Some(UserCell(Some(a), _)) => Trim(a.text)
    case _ => ""
  }

  /** A username neither starts nor ends with whitespace. */
  lemma UsernameTrimmed(cell: Option<UserCell>)
    ensures var r := UsernameOf(cell);
      r == [] || (!IsWhitespace(r[0]) && !IsWhitespace(r[|r| - 1]))
  {
  }

  /** The link's `href`, or "" when any part of the path to it is missing. */
  function ProfileOf(cell: Option<UserCell>): (r: string)
    ensures cell.Some? && cell.value.anchor.Some? && cell.value.anchor.value.href.Some? ==>
      r == cell.value.anchor.value.href.value
    ensures cell.None? || cell.value.anchor.None? || cell.value.anchor.value.href.None? ==> r == ""
  {
    if cell.Some? && cell.value.anchor.Some? then cell.value.anchor.value.href.GetOr("") else ""
  }

  /** `s.replace(/^\(|\)$/g, "")`: one leading "(" and one trailing ")" go, nothing else. */
  function StripParens(s: string): (r: string)
    ensures var lead := if StartsWith(s, "(") then 1 else 0;
      var trail := if |s| > lead && s[|s| - 1] == ')' then 1 else 0;
      |r| == |s| - lead - trail && InfixAt(r, s, lead)
  {
    var lead := if |s| > 0 && s[0] == '(' then 1 else 0;
    var trail := if |s| > lead && s[|s| - 1] == ')' then 1 else 0;
    assert StartsWith(s, "(") <==> lead == 1;
    s[lead..|s| - trail]
  }

  /** `r` occurs in `s` starting at position `i`. */
  predicate InfixAt(r: string, s: string, i: nat) {
    i + |r| <= |s| && s[i..i + |r|] == r
  }

  /** A parenthesised name loses exactly its parentheses. */
  lemma StripParensWrapped(t: string)
    ensures StripParens("(" + t + ")") == t
  {
    var s := "(" + t + ")";
    assert StartsWith(s, "(");
    assert s[1..] == t + ")";
  }

  /** Only an opening parenthesis: it goes, and the rest stays. */
  lemma StripParensOpenOnly(t: string)
    requires !EndsWith(t, ")")
    ensures StripParens("(" + t) == t
  {
    var s := "(" + t;
    assert s[1..] == t;
  }

  /** Only a closing parenthesis: it goes, and the rest stays. */
  lemma StripParensCloseOnly(t: string)
    requires !StartsWith(t, "(")
    ensures StripParens(t + ")") == t
  {
    var s := t + ")";
    assert !StartsWith(s, "(") by {
      if t == [] {
        assert s[0] == ')';
      } else {
        assert s[0] == t[0];
      }
    }
    assert s[..|s| - 1] == t;
  }

  /** A name without parentheses at its ends is kept as it is. */
  lemma StripParensBare(t: string)
    requires !StartsWith(t, "(") && !EndsWith(t, ")")
    ensures StripParens(t) == t
  {
  }

  /** The real name: the trimmed text after `<br>`, without its parentheses. */
  function RealnameOf(cell: Option<UserCell>): (r: string)
    ensures cell.None? || cell.value.afterBreak.None? ==> r == ""
    ensures cell.Some? && cell.value.afterBreak.Some? ==> r == StripParens(Trim(cell.value.afterBreak.value))
  {
    if cell.Some? && cell.value.afterBreak.Some? then StripParens(Trim(cell.value.afterBreak.value)) else ""
  }

  /** One row becomes a committer exactly when its trimmed username is not empty. */
  function NormalizeRow(row: Row): (r: Option<Committer>)
    ensures r.Some? <==> UsernameOf(row.userCell) != ""
    ensures r.Some? ==> r.value.username == UsernameOf(row.userCell)
  {
    var username := UsernameOf(row.userCell);
    if username == "" then None
    else Some(Committer(
      RankOf(row.rankCell),
      username,
      ProfileOf(row.userCell),
      CommitsOf(row.commitsCell),
      row.avatarSrc.GetOr(""),
      RealnameOf(row.userCell)))
  }

  /**
   * What a kept row's committer holds, cell by cell: the trimmed link text, the
   * link's `href`, the image's `data-src` (each "" when missing), and the real
   * name after `<br>` without its parentheses.
   */
  lemma NormalizeRowFields(row: Row)
    requires UsernameOf(row.userCell) != ""
    ensures row.userCell.Some? && row.userCell.value.anchor.Some?
    ensures var c, a := NormalizeRow(row).value, row.userCell.value.anchor.value;
      && c.username == Trim(a.text)
      && (a.href.Some? ==> c.profile == a.href.value)
      && (a.href.None? ==> c.profile == "")
      && (row.avatarSrc.Some? ==> c.avatar == row.avatarSrc.value)
      && (row.avatarSrc.None? ==> c.avatar == "")
      && (row.userCell.value.afterBreak.Some? ==> c.realname == StripParens(Trim(row.userCell.value.afterBreak.value)))
      && (row.userCell.value.afterBreak.None? ==> c.realname == "")
  {
  }

  /** The numbers of a kept row: a missing or empty cell is 0, anything else is `parseInt`
      of the text (after the first "." is removed, for the rank). */
  lemma NormalizeRowNumbers(row: Row)
    requires UsernameOf(row.userCell) != ""
    ensures var c := NormalizeRow(row).value;
      && (row.rankCell.None? ==> c.rank == Int(0))
      && (row.rankCell.Some? && ReplaceFirst(row.rankCell.value, '.') == "" ==> c.rank == Int(0))
      && (row.rankCell.Some? && ReplaceFirst(row.rankCell.value, '.') != "" ==>
            c.rank == ParseInt(ReplaceFirst(row.rankCell.value, '.')))
      && (row.commitsCell.None? || row.commitsCell.value == "" ==> c.commits == Int(0))
      && (row.commitsCell.Some? && row.commitsCell.value != "" ==> c.commits == ParseInt(row.commitsCell.value))
  {
  }

  /** The `users` of a snapshot: the committers of the rows that have a username. */
  function NormalizeRows(rows: seq<Row>): (r: seq<Committer>)
    ensures |r| <= |rows|
    ensures forall k | 0 <= k < |r| :: r[k].username != ""
  {
    FilterMapAll(NormalizeRow, rows, (c: Committer) => c.username != "");
    FilterMap(NormalizeRow, rows)
  }

  /** Rows are normalised one by one, in order: the normalisation of a concatenation
      is the concatenation of the normalisations. */
  lemma NormalizeRowsAppend(a: seq<Row>, b: seq<Row>)
    ensures NormalizeRows(a + b) == NormalizeRows(a) + NormalizeRows(b)
  {
    FilterMapAppend(NormalizeRow, a, b);
  }

  /** Every committer of the snapshot comes from some row, and every row with a
      username contributes its committer. */
  lemma NormalizeRowsMembers(rows: seq<Row>, c: Committer)
    ensures c in NormalizeRows(rows) <==> exists k :: GivesAt(NormalizeRow, rows, k, c)
  {
    if c in NormalizeRows(rows) {
      FilterMapSound(NormalizeRow, rows, c);
    }
    if exists k :: GivesAt(NormalizeRow, rows, k, c) {
      var k :| GivesAt(NormalizeRow, rows, k, c);
      FilterMapComplete(NormalizeRow, rows, k, c);
    }
  }

  /** The response of the leaderboard query. */
  datatype Snapshot = Snapshot(users: seq<Committer>, generatedAt: string)

  /** `transformResponse`: the rows of the users table, and the text of the first
      `p code` element ("" when there is none). */
  function ParseSnapshot(code: Option<string>, rows: seq<Row>): (r: Snapshot)
    ensures code.None? ==> r.generatedAt == ""
    ensures code.Some? ==> r.generatedAt == code.value
    ensures r.users == NormalizeRows(rows)
  {
    Snapshot(NormalizeRows(rows), code.GetOr(""))
  }
}
