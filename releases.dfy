/**
 * The class-level queries of the Release record. The releases table is a
 * sequence of rows and "today" is an argument; every query is a function of
 * the two.
 */
module Releases {
  import opened Wrappers
  import opened RubyText
  import opened VersionKey

  /** A calendar date as a day number; the table compares dates in calendar order. */
  type Date = int

  /** The apps whose version each release records, one column each. */
  datatype App =
    | MySageOne | AccountantEdition | Accounts | AccountsExtra | Addons
    | Payroll | Collaborate | AccountsProduction | SageOneCorpTaxUk | Help

  /** The column that holds an app's version. */
  function ColumnName(app: App): string {
    match app
    case MySageOne => "mysageone"
    case AccountantEdition => "accountant_edition"
    case Accounts => "accounts"
    case AccountsExtra => "accounts_extra"
    case Addons => "addons"
    case Payroll => "payroll"
    case Collaborate => "collaborate"
    case AccountsProduction => "accounts_production"
    case SageOneCorpTaxUk => "sageone_corp_tax_uk"
    case Help => "help"
  }

  /** `Release.repositories`: every app once, in the order `self.repositories` lists them. */
  function Repositories(): (apps: seq<App>)
    ensures |apps| == 10
    ensures forall app: App :: app in apps
    ensures forall i, j :: 0 <= i < j < |apps| ==> apps[i] != apps[j]
    ensures forall i, j :: 0 <= i < j < |apps| ==> ColumnName(apps[i]) != ColumnName(apps[j])
  {
    var apps := [MySageOne, AccountantEdition, Accounts, AccountsExtra, Addons,
                 Payroll, Collaborate, AccountsProduction, SageOneCorpTaxUk, Help];
    forall app: App ensures app in apps {
      if app.MySageOne? { assert apps[0] == app; }
      else if app.AccountantEdition? { assert apps[1] == app; }
      else if app.Accounts? { assert apps[2] == app; }
      else if app.AccountsExtra? { assert apps[3] == app; }
      else if app.Addons? { assert apps[4] == app; }
      else if app.Payroll? { assert apps[5] == app; }
      else if app.Collaborate? { assert apps[6] == app; }
      else if app.AccountsProduction? { assert apps[7] == app; }
      else if app.SageOneCorpTaxUk? { assert apps[8] == app; }
      else { assert apps[9] == app; }
    }
    apps
  }

  /**
   * One row of the releases table. Every column may be NULL (`None`); a NULL
   * version column is an app missing from `versions`.
   */
  datatype Row = Row(
    date: Option<Date>,
    status: Option<string>,
    coordinator: Option<string>,
    notes: Option<string>,
    versions: map<App, string>)

  /** `release[app]` */
  function Slot(r: Row, app: App): Option<string> {
    if app in r.versions then Some(r.versions[app]) else None
  }

  // ---------------------------------------------------------------------------
  // Release.version(app, release)
  // ---------------------------------------------------------------------------

  /**
   * The SQL condition `app != '' AND date <= ?`. A comparison with NULL is not
   * true, so a row without a date or without a value, or a release without a
   * date, never qualifies. Only the empty string is excluded: a version of
   * white space qualifies although `present?` calls it blank.
   */
  predicate Qualifies(r: Row, app: App, asOf: Option<Date>) {
    app in r.versions && r.versions[app] != ""
    && r.date.Some? && asOf.Some? && r.date.value <= asOf.value
  }

  /** `where("#{app} != '' AND date <= ?", asOf).pluck(app)`: the qualifying values, in table order. */
  function Candidates(table: seq<Row>, app: App, asOf: Option<Date>): (vs: seq<string>)
    ensures forall v :: v in vs <==> exists r :: r in table && Qualifies(r, app, asOf) && r.versions[app] == v
  {
    if |table| == 0 then []
    else
      var rest := Candidates(table[1..], app, asOf);
      assert forall r :: r in table <==> r == table[0] || r in table[1..];
      if Qualifies(table[0], app, asOf) then [table[0].versions[app]] + rest else rest
  }

  /**
   * `Release.version(app, release)`: nil for a nil release; the release's own
   * version when it is present; otherwise the greatest version by key among
   * the rows dated on or before the release, or "-" when there is none.
   */
  function Version(table: seq<Row>, app: App, release: Option<Row>): (r: Option<string>)
    ensures release.None? <==> r.None?
  {
    match release
    case None => None
    case Some(rel) =>
      if Present(Slot(rel, app)) then Slot(rel, app)
      else Some(LastOrDash(SortBy(Key, Candidates(table, app, rel.date))))
  }

  /** A present version of the release itself is returned unchanged. */
  lemma VersionOwnSlot(table: seq<Row>, app: App, rel: Row)
    requires Present(Slot(rel, app))
    ensures Version(table, app, Some(rel)) == Some(rel.versions[app])
  {
  }

  /** A nil release gives nil. */
  lemma VersionOfNil(table: seq<Row>, app: App)
    ensures Version(table, app, None) == None
  {
  }

  /**
   * With the release's own version blank, the answer comes from a row dated on
   * or before it with a non-empty value for the app, and no such row has a
   * version whose key is greater.
   */
  lemma VersionFallbackIsGreatest(table: seq<Row>, app: App, rel: Row)
    requires Blank(Slot(rel, app))
    requires exists r :: r in table && Qualifies(r, app, rel.date)
    ensures var v := Version(table, app, Some(rel)).value;
      (exists r :: r in table && Qualifies(r, app, rel.date) && r.versions[app] == v)
      && forall r :: r in table && Qualifies(r, app, rel.date) ==> VersionLe(r.versions[app], v)
  {
    var vs := Candidates(table, app, rel.date);
    var sorted := SortBy(Key, vs);
    var v := LastOrDash(sorted);
    assert Version(table, app, Some(rel)) == Some(v);
    var r0 :| r0 in table && Qualifies(r0, app, rel.date);
    assert r0.versions[app] in vs;
    LastOfSortedIsGreatest(Key, vs, sorted);
    assert v in vs;
    forall r | r in table && Qualifies(r, app, rel.date)
      ensures VersionLe(r.versions[app], v)
    {
      assert r.versions[app] in vs;
    }
  }

  /** With the release's own version blank and no qualifying row, the answer is "-". */
  lemma VersionFallbackDash(table: seq<Row>, app: App, rel: Row)
    requires Blank(Slot(rel, app))
    requires forall r :: r in table ==> !Qualifies(r, app, rel.date)
    ensures Version(table, app, Some(rel)) == Some("-")
  {
    var vs := Candidates(table, app, rel.date);
    LastOfSortedIsGreatest(Key, vs, SortBy(Key, vs));
  }

  /**
   * A release without its own version takes the version of an earlier one: with
   * yesterday's release at `v` and tomorrow's without a value, tomorrow's
   * version is `v`.
   */
  lemma VersionFromEarlierRelease(app: App, today: Date, yesterdays: Row, tomorrows: Row, v: string)
    requires yesterdays.date == Some(today - 1) && Slot(yesterdays, app) == Some(v) && Present(Some(v))
    requires tomorrows.date == Some(today + 1) && Slot(tomorrows, app) == None
    ensures Version([yesterdays, tomorrows], app, Some(tomorrows)) == Some(v)
  {
    var table := [yesterdays, tomorrows];
    assert Candidates(table[1..], app, tomorrows.date) == [];
    assert Candidates(table, app, tomorrows.date) == [v];
    assert SortBy(Key, [v]) == [v];
  }

  /** With yesterday's release only, it is the last release and there is no next one. */
  lemma LastReleaseIsYesterdays(today: Date, yesterdays: Row)
    requires yesterdays.date == Some(today - 1)
    ensures LastRelease([yesterdays], today) == Some(yesterdays)
    ensures NextRelease([yesterdays], today) == None
  {
  }

  /** With tomorrow's release only, it is the next release and there is no last one. */
  lemma NextReleaseIsTomorrows(today: Date, tomorrows: Row)
    requires tomorrows.date == Some(today + 1)
    ensures NextRelease([tomorrows], today) == Some(tomorrows)
    ensures LastRelease([tomorrows], today) == None
  {
  }

  /** `v` ranks at or below `w` by version key. */
  predicate VersionLe(v: string, w: string) {
    LeBy(Key, v, w)
  }

  // ---------------------------------------------------------------------------
  // Release.last_release and Release.next_release
  // ---------------------------------------------------------------------------

  /** `date < today` */
  predicate Before(r: Row, today: Date) {
    r.date.Some? && r.date.value < today
  }

  /** `date >= today` */
  predicate OnOrAfter(r: Row, today: Date) {
    r.date.Some? && r.date.value >= today
  }

  /**
   * `where("date < today").order('date').last`: nil when no row is dated
   * before today, otherwise a row dated before today that is at least as late
   * as every other such row.
   */
  function LastRelease(table: seq<Row>, today: Date): (r: Option<Row>)
    ensures r.None? <==> forall x :: x in table ==> !Before(x, today)
    ensures r.Some? ==> r.value in table && Before(r.value, today)
    ensures r.Some? ==> forall x :: x in table && Before(x, today) ==> x.date.value <= r.value.date.value
  {
    if |table| == 0 then None
    else
      var init := table[..|table| - 1];
      var x := table[|table| - 1];
      var rest := LastRelease(init, today);
      assert forall y :: y in table <==> y == x || y in init;
      if !Before(x, today) then rest
      else if rest.Some? && rest.value.date.value > x.date.value then rest
      else Some(x)
  }

  /**
   * `where("date >= today").order('date').first`: nil when no row is dated
   * today or later, otherwise such a row that is at least as early as every
   * other one.
   */
  function NextRelease(table: seq<Row>, today: Date): (r: Option<Row>)
    ensures r.None? <==> forall x :: x in table ==> !OnOrAfter(x, today)
    ensures r.Some? ==> r.value in table && OnOrAfter(r.value, today)
    ensures r.Some? ==> forall x :: x in table && OnOrAfter(x, today) ==> r.value.date.value <= x.date.value
  {
    if |table| == 0 then None
    else
      var x := table[0];
      var rest := NextRelease(table[1..], today);
      assert forall y :: y in table <==> y == x || y in table[1..];
      if !OnOrAfter(x, today) then rest
      else if rest.Some? && rest.value.date.value < x.date.value then rest
      else Some(x)
  }

  /** Every row dated falls on one side of today: the two queries split the dated rows. */
  lemma LastAndNextCoverDatedRows(table: seq<Row>, today: Date)
    requires exists x :: x in table && x.date.Some?
    ensures LastRelease(table, today).Some? || NextRelease(table, today).Some?
    ensures LastRelease(table, today).Some? && NextRelease(table, today).Some? ==>
      LastRelease(table, today).value.date.value < NextRelease(table, today).value.date.value
  {
    var x :| x in table && x.date.Some?;
    assert Before(x, today) || OnOrAfter(x, today);
  }
}
