/**
 * The inspection page's list of canned messages for one area
 * (`defaultGetAll` in `src/server/api/routers/admin/evaluate.ts`): every
 * Default in rank order, each marked with whether the area already got
 * that message today and how long its streak will be if it is given again.
 *
 * The current date is a parameter (`new Date()` in the source); the Report
 * table is the sequence of rows in storage order, which is the order an
 * unordered `findMany` returns them in.
 */
module Evaluate {
  import opened Wrappers
  import opened Schema
  import opened RankedTables
  import opened Calendar
  import opened Validators

  /** One returned Default: its own columns and the two computed fields. */
  datatype DefaultStatus = DefaultStatus(
    id: int,
    rank: int,
    shorthand: string,
    text: string,
    reportedToday: bool,
    repeatedToday: int)

  /** `report.findMany({ where: { date, areaId } })`: the matching reports, in storage order. */
  function ReportsOn(rs: seq<Report>, date: string, areaId: int): (r: seq<Report>)
    ensures |r| <= |rs|
    ensures forall x :: x in r <==> x in rs && x.date == date && x.areaId == areaId
  {
    if rs == [] then []
    else
      var rest := ReportsOn(rs[1..], date, areaId);
      if rs[0].date == date && rs[0].areaId == areaId then [rs[0]] + rest else rest
  }

  /**
   * The query keeps storage order: a report stored after the others comes
   * after their matches, and only if it matches itself.
   */
  lemma {:induction false} ReportsOnAppend(rs: seq<Report>, x: Report, date: string, areaId: int)
    ensures ReportsOn(rs + [x], date, areaId)
      == ReportsOn(rs, date, areaId) + (if x.date == date && x.areaId == areaId then [x] else [])
    decreases |rs|
  {
    if rs == [] {
      assert rs + [x] == [x];
    } else {
      assert (rs + [x])[1..] == rs[1..] + [x];
      ReportsOnAppend(rs[1..], x, date, areaId);
    }
  }

  /** Position of the first report with that text, or -1 when there is none. */
  function FirstWithText(rs: seq<Report>, text: string): (i: int)
    ensures -1 <= i < |rs|
    ensures i == -1 <==> forall k :: 0 <= k < |rs| ==> rs[k].text != text
    ensures i >= 0 ==> rs[i].text == text && forall k :: 0 <= k < i ==> rs[k].text != text
  {
    if rs == [] then -1
    else if rs[0].text == text then 0
    else
      var i := FirstWithText(rs[1..], text);
      if i == -1 then -1 else i + 1
  }

  /** `find(r => r.text === text)`: the first report with that text. */
  function FindByText(rs: seq<Report>, text: string): Option<Report> {
    var i := FirstWithText(rs, text);
    if i == -1 then None else Some(rs[i])
  }

  /** The computed fields of one Default, given the reports of today and of the reference date. */
  function Status(id: int, row: Ranked<DefaultData>, today: seq<Report>, reference: seq<Report>): DefaultStatus {
    var text := row.data.text;
    DefaultStatus(
      id, row.rank, row.data.shorthand, text,
      FindByText(today, text).Some?,
      match FindByText(reference, text)
      case None => 0
      case Some(r) => r.repeated + 1)
  }

  /** `defaults.map(...)` over the Defaults in rank order. */
  function StatusList(rows: seq<(int, Ranked<DefaultData>)>, today: seq<Report>, reference: seq<Report>)
    : (r: seq<DefaultStatus>)
    ensures |r| == |rows|
    ensures forall i :: 0 <= i < |rows| ==> r[i] == Status(rows[i].0, rows[i].1, today, reference)
  {
    if rows == [] then []
    else [Status(rows[0].0, rows[0].1, today, reference)] + StatusList(rows[1..], today, reference)
  }

  /**
   * The list for the area on the day written `date`, with `reference` the
   * date whose reports give the streaks.
   */
  function Statuses(defaults: DefaultTable, reports: seq<Report>, areaId: int, date: string, reference: string)
    : seq<DefaultStatus>
    requires RanksUnique(defaults)
  {
    StatusList(Listing(defaults), ReportsOn(reports, date, areaId), ReportsOn(reports, reference, areaId))
  }

  /**
   * `defaultGetAll({ areaId })` on the day `today`: the reference date is
   * what `getLastWorkday` gives for today's text; its failure is passed on.
   */
  function DefaultGetAll(defaults: DefaultTable, reports: seq<Report>, areaId: int, today: Date)
    : Result<seq<DefaultStatus>, string>
    requires RanksUnique(defaults) && ValidDate(today)
  {
    var todayText := FormatDate(today);
    match LastWorkday(todayText)
    case Failure(e) => Failure(e)
    case Success(lastWorkday) => Success(Statuses(defaults, reports, areaId, todayText, lastWorkday))
  }

  /**
   * For every four-digit year the call succeeds, and the reference date is
   * the last working day before today.
   */
  lemma ReferenceDate(defaults: DefaultTable, reports: seq<Report>, areaId: int, today: Date)
    requires RanksUnique(defaults) && ValidDate(today) && 1000 <= today.year <= 9999
    ensures DefaultGetAll(defaults, reports, areaId, today)
         == Success(Statuses(defaults, reports, areaId, FormatDate(today), FormatDate(LastWorkdayDate(today))))
  {
    LastWorkdayOfFormatted(today);
  }

  /**
   * The computed fields of one entry: `reportedToday` holds exactly when
   * some report of today has the Default's text, and `repeatedToday` is one
   * more than the `repeated` count of the first report of the reference date
   * with that text, or 0 when there is none.
   */
  lemma StatusFields(id: int, row: Ranked<DefaultData>, todays: seq<Report>, ref: seq<Report>)
    ensures var e := Status(id, row, todays, ref);
      && e.id == id && row == Ranked(e.rank, DefaultData(e.shorthand, e.text))
      && (e.reportedToday <==> exists x :: x in todays && x.text == e.text)
      && ((forall x :: x in ref ==> x.text != e.text) ==> e.repeatedToday == 0)
      && forall k :: 0 <= k < |ref| && ref[k].text == e.text
                     && (forall m :: 0 <= m < k ==> ref[m].text != e.text)
                     ==> e.repeatedToday == ref[k].repeated + 1
  {
    var e := Status(id, row, todays, ref);
    var i0 := FirstWithText(ref, e.text);
    forall k | 0 <= k < |ref| && ref[k].text == e.text && (forall m :: 0 <= m < k ==> ref[m].text != e.text)
      ensures e.repeatedToday == ref[k].repeated + 1
    {
      assert i0 == k;
    }
    var p := FirstWithText(todays, e.text);
    if p >= 0 {
      assert todays[p] in todays;
    }
  }

  /**
   * One entry per Default, in ascending rank order, each with the
   * Default's own columns.
   */
  lemma ListShape(defaults: DefaultTable, reports: seq<Report>, areaId: int, date: string, reference: string)
    requires RanksUnique(defaults)
    ensures var r := Statuses(defaults, reports, areaId, date, reference);
      && |r| == |defaults|
      && (forall i :: 0 <= i < |r| ==>
            r[i].id in defaults && defaults[r[i].id] == Ranked(r[i].rank, DefaultData(r[i].shorthand, r[i].text)))
      && (forall id :: id in defaults ==> exists i :: 0 <= i < |r| && r[i].id == id)
      && (forall i, j :: 0 <= i < j < |r| ==> r[i].rank < r[j].rank)
  {
    var rows := Listing(defaults);
    var todays, ref := ReportsOn(reports, date, areaId), ReportsOn(reports, reference, areaId);
    var r := StatusList(rows, todays, ref);
    assert r == Statuses(defaults, reports, areaId, date, reference);
    forall i | 0 <= i < |r|
      ensures r[i].id in defaults && defaults[r[i].id] == Ranked(r[i].rank, DefaultData(r[i].shorthand, r[i].text))
    {
      assert r[i] == Status(rows[i].0, rows[i].1, todays, ref);
    }
    forall id | id in defaults ensures exists i :: 0 <= i < |r| && r[i].id == id {
      var i := Listed(defaults, id);
      assert r[i] == Status(rows[i].0, rows[i].1, todays, ref);
    }
    forall i, j | 0 <= i < j < |r| ensures r[i].rank < r[j].rank {
      assert r[i] == Status(rows[i].0, rows[i].1, todays, ref);
      assert r[j] == Status(rows[j].0, rows[j].1, todays, ref);
    }
  }

  /**
   * `reportedToday` of an entry holds exactly when a report of the area
   * dated `date` has the Default's text, and `repeatedToday` is one more
   * than the `repeated` count of the first report of the area on the
   * reference date with that text, or 0 when there is none.
   */
  lemma EntryStatus(defaults: DefaultTable, reports: seq<Report>, areaId: int, date: string, reference: string, i: int)
    requires RanksUnique(defaults)
    requires 0 <= i < |defaults|
    ensures var r := Statuses(defaults, reports, areaId, date, reference);
      && |r| == |defaults|
      && (r[i].reportedToday <==>
            exists x :: x in reports && x.date == date && x.areaId == areaId && x.text == r[i].text)
      && var ref := ReportsOn(reports, reference, areaId);
      && ((forall x :: x in ref ==> x.text != r[i].text) ==> r[i].repeatedToday == 0)
      && forall k :: 0 <= k < |ref| && ref[k].text == r[i].text
                     && (forall m :: 0 <= m < k ==> ref[m].text != r[i].text)
                     ==> r[i].repeatedToday == ref[k].repeated + 1
  {
    var todays, ref := ReportsOn(reports, date, areaId), ReportsOn(reports, reference, areaId);
    var id, row := StatusesAt(defaults, reports, areaId, date, reference, i);
    StatusFields(id, row, todays, ref);
    ReportedOn(reports, date, areaId, row.data.text);
  }

  /** Entry `i` of the list is the status of some Default row. */
  lemma StatusesAt(defaults: DefaultTable, reports: seq<Report>, areaId: int, date: string, reference: string, i: int)
    returns (id: int, row: Ranked<DefaultData>)
    requires RanksUnique(defaults)
    requires 0 <= i < |defaults|
    ensures var r := Statuses(defaults, reports, areaId, date, reference);
      && |r| == |defaults|
      && r[i] == Status(id, row, ReportsOn(reports, date, areaId), ReportsOn(reports, reference, areaId))
  {
    var rows := Listing(defaults);
    id, row := rows[i].0, rows[i].1;
  }

  /** A report of the query's result has the text exactly when a matching report of the table has it. */
  lemma ReportedOn(reports: seq<Report>, date: string, areaId: int, text: string)
    ensures (exists x :: x in ReportsOn(reports, date, areaId) && x.text == text)
        <==> exists x :: x in reports && x.date == date && x.areaId == areaId && x.text == text
  {
    var todays := ReportsOn(reports, date, areaId);
    if exists x :: x in reports && x.date == date && x.areaId == areaId && x.text == text {
      var x :| x in reports && x.date == date && x.areaId == areaId && x.text == text;
      assert x in todays;
    }
  }

  /** The reports of one area. */
  function OfArea(rs: seq<Report>, areaId: int): (r: seq<Report>)
    ensures forall x :: x in r <==> x in rs && x.areaId == areaId
  {
    if rs == [] then []
    else if rs[0].areaId == areaId then [rs[0]] + OfArea(rs[1..], areaId)
    else OfArea(rs[1..], areaId)
  }

  /** Keeping only the area's reports does not change what the query finds. */
  lemma {:induction false} ReportsOnOfArea(rs: seq<Report>, date: string, areaId: int)
    ensures ReportsOn(OfArea(rs, areaId), date, areaId) == ReportsOn(rs, date, areaId)
  {
    if rs != [] {
      ReportsOnOfArea(rs[1..], date, areaId);
      if rs[0].areaId == areaId {
        var t := OfArea(rs, areaId);
        assert t[0] == rs[0] && t[1..] == OfArea(rs[1..], areaId);
      }
    }
  }

  /** Reports of other areas never affect the result. */
  lemma OtherAreasIrrelevant(defaults: DefaultTable, reports: seq<Report>, areaId: int, today: Date)
    requires RanksUnique(defaults) && ValidDate(today)
    ensures DefaultGetAll(defaults, OfArea(reports, areaId), areaId, today)
         == DefaultGetAll(defaults, reports, areaId, today)
  {
    var todayText := FormatDate(today);
    ReportsOnOfArea(reports, todayText, areaId);
    if LastWorkday(todayText).Success? {
      ReportsOnOfArea(reports, LastWorkday(todayText).value, areaId);
    }
  }

  /** On Monday 2024-06-10 the streaks come from Friday 2024-06-07. */
  lemma Monday(defaults: DefaultTable, reports: seq<Report>)
    requires RanksUnique(defaults)
    ensures DefaultGetAll(defaults, reports, 5, Date(2024, 6, 10))
         == Success(Statuses(defaults, reports, 5, "2024-06-10", "2024-06-07"))
  {
    TextExample();
  }

  /** The statuses for the streak example, computed from the two dates directly. */
  lemma StreakStatuses()
    ensures var defaults := map[1 := Ranked(1, DefaultData("垃圾", "垃圾未清"))];
      var reports := [Report(10, "2024-06-07", "垃圾未清", None, None, 2, 5)];
      && RanksUnique(defaults)
      && Statuses(defaults, reports, 5, "2024-06-10", "2024-06-07")
         == [DefaultStatus(1, 1, "垃圾", "垃圾未清", false, 3)]
  {
    var defaults := map[1 := Ranked(1, DefaultData("垃圾", "垃圾未清"))];
    var reports := [Report(10, "2024-06-07", "垃圾未清", None, None, 2, 5)];
    var rows := Listing(defaults);
    assert rows[0].0 in defaults;
    assert rows == [(1, defaults[1])];
    var ref := ReportsOn(reports, "2024-06-07", 5);
    assert ReportsOn(reports, "2024-06-10", 5) == [];
    assert ref == reports;
    assert FirstWithText(ref, "垃圾未清") == 0;
    var e := Status(1, defaults[1], [], ref);
    assert e == DefaultStatus(1, 1, "垃圾", "垃圾未清", false, 3);
    assert StatusList(rows, [], ref) == [e];
  }

  /**
   * A message the area got with `repeated` 2 on the reference day 2024-06-07
   * and not yet today (Monday 2024-06-10) comes back with a streak of 3.
   */
  lemma StreakExample()
    ensures var defaults := map[1 := Ranked(1, DefaultData("垃圾", "垃圾未清"))];
      var reports := [Report(10, "2024-06-07", "垃圾未清", None, None, 2, 5)];
      && RanksUnique(defaults)
      && DefaultGetAll(defaults, reports, 5, Date(2024, 6, 10))
         == Success([DefaultStatus(1, 1, "垃圾", "垃圾未清", false, 3)])
  {
    StreakStatuses();
    Monday(map[1 := Ranked(1, DefaultData("垃圾", "垃圾未清"))],
           [Report(10, "2024-06-07", "垃圾未清", None, None, 2, 5)]);
  }

  /** The statuses for the example without a streak, computed from the two dates directly. */
  lemma NoStreakStatuses()
    ensures var defaults := map[1 := Ranked(1, DefaultData("地板", "地板髒亂"))];
      var reports := [Report(10, "2024-06-07", "垃圾未清", None, None, 2, 5)];
      && RanksUnique(defaults)
      && Statuses(defaults, reports, 5, "2024-06-10", "2024-06-07")
         == [DefaultStatus(1, 1, "地板", "地板髒亂", false, 0)]
  {
    var defaults := map[1 := Ranked(1, DefaultData("地板", "地板髒亂"))];
    var reports := [Report(10, "2024-06-07", "垃圾未清", None, None, 2, 5)];
    var rows := Listing(defaults);
    assert rows[0].0 in defaults;
    assert ReportsOn(reports, "2024-06-10", 5) == [];
    var ref := ReportsOn(reports, "2024-06-07", 5);
    assert ref == reports;
    var text1, text2 := "垃圾未清", "地板髒亂";
    assert text1 != text2 by { assert text1[0] != text2[0]; }
    assert FirstWithText(ref, text2) == -1;
    assert rows == [(1, defaults[1])];
    var e := Status(1, defaults[1], [], ref);
    assert e == DefaultStatus(1, 1, "地板", "地板髒亂", false, 0);
    assert StatusList(rows, [], ref) == [e];
  }

  /** A message the area got on neither day comes back unreported with a streak of 0. */
  lemma NoStreakExample()
    ensures var defaults := map[1 := Ranked(1, DefaultData("地板", "地板髒亂"))];
      var reports := [Report(10, "2024-06-07", "垃圾未清", None, None, 2, 5)];
      && RanksUnique(defaults)
      && DefaultGetAll(defaults, reports, 5, Date(2024, 6, 10))
         == Success([DefaultStatus(1, 1, "地板", "地板髒亂", false, 0)])
  {
    NoStreakStatuses();
    Monday(map[1 := Ranked(1, DefaultData("地板", "地板髒亂"))],
           [Report(10, "2024-06-07", "垃圾未清", None, None, 2, 5)]);
  }
}
