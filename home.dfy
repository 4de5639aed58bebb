/**
 * The administrator's home page query `getReportsSortedByClass`
 * (`src/server/api/routers/admin/home.ts`): for one date, every Class by
 * ascending id, each with the reports of that date filed against one of
 * its Areas, each report carrying its Area row.
 */
module Home {
  import opened Wrappers
  import opened Schema
  import opened Ranking
  import opened Validators

  /** A report with its Area included (`include: { area: true }`). */
  datatype ReportWithArea = ReportWithArea(report: Report, areaId: int, area: Ranked<AreaData>)

  /** One Class (`...c`) with its reports. */
  datatype ClassReports = ClassReports(id: int, name: string, reports: seq<ReportWithArea>)

  /** Whether a report is on `date` and filed against an Area of class `c`. */
  predicate InClass(x: Report, date: string, areas: AreaTable, c: int) {
    x.date == date && x.areaId in areas && areas[x.areaId].data.classId == c
  }

  /**
   * `report.findMany({ where: { date, area: { classId } }, include: { area: true } })`,
   * in storage order.
   */
  function ReportsOfClass(rs: seq<Report>, date: string, areas: AreaTable, c: int): (r: seq<ReportWithArea>)
    ensures forall k :: 0 <= k < |r| ==>
      r[k].report in rs && InClass(r[k].report, date, areas, c)
      && r[k].areaId == r[k].report.areaId && r[k].area == areas[r[k].areaId]
    ensures forall x :: x in rs && InClass(x, date, areas, c) ==>
      ReportWithArea(x, x.areaId, areas[x.areaId]) in r
  {
    if rs == [] then []
    else
      var rest := ReportsOfClass(rs[1..], date, areas, c);
      var x := rs[0];
      if InClass(x, date, areas, c) then [ReportWithArea(x, x.areaId, areas[x.areaId])] + rest else rest
  }

  /** The per-class entries for the listed class ids. */
  function Entries(ids: seq<int>, classes: ClassTable, areas: AreaTable, reports: seq<Report>, date: string)
    : (r: seq<ClassReports>)
    requires forall i :: 0 <= i < |ids| ==> ids[i] in classes
    ensures |r| == |ids|
    ensures forall i :: 0 <= i < |ids| ==>
      r[i] == ClassReports(ids[i], classes[ids[i]].name, ReportsOfClass(reports, date, areas, ids[i]))
  {
    if ids == [] then []
    else
      [ClassReports(ids[0], classes[ids[0]].name, ReportsOfClass(reports, date, areas, ids[0]))]
      + Entries(ids[1..], classes, areas, reports, date)
  }

  /**
   * `getReportsSortedByClass({ date })`: a date that is empty or not of the
   * YYYY-MM-DD shape is refused (None); otherwise one entry per class.
   */
  function GetReportsSortedByClass(date: string, db: Db): (r: Option<seq<ClassReports>>)
    ensures r.None? <==> !DateFieldOk(date)
  {
    if !DateFieldOk(date) then None
    else Some(Entries(AscendingKeys(db.classes), db.classes, db.areas, db.reports, date))
  }

  /**
   * Exactly one entry per class, by strictly ascending class id, each with
   * the class's own name.
   */
  lemma OnePerClass(date: string, db: Db)
    requires DateFieldOk(date)
    ensures var r := GetReportsSortedByClass(date, db).value;
      && |r| == |db.classes|
      && (forall i :: 0 <= i < |r| ==> r[i].id in db.classes && r[i].name == db.classes[r[i].id].name)
      && (forall c :: c in db.classes ==> exists i :: 0 <= i < |r| && r[i].id == c)
      && (forall i, j :: 0 <= i < j < |r| ==> r[i].id < r[j].id)
  {
    var ids := AscendingKeys(db.classes);
    var r := Entries(ids, db.classes, db.areas, db.reports, date);
    assert GetReportsSortedByClass(date, db).value == r;
    forall i | 0 <= i < |r| ensures r[i].id == ids[i] && r[i].name == db.classes[ids[i]].name {
    }
    forall c | c in db.classes ensures exists i :: 0 <= i < |r| && r[i].id == c {
      var i :| 0 <= i < |ids| && ids[i] == c;
      assert r[i].id == c;
    }
  }

  /**
   * Every report listed under a class is a report of that date whose Area
   * belongs to that class, and carries that Area's row.
   */
  lemma EntriesSound(date: string, db: Db, i: int, k: int)
    requires DateFieldOk(date)
    requires 0 <= i < |db.classes|
    requires 0 <= k < |GetReportsSortedByClass(date, db).value[i].reports|
    ensures var e := GetReportsSortedByClass(date, db).value[i];
      var x := e.reports[k];
      && x.report in db.reports && x.report.date == date
      && x.report.areaId in db.areas && x.area == db.areas[x.report.areaId]
      && x.area.data.classId == e.id
  {
    var ids := AscendingKeys(db.classes);
    var r := Entries(ids, db.classes, db.areas, db.reports, date);
    assert GetReportsSortedByClass(date, db).value == r;
    assert r[i].reports == ReportsOfClass(db.reports, date, db.areas, ids[i]);
  }

  /** Whether a report with that Report row is listed. */
  predicate Lists(rs: seq<ReportWithArea>, x: Report) {
    exists k :: 0 <= k < |rs| && rs[k].report == x
  }

  /**
   * Every report of that date whose Area belongs to an existing class is
   * listed under that class, and under no other.
   */
  lemma EntriesComplete(date: string, db: Db, x: Report)
    requires DateFieldOk(date)
    requires x in db.reports && x.date == date && x.areaId in db.areas
    requires db.areas[x.areaId].data.classId in db.classes
    ensures var r := GetReportsSortedByClass(date, db).value;
      forall i :: 0 <= i < |r| ==> (Lists(r[i].reports, x) <==> r[i].id == db.areas[x.areaId].data.classId)
  {
    var ids := AscendingKeys(db.classes);
    var r := Entries(ids, db.classes, db.areas, db.reports, date);
    assert GetReportsSortedByClass(date, db).value == r;
    forall i | 0 <= i < |r|
      ensures Lists(r[i].reports, x) <==> r[i].id == db.areas[x.areaId].data.classId
    {
      ListedUnderItsClass(db.reports, date, db.areas, ids[i], x);
    }
  }

  /** The query for class `c` lists a report of the date exactly when its Area is in `c`. */
  lemma ListedUnderItsClass(rs: seq<Report>, date: string, areas: AreaTable, c: int, x: Report)
    requires x in rs && x.date == date && x.areaId in areas
    ensures Lists(ReportsOfClass(rs, date, areas, c), x) <==> areas[x.areaId].data.classId == c
  {
    var q := ReportsOfClass(rs, date, areas, c);
    if areas[x.areaId].data.classId == c {
      var y := ReportWithArea(x, x.areaId, areas[x.areaId]);
      assert y in q;
      var k :| 0 <= k < |q| && q[k] == y;
      assert q[k].report == x;
    }
  }

  /**
   * A class gets an empty list exactly when none of its Areas has a report
   * on that date.
   */
  lemma EmptyEntry(date: string, db: Db, i: int)
    requires DateFieldOk(date)
    requires 0 <= i < |db.classes|
    ensures var e := GetReportsSortedByClass(date, db).value[i];
      e.reports == [] <==>
        forall x :: x in db.reports && x.date == date && x.areaId in db.areas
          ==> db.areas[x.areaId].data.classId != e.id
  {
    var ids := AscendingKeys(db.classes);
    var r := Entries(ids, db.classes, db.areas, db.reports, date);
    assert GetReportsSortedByClass(date, db).value == r;
    assert r[i].reports == ReportsOfClass(db.reports, date, db.areas, ids[i]) && r[i].id == ids[i];
    EmptyForClass(db.reports, date, db.areas, ids[i]);
  }

  /** The query for class `c` is empty exactly when no report of the date has an Area in `c`. */
  lemma EmptyForClass(rs: seq<Report>, date: string, areas: AreaTable, c: int)
    ensures ReportsOfClass(rs, date, areas, c) == [] <==>
      forall x :: x in rs && x.date == date && x.areaId in areas ==> areas[x.areaId].data.classId != c
  {
    var q := ReportsOfClass(rs, date, areas, c);
    if q == [] {
      forall x | x in rs && x.date == date && x.areaId in areas
        ensures areas[x.areaId].data.classId != c
      {
        ListedUnderItsClass(rs, date, areas, c, x);
      }
    } else {
      assert InClass(q[0].report, date, areas, c);
    }
  }
}
