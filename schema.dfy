/**
 * The application tables of the inspection database (Default, Class, Area,
 * Report) and the constraints the schema declares on them: primary keys,
 * NOT NULL columns, UNIQUE columns and the one-to-many relations
 * Class -> Area -> Report.
 *
 * A table is a map from the integer primary key to the rest of the row.
 * The Report table keeps its storage order (a query without `orderBy`
 * returns rows in that order), so it is a sequence of rows that carry
 * their own id. The `createdAt`/`updatedAt` timestamps are not modelled.
 */
module Schema {
  import opened Wrappers

  /** A row of a table with a NOT NULL UNIQUE integer `rank` column. */
  datatype Ranked<T> = Ranked(rank: int, data: T)

  /** The columns of an Area other than id and rank. */
  datatype AreaData = AreaData(name: string, classId: int)

  /** The columns of a Default (a canned deficiency message) other than id and rank. */
  datatype DefaultData = DefaultData(shorthand: string, text: string)

  /** The columns of a Class other than its id. */
  datatype ClassRow = ClassRow(name: string)

  /**
   * A Report row. `date` is a YYYY-MM-DD text, `evidence` a nullable text
   * holding a JSON array of storage paths, `comment` a nullable text.
   */
  datatype Report = Report(
    id: int,
    date: string,
    text: string,
    evidence: Option<string>,
    comment: Option<string>,
    repeated: int,
    areaId: int)

  /** The values an INSERT into Report supplies; `repeated` may be omitted. */
  datatype ReportInsert = ReportInsert(
    date: string,
    text: string,
    evidence: Option<string>,
    comment: Option<string>,
    repeated: Option<int>,
    areaId: int)

  type AreaTable = map<int, Ranked<AreaData>>
  type DefaultTable = map<int, Ranked<DefaultData>>
  type ClassTable = map<int, ClassRow>

  /** A snapshot of the four application tables. */
  datatype Db = Db(
    classes: ClassTable,
    areas: AreaTable,
    defaults: DefaultTable,
    reports: seq<Report>)

  /** The UNIQUE index on `rank`: no two rows share a rank. */
  predicate RanksUnique<T>(t: map<int, Ranked<T>>) {
    forall i, j :: i in t && j in t && i != j ==> t[i].rank != t[j].rank
  }

  /**
   * The other UNIQUE columns of a ranked table, given as a relation that
   * holds of two rows exactly when they collide on one of those columns.
   */
  predicate NoClash<T>(t: map<int, Ranked<T>>, clash: (T, T) -> bool) {
    forall i, j :: i in t && j in t && i != j ==> !clash(t[i].data, t[j].data)
  }

  /** Area.name is UNIQUE. */
  predicate AreaClash(a: AreaData, b: AreaData) {
    a.name == b.name
  }

  /** Default.shorthand and Default.text are each UNIQUE. */
  predicate DefaultClash(a: DefaultData, b: DefaultData) {
    a.shorthand == b.shorthand || a.text == b.text
  }

  /** Class.name is UNIQUE. */
  predicate ClassNamesUnique(t: ClassTable) {
    forall i, j :: i in t && j in t && i != j ==> t[i].name != t[j].name
  }

  /** Report.id is the primary key. */
  predicate ReportIdsUnique(rs: seq<Report>) {
    forall i, j :: 0 <= i < j < |rs| ==> rs[i].id != rs[j].id
  }

  /** Every declared constraint of the application tables. */
  predicate Constraints(db: Db) {
    && RanksUnique(db.areas) && NoClash(db.areas, AreaClash)
    && RanksUnique(db.defaults) && NoClash(db.defaults, DefaultClash)
    && ClassNamesUnique(db.classes)
    && ReportIdsUnique(db.reports)
  }

  /**
   * The row stored for an INSERT into Report: the supplied columns are
   * stored as given and an omitted `repeated` takes the column default 0.
   */
  function StoredReport(id: int, ins: ReportInsert): Report {
    Report(id, ins.date, ins.text, ins.evidence, ins.comment,
           match ins.repeated case Some(n) => n case None => 0,
           ins.areaId)
  }
}
