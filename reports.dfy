/**
 * The Report table as the inspection page and the home page change it:
 * `submitReport` (`src/server/api/routers/admin/evaluate.ts`) inserts one
 * validated report, `reportDeleteOne` (`src/server/api/routers/admin/home.ts`)
 * removes one by id.
 *
 * The rows keep their storage order; ids come from an AUTOINCREMENT counter
 * and are never reused. The schema declares no database-level foreign key on
 * `areaId`, so the insert stores whatever area id the form names.
 */
module Reports {
  import opened Wrappers
  import opened Schema
  import opened Validators

  /** Why a request on the Report table fails. */
  datatype ReportError =
    | InvalidInput         // the input schema refused the request
    | RecordNotFound       // `delete` of an id that has no row

  /**
   * The INSERT that `submitReport` issues for an accepted form: the date,
   * text, area, evidence and comment as given, and `repeated` as
   * `parseInt` reads it.
   */
  function SubmittedInsert(f: ReportForm): (ins: ReportInsert)
    requires RepeatedOk(f.repeated)
    ensures ins.repeated.Some? && 1 <= ins.repeated.value <= 30
  {
    ReportInsert(f.date, f.text, Some(f.evidence), f.comment, ParseInt(f.repeated), f.areaId)
  }

  /** The row a report form is stored as, under id `id`. */
  function SubmittedRow(id: int, f: ReportForm): Report
    requires RepeatedOk(f.repeated)
  {
    StoredReport(id, SubmittedInsert(f))
  }

  /**
   * A stored submission keeps every field of the form verbatim except
   * `repeated`, which is the number `parseInt` reads from the text, from 1
   * to 30; the date has the YYYY-MM-DD shape and the text is not empty.
   */
  lemma SubmittedFields(id: int, f: ReportForm, jsonParse: string -> Option<Json>)
    requires EvaluateReportOk(f, jsonParse)
    ensures var r := SubmittedRow(id, f);
      && r.id == id && r.date == f.date && r.text == f.text && r.areaId == f.areaId
      && r.evidence == Some(f.evidence) && r.comment == f.comment
      && Some(r.repeated) == ParseInt(f.repeated) && 1 <= r.repeated <= 30
      && DateShapeOk(r.date) && |r.text| >= 1 && r.areaId >= 1
  {
    DateFieldIsShape(f.date);
  }

  /** The repeated count "07" is stored as 7. */
  lemma SubmittedLeadingZero(id: int, f: ReportForm)
    requires f.repeated == "07"
    ensures RepeatedOk(f.repeated) && SubmittedRow(id, f).repeated == 7
  {
    LeadingZero();
  }

  /** The position of the report with that id, or -1. */
  function IndexOfId(rs: seq<Report>, id: int): (i: int)
    ensures -1 <= i < |rs|
    ensures i == -1 <==> forall k :: 0 <= k < |rs| ==> rs[k].id != id
    ensures i >= 0 ==> rs[i].id == id
  {
    if rs == [] then -1
    else if rs[0].id == id then 0
    else
      var i := IndexOfId(rs[1..], id);
      if i == -1 then -1 else i + 1
  }

  /** The rows without the one at position `i`. */
  function Without(rs: seq<Report>, i: int): (r: seq<Report>)
    requires 0 <= i < |rs|
    ensures |r| == |rs| - 1
    ensures forall k :: 0 <= k < |r| ==> r[k] == rs[if k < i then k else k + 1]
  {
    rs[..i] + rs[i + 1..]
  }

  /**
   * Removing the row with a given id (ids being unique) drops exactly that
   * row: every other row stays, in its order, and no row with that id is left.
   */
  lemma WithoutOnlyThatReport(rs: seq<Report>, id: int)
    requires ReportIdsUnique(rs) && IndexOfId(rs, id) >= 0
    ensures var r := Without(rs, IndexOfId(rs, id));
      && |r| == |rs| - 1 && ReportIdsUnique(r)
      && (forall x :: x in r <==> x in rs && x.id != id)
      && forall k :: 0 <= k < |r| ==> r[k] == rs[if k < IndexOfId(rs, id) then k else k + 1]
  {
    var i := IndexOfId(rs, id);
    var r := Without(rs, i);
    forall a, b | 0 <= a < b < |r| ensures r[a].id != r[b].id {
      assert r[a] == rs[if a < i then a else a + 1];
      assert r[b] == rs[if b < i then b else b + 1];
    }
    WithoutMembers(rs, i);
  }

  /** The rows left after removing position `i` are the others, when ids are unique. */
  lemma WithoutMembers(rs: seq<Report>, i: int)
    requires ReportIdsUnique(rs) && 0 <= i < |rs|
    ensures forall x :: x in Without(rs, i) <==> x in rs && x.id != rs[i].id
  {
    var r, id := Without(rs, i), rs[i].id;
    forall x | x in rs && x.id != id ensures x in r {
      var k :| 0 <= k < |rs| && rs[k] == x;
      if k < i { assert r[k] == x; } else { assert r[k - 1] == x; }
    }
    forall x | x in r ensures x in rs && x.id != id {
      var k :| 0 <= k < |r| && r[k] == x;
      assert x == rs[if k < i then k else k + 1];
    }
  }

  /** The Report table. */
  class ReportTable {
    var rows: seq<Report>
    var lastId: int

    ghost predicate Valid()
      reads this
    {
      && ReportIdsUnique(rows)
      && lastId >= 0
      && forall k :: 0 <= k < |rows| ==> 1 <= rows[k].id <= lastId
    }

    constructor ()
      ensures Valid() && rows == [] && lastId == 0
    {
      rows := [];
      lastId := 0;
    }

    /**
     * `submitReport`: a form the input schema refuses changes nothing; an
     * accepted one is appended under the next id, whether or not its area
     * exists.
     */
    method SubmitReport(f: ReportForm, jsonParse: string -> Option<Json>)
      returns (r: Result<Report, ReportError>)
      modifies this
      requires Valid()
      ensures Valid()
      ensures !EvaluateReportOk(f, jsonParse) ==> r == Failure(InvalidInput)
      ensures r.Failure? ==> rows == old(rows) && lastId == old(lastId)
      ensures EvaluateReportOk(f, jsonParse) ==>
        && r == Success(SubmittedRow(old(lastId) + 1, f))
        && rows == old(rows) + [r.value] && lastId == old(lastId) + 1
    {
      if !EvaluateReportOk(f, jsonParse) {
        return Failure(InvalidInput);
      }
      var row := SubmittedRow(lastId + 1, f);
      rows := rows + [row];
      lastId := lastId + 1;
      r := Success(row);
    }

    /**
     * `reportDeleteOne`: an id below 1 is refused by the input schema, an
     * id with no row is reported, otherwise exactly that row goes.
     */
    method DeleteOne(reportId: int) returns (r: Result<(), ReportError>)
      modifies this
      requires Valid()
      ensures Valid() && lastId == old(lastId)
      ensures reportId < 1 ==> r == Failure(InvalidInput)
      ensures reportId >= 1 && IndexOfId(old(rows), reportId) == -1 ==> r == Failure(RecordNotFound)
      ensures r.Failure? ==> rows == old(rows)
      ensures reportId >= 1 && IndexOfId(old(rows), reportId) >= 0 ==>
        r == Success(()) && rows == Without(old(rows), IndexOfId(old(rows), reportId))
    {
      if reportId < 1 {
        return Failure(InvalidInput);
      }
      var i := IndexOfId(rows, reportId);
      if i == -1 {
        return Failure(RecordNotFound);
      }
      WithoutOnlyThatReport(rows, reportId);
      rows := Without(rows, i);
      r := Success(());
    }
  }
}
