/**
 * The Area and Default operations of the settings router
 * (`src/server/api/routers/admin/settings.ts`) that are specific to one of
 * the two tables: the rank-ordered listings and the create operations.
 * Delete, move up, move down and the bulk rank update are the same on both
 * tables and are the members of `RankedTables.RankedTable`.
 */
module Settings {
  import opened Wrappers
  import opened Schema
  import opened RankedTables
  import opened Validators

  /** The class of an Area as `areaGetAll` selects it. */
  datatype ClassRef = ClassRef(id: int, name: string)

  /** One row of `areaGetAll`. */
  datatype AreaView = AreaView(id: int, rank: int, name: string, areaClass: ClassRef)

  /** One row of `defaultGetAll` (the settings list). */
  datatype DefaultView = DefaultView(id: int, shorthand: string, text: string)

  /** Why `areaGetAll` fails. */
  datatype ListError =
    | MissingClass  // an Area's `classId` names no Class, so its required `class` relation cannot be read

  /** Every Area's `classId` names a Class. */
  predicate ClassesExist(areas: AreaTable, classes: ClassTable) {
    forall a :: a in areas ==> areas[a].data.classId in classes
  }

  function AreaViews(rows: seq<(int, Ranked<AreaData>)>, classes: ClassTable): (r: seq<AreaView>)
    requires forall i :: 0 <= i < |rows| ==> rows[i].1.data.classId in classes
    ensures |r| == |rows|
    ensures forall i :: 0 <= i < |rows| ==>
      var c := rows[i].1.data.classId;
      r[i] == AreaView(rows[i].0, rows[i].1.rank, rows[i].1.data.name, ClassRef(c, classes[c].name))
  {
    if rows == [] then []
    else
      var c := rows[0].1.data.classId;
      [AreaView(rows[0].0, rows[0].1.rank, rows[0].1.data.name, ClassRef(c, classes[c].name))]
      + AreaViews(rows[1..], classes)
  }

  /**
   * `areaGetAll`: every Area with its class, by ascending rank. The `class`
   * relation is required, so an Area whose class is missing fails the query.
   */
  function AreaGetAll(areas: AreaTable, classes: ClassTable): Result<seq<AreaView>, ListError>
    requires RanksUnique(areas)
  {
    if ClassesExist(areas, classes) then
      var rows := Listing(areas);
      assert forall i :: 0 <= i < |rows| ==> rows[i].1 == areas[rows[i].0];
      Success(AreaViews(rows, classes))
    else Failure(MissingClass)
  }

  /**
   * The query fails exactly when some Area's class is missing. Otherwise
   * there is one entry per Area, by strictly ascending rank, with the
   * Area's own columns and the id and name of its class.
   */
  lemma AreaListing(areas: AreaTable, classes: ClassTable)
    requires RanksUnique(areas)
    ensures AreaGetAll(areas, classes).Failure? <==> exists a :: a in areas && areas[a].data.classId !in classes
    ensures AreaGetAll(areas, classes).Success? ==>
      var r := AreaGetAll(areas, classes).value;
      && |r| == |areas|
      && (forall i :: 0 <= i < |r| ==>
            && r[i].id in areas && areas[r[i].id].rank == r[i].rank && areas[r[i].id].data.name == r[i].name
            && areas[r[i].id].data.classId in classes
            && r[i].areaClass == ClassRef(areas[r[i].id].data.classId, classes[areas[r[i].id].data.classId].name))
      && (forall id :: id in areas ==> exists i :: 0 <= i < |r| && r[i].id == id)
      && (forall i, j :: 0 <= i < j < |r| ==> r[i].rank < r[j].rank)
  {
    if ClassesExist(areas, classes) {
      var r := AreaGetAll(areas, classes).value;
      forall i | 0 <= i < |r|
        ensures && r[i].id in areas && areas[r[i].id].rank == r[i].rank && areas[r[i].id].data.name == r[i].name
                && areas[r[i].id].data.classId in classes
                && r[i].areaClass == ClassRef(areas[r[i].id].data.classId, classes[areas[r[i].id].data.classId].name)
      {
        AreaAt(areas, classes, i);
      }
      forall id | id in areas ensures exists i :: 0 <= i < |r| && r[i].id == id {
        var i := Listed(areas, id);
        AreaAt(areas, classes, i);
      }
      forall i, j | 0 <= i < j < |r| ensures r[i].rank < r[j].rank {
        AreaAt(areas, classes, i);
        AreaAt(areas, classes, j);
      }
    }
  }

  /** Entry `i` of `areaGetAll` is the `i`-th listed Area with its class. */
  lemma AreaAt(areas: AreaTable, classes: ClassTable, i: int)
    requires RanksUnique(areas) && ClassesExist(areas, classes) && 0 <= i < |areas|
    ensures var r, rows := AreaGetAll(areas, classes), Listing(areas);
      && r.Success? && |r.value| == |rows| == |areas|
      && rows[i].1.data.classId in classes
      && r.value[i] == AreaView(rows[i].0, rows[i].1.rank, rows[i].1.data.name,
                                ClassRef(rows[i].1.data.classId, classes[rows[i].1.data.classId].name))
  {
    var rows := Listing(areas);
    assert rows[i].1 == areas[rows[i].0];
  }

  function DefaultViews(rows: seq<(int, Ranked<DefaultData>)>): (r: seq<DefaultView>)
    ensures |r| == |rows|
    ensures forall i :: 0 <= i < |rows| ==>
      r[i] == DefaultView(rows[i].0, rows[i].1.data.shorthand, rows[i].1.data.text)
  {
    if rows == [] then []
    else [DefaultView(rows[0].0, rows[0].1.data.shorthand, rows[0].1.data.text)] + DefaultViews(rows[1..])
  }

  /** `defaultGetAll`: id, shorthand and text of every Default, by ascending rank. */
  function DefaultGetAll(defaults: DefaultTable): (r: seq<DefaultView>)
    requires RanksUnique(defaults)
    ensures |r| == |defaults|
  {
    DefaultViews(Listing(defaults))
  }

  /**
   * The settings list of Defaults names the rows in the listing order
   * `Order`, each with its own shorthand and text.
   */
  lemma DefaultListing(defaults: DefaultTable)
    requires RanksUnique(defaults)
    ensures var r := DefaultGetAll(defaults); var s := Order(defaults);
      && |r| == |s| == |defaults|
      && forall i :: 0 <= i < |r| ==>
           && r[i].id == s[i] && s[i] in defaults
           && r[i].shorthand == defaults[s[i]].data.shorthand && r[i].text == defaults[s[i]].data.text
  {
    var rows := Listing(defaults);
    var r := DefaultViews(rows);
    forall i | 0 <= i < |r|
      ensures r[i].id == Order(defaults)[i] && r[i].id in defaults
      ensures r[i].shorthand == defaults[r[i].id].data.shorthand && r[i].text == defaults[r[i].id].data.text
    {
      assert r[i] == DefaultView(rows[i].0, rows[i].1.data.shorthand, rows[i].1.data.text);
    }
  }

  /** Why a create fails. */
  datatype CreateError =
    | InvalidInput             // the input schema refused the request
    | NotAnInteger             // `parseInt(classId)` is NaN, which the Int column refuses
    | Rejected(cause: DbError)  // the insert was refused

  /**
   * `areaCreate`: validate, read the class id with `parseInt`, and append
   * the Area at the next rank. The schema declares no database-level
   * foreign key on `classId`, so a class id that names no Class is stored
   * as given.
   */
  method AreaCreate(areas: RankedTable<AreaData>, name: string, classId: string)
    returns (r: Result<int, CreateError>)
    modifies areas
    requires areas.Valid() && areas.clash == AreaClash
    ensures areas.Valid()
    ensures !AreaCreateOk(name, classId) ==> r == Failure(InvalidInput)
    ensures AreaCreateOk(name, classId) && ParseInt(classId).None? ==> r == Failure(NotAnInteger)
    ensures r.Failure? ==> areas.rows == old(areas.rows) && areas.lastId == old(areas.lastId)
    ensures r.Success? ==>
      && AreaCreateOk(name, classId) && ParseInt(classId).Some?
      && r.value == old(areas.lastId) + 1 && r.value !in old(areas.rows)
      && areas.rows == Append(old(areas.rows), r.value, AreaData(name, ParseInt(classId).value))
    ensures AreaCreateOk(name, classId) && ParseInt(classId).Some?
      && (forall j :: j in old(areas.rows) ==> old(areas.rows)[j].data.name != name)
      ==> r.Success?
  {
    if !AreaCreateOk(name, classId) {
      return Failure(InvalidInput);
    }
    var parsed := ParseInt(classId);
    if parsed.None? {
      return Failure(NotAnInteger);
    }
    var res := areas.Create(AreaData(name, parsed.value));
    r := match res
         case Success(id) => Success(id)
         case Failure(e) => Failure(Rejected(e));
  }

  /** `defaultCreate`: validate and append the Default at the next rank. */
  method DefaultCreate(defaults: RankedTable<DefaultData>, shorthand: string, text: string)
    returns (r: Result<int, CreateError>)
    modifies defaults
    requires defaults.Valid() && defaults.clash == DefaultClash
    ensures defaults.Valid()
    ensures !DefaultCreateOk(shorthand, text) ==> r == Failure(InvalidInput)
    ensures r.Failure? ==> defaults.rows == old(defaults.rows) && defaults.lastId == old(defaults.lastId)
    ensures r.Success? ==>
      && DefaultCreateOk(shorthand, text)
      && r.value == old(defaults.lastId) + 1 && r.value !in old(defaults.rows)
      && defaults.rows == Append(old(defaults.rows), r.value, DefaultData(shorthand, text))
    ensures DefaultCreateOk(shorthand, text)
      && (forall j :: j in old(defaults.rows) ==>
            old(defaults.rows)[j].data.shorthand != shorthand && old(defaults.rows)[j].data.text != text)
      ==> r.Success?
  {
    if !DefaultCreateOk(shorthand, text) {
      return Failure(InvalidInput);
    }
    var res := defaults.Create(DefaultData(shorthand, text));
    r := match res
         case Success(id) => Success(id)
         case Failure(e) => Failure(Rejected(e));
  }

  /** Position `i` of the settings list after a create. */
  lemma CreatedDefaultAt(t: DefaultTable, id: int, d: DefaultData, i: int)
    requires RanksUnique(t) && id !in t && 0 <= i <= |t|
    ensures RanksUnique(Append(t, id, d))
    ensures |DefaultGetAll(Append(t, id, d))| == |DefaultGetAll(t)| + 1
    ensures i < |t| ==> DefaultGetAll(Append(t, id, d))[i] == DefaultGetAll(t)[i]
    ensures i == |t| ==> DefaultGetAll(Append(t, id, d))[i] == DefaultView(id, d.shorthand, d.text)
  {
    var t' := Append(t, id, d);
    AppendSortsLast(t, id, d);
    DefaultListing(t);
    DefaultListing(t');
    var s, s' := Order(t), Order(t');
    if i < |t| {
      assert s'[i] == s[i];
      assert t'[s[i]] == t[s[i]];
    } else {
      assert s'[i] == id;
    }
  }

  /**
   * A created Default is listed last in the settings list, after the
   * Defaults listed before, which keep their order.
   */
  lemma CreatedDefaultListedLast(t: DefaultTable, id: int, d: DefaultData)
    requires RanksUnique(t) && id !in t
    ensures RanksUnique(Append(t, id, d))
    ensures var before, after := DefaultGetAll(t), DefaultGetAll(Append(t, id, d));
      && |after| == |before| + 1
      && (forall i :: 0 <= i < |before| ==> after[i] == before[i])
      && after[|before|] == DefaultView(id, d.shorthand, d.text)
  {
    CreatedDefaultAt(t, id, d, |t|);
    forall i | 0 <= i < |t| ensures DefaultGetAll(Append(t, id, d))[i] == DefaultGetAll(t)[i] {
      CreatedDefaultAt(t, id, d, i);
    }
  }
}
