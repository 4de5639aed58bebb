/**
 * Reordering the Defaults by drag and drop on the settings page
 * (`handleDragEnd` in `src/app/admin/settings/_tabs/default.tsx`): the
 * dragged item is moved to the drop position (`arrayMove`), the page shows
 * the new list at once, and the ranks 1..N of the new order are sent to
 * `defaultUpdateRanks`, which writes them verbatim in one transaction.
 */
module DragReorder {
  import opened Wrappers
  import opened Schema
  import opened Ranking
  import opened RankedTables
  import opened Settings

  /** `items.findIndex(item => item.id === id)`: the first position with that id, or -1. */
  function FindIndex(items: seq<DefaultView>, id: int): (i: int)
    ensures -1 <= i < |items|
    ensures i == -1 <==> forall k :: 0 <= k < |items| ==> items[k].id != id
    ensures i >= 0 ==> items[i].id == id && forall k :: 0 <= k < i ==> items[k].id != id
  {
    if items == [] then -1
    else if items[0].id == id then 0
    else
      var i := FindIndex(items[1..], id);
      if i == -1 then -1 else i + 1
  }

  /** Where the element shown at position `i` after a move from `from` to `to` came from. */
  function MovedFrom(i: int, from: int, to: int): int {
    if i == to then from
    else
      var j := if i < to then i else i - 1;
      if j < from then j else j + 1
  }

  /** Where the element at position `p` goes in a move from `from` to `to`. */
  function MovedTo(p: int, from: int, to: int): int {
    if p == from then to
    else
      var j := if p < from then p else p - 1;
      if j < to then j else j + 1
  }

  /** The two index maps of a move are inverse bijections of 0..n-1. */
  lemma MoveIndices(n: int, from: int, to: int)
    requires 0 <= from < n && 0 <= to < n
    ensures forall i :: 0 <= i < n ==>
      0 <= MovedFrom(i, from, to) < n && MovedTo(MovedFrom(i, from, to), from, to) == i
    ensures forall p :: 0 <= p < n ==>
      0 <= MovedTo(p, from, to) < n && MovedFrom(MovedTo(p, from, to), from, to) == p
  {
  }

  /** `arrayMove(items, from, to)`: take the element at `from` out and insert it at `to`. */
  function ArrayMove<X>(s: seq<X>, from: int, to: int): (r: seq<X>)
    requires 0 <= from < |s| && 0 <= to < |s|
    ensures |r| == |s|
    ensures forall i :: 0 <= i < |r| ==> 0 <= MovedFrom(i, from, to) < |s| && r[i] == s[MovedFrom(i, from, to)]
  {
    var rest := RemoveAt(s, from);
    rest[..to] + [s[from]] + rest[to..]
  }

  /**
   * A move puts the element taken from `from` at `to`, leaves the other
   * elements in their relative order, and is a permutation.
   */
  lemma ArrayMoveSpec<X>(s: seq<X>, from: int, to: int)
    requires 0 <= from < |s| && 0 <= to < |s|
    ensures var r := ArrayMove(s, from, to);
      && |r| == |s| && r[to] == s[from]
      && RemoveAt(r, to) == RemoveAt(s, from)
      && multiset(r) == multiset(s)
  {
    var rest := RemoveAt(s, from);
    var r := ArrayMove(s, from, to);
    assert r == rest[..to] + [s[from]] + rest[to..];
    assert RemoveAt(r, to) == rest by {
      assert r[..to] == rest[..to];
      assert r[to + 1..] == rest[to..];
    }
    InsertPermutes(rest, to, s[from]);
    RemovePermutes(s, from);
  }

  /** Inserting an element adds it to the multiset. */
  lemma InsertPermutes<X>(rest: seq<X>, to: int, x: X)
    requires 0 <= to <= |rest|
    ensures multiset(rest[..to] + [x] + rest[to..]) == multiset(rest) + multiset{x}
  {
    assert rest == rest[..to] + rest[to..];
  }

  /** Removing the element at `p` takes it out of the multiset. */
  lemma RemovePermutes<X>(s: seq<X>, p: int)
    requires 0 <= p < |s|
    ensures multiset(RemoveAt(s, p)) + multiset{s[p]} == multiset(s)
  {
    assert RemoveAt(s, p) == s[..p] + s[p + 1..];
    assert s == s[..p] + [s[p]] + s[p + 1..];
  }

  /** `newItems.map((item, index) => ({ id: item.id, rank: index + 1 }))`. */
  function RankUpdates(items: seq<DefaultView>): (ws: seq<Write>)
    ensures |ws| == |items|
    ensures forall i :: 0 <= i < |ws| ==> ws[i] == Write(items[i].id, i + 1)
  {
    if items == [] then []
    else
      var rest := RankUpdates(items[1..]);
      [Write(items[0].id, 1)] + seq(|rest|, i requires 0 <= i < |rest| => Write(rest[i].id, rest[i].rank + 1))
  }

  /** The ids of a list, in its order. */
  function Ids(items: seq<DefaultView>): (ids: seq<int>)
    ensures |ids| == |items| && forall i :: 0 <= i < |ids| ==> ids[i] == items[i].id
  {
    if items == [] then [] else [items[0].id] + Ids(items[1..])
  }

  /**
   * The update list has one entry per item, names the items in display
   * order, and gives them the ranks 1..N in that order.
   */
  lemma UpdatesSpec(items: seq<DefaultView>)
    ensures var ws := RankUpdates(items);
      && |ws| == |items|
      && (forall i :: 0 <= i < |ws| ==> ws[i].id == items[i].id)
      && (forall i :: 0 <= i < |ws| ==> ws[i].rank == i + 1)
  {
  }

  /** What a drop does on the page: the list it shows and the updates it sends. */
  datatype Drop = Drop(shown: seq<DefaultView>, updates: seq<Write>)

  /**
   * `handleDragEnd`: nothing happens without a drop target or when the item
   * is dropped on itself; otherwise the dragged item moves to the target's
   * position and the new ranks are computed. Both ids always come from the
   * list itself; a missing one is treated as no drop.
   */
  function DragEnd(items: seq<DefaultView>, active: int, over: Option<int>): Option<Drop> {
    if over.None? || over.value == active then None
    else
      var from := FindIndex(items, active);
      var to := FindIndex(items, over.value);
      if from == -1 || to == -1 then None
      else
        var shown := ArrayMove(items, from, to);
        Some(Drop(shown, RankUpdates(shown)))
  }

  /**
   * A drop on another item of the list moves the dragged item to that
   * item's position, keeps the others in their relative order, and sends
   * the ranks 1..N of the new order for exactly the items of the list.
   */
  lemma DragEndSpec(items: seq<DefaultView>, active: int, over: Option<int>)
    ensures over.None? || over.value == active ==> DragEnd(items, active, over).None?
    ensures over.Some? && over.value != active
            && FindIndex(items, active) >= 0 && FindIndex(items, over.value) >= 0 ==>
      var from, to := FindIndex(items, active), FindIndex(items, over.value);
      var d := DragEnd(items, active, over);
      && d.Some? && |d.value.shown| == |items|
      && d.value.shown[to] == items[from] && d.value.shown[to].id == active
      && RemoveAt(d.value.shown, to) == RemoveAt(items, from)
      && multiset(d.value.shown) == multiset(items)
      && |d.value.updates| == |d.value.shown|
      && (forall i :: 0 <= i < |d.value.updates| ==> d.value.updates[i].id == d.value.shown[i].id)
      && forall i :: 0 <= i < |d.value.updates| ==> d.value.updates[i].rank == i + 1
  {
    if over.Some? && over.value != active && FindIndex(items, active) >= 0 && FindIndex(items, over.value) >= 0 {
      var from, to := FindIndex(items, active), FindIndex(items, over.value);
      ArrayMoveSpec(items, from, to);
      UpdatesSpec(ArrayMove(items, from, to));
    }
  }

  // ---------------------------------------------------------------------
  // What the server does with the update list.
  // ---------------------------------------------------------------------

  /** The settings list names the rows in listing order, each id once. */
  lemma ListedIds(t: DefaultTable)
    requires RanksUnique(t)
    ensures var items := DefaultGetAll(t);
      && |items| == |t| == |Order(t)|
      && (forall i :: 0 <= i < |items| ==> items[i].id == Order(t)[i] && items[i].id in t)
      && (forall i, j :: 0 <= i < j < |items| ==> items[i].id != items[j].id)
  {
    DefaultListing(t);
    AscendingOrderDistinct(Ranks(t), Order(t));
  }

  /** The writes that give the rows listed in `n` the ranks 1..N in that order. */
  predicate RanksInOrder(n: seq<int>, ws: seq<Write>) {
    |ws| == |n| && forall i :: 0 <= i < |ws| ==> ws[i] == Write(n[i], i + 1)
  }

  /**
   * On a table whose ranks are 1..N, ranks 1..N written in a new order are
   * refused: the writes before the first position `m` where the order
   * differs change nothing, and the write at `m` asks for the rank that the
   * row still listed at `m` holds.
   */
  lemma DenseRewriteRejected<T>(t: Rows<T>, n: seq<int>, ws: seq<Write>, m: int)
    requires RanksUnique(t) && DenseRanks(t) && RanksInOrder(n, ws)
    requires 0 <= m < |n| && m < |Order(t)|
    requires forall i :: 0 <= i < m ==> n[i] == Order(t)[i]
    requires n[m] in t && n[m] != Order(t)[m]
    ensures ApplyWrites(t, ws) == Failure(UniqueViolation)
  {
    var s := Order(t);
    DensePositions(t);
    forall i | 0 <= i < m ensures ws[i].id in t && t[ws[i].id].rank == ws[i].rank {
      assert ws[i] == Write(s[i], i + 1);
    }
    NoOpPrefix(t, ws, m);
    var w := ws[m..];
    assert w[0] == Write(n[m], m + 1);
    WriteOntoTakenRank(t, w, s[m]);
  }

  /** Ranks 1..N written to a list naming every row once are a valid new ranking. */
  lemma RewriteIsValid<T>(t: Rows<T>, n: seq<int>, ws: seq<Write>)
    requires RanksInOrder(n, ws)
    requires forall i :: 0 <= i < |n| ==> n[i] in t
    requires forall i, j :: 0 <= i < j < |n| ==> n[i] != n[j]
    requires forall k :: k in t ==> k in n
    ensures ValidRanking(t, ws) && t.Keys <= WriteIds(ws)
  {
    assert DistinctIds(ws) by {
      forall i, j | 0 <= i < j < |ws| ensures ws[i].id != ws[j].id {
        assert ws[i].id == n[i] && ws[j].id == n[j];
      }
    }
    forall k | k in t ensures k in WriteIds(ws) {
      var i :| 0 <= i < |n| && n[i] == k;
      assert ws[i].id == k;
    }
  }

  /** After those writes, the row listed at position `i` of `n` has rank i + 1 and its data. */
  lemma RewriteRows<T>(t: Rows<T>, n: seq<int>, ws: seq<Write>)
    requires RanksInOrder(n, ws) && DistinctIds(ws)
    requires forall i :: 0 <= i < |n| ==> n[i] in t
    requires forall k :: k in t ==> k in n
    ensures var t' := Override(t, ws);
      && t'.Keys == t.Keys
      && (forall i :: 0 <= i < |n| ==> t'[n[i]] == t[n[i]].(rank := i + 1))
      && (forall j :: j in t ==> t'[j].data == t[j].data)
  {
    var t' := Override(t, ws);
    OverrideAt(t, ws);
    forall i | 0 <= i < |n| ensures t'[n[i]] == t[n[i]].(rank := i + 1) {
      assert ws[i] == Write(n[i], i + 1);
    }
    forall j | j in t ensures t'[j].data == t[j].data {
      var i :| 0 <= i < |n| && n[i] == j;
    }
  }

  /**
   * Ranks 1..N written, without a clash, to a list `n` naming every row
   * once leave the rows listed in exactly the order `n`, with their data.
   */
  lemma RewriteListsInOrder<T>(t: Rows<T>, n: seq<int>, ws: seq<Write>)
    requires RanksInOrder(n, ws)
    requires forall i :: 0 <= i < |n| ==> n[i] in t
    requires forall i, j :: 0 <= i < j < |n| ==> n[i] != n[j]
    requires forall k :: k in t ==> k in n
    ensures ValidRanking(t, ws)
    ensures var t' := Override(t, ws);
      && RanksUnique(t') && t'.Keys == t.Keys
      && (forall j :: j in t ==> t'[j].data == t[j].data)
      && Order(t') == n
  {
    RewriteIsValid(t, n, ws);
    RewriteRows(t, n, ws);
    var t' := Override(t, ws);
    forall i | 0 <= i < |n| ensures n[i] in t' && t'[n[i]].rank == i + 1 {
    }
    RankedByPosition(t', n);
  }

  /** A table whose rows are exactly those of `n`, row `n[i]` ranked i + 1, is listed in the order `n`. */
  lemma RankedByPosition<T>(t: Rows<T>, n: seq<int>)
    requires forall i :: 0 <= i < |n| ==> n[i] in t && t[n[i]].rank == i + 1
    requires forall k :: k in t ==> k in n
    ensures RanksUnique(t) && Order(t) == n
  {
    assert RanksUnique(t) by {
      forall a, b | a in t && b in t && a != b ensures t[a].rank != t[b].rank {
        var ia :| 0 <= ia < |n| && n[ia] == a;
        var ib :| 0 <= ib < |n| && n[ib] == b;
      }
    }
    var m := Ranks(t);
    forall i, j | 0 <= i < j < |n| ensures m[n[i]] < m[n[j]] {
    }
    assert IsAscendingOrder(m, n);
    AscendingOrderUnique(m, Order(t), n);
  }

  /** The update list gives the listed ids the ranks 1..N in list order. */
  lemma UpdatesInOrder(items: seq<DefaultView>)
    ensures RanksInOrder(Ids(items), RankUpdates(items))
  {
  }

  /**
   * The ids of a moved list, position by position, for a list whose ids
   * are `s`, all of them in `keys`.
   */
  lemma MovedIdsOf(items: seq<DefaultView>, s: seq<int>, keys: set<int>, from: int, to: int)
    requires |items| == |s| && 0 <= from < |s| && 0 <= to < |s|
    requires forall i :: 0 <= i < |items| ==> items[i].id == s[i] && s[i] in keys
    ensures var n := Ids(ArrayMove(items, from, to));
      && |n| == |s|
      && forall i :: 0 <= i < |n| ==> n[i] == s[MovedFrom(i, from, to)] && n[i] in keys
  {
    var shown := ArrayMove(items, from, to);
    var n := Ids(shown);
    forall i | 0 <= i < |n| ensures n[i] == s[MovedFrom(i, from, to)] && n[i] in keys {
      var f := MovedFrom(i, from, to);
      assert shown[i] == items[f];
    }
  }

  /** `items` shows the rows of `t` in listing order. */
  predicate Shows<T>(t: Rows<T>, items: seq<DefaultView>)
    requires RanksUnique(t)
  {
    |items| == |Order(t)| && forall i :: 0 <= i < |items| ==> items[i].id == Order(t)[i]
  }

  /** The settings list shows the Defaults in listing order. */
  lemma SettingsListShows(t: DefaultTable)
    requires RanksUnique(t)
    ensures Shows(t, DefaultGetAll(t)) && |DefaultGetAll(t)| == |t|
  {
    ListedIds(t);
  }

  /** The ids of a moved list of the rows, position by position. */
  lemma MovedRows<T>(t: Rows<T>, items: seq<DefaultView>, from: int, to: int)
    requires RanksUnique(t) && Shows(t, items) && 0 <= from < |items| && 0 <= to < |items|
    ensures var n := Ids(ArrayMove(items, from, to));
      && |n| == |Order(t)|
      && forall i :: 0 <= i < |n| ==> n[i] == Order(t)[MovedFrom(i, from, to)] && n[i] in t
  {
    var s := Order(t);
    assert forall i :: 0 <= i < |s| ==> s[i] in Ranks(t);
    MovedIdsOf(items, s, t.Keys, from, to);
  }

  /**
   * Written verbatim, the update list of any real move of the listed rows
   * is refused on a table whose ranks are 1..N.
   */
  lemma VerbatimRejectedOn<T>(t: Rows<T>, items: seq<DefaultView>, from: int, to: int)
    requires RanksUnique(t) && DenseRanks(t) && Shows(t, items)
    requires 0 <= from < |items| && 0 <= to < |items| && from != to
    ensures ApplyWrites(t, RankUpdates(ArrayMove(items, from, to))) == Failure(UniqueViolation)
  {
    var shown := ArrayMove(items, from, to);
    var n := Ids(shown);
    var s := Order(t);
    MovedRows(t, items, from, to);
    UpdatesInOrder(shown);
    var m := if from < to then from else to;
    assert n[m] != s[m] by {
      assert n[m] == s[MovedFrom(m, from, to)];
      AscendingOrderDistinct(Ranks(t), s);
    }
    forall i | 0 <= i < m ensures n[i] == s[i] {
      assert n[i] == s[MovedFrom(i, from, to)];
    }
    DenseRewriteRejected(t, n, RankUpdates(shown), m);
  }

  /**
   * Written verbatim, the update list of any real move on the settings
   * page is refused on a table whose ranks are 1..N: the writes before the
   * first moved position change nothing, and the first one that does asks
   * for the rank the row listed there still holds.
   */
  lemma VerbatimUpdateRejected(t: DefaultTable, from: int, to: int)
    requires RanksUnique(t) && DenseRanks(t)
    requires 0 <= from < |t| && 0 <= to < |t| && from != to
    ensures ApplyWrites(t, RankUpdates(ArrayMove(DefaultGetAll(t), from, to))) == Failure(UniqueViolation)
  {
    SettingsListShows(t);
    VerbatimRejectedOn(t, DefaultGetAll(t), from, to);
  }

  /** The smallest case: dragging the second of two Defaults onto the first is refused. */
  lemma TwoDefaultsSwapRejected(a: DefaultData, b: DefaultData)
    ensures var t := map[1 := Ranked(1, a), 2 := Ranked(2, b)];
      var items := [DefaultView(1, a.shorthand, a.text), DefaultView(2, b.shorthand, b.text)];
      && DragEnd(items, 2, Some(1))
         == Some(Drop([items[1], items[0]], [Write(2, 1), Write(1, 2)]))
      && ApplyWrites(t, [Write(2, 1), Write(1, 2)]) == Failure(UniqueViolation)
  {
    var items := [DefaultView(1, a.shorthand, a.text), DefaultView(2, b.shorthand, b.text)];
    assert FindIndex(items, 2) == 1;
    var shown := ArrayMove(items, 1, 0);
    assert shown == [items[1], items[0]];
    assert RankUpdates(shown) == [Write(2, 1), Write(1, 2)];
  }

  /**
   * The update list of any move of the listed rows names every row once
   * and asks for the ranks 1..N; written without a clash it leaves the rows
   * listed exactly in the moved order, with their data.
   */
  lemma StagedMoveOn<T>(t: Rows<T>, items: seq<DefaultView>, from: int, to: int)
    requires RanksUnique(t) && Shows(t, items) && 0 <= from < |items| && 0 <= to < |items|
    ensures var ws := RankUpdates(ArrayMove(items, from, to));
      var t' := Override(t, ws);
      && ValidRanking(t, ws)
      && RanksUnique(t') && t'.Keys == t.Keys
      && (forall j :: j in t ==> t'[j].data == t[j].data)
      && Order(t') == Ids(ArrayMove(items, from, to))
  {
    var shown := ArrayMove(items, from, to);
    var n := Ids(shown);
    var s := Order(t);
    MovedRows(t, items, from, to);
    UpdatesInOrder(shown);
    AscendingOrderDistinct(Ranks(t), s);
    MovedKeepsIds(s, n, from, to);
    forall k | k in t ensures k in n {
      assert k in Ranks(t);
    }
    RewriteListsInOrder(t, n, RankUpdates(shown));
  }

  /** A move of a list of distinct ids lists the same ids, each once. */
  lemma MovedKeepsIds(s: seq<int>, n: seq<int>, from: int, to: int)
    requires 0 <= from < |s| && 0 <= to < |s| && |n| == |s|
    requires forall i :: 0 <= i < |n| ==> n[i] == s[MovedFrom(i, from, to)]
    requires forall i, j :: 0 <= i < j < |s| ==> s[i] != s[j]
    ensures forall i, j :: 0 <= i < j < |n| ==> n[i] != n[j]
    ensures forall k :: k in s ==> k in n
  {
    MoveIndices(|s|, from, to);
    forall i, j | 0 <= i < j < |n| ensures n[i] != n[j] {
      assert n[i] == s[MovedFrom(i, from, to)] && n[j] == s[MovedFrom(j, from, to)];
    }
    forall k | k in s ensures k in n {
      var p :| 0 <= p < |s| && s[p] == k;
      assert n[MovedTo(p, from, to)] == k;
    }
  }

  /**
   * The update list of any move on the settings page is a valid new
   * ranking; after the staged bulk update commits it, the rows are listed
   * exactly in the order the page shows, with their data.
   */
  lemma StagedMoveListing(t: DefaultTable, from: int, to: int)
    requires RanksUnique(t) && 0 <= from < |t| && 0 <= to < |t|
    ensures var ws := RankUpdates(ArrayMove(DefaultGetAll(t), from, to));
      var t' := Override(t, ws);
      && ValidRanking(t, ws)
      && RanksUnique(t') && t'.Keys == t.Keys
      && (forall j :: j in t ==> t'[j].data == t[j].data)
      && Order(t') == Ids(ArrayMove(DefaultGetAll(t), from, to))
  {
    SettingsListShows(t);
    StagedMoveOn(t, DefaultGetAll(t), from, to);
  }

  /**
   * The page's drag-and-drop reorder as the source writes it: the page
   * shows the moved list and sends its ranks to `defaultUpdateRanks`,
   * which writes them verbatim in one transaction.
   */
  method HandleDragEndAsWritten(table: RankedTable<DefaultData>, active: int, over: Option<int>)
    returns (shown: seq<DefaultView>, saved: Option<Result<(), DbError>>)
    modifies table
    requires table.Valid()
    ensures table.Valid() && table.lastId == old(table.lastId)
    ensures var d := DragEnd(DefaultGetAll(old(table.rows)), active, over);
      && (d.None? ==> shown == DefaultGetAll(old(table.rows)) && saved.None? && table.rows == old(table.rows))
      && (d.Some? ==>
            && shown == d.value.shown && saved.Some?
            && ApplyWrites(old(table.rows), d.value.updates)
               == (if saved.value.Success? then Success(table.rows) else Failure(saved.value.error))
            && (saved.value.Failure? ==> table.rows == old(table.rows)))
  {
    var items := DefaultGetAll(table.rows);
    var d := DragEnd(items, active, over);
    if d.None? {
      return items, None;
    }
    shown := d.value.shown;
    var res := table.Transaction(d.value.updates);
    saved := Some(res);
  }

  /**
   * The reorder with the update list written through the staged bulk
   * update: every drop commits, and the list the server then returns is
   * the list the page already shows.
   */
  method HandleDragEnd(table: RankedTable<DefaultData>, active: int, over: Option<int>)
    returns (shown: seq<DefaultView>, saved: Option<Result<(), DbError>>)
    modifies table
    requires table.Valid()
    ensures table.Valid() && table.lastId == old(table.lastId)
    ensures var d := DragEnd(DefaultGetAll(old(table.rows)), active, over);
      && (d.None? ==> shown == DefaultGetAll(old(table.rows)) && saved.None? && table.rows == old(table.rows))
      && (d.Some? ==>
            && shown == d.value.shown && saved == Some(Success(()))
            && table.rows == Override(old(table.rows), d.value.updates)
            && Order(table.rows) == Ids(shown))
  {
    var items := DefaultGetAll(table.rows);
    var d := DragEnd(items, active, over);
    if d.None? {
      return items, None;
    }
    var from := FindIndex(items, active);
    var to := FindIndex(items, over.value);
    assert d.value.shown == ArrayMove(items, from, to) && d.value.updates == RankUpdates(d.value.shown);
    ghost var t0 := table.rows;
    StagedMoveListing(t0, from, to);
    assert ValidRanking(t0, d.value.updates);
    shown := d.value.shown;
    var res := table.UpdateRanksStaged(d.value.updates);
    assert res.Success? && table.rows == Override(t0, d.value.updates);
    saved := Some(Success(()));
  }
}
