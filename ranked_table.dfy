/**
 * The rank maintenance protocol shared by the Area and the Default tables:
 * a table whose rows carry a NOT NULL UNIQUE integer `rank` that orders
 * the list shown to administrators.
 *
 * A transaction (`$transaction([...])`) is an ordered list of single-row
 * rank writes. The unique index on `rank` checks every write against the
 * rows as they stand at that moment (the database checks each statement),
 * and the list commits as a whole or not at all.
 */
module RankedTables {
  import opened Wrappers
  import opened Schema
  import opened Ranking

  /** What the database reports when a statement fails. */
  datatype DbError =
    | RecordNotFound   // `update`/`delete` of an id that has no row
    | UniqueViolation  // a write or insert that would duplicate a UNIQUE column

  /** How a single-step move fails. */
  datatype MoveError =
    | NotFound               // "Area not found" / "Default not found"
    | AlreadyAtTop           // 已經在最上方
    | AlreadyAtBottom        // 已經在最下方
    | Storage(cause: DbError)

  /** `update({ where: { id }, data: { rank } })`. */
  datatype Write = Write(id: int, rank: int)

  type Rows<T> = map<int, Ranked<T>>

  /** The rank column as a map from id to rank. */
  function Ranks<T>(t: Rows<T>): map<int, int> {
    map i | i in t :: t[i].rank
  }

  lemma RanksInjective<T>(t: Rows<T>)
    requires RanksUnique(t)
    ensures Injective(Ranks(t)) && |Ranks(t)| == |t|
  {
    assert Ranks(t).Keys == t.Keys;
  }

  /** The ids by ascending rank. */
  function Order<T>(t: Rows<T>): (s: seq<int>)
    requires RanksUnique(t)
    ensures |s| == |t| && IsAscendingOrder(Ranks(t), s)
  {
    RanksInjective(t);
    AscendingOrder(Ranks(t))
  }

  /** The rows of the listed ids, in the order given. */
  function RowsOf<T>(t: Rows<T>, ids: seq<int>): (r: seq<(int, Ranked<T>)>)
    requires forall i :: 0 <= i < |ids| ==> ids[i] in t
    ensures |r| == |ids|
    ensures forall i :: 0 <= i < |r| ==> r[i].0 == ids[i]
    ensures forall i :: 0 <= i < |r| ==> r[i].0 in t && r[i].1 == t[r[i].0]
  {
    if ids == [] then [] else [(ids[0], t[ids[0]])] + RowsOf(t, ids[1..])
  }

  lemma RowsOfOrder<T>(t: Rows<T>)
    requires RanksUnique(t)
    ensures var r := RowsOf(t, Order(t));
      forall i, j :: 0 <= i < j < |r| ==> r[i].1.rank < r[j].1.rank
  {
    var ids := Order(t);
    var r := RowsOf(t, ids);
    forall i, j | 0 <= i < j < |r| ensures r[i].1.rank < r[j].1.rank {
      assert Ranks(t)[ids[i]] < Ranks(t)[ids[j]];
    }
  }

  /**
   * `findMany({ orderBy: { rank: "asc" } })`: every row exactly once, each
   * with its own columns, by strictly ascending rank.
   */
  function Listing<T>(t: Rows<T>): (r: seq<(int, Ranked<T>)>)
    requires RanksUnique(t)
    ensures |r| == |t|
    ensures forall i :: 0 <= i < |r| ==> r[i].0 in t && r[i].1 == t[r[i].0]
    ensures forall i :: 0 <= i < |r| ==> r[i].0 == Order(t)[i]
    ensures forall i, j :: 0 <= i < j < |r| ==> r[i].1.rank < r[j].1.rank
  {
    RowsOfOrder(t);
    RowsOf(t, Order(t))
  }

  /** Every row is listed: the position of row `k` in the listing. */
  lemma Listed<T>(t: Rows<T>, k: int) returns (i: int)
    requires RanksUnique(t) && k in t
    ensures 0 <= i < |Listing(t)| && Listing(t)[i].0 == k
  {
    i := PositionOf(t, k);
  }

  /**
   * The rank a created row receives: one more than the rank of
   * `findFirst({ orderBy: { rank: "desc" } })`, or 1 on an empty table.
   */
  function NewRank<T>(t: Rows<T>): (r: int)
    requires RanksUnique(t)
    ensures t == map[] ==> r == 1
    ensures t != map[] ==> exists i :: i in t && t[i].rank == r - 1
    ensures forall i :: i in t ==> t[i].rank < r
  {
    if t == map[] then 1
    else
      var ids := Order(t);
      var last := ids[|ids| - 1];
      assert forall i :: i in t ==> t[i].rank <= t[last].rank by {
        forall i | i in t ensures t[i].rank <= t[last].rank {
          assert i in ids;
          var p :| 0 <= p < |ids| && ids[p] == i;
          assert p == |ids| - 1 || Ranks(t)[ids[p]] < Ranks(t)[ids[|ids| - 1]];
        }
      }
      t[last].rank + 1
  }

  /**
   * `findFirst({ where: { rank: { lt: r } }, orderBy: { rank: "desc" } })`:
   * the row with the largest rank below `r`, if there is one.
   */
  function NearestBelow<T>(t: Rows<T>, r: int): (o: Option<int>)
    requires RanksUnique(t)
    ensures o.None? <==> forall j :: j in t ==> t[j].rank >= r
    ensures o.Some? ==> o.value in t && t[o.value].rank < r
    ensures o.Some? ==> forall j :: j in t && t[j].rank < r ==> t[j].rank <= t[o.value].rank
  {
    if exists j :: j in t && t[j].rank < r then
      var w :| w in t && t[w].rank < r;
      var below := set j | j in t && t[j].rank < r;
      assert w in below;
      MaxExists(Ranks(t), below);
      var k :| k in below && forall j :: j in below ==> Ranks(t)[j] <= Ranks(t)[k];
      assert forall j :: j in t && t[j].rank < r ==> t[j].rank <= t[k].rank by {
        forall j | j in t && t[j].rank < r ensures t[j].rank <= t[k].rank {
          assert j in below;
        }
      }
      Some(k)
    else
      None
  }

  /**
   * `findFirst({ where: { rank: { gt: r } }, orderBy: { rank: "asc" } })`:
   * the row with the smallest rank above `r`, if there is one.
   */
  function NearestAbove<T>(t: Rows<T>, r: int): (o: Option<int>)
    requires RanksUnique(t)
    ensures o.None? <==> forall j :: j in t ==> t[j].rank <= r
    ensures o.Some? ==> o.value in t && t[o.value].rank > r
    ensures o.Some? ==> forall j :: j in t && t[j].rank > r ==> t[o.value].rank <= t[j].rank
  {
    if exists j :: j in t && t[j].rank > r then
      var w :| w in t && t[w].rank > r;
      var above := set j | j in t && t[j].rank > r;
      assert w in above;
      MinExists(Ranks(t), above);
      var k :| k in above && forall j :: j in above ==> Ranks(t)[k] <= Ranks(t)[j];
      assert forall j :: j in t && t[j].rank > r ==> t[k].rank <= t[j].rank by {
        forall j | j in t && t[j].rank > r ensures t[k].rank <= t[j].rank {
          assert j in above;
        }
      }
      Some(k)
    else
      None
  }

  // ---------------------------------------------------------------------
  // Transactions: ordered lists of rank writes, checked one by one.
  // ---------------------------------------------------------------------

  /** One rank write, as the database executes it against the unique index. */
  function ApplyWrite<T>(t: Rows<T>, w: Write): Result<Rows<T>, DbError> {
    if w.id !in t then Failure(RecordNotFound)
    else if exists j :: j in t && j != w.id && t[j].rank == w.rank then Failure(UniqueViolation)
    else Success(t[w.id := t[w.id].(rank := w.rank)])
  }

  /** The writes of one `$transaction`, in list order; the first failure aborts it. */
  function ApplyWrites<T>(t: Rows<T>, ws: seq<Write>): Result<Rows<T>, DbError>
    decreases |ws|
  {
    if ws == [] then Success(t)
    else
      match ApplyWrite(t, ws[0])
      case Failure(e) => Failure(e)
      case Success(next) => ApplyWrites(next, ws[1..])
  }

  /** The same writes without any check: each listed row takes the written rank. */
  function Override<T>(t: Rows<T>, ws: seq<Write>): Rows<T>
    decreases |ws|
  {
    if ws == [] then t
    else
      var w := ws[0];
      Override(if w.id in t then t[w.id := t[w.id].(rank := w.rank)] else t, ws[1..])
  }

  /** The ids a list of writes touches. */
  function WriteIds(ws: seq<Write>): set<int> {
    set i | 0 <= i < |ws| :: ws[i].id
  }

  /** No id is written twice. */
  predicate DistinctIds(ws: seq<Write>) {
    forall i, j :: 0 <= i < j < |ws| ==> ws[i].id != ws[j].id
  }

  /** No row holds the sentinel rank -1 that a move writes first. */
  predicate SentinelFree<T>(t: Rows<T>) {
    forall i :: i in t ==> t[i].rank != -1
  }

  /** Rows `a` and `b` exchange their ranks; nothing else changes. */
  function SwapRanks<T>(t: Rows<T>, a: int, b: int): Rows<T>
    requires a in t && b in t
  {
    t[a := t[a].(rank := t[b].rank)][b := t[b].(rank := t[a].rank)]
  }

  /** The set of rank values in use. */
  function RankValues<T>(t: Rows<T>): set<int> {
    set i | i in t :: t[i].rank
  }

  /**
   * A write the unique index accepts leaves the ranks pairwise distinct and
   * changes only the rank of the written row.
   */
  lemma WriteKeepsRanksUnique<T>(t: Rows<T>, w: Write)
    requires RanksUnique(t) && ApplyWrite(t, w).Success?
    ensures var t' := ApplyWrite(t, w).value;
      && RanksUnique(t') && t'.Keys == t.Keys
      && t'[w.id] == t[w.id].(rank := w.rank)
      && forall j :: j in t && j != w.id ==> t'[j] == t[j]
  {
  }

  /**
   * Every committed transaction leaves the ranks pairwise distinct, keeps
   * the same rows and their other columns, and its effect is exactly that
   * of writing each listed rank verbatim, in list order.
   */
  lemma {:induction false} WritesVerbatim<T>(t: Rows<T>, ws: seq<Write>)
    requires RanksUnique(t) && ApplyWrites(t, ws).Success?
    ensures var t' := ApplyWrites(t, ws).value;
      && t' == Override(t, ws)
      && RanksUnique(t') && t'.Keys == t.Keys
      && (forall j :: j in t ==> t'[j].data == t[j].data)
      && (forall j :: j in t && j !in WriteIds(ws) ==> t'[j] == t[j])
    decreases |ws|
  {
    if ws != [] {
      var next := ApplyWrite(t, ws[0]).value;
      WriteKeepsRanksUnique(t, ws[0]);
      WritesVerbatim(next, ws[1..]);
      assert WriteIds(ws) == {ws[0].id} + WriteIds(ws[1..]);
    }
  }

  /** A write of the rank a row already holds is accepted and changes nothing. */
  lemma NoOpWrite<T>(t: Rows<T>, w: Write)
    requires RanksUnique(t) && w.id in t && t[w.id].rank == w.rank
    ensures ApplyWrite(t, w) == Success(t)
  {
    assert t[w.id := t[w.id].(rank := w.rank)] == t;
  }

  // ---------------------------------------------------------------------
  // Single-step moves: swapping ranks through the sentinel -1.
  // ---------------------------------------------------------------------

  /** `a` and `b` exchange ranks with the rank values themselves, the rows and their other columns unchanged. */
  lemma SwapRanksKeeps<T>(t: Rows<T>, a: int, b: int)
    requires RanksUnique(t) && a in t && b in t
    ensures var t' := SwapRanks(t, a, b);
      && RanksUnique(t') && t'.Keys == t.Keys
      && t'[a].rank == t[b].rank && t'[b].rank == t[a].rank
      && (forall j :: j in t ==> t'[j].data == t[j].data)
      && (forall j :: j in t && j != a && j != b ==> t'[j] == t[j])
      && RankValues(t') == RankValues(t)
  {
    var t' := SwapRanks(t, a, b);
    forall v | v in RankValues(t) ensures v in RankValues(t') {
      var j :| j in t && t[j].rank == v;
      if j == a { assert t'[b].rank == v; }
      else if j == b { assert t'[a].rank == v; }
      else { assert t'[j].rank == v; }
    }
  }

  /**
   * The three writes of a move: park `a` on the sentinel -1, give `b` the
   * rank of `a`, then give `a` the rank `b` had.
   */
  function SwapPlan<T>(t: Rows<T>, a: int, b: int): seq<Write>
    requires a in t && b in t
  {
    [Write(a, -1), Write(b, t[a].rank), Write(a, t[b].rank)]
  }

  /**
   * The swap through the sentinel commits exactly when no row holds -1, and
   * then its effect is the exchange of the two ranks; otherwise the unique
   * index rejects it (at the first write when another row holds -1, at the
   * second when `a` itself does).
   */
  lemma SwapThroughSentinel<T>(t: Rows<T>, a: int, b: int)
    requires RanksUnique(t) && a in t && b in t && a != b
    ensures ApplyWrites(t, SwapPlan(t, a, b))
         == if SentinelFree(t) then Success(SwapRanks(t, a, b)) else Failure(UniqueViolation)
  {
    var ws := SwapPlan(t, a, b);
    var ra, rb := t[a].rank, t[b].rank;
    assert ws[1..] == [ws[1], ws[2]] && ws[1..][1..] == [ws[2]] && ws[2..][1..] == [];
    if SentinelFree(t) {
      var t1 := t[a := t[a].(rank := -1)];
      assert ApplyWrite(t, ws[0]) == Success(t1);
      var t2 := t1[b := t1[b].(rank := ra)];
      assert ApplyWrite(t1, ws[1]) == Success(t2);
      var t3 := t2[a := t2[a].(rank := rb)];
      assert ApplyWrite(t2, ws[2]) == Success(t3);
      assert ApplyWrites(t2, [ws[2]]) == Success(t3);
      assert ApplyWrites(t1, ws[1..]) == Success(t3);
      assert t3 == SwapRanks(t, a, b);
    } else if ra == -1 {
      assert ApplyWrite(t, ws[0]) == Success(t) by { NoOpWrite(t, ws[0]); }
      assert ApplyWrite(t, ws[1]) == Failure(UniqueViolation) by {
        assert t[a].rank == ws[1].rank;
      }
    } else {
      var j :| j in t && t[j].rank == -1;
      assert ApplyWrite(t, ws[0]) == Failure(UniqueViolation);
    }
  }

  /** A transaction's outcome as a move reports it: storage errors are wrapped. */
  function Commit<T>(t: Rows<T>, ws: seq<Write>): Result<Rows<T>, MoveError> {
    match ApplyWrites(t, ws)
    case Success(t') => Success(t')
    case Failure(e) => Failure(Storage(e))
  }

  /**
   * `areaMoveUp` / `defaultMoveUp`: look the row up, find the row ranked
   * just above it, and swap their ranks in one transaction.
   */
  function MoveUpOutcome<T>(t: Rows<T>, id: int): Result<Rows<T>, MoveError>
    requires RanksUnique(t)
  {
    if id !in t then Failure(NotFound)
    else
      match NearestBelow(t, t[id].rank)
      case None => Failure(AlreadyAtTop)
      case Some(u) => Commit(t, SwapPlan(t, id, u))
  }

  /**
   * `areaMoveDown` / `defaultMoveDown`: look the row up, find the row
   * ranked just below it, and swap their ranks in one transaction.
   */
  function MoveDownOutcome<T>(t: Rows<T>, id: int): Result<Rows<T>, MoveError>
    requires RanksUnique(t)
  {
    if id !in t then Failure(NotFound)
    else
      match NearestAbove(t, t[id].rank)
      case None => Failure(AlreadyAtBottom)
      case Some(l) => Commit(t, SwapPlan(t, l, id))
  }

  /** The row listed just before position `p` holds the largest rank below that of `Order(t)[p]`. */
  lemma PredecessorInOrder<T>(t: Rows<T>, p: int)
    requires RanksUnique(t) && 0 <= p < |Order(t)|
    ensures var s := Order(t);
      && (p == 0 <==> forall j :: j in t ==> t[j].rank >= t[s[p]].rank)
      && (p > 0 ==> NearestBelow(t, t[s[p]].rank) == Some(s[p - 1]))
  {
    var s := Order(t);
    var m := Ranks(t);
    var r := t[s[p]].rank;
    if p == 0 {
      forall j | j in t ensures t[j].rank >= r {
        assert j in s;
        var q :| 0 <= q < |s| && s[q] == j;
        assert q == 0 || m[s[0]] < m[s[q]];
      }
    } else {
      assert m[s[p - 1]] < m[s[p]];
      var o := NearestBelow(t, r);
      var u := o.value;
      assert u in s;
      var q :| 0 <= q < |s| && s[q] == u;
      assert q == p - 1;
    }
  }

  /** The row listed just after position `p` holds the smallest rank above that of `Order(t)[p]`. */
  lemma SuccessorInOrder<T>(t: Rows<T>, p: int)
    requires RanksUnique(t) && 0 <= p < |Order(t)|
    ensures var s := Order(t);
      && (p == |s| - 1 <==> forall j :: j in t ==> t[j].rank <= t[s[p]].rank)
      && (p < |s| - 1 ==> NearestAbove(t, t[s[p]].rank) == Some(s[p + 1]))
  {
    var s := Order(t);
    var m := Ranks(t);
    var r := t[s[p]].rank;
    if p == |s| - 1 {
      forall j | j in t ensures t[j].rank <= r {
        assert j in s;
        var q :| 0 <= q < |s| && s[q] == j;
        assert q == p || m[s[q]] < m[s[p]];
      }
    } else {
      assert m[s[p]] < m[s[p + 1]];
      var x := s[p + 1];
      assert x in t && t[x].rank > r;
      var o := NearestAbove(t, r);
      assert o.Some?;
      var l := o.value;
      assert l in s;
      var q :| 0 <= q < |s| && s[q] == l;
      assert q == p + 1;
    }
  }

  /** Exchanging the ranks of two neighbours in the listing exchanges their positions and nothing else. */
  lemma SwapNeighboursOrder<T>(t: Rows<T>, p: int)
    requires RanksUnique(t) && 0 < p < |Order(t)|
    ensures var s := Order(t);
      && s[p] in t && s[p - 1] in t
      && RanksUnique(SwapRanks(t, s[p], s[p - 1]))
      && Order(SwapRanks(t, s[p], s[p - 1])) == s[p - 1 := s[p]][p := s[p - 1]]
  {
    var s := Order(t);
    var a, b := s[p], s[p - 1];
    AscendingOrderDistinct(Ranks(t), s);
    SwapRanksKeeps(t, a, b);
    var t' := SwapRanks(t, a, b);
    var m := Ranks(t);
    assert Ranks(t') == m[a := m[b]][b := m[a]];
    SwapAscendingOrder(m, s, p);
    AscendingOrderUnique(Ranks(t'), Order(t'), s[p - 1 := a][p := b]);
  }

  /** Exchanging the ranks of the rows listed at `p` and `p + 1` exchanges their positions. */
  lemma SwapWithNext<T>(t: Rows<T>, p: int)
    requires RanksUnique(t) && 0 <= p < |Order(t)| - 1
    ensures var s := Order(t);
      && s[p] in t && s[p + 1] in t
      && RanksUnique(SwapRanks(t, s[p + 1], s[p]))
      && Order(SwapRanks(t, s[p + 1], s[p])) == s[p := s[p + 1]][p + 1 := s[p]]
  {
    SwapNeighboursOrder(t, p + 1);
  }

  /**
   * Moving up the row listed at position `p`: the first row is already at
   * the top; any other row trades places with the row listed just before
   * it, provided no row holds the sentinel rank -1; the rows, their other
   * columns and the set of rank values stay as they were.
   */
  lemma MoveUpAtPosition<T>(t: Rows<T>, p: int)
    requires RanksUnique(t) && 0 <= p < |Order(t)|
    ensures var s := Order(t); var o := MoveUpOutcome(t, s[p]);
      && (p == 0 ==> o == Failure(AlreadyAtTop))
      && (p > 0 && !SentinelFree(t) ==> o == Failure(Storage(UniqueViolation)))
      && (p > 0 && SentinelFree(t) ==>
            && o.Success? && RanksUnique(o.value)
            && o.value.Keys == t.Keys
            && (forall j :: j in t ==> o.value[j].data == t[j].data)
            && RankValues(o.value) == RankValues(t)
            && Order(o.value) == s[p - 1 := s[p]][p := s[p - 1]])
  {
    var s := Order(t);
    PredecessorInOrder(t, p);
    if p > 0 {
      AscendingOrderDistinct(Ranks(t), s);
      SwapThroughSentinel(t, s[p], s[p - 1]);
      SwapRanksKeeps(t, s[p], s[p - 1]);
      SwapNeighboursOrder(t, p);
    }
  }

  /**
   * Moving down the row listed at position `p`: the last row is already at
   * the bottom; any other row trades places with the row listed just after
   * it, provided no row holds the sentinel rank -1.
   */
  lemma MoveDownAtPosition<T>(t: Rows<T>, p: int)
    requires RanksUnique(t) && 0 <= p < |Order(t)|
    ensures var s := Order(t); var o := MoveDownOutcome(t, s[p]);
      && (p == |s| - 1 ==> o == Failure(AlreadyAtBottom))
      && (p < |s| - 1 && !SentinelFree(t) ==> o == Failure(Storage(UniqueViolation)))
      && (p < |s| - 1 && SentinelFree(t) ==>
            && o.Success? && RanksUnique(o.value)
            && o.value.Keys == t.Keys
            && (forall j :: j in t ==> o.value[j].data == t[j].data)
            && RankValues(o.value) == RankValues(t)
            && Order(o.value) == s[p := s[p + 1]][p + 1 := s[p]])
  {
    var s := Order(t);
    SuccessorInOrder(t, p);
    if p < |s| - 1 {
      var id, l := s[p], s[p + 1];
      AscendingOrderDistinct(Ranks(t), s);
      MoveDownSwaps(t, id, l);
      if SentinelFree(t) {
        SwapRanksKeeps(t, l, id);
        SwapWithNext(t, p);
      }
    }
  }

  /** A move down whose neighbour below exists is the swap through the sentinel with it. */
  lemma MoveDownSwaps<T>(t: Rows<T>, id: int, l: int)
    requires RanksUnique(t) && id in t && l in t && l != id
    requires NearestAbove(t, t[id].rank) == Some(l)
    ensures MoveDownOutcome(t, id)
         == if SentinelFree(t) then Success(SwapRanks(t, l, id)) else Failure(Storage(UniqueViolation))
  {
    SwapThroughSentinel(t, l, id);
  }

  /** The position of a row in the listing. */
  lemma PositionOf<T>(t: Rows<T>, id: int) returns (p: int)
    requires RanksUnique(t) && id in t
    ensures 0 <= p < |Order(t)| && Order(t)[p] == id
  {
    var s := Order(t);
    assert id in s;
    p :| 0 <= p < |s| && s[p] == id;
  }

  /** A move up that commits exchanged the row with its predecessor, and no row held -1. */
  lemma MoveUpCommitted<T>(t: Rows<T>, id: int) returns (u: int)
    requires RanksUnique(t) && MoveUpOutcome(t, id).Success?
    ensures id in t && u in t && u != id && SentinelFree(t)
    ensures t[u].rank < t[id].rank
    ensures forall j :: j in t && t[j].rank < t[id].rank ==> t[j].rank <= t[u].rank
    ensures MoveUpOutcome(t, id) == Success(SwapRanks(t, id, u))
  {
    u := NearestBelow(t, t[id].rank).value;
    SwapThroughSentinel(t, id, u);
  }

  /** A move down that commits exchanged the row with its successor, and no row held -1. */
  lemma MoveDownCommitted<T>(t: Rows<T>, id: int) returns (l: int)
    requires RanksUnique(t) && MoveDownOutcome(t, id).Success?
    ensures id in t && l in t && l != id && SentinelFree(t)
    ensures t[l].rank > t[id].rank
    ensures forall j :: j in t && t[j].rank > t[id].rank ==> t[l].rank <= t[j].rank
    ensures MoveDownOutcome(t, id) == Success(SwapRanks(t, l, id))
  {
    l := NearestAbove(t, t[id].rank).value;
    SwapThroughSentinel(t, l, id);
  }

  /** Exchanging ranks keeps the table free of the sentinel. */
  lemma SwapKeepsSentinelFree<T>(t: Rows<T>, a: int, b: int)
    requires RanksUnique(t) && a in t && b in t && SentinelFree(t)
    ensures SentinelFree(SwapRanks(t, a, b))
  {
  }

  /** A successful move up is undone by a move down of the same row. */
  lemma MoveUpThenDown<T>(t: Rows<T>, id: int)
    requires RanksUnique(t) && MoveUpOutcome(t, id).Success?
    ensures RanksUnique(MoveUpOutcome(t, id).value)
    ensures MoveDownOutcome(MoveUpOutcome(t, id).value, id) == Success(t)
  {
    var u := MoveUpCommitted(t, id);
    var t' := SwapRanks(t, id, u);
    SwapRanksKeeps(t, id, u);
    SwapKeepsSentinelFree(t, id, u);
    assert t'[u].rank > t'[id].rank;
    var l := NearestAbove(t', t'[id].rank).value;
    assert t'[l].rank <= t'[u].rank;
    assert l == u;
    SwapThroughSentinel(t', u, id);
    assert SwapRanks(t', u, id) == t;
  }

  /** A successful move down is undone by a move up of the same row. */
  lemma MoveDownThenUp<T>(t: Rows<T>, id: int)
    requires RanksUnique(t) && MoveDownOutcome(t, id).Success?
    ensures RanksUnique(MoveDownOutcome(t, id).value)
    ensures MoveUpOutcome(MoveDownOutcome(t, id).value, id) == Success(t)
  {
    var l := MoveDownCommitted(t, id);
    var t' := SwapRanks(t, l, id);
    SwapRanksKeeps(t, l, id);
    SwapKeepsSentinelFree(t, l, id);
    assert t'[l].rank < t'[id].rank;
    var u := NearestBelow(t', t'[id].rank).value;
    assert t'[l].rank <= t'[u].rank;
    assert u == l;
    SwapThroughSentinel(t', id, l);
    assert SwapRanks(t', id, l) == t;
  }

  // ---------------------------------------------------------------------
  // Rewriting many ranks in one transaction.
  // ---------------------------------------------------------------------

  /** Writing `a` and then `b` is writing `a + b`. */
  lemma {:induction false} OverrideAppend<T>(t: Rows<T>, a: seq<Write>, b: seq<Write>)
    ensures Override(t, a + b) == Override(Override(t, a), b)
    decreases |a|
  {
    if a != [] {
      assert a + b != [] && (a + b)[0] == a[0] && (a + b)[1..] == a[1..] + b;
      var w := a[0];
      var t1 := if w.id in t then t[w.id := t[w.id].(rank := w.rank)] else t;
      assert Override(t, a + b) == Override(t1, a[1..] + b);
      assert Override(t, a) == Override(t1, a[1..]);
      OverrideAppend(t1, a[1..], b);
    } else {
      assert a + b == b;
    }
  }

  /**
   * When no id is written twice, every listed row that exists takes its
   * written rank and every other row is left as it was.
   */
  lemma {:induction false} OverrideAt<T>(t: Rows<T>, ws: seq<Write>)
    requires DistinctIds(ws)
    ensures Override(t, ws).Keys == t.Keys
    ensures forall k :: 0 <= k < |ws| && ws[k].id in t ==>
      Override(t, ws)[ws[k].id] == t[ws[k].id].(rank := ws[k].rank)
    ensures forall j :: j in t && j !in WriteIds(ws) ==> Override(t, ws)[j] == t[j]
    decreases |ws|
  {
    if ws != [] {
      var w := ws[0];
      var t1 := if w.id in t then t[w.id := t[w.id].(rank := w.rank)] else t;
      OverrideAt(t1, ws[1..]);
      assert WriteIds(ws) == {w.id} + WriteIds(ws[1..]);
      forall k | 0 <= k < |ws| && ws[k].id in t
        ensures Override(t, ws)[ws[k].id] == t[ws[k].id].(rank := ws[k].rank)
      {
        if k == 0 {
          assert w.id !in WriteIds(ws[1..]) by {
            forall i | 0 <= i < |ws[1..]| ensures ws[1..][i].id != w.id {
              assert ws[i + 1].id != ws[0].id;
            }
          }
        } else {
          assert ws[1..][k - 1] == ws[k];
        }
      }
    }
  }

  /**
   * A transaction whose every write, made to the rows as the earlier
   * writes left them, is accepted commits with the verbatim effect.
   */
  lemma {:induction false} StepwiseCommit<T>(t: Rows<T>, ws: seq<Write>)
    requires forall i :: 0 <= i < |ws| ==> ApplyWrite(Override(t, ws[..i]), ws[i]).Success?
    ensures ApplyWrites(t, ws) == Success(Override(t, ws))
    decreases |ws|
  {
    if ws != [] {
      assert ws[..0] == [];
      var w := ws[0];
      var t1 := t[w.id := t[w.id].(rank := w.rank)];
      assert ApplyWrite(t, w) == Success(t1);
      assert [w][1..] == [];
      assert Override(t, [w]) == t1;
      forall i | 0 <= i < |ws[1..]|
        ensures ApplyWrite(Override(t1, ws[1..][..i]), ws[1..][i]).Success?
      {
        assert ws[..i + 1] == [w] + ws[1..][..i];
        OverrideAppend(t, [w], ws[1..][..i]);
      }
      StepwiseCommit(t1, ws[1..]);
      assert ws == [w] + ws[1..];
      OverrideAppend(t, [w], ws[1..]);
    }
  }

  /** Writes of the ranks rows already hold change nothing and are all accepted. */
  lemma {:induction false} NoOpPrefix<T>(t: Rows<T>, ws: seq<Write>, p: int)
    requires RanksUnique(t) && 0 <= p <= |ws|
    requires forall i :: 0 <= i < p ==> ws[i].id in t && t[ws[i].id].rank == ws[i].rank
    ensures ApplyWrites(t, ws) == ApplyWrites(t, ws[p..])
    decreases p
  {
    if p > 0 {
      NoOpWrite(t, ws[0]);
      NoOpPrefix(t, ws[1..], p - 1);
      assert ws[1..][p - 1..] == ws[p..];
    }
  }

  /**
   * A transaction that writes `rank` to a row while another row already
   * holds `rank` is rejected by the unique index.
   */
  lemma WriteOntoTakenRank<T>(t: Rows<T>, ws: seq<Write>, other: int)
    requires |ws| > 0 && ws[0].id in t && other in t && other != ws[0].id
    requires t[other].rank == ws[0].rank
    ensures ApplyWrites(t, ws) == Failure(UniqueViolation)
  {
  }

  /** A value below every element of `xs`. */
  function Below(xs: seq<int>): (b: int)
    ensures forall i :: 0 <= i < |xs| ==> b < xs[i]
  {
    if xs == [] then 0
    else
      var rest := Below(xs[1..]);
      if xs[0] - 1 < rest then xs[0] - 1 else rest
  }

  /** A rank below every rank in the table and every rank written. */
  function ParkingBase<T>(t: Rows<T>, ws: seq<Write>): (b: int)
    requires RanksUnique(t)
    ensures forall j :: j in t ==> b < t[j].rank
    ensures forall i :: 0 <= i < |ws| ==> b < ws[i].rank
  {
    var s := Order(t);
    var xs := seq(|s|, i requires 0 <= i < |s| => t[s[i]].rank) + seq(|ws|, i requires 0 <= i < |ws| => ws[i].rank);
    var b := Below(xs);
    assert forall j :: j in t ==> b < t[j].rank by {
      forall j | j in t ensures b < t[j].rank {
        var i := PositionOf(t, j);
        assert xs[i] == t[j].rank;
      }
    }
    assert forall i :: 0 <= i < |ws| ==> b < ws[i].rank by {
      forall i | 0 <= i < |ws| ensures b < ws[i].rank {
        assert xs[|s| + i] == ws[i].rank;
      }
    }
    b
  }

  /** The parking writes: the `i`-th listed row moves to the free rank `base - i`. */
  function Parking(ws: seq<Write>, base: int): (ps: seq<Write>)
    ensures |ps| == |ws|
    ensures forall i :: 0 <= i < |ws| ==> ps[i] == Write(ws[i].id, base - i)
  {
    seq(|ws|, i requires 0 <= i < |ws| => Write(ws[i].id, base - i))
  }

  /**
   * The two-phase transaction: first park every listed row on a rank no
   * row holds and no write asks for, then write the requested ranks.
   */
  function StagedWrites<T>(t: Rows<T>, ws: seq<Write>): seq<Write>
    requires RanksUnique(t)
  {
    Parking(ws, ParkingBase(t, ws)) + ws
  }

  /** The conditions under which a list of rank writes describes a valid new ranking. */
  predicate ValidRanking<T>(t: Rows<T>, ws: seq<Write>) {
    && DistinctIds(ws)
    && (forall i :: 0 <= i < |ws| ==> ws[i].id in t)
    && (forall i, j :: 0 <= i < j < |ws| ==> ws[i].rank != ws[j].rank)
    && (forall j, i :: j in t && j !in WriteIds(ws) && 0 <= i < |ws| ==> t[j].rank != ws[i].rank)
  }

  /** A rank below every rank held and every rank requested. */
  predicate IsParkingBase<T>(t: Rows<T>, ws: seq<Write>, base: int) {
    && (forall j :: j in t ==> base < t[j].rank)
    && (forall i :: 0 <= i < |ws| ==> base < ws[i].rank)
  }

  /** Every parking write is accepted. */
  lemma ParkStep<T>(t: Rows<T>, ws: seq<Write>, base: int, i: int)
    requires RanksUnique(t) && ValidRanking(t, ws) && IsParkingBase(t, ws, base) && 0 <= i < |ws|
    ensures var ps := Parking(ws, base); ApplyWrite(Override(t, ps[..i]), ps[i]).Success?
  {
    var ps := Parking(ws, base);
    var pre := ps[..i];
    assert DistinctIds(pre);
    OverrideAt(t, pre);
    var st := Override(t, pre);
    forall j | j in st && j != ps[i].id ensures st[j].rank != base - i {
      if j in WriteIds(pre) {
        var k :| 0 <= k < |pre| && pre[k].id == j;
        assert st[j].rank == base - k;
      } else {
        assert st[j] == t[j];
      }
    }
  }

  /** After the parking phase every listed row holds its parking rank and the others are untouched. */
  lemma ParkedState<T>(t: Rows<T>, ws: seq<Write>, base: int)
    requires ValidRanking(t, ws)
    ensures var st := Override(t, Parking(ws, base));
      && st.Keys == t.Keys
      && (forall k :: 0 <= k < |ws| ==> st[ws[k].id] == t[ws[k].id].(rank := base - k))
      && (forall j :: j in t && j !in WriteIds(ws) ==> st[j] == t[j])
  {
    var ps := Parking(ws, base);
    assert DistinctIds(ps);
    OverrideAt(t, ps);
    assert WriteIds(ps) == WriteIds(ws) by {
      assert forall k :: 0 <= k < |ws| ==> ps[k].id == ws[k].id;
    }
  }

  /** Midway through the final phase: the first `i` listed rows hold their new ranks, the rest stay parked. */
  lemma FinalState<T>(t: Rows<T>, ws: seq<Write>, base: int, i: int)
    requires ValidRanking(t, ws) && 0 <= i <= |ws|
    ensures var st := Override(Override(t, Parking(ws, base)), ws[..i]);
      && st.Keys == t.Keys
      && (forall k :: 0 <= k < i ==> st[ws[k].id] == t[ws[k].id].(rank := ws[k].rank))
      && (forall k :: i <= k < |ws| ==> st[ws[k].id] == t[ws[k].id].(rank := base - k))
      && (forall j :: j in t && j !in WriteIds(ws) ==> st[j] == t[j])
  {
    ParkedState(t, ws, base);
    var parked := Override(t, Parking(ws, base));
    var pre := ws[..i];
    assert DistinctIds(pre);
    OverrideAt(parked, pre);
    var st := Override(parked, pre);
    forall k | 0 <= k < i ensures st[ws[k].id] == t[ws[k].id].(rank := ws[k].rank) {
      assert pre[k] == ws[k];
    }
    forall k | i <= k < |ws| ensures st[ws[k].id] == t[ws[k].id].(rank := base - k) {
      assert ws[k].id !in WriteIds(pre) by {
        forall m | 0 <= m < |pre| ensures pre[m].id != ws[k].id {
          assert pre[m] == ws[m];
        }
      }
    }
    assert WriteIds(pre) <= WriteIds(ws) by {
      forall m | 0 <= m < |pre| ensures pre[m].id in WriteIds(ws) {
        assert pre[m] == ws[m];
      }
    }
  }

  /** Every final write after the parking phase is accepted. */
  lemma FinalStep<T>(t: Rows<T>, ws: seq<Write>, base: int, i: int)
    requires RanksUnique(t) && ValidRanking(t, ws) && IsParkingBase(t, ws, base) && 0 <= i < |ws|
    ensures ApplyWrite(Override(Override(t, Parking(ws, base)), ws[..i]), ws[i]).Success?
  {
    FinalState(t, ws, base, i);
    var st := Override(Override(t, Parking(ws, base)), ws[..i]);
    forall j | j in st && j != ws[i].id ensures st[j].rank != ws[i].rank {
      if j in WriteIds(ws) {
        var k :| 0 <= k < |ws| && ws[k].id == j;
        assert k != i;
      }
    }
  }

  /** Every write of the two-phase transaction is accepted. */
  lemma StagedStepsAccepted<T>(t: Rows<T>, ws: seq<Write>, base: int)
    requires RanksUnique(t) && ValidRanking(t, ws) && IsParkingBase(t, ws, base)
    ensures var all := Parking(ws, base) + ws;
      forall i :: 0 <= i < |all| ==> ApplyWrite(Override(t, all[..i]), all[i]).Success?
  {
    var ps := Parking(ws, base);
    var all := ps + ws;
    forall i | 0 <= i < |all| ensures ApplyWrite(Override(t, all[..i]), all[i]).Success? {
      if i < |ps| {
        assert all[..i] == ps[..i] && all[i] == ps[i];
        ParkStep(t, ws, base, i);
      } else {
        assert all[..i] == ps + ws[..i - |ps|] && all[i] == ws[i - |ps|];
        OverrideAppend(t, ps, ws[..i - |ps|]);
        FinalStep(t, ws, base, i - |ps|);
      }
    }
  }

  /** Once the requested ranks are written the parking ranks leave no trace. */
  lemma ParkingLeavesNoTrace<T>(t: Rows<T>, ws: seq<Write>, base: int)
    requires ValidRanking(t, ws)
    ensures Override(Override(t, Parking(ws, base)), ws) == Override(t, ws)
  {
    FinalState(t, ws, base, |ws|);
    assert ws[..|ws|] == ws;
    OverrideAt(t, ws);
    var l, r := Override(Override(t, Parking(ws, base)), ws), Override(t, ws);
    forall j | j in t ensures l[j] == r[j] {
      if j in WriteIds(ws) {
        var k :| 0 <= k < |ws| && ws[k].id == j;
      }
    }
  }

  /**
   * The two-phase transaction commits every valid new ranking, and its
   * effect is exactly the requested ranks.
   */
  lemma StagedCommits<T>(t: Rows<T>, ws: seq<Write>)
    requires RanksUnique(t) && ValidRanking(t, ws)
    ensures ApplyWrites(t, StagedWrites(t, ws)) == Success(Override(t, ws))
  {
    var base := ParkingBase(t, ws);
    var ps := Parking(ws, base);
    StagedStepsAccepted(t, ws, base);
    StepwiseCommit(t, ps + ws);
    OverrideAppend(t, ps, ws);
    ParkingLeavesNoTrace(t, ws, base);
  }

  // ---------------------------------------------------------------------
  // Create and delete, as functions on the rows.
  // ---------------------------------------------------------------------

  /** The rows after inserting `data` under the fresh id `id` at rank `NewRank(t)`. */
  function Append<T>(t: Rows<T>, id: int, data: T): Rows<T>
    requires RanksUnique(t)
  {
    t[id := Ranked(NewRank(t), data)]
  }

  /**
   * A created row sorts last: the listing order is the old order followed
   * by the new id, and the existing rows are untouched.
   */
  lemma AppendSortsLast<T>(t: Rows<T>, id: int, data: T)
    requires RanksUnique(t) && id !in t
    ensures RanksUnique(Append(t, id, data))
    ensures forall j :: j in t ==> Append(t, id, data)[j] == t[j]
    ensures Order(Append(t, id, data)) == Order(t) + [id]
  {
    var t' := Append(t, id, data);
    var v := NewRank(t);
    assert Ranks(t') == Ranks(t)[id := v];
    forall j | j in Ranks(t) ensures Ranks(t)[j] < v {
    }
    SnocAscendingOrder(Ranks(t), Order(t), id, v);
    AscendingOrderUnique(Ranks(t'), Order(t'), Order(t) + [id]);
  }

  /** A created row that collides with no row keeps the UNIQUE columns, `rank` among them, unique. */
  lemma AppendKeepsUnique<T>(t: Rows<T>, id: int, data: T, clash: (T, T) -> bool)
    requires RanksUnique(t) && NoClash(t, clash) && id !in t
    requires forall j :: j in t ==> !clash(t[j].data, data) && !clash(data, t[j].data)
    ensures RanksUnique(Append(t, id, data)) && NoClash(Append(t, id, data), clash)
  {
    AppendSortsLast(t, id, data);
    var t' := Append(t, id, data);
    forall i, j | i in t' && j in t' && i != j ensures !clash(t'[i].data, t'[j].data) {
      if i != id && j != id {
        assert t'[i] == t[i] && t'[j] == t[j];
      }
    }
  }

  /** `s` without its element at position `p`. */
  function RemoveAt<X>(s: seq<X>, p: int): (r: seq<X>)
    requires 0 <= p < |s|
    ensures |r| == |s| - 1
    ensures forall i :: 0 <= i < p ==> r[i] == s[i]
    ensures forall i :: p <= i < |r| ==> r[i] == s[i + 1]
  {
    s[..p] + s[p + 1..]
  }

  /**
   * Deleting a row removes exactly that row from the listing and does not
   * renumber the others: the remaining ranks keep their values.
   */
  lemma DeleteKeepsOrder<T>(t: Rows<T>, p: int)
    requires RanksUnique(t) && 0 <= p < |Order(t)|
    ensures var id := Order(t)[p];
      && RanksUnique(t - {id})
      && (forall j :: j in t - {id} ==> (t - {id})[j] == t[j])
      && Order(t - {id}) == RemoveAt(Order(t), p)
  {
    var s := Order(t);
    var id := s[p];
    var t' := t - {id};
    assert Ranks(t') == Ranks(t) - {id};
    RemoveAtAscendingOrder(Ranks(t), s, p);
    RanksInjective(t');
    AscendingOrderUnique(Ranks(t'), Order(t'), RemoveAt(s, p));
  }

  /** Removing the id at position `p` of an ascending order leaves an ascending order of the rest. */
  lemma RemoveAtAscendingOrder(m: map<int, int>, s: seq<int>, p: int)
    requires IsAscendingOrder(m, s) && 0 <= p < |s|
    ensures IsAscendingOrder(m - {s[p]}, RemoveAt(s, p))
  {
    var id, m', s' := s[p], m - {s[p]}, RemoveAt(s, p);
    AscendingOrderDistinct(m, s);
    forall i | 0 <= i < |s'| ensures s'[i] in m' && m'[s'[i]] == m[s'[i]] {
      if i < p { assert s[i] != id; } else { assert s[i + 1] != id; }
    }
    forall k | k in m' ensures k in s' {
      var i :| 0 <= i < |s| && s[i] == k;
      if i < p { assert s'[i] == k; } else { assert s'[i - 1] == k; }
    }
    forall i, j | 0 <= i < j < |s'| ensures m'[s'[i]] < m'[s'[j]] {
      var i0 := if i < p then i else i + 1;
      var j0 := if j < p then j else j + 1;
      assert s'[i] == s[i0] && s'[j] == s[j0] && i0 < j0;
    }
  }

  // ---------------------------------------------------------------------
  // Dense ranks: the ranks of N rows are exactly 1..N.
  // ---------------------------------------------------------------------

  /** Every rank lies in 1..N; with unique ranks, they are exactly 1..N. */
  predicate DenseRanks<T>(t: Rows<T>) {
    forall i :: i in t ==> 1 <= t[i].rank <= |t|
  }

  /** Distinct increasing integers from 1..N, N of them, are 1, 2, ..., N. */
  lemma {:induction false} Staircase(xs: seq<int>)
    requires forall i, j :: 0 <= i < j < |xs| ==> xs[i] < xs[j]
    requires forall i :: 0 <= i < |xs| ==> 1 <= xs[i] <= |xs|
    ensures forall i :: 0 <= i < |xs| ==> xs[i] == i + 1
  {
    forall i | 0 <= i < |xs| ensures xs[i] >= i + 1 {
      StairBelow(xs, i);
    }
    forall i | 0 <= i < |xs| ensures xs[i] <= i + 1 {
      StairAbove(xs, i);
    }
  }

  lemma {:induction false} StairBelow(xs: seq<int>, i: int)
    requires forall a, b :: 0 <= a < b < |xs| ==> xs[a] < xs[b]
    requires forall a :: 0 <= a < |xs| ==> 1 <= xs[a]
    requires 0 <= i < |xs|
    ensures xs[i] >= i + 1
    decreases i
  {
    if i > 0 {
      StairBelow(xs, i - 1);
    }
  }

  lemma {:induction false} StairAbove(xs: seq<int>, i: int)
    requires forall a, b :: 0 <= a < b < |xs| ==> xs[a] < xs[b]
    requires forall a :: 0 <= a < |xs| ==> xs[a] <= |xs|
    requires 0 <= i < |xs|
    ensures xs[i] <= i + 1
    decreases |xs| - i
  {
    if i < |xs| - 1 {
      StairAbove(xs, i + 1);
    }
  }

  /** With dense ranks, the row listed at position `p` has rank `p + 1`. */
  lemma DensePositions<T>(t: Rows<T>)
    requires RanksUnique(t) && DenseRanks(t)
    ensures forall p :: 0 <= p < |Order(t)| ==> Order(t)[p] in t && t[Order(t)[p]].rank == p + 1
  {
    var s := Order(t);
    var xs := seq(|s|, p requires 0 <= p < |s| => t[s[p]].rank);
    assert forall i, j :: 0 <= i < j < |xs| ==> xs[i] < xs[j] by {
      forall i, j | 0 <= i < j < |xs| ensures xs[i] < xs[j] {
        assert Ranks(t)[s[i]] < Ranks(t)[s[j]];
      }
    }
    assert |xs| == |t|;
    forall p | 0 <= p < |xs| ensures 1 <= xs[p] <= |xs| {
      var id := s[p];
      assert id in t && xs[p] == t[id].rank;
      assert 1 <= t[id].rank <= |t|;
    }
    Staircase(xs);
    forall p | 0 <= p < |s| ensures s[p] in t && t[s[p]].rank == p + 1 {
      assert xs[p] == t[s[p]].rank;
    }
  }

  /** Dense ranks are at least 1, so no row holds the sentinel. */
  lemma DenseIsSentinelFree<T>(t: Rows<T>)
    requires DenseRanks(t)
    ensures SentinelFree(t)
  {
  }

  /** A create on a dense table assigns rank N + 1 and keeps it dense. */
  lemma CreateKeepsDense<T>(t: Rows<T>, id: int, data: T)
    requires RanksUnique(t) && DenseRanks(t) && id !in t
    ensures NewRank(t) == |t| + 1
    ensures DenseRanks(Append(t, id, data))
  {
    if t != map[] {
      DensePositions(t);
      var s := Order(t);
      assert t[s[|s| - 1]].rank == |t|;
    }
  }

  /** A move that commits keeps the set of rank values, so a dense table stays dense. */
  lemma MoveKeepsDense<T>(t: Rows<T>, id: int, up: bool)
    requires RanksUnique(t) && DenseRanks(t)
    requires (if up then MoveUpOutcome(t, id) else MoveDownOutcome(t, id)).Success?
    ensures var t' := (if up then MoveUpOutcome(t, id) else MoveDownOutcome(t, id)).value;
      RanksUnique(t') && DenseRanks(t')
  {
    var p := PositionOf(t, id);
    var t' := (if up then MoveUpOutcome(t, id) else MoveDownOutcome(t, id)).value;
    if up { MoveUpAtPosition(t, p); } else { MoveDownAtPosition(t, p); }
    assert |t'| == |t| by { assert t'.Keys == t.Keys; }
    forall i | i in t' ensures 1 <= t'[i].rank <= |t| {
      assert t'[i].rank in RankValues(t');
    }
  }

  /**
   * On a dense table every move commits except at the ends of the list:
   * the sentinel is always free.
   */
  lemma DenseMovesCommit<T>(t: Rows<T>, p: int)
    requires RanksUnique(t) && DenseRanks(t) && 0 <= p < |Order(t)|
    ensures p > 0 ==> MoveUpOutcome(t, Order(t)[p]).Success?
    ensures p < |Order(t)| - 1 ==> MoveDownOutcome(t, Order(t)[p]).Success?
  {
    MoveUpAtPosition(t, p);
    MoveDownAtPosition(t, p);
  }

  /** A delete does not renumber: deleting the first of two rows leaves the rank 2 alone. */
  lemma DeleteLeavesGap<T>(a: T, b: T)
    ensures var t := map[1 := Ranked(1, a), 2 := Ranked(2, b)];
      && RanksUnique(t) && DenseRanks(t) && !DenseRanks(t - {1})
  {
    var t := map[1 := Ranked(1, a), 2 := Ranked(2, b)];
    assert (t - {1}).Keys == {2};
  }

  // ---------------------------------------------------------------------
  // The table itself.
  // ---------------------------------------------------------------------

  /**
   * One ranked table (Area or Default) as the database holds it: the rows
   * by id, the AUTOINCREMENT counter (ids are never reused), and the
   * relation telling when two rows collide on a UNIQUE column other than
   * `rank`.
   */
  class RankedTable<T> {
    var rows: Rows<T>
    var lastId: int
    const clash: (T, T) -> bool

    ghost predicate Valid()
      reads this
    {
      && RanksUnique(rows) && NoClash(rows, clash)
      && lastId >= 0
      && forall i :: i in rows ==> 1 <= i <= lastId
    }

    constructor (clash: (T, T) -> bool)
      ensures Valid() && rows == map[] && lastId == 0 && this.clash == clash
    {
      rows := map[];
      lastId := 0;
      this.clash := clash;
    }

    /**
     * `create({ data: { ..., rank: newRank } })` with `newRank` one more
     * than the largest rank (1 on an empty table). The insert is rejected
     * when the new row collides with an existing one on a UNIQUE column.
     */
    method Create(data: T) returns (r: Result<int, DbError>)
      modifies this
      requires Valid()
      ensures Valid()
      ensures (exists j :: j in old(rows) && (clash(old(rows)[j].data, data) || clash(data, old(rows)[j].data)))
        ==> r == Failure(UniqueViolation) && rows == old(rows) && lastId == old(lastId)
      ensures (forall j :: j in old(rows) ==> !clash(old(rows)[j].data, data) && !clash(data, old(rows)[j].data))
        ==> && r == Success(old(lastId) + 1) && old(lastId) + 1 !in old(rows)
            && rows == Append(old(rows), old(lastId) + 1, data) && lastId == old(lastId) + 1
    {
      if exists j :: j in rows && (clash(rows[j].data, data) || clash(data, rows[j].data)) {
        return Failure(UniqueViolation);
      }
      var id := lastId + 1;
      AppendKeepsUnique(rows, id, data, clash);
      rows := Append(rows, id, data);
      lastId := id;
      r := Success(id);
    }

    /** `delete({ where: { id } })`: removes that row, or reports that there is none. */
    method Delete(id: int) returns (r: Result<(), DbError>)
      modifies this
      requires Valid()
      ensures Valid() && lastId == old(lastId)
      ensures id !in old(rows) ==> r == Failure(RecordNotFound) && rows == old(rows)
      ensures id in old(rows) ==> r == Success(()) && rows == old(rows) - {id}
    {
      if id !in rows {
        return Failure(RecordNotFound);
      }
      rows := rows - {id};
      r := Success(());
    }

    /**
     * `$transaction([update, update, ...])`: the writes run one after the
     * other against a working copy; the first rejected write aborts the
     * whole list and leaves the table as it was.
     */
    method Transaction(ws: seq<Write>) returns (r: Result<(), DbError>)
      modifies this
      requires Valid()
      ensures Valid() && lastId == old(lastId)
      ensures ApplyWrites(old(rows), ws) == if r.Success? then Success(rows) else Failure(r.error)
      ensures r.Failure? ==> rows == old(rows)
    {
      var staged := rows;
      var i := 0;
      while i < |ws|
        invariant 0 <= i <= |ws|
        invariant Valid() && rows == old(rows) && lastId == old(lastId)
        invariant RanksUnique(staged) && staged.Keys == rows.Keys
        invariant forall j :: j in rows ==> staged[j].data == rows[j].data
        invariant ApplyWrites(rows, ws) == ApplyWrites(staged, ws[i..])
      {
        assert ws[i..][1..] == ws[i + 1..];
        match ApplyWrite(staged, ws[i])
        case Failure(e) =>
          return Failure(e);
        case Success(next) =>
          WriteKeepsRanksUnique(staged, ws[i]);
          staged := next;
        i := i + 1;
      }
      assert NoClash(staged, clash) by {
        forall a, b | a in staged && b in staged && a != b
          ensures !clash(staged[a].data, staged[b].data)
        {
          assert staged[a].data == rows[a].data && staged[b].data == rows[b].data;
        }
      }
      rows := staged;
      r := Success(());
    }

    /**
     * `areaMoveUp` / `defaultMoveUp`: swap ranks with the row ranked just
     * above, through the sentinel -1, in one transaction.
     */
    method MoveUp(id: int) returns (r: Result<(), MoveError>)
      modifies this
      requires Valid()
      ensures Valid() && lastId == old(lastId)
      ensures MoveUpOutcome(old(rows), id) == if r.Success? then Success(rows) else Failure(r.error)
      ensures r.Failure? ==> rows == old(rows)
    {
      if id !in rows {
        return Failure(NotFound);
      }
      var upper := NearestBelow(rows, rows[id].rank);
      if upper.None? {
        return Failure(AlreadyAtTop);
      }
      var res := Transaction(SwapPlan(rows, id, upper.value));
      r := if res.Success? then Success(()) else Failure(Storage(res.error));
    }

    /**
     * `areaMoveDown` / `defaultMoveDown`: swap ranks with the row ranked
     * just below, through the sentinel -1, in one transaction.
     */
    method MoveDown(id: int) returns (r: Result<(), MoveError>)
      modifies this
      requires Valid()
      ensures Valid() && lastId == old(lastId)
      ensures MoveDownOutcome(old(rows), id) == if r.Success? then Success(rows) else Failure(r.error)
      ensures r.Failure? ==> rows == old(rows)
    {
      if id !in rows {
        return Failure(NotFound);
      }
      var lower := NearestAbove(rows, rows[id].rank);
      if lower.None? {
        return Failure(AlreadyAtBottom);
      }
      var res := Transaction(SwapPlan(rows, lower.value, id));
      r := if res.Success? then Success(()) else Failure(Storage(res.error));
    }

    /**
     * A bulk reorder that first parks every listed row on a free rank and
     * then writes the requested ranks, all in one transaction: every valid
     * new ranking commits, with exactly the requested ranks.
     */
    method UpdateRanksStaged(ws: seq<Write>) returns (r: Result<(), DbError>)
      modifies this
      requires Valid()
      ensures Valid() && lastId == old(lastId)
      ensures ApplyWrites(old(rows), StagedWrites(old(rows), ws))
           == if r.Success? then Success(rows) else Failure(r.error)
      ensures r.Failure? ==> rows == old(rows)
      ensures ValidRanking(old(rows), ws) ==> r.Success? && rows == Override(old(rows), ws)
    {
      if ValidRanking(rows, ws) {
        StagedCommits(rows, ws);
      }
      r := Transaction(StagedWrites(rows, ws));
    }
  }
}
