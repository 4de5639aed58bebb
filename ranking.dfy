/**
 * The order a query with `orderBy: { <column>: "asc" }` returns: the ids of a
 * table listed by strictly ascending value of a unique integer column. The
 * column is given as a map from id to its value.
 */
module Ranking {

  /** No two ids carry the same value. */
  predicate Injective(m: map<int, int>) {
    forall i, j :: i in m && j in m && i != j ==> m[i] != m[j]
  }

  /** `s` lists exactly the ids of `m`, by strictly ascending value. */
  ghost predicate IsAscendingOrder(m: map<int, int>, s: seq<int>) {
    && (forall i :: 0 <= i < |s| ==> s[i] in m)
    && (forall k :: k in m ==> k in s)
    && (forall i, j :: 0 <= i < j < |s| ==> m[s[i]] < m[s[j]])
  }

  /** A non-empty set has an element. */
  lemma Element(ks: set<int>) returns (x: int)
    requires ks != {}
    ensures x in ks
  {
    if forall y :: y !in ks { assert false; }
    x :| x in ks;
  }

  lemma {:induction false} MinExists(m: map<int, int>, ks: set<int>)
    requires ks != {} && ks <= m.Keys
    ensures exists k :: k in ks && forall j :: j in ks ==> m[k] <= m[j]
    decreases ks
  {
    var x := Element(ks);
    if ks != {x} {
      MinExists(m, ks - {x});
      var k :| k in ks - {x} && forall j :: j in ks - {x} ==> m[k] <= m[j];
      if m[x] < m[k] {
        assert forall j :: j in ks ==> m[x] <= m[j];
      } else {
        assert forall j :: j in ks ==> m[k] <= m[j];
      }
    } else {
      assert forall j :: j in ks ==> m[x] <= m[j];
    }
  }

  lemma {:induction false} MaxExists(m: map<int, int>, ks: set<int>)
    requires ks != {} && ks <= m.Keys
    ensures exists k :: k in ks && forall j :: j in ks ==> m[j] <= m[k]
    decreases ks
  {
    var x := Element(ks);
    if ks != {x} {
      MaxExists(m, ks - {x});
      var k :| k in ks - {x} && forall j :: j in ks - {x} ==> m[j] <= m[k];
      if m[k] < m[x] {
        assert forall j :: j in ks ==> m[j] <= m[x];
      } else {
        assert forall j :: j in ks ==> m[j] <= m[k];
      }
    } else {
      assert forall j :: j in ks ==> m[j] <= m[x];
    }
  }

  /** The id with the smallest value. */
  function MinKey(m: map<int, int>): (k: int)
    requires m != map[] && Injective(m)
    ensures k in m && forall j :: j in m ==> m[k] <= m[j]
  {
    MinExists(m, m.Keys);
    var k :| k in m && forall j :: j in m ==> m[k] <= m[j];
    k
  }

  /** The ids of `m` by ascending value: what `orderBy ... "asc"` returns. */
  function AscendingOrder(m: map<int, int>): (s: seq<int>)
    requires Injective(m)
    ensures |s| == |m| && IsAscendingOrder(m, s)
    decreases |m|
  {
    if m == map[] then []
    else
      var k := MinKey(m);
      var rest := m - {k};
      assert rest.Keys == m.Keys - {k};
      var s := AscendingOrder(rest);
      assert forall j :: j in m && j != k ==> m[k] < m[j];
      ConsAscendingOrder(m, k, s);
      [k] + s
  }

  /** The keys of a table, each mapped to itself. */
  function KeyMap<V>(t: map<int, V>): (m: map<int, int>)
    ensures m.Keys == t.Keys && Injective(m)
  {
    map k | k in t :: k
  }

  /** The keys of a table in ascending order: what `orderBy: { id: "asc" }` returns. */
  function AscendingKeys<V>(t: map<int, V>): (s: seq<int>)
    ensures |s| == |t|
    ensures forall i :: 0 <= i < |s| ==> s[i] in t
    ensures forall k :: k in t ==> k in s
    ensures forall i, j :: 0 <= i < j < |s| ==> s[i] < s[j]
  {
    var s := AscendingOrder(KeyMap(t));
    assert forall i :: 0 <= i < |s| ==> KeyMap(t)[s[i]] == s[i];
    s
  }

  /** The id of the smallest value followed by an ascending order of the others is an ascending order. */
  lemma ConsAscendingOrder(m: map<int, int>, k: int, s: seq<int>)
    requires k in m && forall j :: j in m && j != k ==> m[k] < m[j]
    requires IsAscendingOrder(m - {k}, s) && |s| == |m - {k}|
    ensures |[k] + s| == |m| && IsAscendingOrder(m, [k] + s)
  {
    var s', rest := [k] + s, m - {k};
    assert rest.Keys == m.Keys - {k};
    assert forall i :: 0 < i < |s'| ==> s'[i] == s[i - 1];
    forall i | 0 <= i < |s| ensures s[i] in m && s[i] != k && rest[s[i]] == m[s[i]] {
      assert s[i] in rest.Keys;
    }
    forall x | x in m ensures x in s' {
      if x != k { assert x in rest; }
    }
    ConsSorted(m, k, s);
  }

  /** The values along `[k] + s` ascend strictly. */
  lemma ConsSorted(m: map<int, int>, k: int, s: seq<int>)
    requires k in m && forall j :: j in m && j != k ==> m[k] < m[j]
    requires IsAscendingOrder(m - {k}, s)
    ensures forall i, j :: 0 <= i < j < |[k] + s| ==>
      ([k] + s)[i] in m && ([k] + s)[j] in m && m[([k] + s)[i]] < m[([k] + s)[j]]
  {
    var s', rest := [k] + s, m - {k};
    assert rest.Keys == m.Keys - {k};
    forall i, j | 0 <= i < j < |s'| ensures s'[i] in m && s'[j] in m && m[s'[i]] < m[s'[j]] {
      var y := s[j - 1];
      assert s'[j] == y && y in rest;
      if i == 0 {
        assert y in m && y != k;
      } else {
        assert s'[i] == s[i - 1] && s[i - 1] in rest && rest[s[i - 1]] < rest[y];
      }
    }
  }

  /** An id with a value above all others goes last. */
  lemma SnocAscendingOrder(m: map<int, int>, s: seq<int>, k: int, v: int)
    requires IsAscendingOrder(m, s) && k !in m && forall j :: j in m ==> m[j] < v
    ensures IsAscendingOrder(m[k := v], s + [k])
  {
    var m', s' := m[k := v], s + [k];
    forall i | 0 <= i < |s'| ensures s'[i] in m' {
      if i < |s| { assert s'[i] == s[i]; }
    }
    forall x | x in m' ensures x in s' {
      if x != k {
        var i :| 0 <= i < |s| && s[i] == x;
        assert s'[i] == x;
      } else {
        assert s'[|s|] == k;
      }
    }
    forall i, j | 0 <= i < j < |s'| ensures m'[s'[i]] < m'[s'[j]] {
      assert s'[i] == s[i] && s[i] in m && s[i] != k;
      if j < |s| { assert s'[j] == s[j] && s[j] != k; } else { assert s'[j] == k; }
    }
  }

  /** Exchanging the values of two neighbours of an ascending order exchanges their positions. */
  lemma SwapAscendingOrder(m: map<int, int>, s: seq<int>, p: int)
    requires IsAscendingOrder(m, s) && 0 < p < |s|
    ensures var a, b := s[p], s[p - 1];
      IsAscendingOrder(m[a := m[b]][b := m[a]], s[p - 1 := a][p := b])
  {
    var a, b := s[p], s[p - 1];
    var m', s' := m[a := m[b]][b := m[a]], s[p - 1 := a][p := b];
    AscendingOrderDistinct(m, s);
    forall i | 0 <= i < |s'| ensures s'[i] in m' && m'[s'[i]] == m[s[i]] {
      if i != p && i != p - 1 {
        assert s[i] != a && s[i] != b;
      }
    }
    forall k | k in m' ensures k in s' {
      var i :| 0 <= i < |s| && s[i] == k;
      if k == a { assert s'[p - 1] == k; }
      else if k == b { assert s'[p] == k; }
      else { assert s'[i] == k; }
    }
  }

  /** An ascending order lists each id once. */
  lemma AscendingOrderDistinct(m: map<int, int>, s: seq<int>)
    requires IsAscendingOrder(m, s)
    ensures forall i, j :: 0 <= i < j < |s| ==> s[i] != s[j]
  {
  }

  /** The first id of an ascending order has the smallest value. */
  lemma FirstIsMin(m: map<int, int>, s: seq<int>, k: int)
    requires IsAscendingOrder(m, s) && |s| > 0
    requires k in m && k != s[0]
    ensures m[s[0]] < m[k]
  {
    var i :| 0 <= i < |s| && s[i] == k;
  }

  /** Dropping the first id of an ascending order leaves an ascending order of the rest. */
  lemma TailIsAscendingOrder(m: map<int, int>, s: seq<int>)
    requires IsAscendingOrder(m, s) && |s| > 0
    ensures IsAscendingOrder(m - {s[0]}, s[1..])
  {
    var rest := m - {s[0]};
    forall i | 0 <= i < |s| - 1 ensures s[1..][i] in rest {
      assert m[s[0]] < m[s[i + 1]];
    }
    forall x | x in rest ensures x in s[1..] {
      var i :| 0 <= i < |s| && s[i] == x;
      assert s[1..][i - 1] == x;
    }
  }

  /** An ascending order is empty exactly when the table is. */
  lemma EmptyOrder(m: map<int, int>, s: seq<int>)
    requires IsAscendingOrder(m, s)
    ensures s == [] <==> m.Keys == {}
  {
    if s != [] {
      var x := s[0];
      assert x in m.Keys;
    } else {
      assert forall k :: k !in m.Keys;
    }
  }

  /** There is only one way to list the ids of `m` by strictly ascending value. */
  lemma {:induction false} AscendingOrderUnique(m: map<int, int>, s1: seq<int>, s2: seq<int>)
    requires IsAscendingOrder(m, s1) && IsAscendingOrder(m, s2)
    ensures s1 == s2
    decreases |s1|
  {
    EmptyOrder(m, s1);
    EmptyOrder(m, s2);
    if s1 == [] {
    } else {
      var k := s1[0];
      if s2[0] != k {
        FirstIsMin(m, s1, s2[0]);
        FirstIsMin(m, s2, k);
        assert false;
      }
      TailIsAscendingOrder(m, s1);
      TailIsAscendingOrder(m, s2);
      AscendingOrderUnique(m - {k}, s1[1..], s2[1..]);
      assert s1 == [k] + s1[1..];
      assert s2 == [k] + s2[1..];
    }
  }
}
