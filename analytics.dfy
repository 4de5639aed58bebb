/**
 * The analytics router (`src/server/api/routers/admin/analytics.ts`): the
 * list of Defaults, and for a date range the number of reports per area
 * name (or class name) and per Default, the bucket of a report being the
 * id of the Default with the report's text, or 0 when none has it.
 *
 * The counting loop builds a list of entries, one per key, in the order the
 * keys first occur in the report list; an entry maps each bucket that
 * occurred to its count, and a bucket with no report is absent.
 */
module Analytics {
  import opened Wrappers
  import opened Schema
  import opened Ranking
  import opened Validators
  import opened Settings

  // ---------------------------------------------------------------------
  // The Defaults and the bucket of a report.
  // ---------------------------------------------------------------------

  /** The selected columns of the Defaults `ids`, in that order. */
  function ViewsOf(ids: seq<int>, t: DefaultTable): (r: seq<DefaultView>)
    requires forall i :: 0 <= i < |ids| ==> ids[i] in t
    ensures |r| == |ids|
    ensures forall i :: 0 <= i < |r| ==> r[i] == DefaultView(ids[i], t[ids[i]].data.shorthand, t[ids[i]].data.text)
  {
    if ids == [] then []
    else [DefaultView(ids[0], t[ids[0]].data.shorthand, t[ids[0]].data.text)] + ViewsOf(ids[1..], t)
  }

  /**
   * `getDefaults` / `getDefaultsAsArray`: id, text and shorthand of every
   * Default. The query has no `orderBy`; the rows come in storage order,
   * which for rows created by AUTOINCREMENT is ascending id.
   */
  function GetDefaults(t: DefaultTable): (r: seq<DefaultView>)
    ensures |r| == |t|
    ensures forall i :: 0 <= i < |r| ==>
      r[i].id in t && r[i].shorthand == t[r[i].id].data.shorthand && r[i].text == t[r[i].id].data.text
    ensures forall i, j :: 0 <= i < j < |r| ==> r[i].id < r[j].id
  {
    var ids := AscendingKeys(t);
    var r := ViewsOf(ids, t);
    assert forall i :: 0 <= i < |r| ==>
      r[i].id in t && r[i].shorthand == t[r[i].id].data.shorthand && r[i].text == t[r[i].id].data.text by {
      forall i | 0 <= i < |r|
        ensures r[i].id in t && r[i].shorthand == t[r[i].id].data.shorthand && r[i].text == t[r[i].id].data.text
      {
        assert r[i] == DefaultView(ids[i], t[ids[i]].data.shorthand, t[ids[i]].data.text);
      }
    }
    r
  }

  /** Every Default is listed by `getDefaults`: the position of Default `k`. */
  lemma DefaultListed(t: DefaultTable, k: int) returns (i: int)
    requires k in t
    ensures 0 <= i < |GetDefaults(t)| && GetDefaults(t)[i].id == k
  {
    var ids := AscendingKeys(t);
    i :| 0 <= i < |ids| && ids[i] == k;
    assert GetDefaults(t) == ViewsOf(ids, t);
  }

  /** `defaults.find(def => def.text === text)?.id ?? 0`. */
  function Bucket(defaults: seq<DefaultView>, text: string): (b: int)
    ensures (forall i :: 0 <= i < |defaults| ==> defaults[i].text != text) ==> b == 0
    ensures (exists i :: 0 <= i < |defaults| && defaults[i].text == text) ==>
      exists i :: 0 <= i < |defaults| && defaults[i].id == b && defaults[i].text == text
  {
    if defaults == [] then 0
    else if defaults[0].text == text then defaults[0].id
    else Bucket(defaults[1..], text)
  }

  /**
   * Since Default texts are unique and ids start at 1, a report's bucket is
   * the id of THE Default with its text, and 0 exactly when no Default has
   * that text.
   */
  lemma BucketIsTheDefault(t: DefaultTable, text: string)
    requires NoClash(t, DefaultClash) && forall k :: k in t ==> k >= 1
    ensures var b := Bucket(GetDefaults(t), text);
      && (b == 0 <==> forall k :: k in t ==> t[k].data.text != text)
      && (b != 0 ==> b in t && t[b].data.text == text)
      && forall k :: k in t && t[k].data.text == text ==> k == b
  {
    var b := Bucket(GetDefaults(t), text);
    if exists k :: k in t && t[k].data.text == text {
      BucketFound(t, text);
      forall k | k in t && t[k].data.text == text ensures k == b {
        TextsUnique(t, k, b);
      }
    } else {
      BucketMissing(t, text);
    }
  }

  /** When some Default has the text, the bucket is a Default with that text. */
  lemma BucketFound(t: DefaultTable, text: string)
    requires exists k :: k in t && t[k].data.text == text
    ensures var b := Bucket(GetDefaults(t), text); b in t && t[b].data.text == text
  {
    var k :| k in t && t[k].data.text == text;
    var i := DefaultListed(t, k);
    var j := BucketAt(GetDefaults(t), text, i);
  }

  /** The position of the bucket, given a position holding the text. */
  lemma BucketAt(ds: seq<DefaultView>, text: string, i: int) returns (j: int)
    requires 0 <= i < |ds| && ds[i].text == text
    ensures 0 <= j < |ds| && ds[j].id == Bucket(ds, text) && ds[j].text == text
  {
    j :| 0 <= j < |ds| && ds[j].id == Bucket(ds, text) && ds[j].text == text;
  }

  /** When no Default has the text, the bucket is 0. */
  lemma BucketMissing(t: DefaultTable, text: string)
    requires forall k :: k in t ==> t[k].data.text != text
    ensures Bucket(GetDefaults(t), text) == 0
  {
    var ds := GetDefaults(t);
    NoViewHasText(t, ds, text);
    assert Bucket(ds, text) == 0;
  }

  /** Views of Defaults none of which has the text do not have it either. */
  lemma NoViewHasText(t: DefaultTable, ds: seq<DefaultView>, text: string)
    requires forall i :: 0 <= i < |ds| ==> ds[i].id in t && ds[i].text == t[ds[i].id].data.text
    requires forall k :: k in t ==> t[k].data.text != text
    ensures forall i :: 0 <= i < |ds| ==> ds[i].text != text
  {
  }

  /** Default texts are unique. */
  lemma TextsUnique(t: DefaultTable, k1: int, k2: int)
    requires NoClash(t, DefaultClash) && k1 in t && k2 in t && t[k1].data.text == t[k2].data.text
    ensures k1 == k2
  {
    if k1 != k2 {
      assert DefaultClash(t[k1].data, t[k2].data);
    }
  }

  // ---------------------------------------------------------------------
  // The counting loop and its specification.
  // ---------------------------------------------------------------------

  /** One entry of `areaMap` / `classMap`: its key and the count of each bucket. */
  datatype Entry = Entry(key: string, counts: map<int, int>)

  /** The keys of a list of (key, bucket) pairs, each once, in order of first occurrence. */
  function FirstKeys(items: seq<(string, int)>): (ks: seq<string>)
    ensures forall j, l :: 0 <= j < l < |ks| ==> ks[j] != ks[l]
    ensures forall k :: k in ks <==> exists i :: 0 <= i < |items| && items[i].0 == k
    decreases |items|
  {
    if items == [] then []
    else
      var p := FirstKeys(items[..|items| - 1]);
      var k := items[|items| - 1].0;
      assert forall i :: 0 <= i < |items| - 1 ==> items[..|items| - 1][i] == items[i];
      if k in p then p else p + [k]
  }

  /** How many of the pairs are exactly (key, bucket). */
  function Count(items: seq<(string, int)>, key: string, bucket: int): nat
    decreases |items|
  {
    if items == [] then 0
    else Count(items[..|items| - 1], key, bucket) + (if items[|items| - 1] == (key, bucket) then 1 else 0)
  }

  /** `entries` is what counting `items` yields: one entry per key in first-occurrence order, exact counts. */
  ghost predicate Tallies(items: seq<(string, int)>, entries: seq<Entry>) {
    && |entries| == |FirstKeys(items)|
    && (forall j :: 0 <= j < |entries| ==> entries[j].key == FirstKeys(items)[j])
    && (forall j, b :: 0 <= j < |entries| ==> (b in entries[j].counts <==> Count(items, entries[j].key, b) > 0))
    && (forall j, b :: 0 <= j < |entries| && b in entries[j].counts ==>
          entries[j].counts[b] == Count(items, entries[j].key, b))
  }

  lemma FirstKeysSnoc(p: seq<(string, int)>, x: (string, int))
    ensures FirstKeys(p + [x]) == if x.0 in FirstKeys(p) then FirstKeys(p) else FirstKeys(p) + [x.0]
  {
    assert (p + [x])[..|p|] == p;
  }

  lemma CountSnoc(p: seq<(string, int)>, x: (string, int), key: string, bucket: int)
    ensures Count(p + [x], key, bucket) == Count(p, key, bucket) + (if x == (key, bucket) then 1 else 0)
  {
    assert (p + [x])[..|p|] == p;
  }

  /** A pair that occurs has its key among the first keys. */
  lemma {:induction false} CountedKeyListed(items: seq<(string, int)>, key: string, bucket: int)
    requires Count(items, key, bucket) > 0
    ensures key in FirstKeys(items)
    decreases |items|
  {
    var p := items[..|items| - 1];
    if items[|items| - 1] != (key, bucket) {
      CountedKeyListed(p, key, bucket);
      var i :| 0 <= i < |p| && p[i].0 == key;
      assert items[i].0 == key;
    }
  }

  /** Counting one more pair whose key is new appends an entry with that one bucket. */
  lemma TallyNewKey(p: seq<(string, int)>, x: (string, int), entries: seq<Entry>)
    requires Tallies(p, entries) && x.0 !in FirstKeys(p)
    ensures Tallies(p + [x], entries + [Entry(x.0, map[x.1 := 1])])
  {
    FirstKeysSnoc(p, x);
    var q := p + [x];
    var es := entries + [Entry(x.0, map[x.1 := 1])];
    forall j, b | 0 <= j < |es|
      ensures (b in es[j].counts <==> Count(q, es[j].key, b) > 0)
      ensures b in es[j].counts ==> es[j].counts[b] == Count(q, es[j].key, b)
    {
      CountSnoc(p, x, es[j].key, b);
      if j == |entries| {
        if Count(p, x.0, b) > 0 {
          CountedKeyListed(p, x.0, b);
        }
      } else {
        assert es[j] == entries[j];
        assert es[j].key in FirstKeys(p);
      }
    }
  }

  /** Counting one more pair whose key has entry `j` adds one to that bucket of entry `j`. */
  lemma TallyKnownKey(p: seq<(string, int)>, x: (string, int), entries: seq<Entry>, j: int)
    requires Tallies(p, entries) && 0 <= j < |entries| && entries[j].key == x.0
    ensures var c := entries[j].counts;
      Tallies(p + [x], entries[j := Entry(x.0, c[x.1 := Count(p, x.0, x.1) + 1])])
  {
    FirstKeysSnoc(p, x);
    assert x.0 in FirstKeys(p);
    var q := p + [x];
    var c := entries[j].counts;
    var es := entries[j := Entry(x.0, c[x.1 := Count(p, x.0, x.1) + 1])];
    forall l, b | 0 <= l < |es|
      ensures (b in es[l].counts <==> Count(q, es[l].key, b) > 0)
      ensures b in es[l].counts ==> es[l].counts[b] == Count(q, es[l].key, b)
    {
      CountSnoc(p, x, es[l].key, b);
      if l != j {
        assert es[l].key != x.0 by {
          assert es[l].key == FirstKeys(p)[l] && x.0 == FirstKeys(p)[j];
        }
      }
    }
  }

  /** A non-empty map has a key. */
  lemma SomeKey(m: map<int, int>)
    requires m != map[]
    ensures exists k :: k in m
  {
    var x := Element(m.Keys);
  }

  /** The sum of the counts of a map, adding the values key by key. */
  ghost function MapSum(m: map<int, int>): int
    decreases |m|
  {
    if m == map[] then 0
    else
      SomeKey(m);
      var k :| k in m;
      m[k] + MapSum(m - {k})
  }

  /** The sum does not depend on which key is taken first. */
  lemma {:induction false} MapSumRemove(m: map<int, int>, k: int)
    requires k in m
    ensures MapSum(m) == m[k] + MapSum(m - {k})
    decreases |m|
  {
    var j :| j in m && MapSum(m) == m[j] + MapSum(m - {j});
    if j != k {
      assert (m - {j}).Keys == m.Keys - {j};
      assert (m - {k}).Keys == m.Keys - {k};
      MapSumRemove(m - {j}, k);
      MapSumRemove(m - {k}, j);
      assert m - {j} - {k} == m - {k} - {j};
    }
  }

  /** Setting one bucket changes the sum by the difference. */
  lemma MapSumUpdate(m: map<int, int>, b: int, v: int)
    ensures MapSum(m[b := v]) == MapSum(m) - (if b in m then m[b] else 0) + v
  {
    MapSumRemove(m[b := v], b);
    if b in m {
      MapSumRemove(m, b);
      assert m[b := v] - {b} == m - {b};
    } else {
      assert m[b := v] - {b} == m;
    }
  }

  /** The sum of all counts of all entries. */
  ghost function Total(entries: seq<Entry>): int
    decreases |entries|
  {
    if entries == [] then 0
    else Total(entries[..|entries| - 1]) + MapSum(entries[|entries| - 1].counts)
  }

  lemma TotalSnoc(es: seq<Entry>, e: Entry)
    ensures Total(es + [e]) == Total(es) + MapSum(e.counts)
  {
    assert (es + [e])[..|es|] == es;
  }

  /** Replacing one entry changes the total by the difference of its sums. */
  lemma {:induction false} TotalUpdate(es: seq<Entry>, j: int, e: Entry)
    requires 0 <= j < |es|
    ensures Total(es[j := e]) == Total(es) - MapSum(es[j].counts) + MapSum(e.counts)
    decreases |es|
  {
    var n := |es| - 1;
    var es' := es[j := e];
    if j == n {
      assert es'[..n] == es[..n];
    } else {
      TotalUpdate(es[..n], j, e);
      assert es'[..n] == es[..n][j := e];
    }
  }

  /** One step of the loop for a key without an entry. */
  lemma StepNewKey(p: seq<(string, int)>, x: (string, int), entries: seq<Entry>)
    requires Tallies(p, entries) && Total(entries) == |p| && FindKey(entries, x.0) == -1
    ensures Tallies(p + [x], entries + [Entry(x.0, map[x.1 := 1])])
    ensures Total(entries + [Entry(x.0, map[x.1 := 1])]) == |p| + 1
  {
    assert x.0 !in FirstKeys(p);
    TallyNewKey(p, x, entries);
    TotalSnoc(entries, Entry(x.0, map[x.1 := 1]));
    assert map[x.1 := 1] == map[][x.1 := 1];
    MapSumUpdate(map[], x.1, 1);
  }

  /** One step of the loop for a key whose entry is at `j`. */
  lemma StepKnownKey(p: seq<(string, int)>, x: (string, int), entries: seq<Entry>, j: int)
    requires Tallies(p, entries) && Total(entries) == |p|
    requires 0 <= j < |entries| && entries[j].key == x.0
    ensures var c := entries[j].counts;
      var n := if x.1 in c && c[x.1] != 0 then c[x.1] + 1 else 1;
      && Tallies(p + [x], entries[j := Entry(x.0, c[x.1 := n])])
      && Total(entries[j := Entry(x.0, c[x.1 := n])]) == |p| + 1
  {
    var c := entries[j].counts;
    var n := if x.1 in c && c[x.1] != 0 then c[x.1] + 1 else 1;
    assert n == Count(p, x.0, x.1) + 1;
    TallyKnownKey(p, x, entries, j);
    TotalUpdate(entries, j, Entry(x.0, c[x.1 := n]));
    MapSumUpdate(c, x.1, n);
  }

  /**
   * The loop of `getReportsInRangeByArea` / `getReportsInRangeByClass` over
   * the (key, bucket) pairs of the reports: a new key gets a new entry with
   * count 1 for its bucket; a known key gets its bucket's count increased
   * when it is set (non-zero), set to 1 otherwise.
   */
  method Tally(items: seq<(string, int)>) returns (entries: seq<Entry>)
    ensures Tallies(items, entries)
    ensures Total(entries) == |items|
  {
    entries := [];
    var i := 0;
    while i < |items|
      invariant 0 <= i <= |items|
      invariant Tallies(items[..i], entries)
      invariant Total(entries) == i
    {
      var key, bucket := items[i].0, items[i].1;
      assert items[..i + 1] == items[..i] + [(key, bucket)];
      var j := FindKey(entries, key);
      if j == -1 {
        StepNewKey(items[..i], (key, bucket), entries);
        entries := entries + [Entry(key, map[bucket := 1])];
      } else {
        StepKnownKey(items[..i], (key, bucket), entries, j);
        var c := entries[j].counts;
        var n := if bucket in c && c[bucket] != 0 then c[bucket] + 1 else 1;
        entries := entries[j := Entry(key, c[bucket := n])];
      }
      i := i + 1;
    }
    assert items[..|items|] == items;
  }

  /** `entries.find(entry => entry.key === key)`: the position of the entry with that key, or -1. */
  function FindKey(entries: seq<Entry>, key: string): (j: int)
    ensures -1 <= j < |entries|
    ensures j == -1 <==> forall l :: 0 <= l < |entries| ==> entries[l].key != key
    ensures j >= 0 ==> entries[j].key == key
  {
    if entries == [] then -1
    else if entries[0].key == key then 0
    else
      var j := FindKey(entries[1..], key);
      if j == -1 then -1 else j + 1
  }

  /** The specification of the count determines the entries completely. */
  lemma TalliesUnique(items: seq<(string, int)>, e1: seq<Entry>, e2: seq<Entry>)
    requires Tallies(items, e1) && Tallies(items, e2)
    ensures e1 == e2
  {
    forall j | 0 <= j < |e1| ensures e1[j] == e2[j] {
      var c1, c2 := e1[j].counts, e2[j].counts;
      assert e1[j].key == e2[j].key;
      assert c1.Keys == c2.Keys by {
        forall b ensures b in c1 <==> b in c2 {
          assert b in c1 <==> Count(items, e1[j].key, b) > 0;
        }
      }
      forall b | b in c1 ensures c1[b] == c2[b] {
        assert c1[b] == Count(items, e1[j].key, b);
      }
    }
  }

  /** The first position at which a key occurs, or -1. */
  function FirstAt(items: seq<(string, int)>, key: string): (i: int)
    ensures -1 <= i < |items|
    ensures i == -1 <==> forall l :: 0 <= l < |items| ==> items[l].0 != key
    ensures i >= 0 ==> items[i].0 == key && forall l :: 0 <= l < i ==> items[l].0 != key
  {
    if items == [] then -1
    else if items[0].0 == key then 0
    else
      var i := FirstAt(items[1..], key);
      if i == -1 then -1 else i + 1
  }

  /** Appending a pair does not move the first occurrence of a key, or makes it the last position. */
  lemma FirstAtSnoc(p: seq<(string, int)>, x: (string, int), key: string)
    ensures FirstAt(p, key) >= 0 ==> FirstAt(p + [x], key) == FirstAt(p, key)
    ensures FirstAt(p, key) == -1 && x.0 == key ==> FirstAt(p + [x], key) == |p|
  {
    var q := p + [x];
    var f, g := FirstAt(p, key), FirstAt(q, key);
    assert forall l :: 0 <= l < |p| ==> q[l] == p[l];
    if f >= 0 {
      assert q[f].0 == key;
      assert !(g < f) && !(f < g);
    } else if x.0 == key {
      assert q[|p|].0 == key;
    }
  }

  /** The first keys of `items` come in the order of their first occurrences. */
  predicate FirstOccurrenceOrder(items: seq<(string, int)>) {
    var ks := FirstKeys(items);
    && (forall j :: 0 <= j < |ks| ==> FirstAt(items, ks[j]) >= 0)
    && (forall j, l :: 0 <= j < l < |ks| ==> FirstAt(items, ks[j]) < FirstAt(items, ks[l]))
  }

  /** The entries come in the order in which their keys first occur. */
  lemma {:induction false} FirstKeysInOrder(items: seq<(string, int)>)
    ensures FirstOccurrenceOrder(items)
    decreases |items|
  {
    if items != [] {
      var n := |items| - 1;
      var p, x := items[..n], items[n];
      assert items == p + [x];
      FirstKeysInOrder(p);
      FirstKeysInOrderStep(p, x);
    }
  }

  /** One more pair keeps the order of the first occurrences. */
  lemma FirstKeysInOrderStep(p: seq<(string, int)>, x: (string, int))
    requires FirstOccurrenceOrder(p)
    ensures FirstOccurrenceOrder(p + [x])
  {
    FirstKeysSnoc(p, x);
    var q := p + [x];
    var kp, ks := FirstKeys(p), FirstKeys(q);
    forall j | 0 <= j < |ks| ensures FirstAt(q, ks[j]) >= 0 {
      assert ks[j] in ks;
      var i :| 0 <= i < |q| && q[i].0 == ks[j];
    }
    forall j, l | 0 <= j < l < |ks| ensures FirstAt(q, ks[j]) < FirstAt(q, ks[l]) {
      assert ks[j] == kp[j];
      FirstAtSnoc(p, x, ks[j]);
      FirstAtSnoc(p, x, ks[l]);
      assert FirstAt(p, kp[j]) >= 0 by {
        assert kp[j] in kp;
      }
      if l == |kp| {
        assert ks[l] == x.0 && x.0 !in kp;
        assert FirstAt(p, x.0) == -1;
      } else {
        assert ks[l] == kp[l];
      }
    }
  }



  // ---------------------------------------------------------------------
  // The two range queries.
  // ---------------------------------------------------------------------

  /** Why a range query is refused. */
  datatype AnalyticsError =
    | MalformedDate    // a date does not match YYYY-MM-DD
    | MissingRelation  // an in-range report's Area, or that Area's Class, has no row

  /** Text comparison of the database, character by character: `a <= b`. */
  predicate LexLe(a: string, b: string)
    decreases |a|
  {
    a == [] || (b != [] && (a[0] < b[0] || (a[0] == b[0] && LexLe(a[1..], b[1..]))))
  }

  /** `where: { date: { gte: startDate, lte: endDate } }`, in storage order. */
  function InRange(rs: seq<Report>, startDate: string, endDate: string): (r: seq<Report>)
    ensures |r| <= |rs|
    ensures forall x :: x in r <==> x in rs && LexLe(startDate, x.date) && LexLe(x.date, endDate)
  {
    if rs == [] then []
    else
      var rest := InRange(rs[1..], startDate, endDate);
      if LexLe(startDate, rs[0].date) && LexLe(rs[0].date, endDate) then [rs[0]] + rest else rest
  }

  /** The (area name, bucket) pair of each report. */
  function AreaItems(rs: seq<Report>, areas: AreaTable, defaults: seq<DefaultView>): (items: seq<(string, int)>)
    requires forall x :: x in rs ==> x.areaId in areas
    ensures |items| == |rs|
    ensures forall i :: 0 <= i < |rs| ==>
      items[i] == (areas[rs[i].areaId].data.name, Bucket(defaults, rs[i].text))
  {
    if rs == [] then []
    else [(areas[rs[0].areaId].data.name, Bucket(defaults, rs[0].text))] + AreaItems(rs[1..], areas, defaults)
  }

  /** The (class name, bucket) pair of each report. */
  function ClassItems(rs: seq<Report>, areas: AreaTable, classes: ClassTable, defaults: seq<DefaultView>)
    : (items: seq<(string, int)>)
    requires forall x :: x in rs ==> x.areaId in areas && areas[x.areaId].data.classId in classes
    ensures |items| == |rs|
    ensures forall i :: 0 <= i < |rs| ==>
      items[i] == (classes[areas[rs[i].areaId].data.classId].name, Bucket(defaults, rs[i].text))
  {
    if rs == [] then []
    else
      [(classes[areas[rs[0].areaId].data.classId].name, Bucket(defaults, rs[0].text))]
      + ClassItems(rs[1..], areas, classes, defaults)
  }

  /** Both dates of the range match `/^\d{4}-\d{2}-\d{2}$/`. */
  predicate RangeOk(startDate: string, endDate: string) {
    DateShapeOk(startDate) && DateShapeOk(endDate)
  }

  /** Every report of `rs` names an existing Area. */
  predicate AreasResolve(rs: seq<Report>, areas: AreaTable) {
    forall x :: x in rs ==> x.areaId in areas
  }

  /** Every report of `rs` names an existing Area, whose class id names an existing Class. */
  predicate ClassesResolve(rs: seq<Report>, areas: AreaTable, classes: ClassTable) {
    forall x :: x in rs ==> x.areaId in areas && areas[x.areaId].data.classId in classes
  }

  /**
   * `getReportsInRangeByArea`: a malformed date is refused; an in-range
   * report whose Area is missing makes `report.area.name` fail; otherwise
   * the in-range reports are counted per area name and bucket, and all
   * counts add up to the number of in-range reports. Reports outside the
   * range are never dereferenced.
   */
  method ReportsInRangeByArea(db: Db, startDate: string, endDate: string)
    returns (r: Result<seq<Entry>, AnalyticsError>)
    ensures r == Failure(MalformedDate) <==> !RangeOk(startDate, endDate)
    ensures RangeOk(startDate, endDate) && !AreasResolve(InRange(db.reports, startDate, endDate), db.areas)
      ==> r == Failure(MissingRelation)
    ensures RangeOk(startDate, endDate) && AreasResolve(InRange(db.reports, startDate, endDate), db.areas)
      ==> r.Success?
    ensures r.Success? ==>
      var rs := InRange(db.reports, startDate, endDate);
      && AreasResolve(rs, db.areas)
      && Tallies(AreaItems(rs, db.areas, GetDefaults(db.defaults)), r.value)
      && Total(r.value) == |rs|
  {
    if !RangeOk(startDate, endDate) {
      return Failure(MalformedDate);
    }
    var rs := InRange(db.reports, startDate, endDate);
    if !AreasResolve(rs, db.areas) {
      return Failure(MissingRelation);
    }
    var entries := Tally(AreaItems(rs, db.areas, GetDefaults(db.defaults)));
    return Success(entries);
  }

  /**
   * `getReportsInRangeByClass`: as by area, with the name of the class of
   * the report's area as the key; `report.area.class.name` fails when an
   * in-range report's Area or that Area's Class is missing.
   */
  method ReportsInRangeByClass(db: Db, startDate: string, endDate: string)
    returns (r: Result<seq<Entry>, AnalyticsError>)
    ensures r == Failure(MalformedDate) <==> !RangeOk(startDate, endDate)
    ensures RangeOk(startDate, endDate)
      && !ClassesResolve(InRange(db.reports, startDate, endDate), db.areas, db.classes)
      ==> r == Failure(MissingRelation)
    ensures RangeOk(startDate, endDate)
      && ClassesResolve(InRange(db.reports, startDate, endDate), db.areas, db.classes)
      ==> r.Success?
    ensures r.Success? ==>
      var rs := InRange(db.reports, startDate, endDate);
      && ClassesResolve(rs, db.areas, db.classes)
      && Tallies(ClassItems(rs, db.areas, db.classes, GetDefaults(db.defaults)), r.value)
      && Total(r.value) == |rs|
  {
    if !RangeOk(startDate, endDate) {
      return Failure(MalformedDate);
    }
    var rs := InRange(db.reports, startDate, endDate);
    if !ClassesResolve(rs, db.areas, db.classes) {
      return Failure(MissingRelation);
    }
    var entries := Tally(ClassItems(rs, db.areas, db.classes, GetDefaults(db.defaults)));
    return Success(entries);
  }

  /**
   * Since Area names are unique, the by-area entries correspond one to one
   * to the Areas that have a counted report.
   */
  lemma OneEntryPerArea(rs: seq<Report>, areas: AreaTable, defaults: seq<DefaultView>, entries: seq<Entry>, a: int)
    requires forall x :: x in rs ==> x.areaId in areas
    requires NoClash(areas, AreaClash) && a in areas
    requires Tallies(AreaItems(rs, areas, defaults), entries)
    ensures (exists j :: 0 <= j < |entries| && entries[j].key == areas[a].data.name)
        <==> (exists x :: x in rs && x.areaId == a)
  {
    var items := AreaItems(rs, areas, defaults);
    var name := areas[a].data.name;
    var ks := FirstKeys(items);
    if exists j :: 0 <= j < |entries| && entries[j].key == name {
      var j :| 0 <= j < |entries| && entries[j].key == name;
      assert ks[j] in ks;
      var i :| 0 <= i < |items| && items[i].0 == name;
      var b := rs[i].areaId;
      assert areas[b].data.name == name;
      if b != a {
        assert AreaClash(areas[b].data, areas[a].data);
      }
      assert rs[i] in rs;
    }
    if exists x :: x in rs && x.areaId == a {
      var x :| x in rs && x.areaId == a;
      var i :| 0 <= i < |rs| && rs[i] == x;
      assert items[i].0 == name;
      assert name in ks;
      var j :| 0 <= j < |ks| && ks[j] == name;
      assert entries[j].key == name;
    }
  }

  /**
   * Since Class names are unique, the by-class entries correspond one to
   * one to the Classes one of whose Areas has a counted report.
   */
  lemma OneEntryPerClass(rs: seq<Report>, areas: AreaTable, classes: ClassTable, defaults: seq<DefaultView>,
                         entries: seq<Entry>, c: int)
    requires forall x :: x in rs ==> x.areaId in areas && areas[x.areaId].data.classId in classes
    requires ClassNamesUnique(classes) && c in classes
    requires Tallies(ClassItems(rs, areas, classes, defaults), entries)
    ensures (exists j :: 0 <= j < |entries| && entries[j].key == classes[c].name)
        <==> (exists x :: x in rs && areas[x.areaId].data.classId == c)
  {
    var items := ClassItems(rs, areas, classes, defaults);
    var name := classes[c].name;
    var ks := FirstKeys(items);
    if exists j :: 0 <= j < |entries| && entries[j].key == name {
      var j :| 0 <= j < |entries| && entries[j].key == name;
      assert ks[j] in ks;
      var i :| 0 <= i < |items| && items[i].0 == name;
      var d := areas[rs[i].areaId].data.classId;
      assert classes[d].name == name;
      assert rs[i] in rs;
    }
    if exists x :: x in rs && areas[x.areaId].data.classId == c {
      var x :| x in rs && areas[x.areaId].data.classId == c;
      var i :| 0 <= i < |rs| && rs[i] == x;
      assert items[i].0 == name;
      assert name in ks;
      var j :| 0 <= j < |ks| && ks[j] == name;
      assert entries[j].key == name;
    }
  }
}
