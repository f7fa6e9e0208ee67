/** The endpoint table over whole runs.  No operation frees a slot, so the first eight
    identifiers keep the table for good. */
module LlcTable {
  import opened LlcEndpoint
  import opened LlcEntity

  /** The identifiers that have a slot. */
  ghost function Ids(t: seq<Endpoint>): set<int> {
    set i | 0 <= i < |t| && t[i].inUse :: t[i].id
  }

  lemma KnownIsId(t: seq<Endpoint>, id: int)
    ensures Known(t, id) <==> id in Ids(t)
  {
    if id in Ids(t) {
      var i :| 0 <= i < |t| && t[i].inUse && t[i].id == id;
      assert Slot(t, i, id);
    }
    if Known(t, id) {
      var i :| Slot(t, i, id);
      assert t[i].id in Ids(t);
    }
  }

  lemma IdsOfLast(t: seq<Endpoint>)
    requires t != [] && Distinct(t)
    ensures var n := |t| - 1;
      && Distinct(t[..n]) && Ids(t) == Ids(t[..n]) + (if t[n].inUse then {t[n].id} else {})
      && (t[n].inUse ==> t[n].id !in Ids(t[..n]))
  {
    var n := |t| - 1;
    var v := t[..n];
    forall i, j, id | Slot(v, i, id) && Slot(v, j, id) ensures i == j { assert Slot(t, i, id) && Slot(t, j, id); }
    if t[n].inUse && t[n].id in Ids(v) {
      var i :| 0 <= i < n && v[i].inUse && v[i].id == t[n].id;
      assert Slot(t, i, t[n].id) && Slot(t, n, t[n].id);
    }
  }

  /** There are as many identifiers as slots exactly when no slot is free. */
  lemma {:induction false} FullIff(t: seq<Endpoint>)
    requires Distinct(t)
    ensures |Ids(t)| <= |t| && (|Ids(t)| == |t| <==> Full(t))
  {
    if t == [] {
      assert Ids(t) == {};
    } else {
      var n := |t| - 1;
      IdsOfLast(t);
      FullIff(t[..n]);
      assert Full(t) <==> Full(t[..n]) && t[n].inUse;
    }
  }

  /** An operation keeps every identifier, adds at most its own, and adds none to a full table. */
  lemma TouchKeepsIds(t: seq<Endpoint>, t': seq<Endpoint>, id: int)
    requires Distinct(t) && Touches(t, t', id)
    ensures |t'| == |t| && Distinct(t') && Ids(t) <= Ids(t') <= Ids(t) + {id}
    ensures Full(t) ==> Full(t') && Ids(t') == Ids(t)
  {
    forall j ensures j in Ids(t) ==> j in Ids(t') { KnownIsId(t, j); KnownIsId(t', j); }
    forall j ensures j in Ids(t') ==> j == id || j in Ids(t) { KnownIsId(t, j); KnownIsId(t', j); }
    KnownIsId(t, id);
    if Full(t) {
      FullIff(t);
      FullIff(t');
      assert Ids(t') == Ids(t);
    }
  }

  /** A run: the tables before and after each operation, and the identifiers asked for. */
  ghost predicate Ran(tables: seq<seq<Endpoint>>, ids: seq<int>) {
    && |tables| == |ids| + 1 && |tables[0]| == MAX_ENDPOINTS && Distinct(tables[0])
    && forall k :: 0 <= k < |ids| ==> Touches(tables[k], tables[k + 1], ids[k])
  }

  lemma {:induction false} RunKeepsIds(tables: seq<seq<Endpoint>>, ids: seq<int>, i: nat, j: nat)
    requires Ran(tables, ids) && i <= j <= |ids|
    ensures |tables[j]| == MAX_ENDPOINTS && Distinct(tables[j]) && Ids(tables[i]) <= Ids(tables[j])
    ensures Full(tables[i]) ==> Full(tables[j]) && Ids(tables[j]) == Ids(tables[i])
    decreases j
  {
    if i < j {
      RunKeepsIds(tables, ids, i, j - 1);
      TouchKeepsIds(tables[j - 1], tables[j], ids[j - 1]);
    } else if j > 0 {
      RunKeepsIds(tables, ids, j - 1, j - 1);
      TouchKeepsIds(tables[j - 1], tables[j], ids[j - 1]);
    }
  }

  ghost predicate KnowsAll(t: seq<Endpoint>, known: set<int>) {
    forall id :: id in known ==> Known(t, id)
  }

  /** In every run: once eight identifiers have had a slot, they are the only ones that can be
      served, then and for ever after; every other one is refused. */
  lemma FirstEightForEver(tables: seq<seq<Endpoint>>, ids: seq<int>, i: nat, j: nat, known: set<int>, id: int)
    requires Ran(tables, ids) && i <= j <= |ids|
    requires |known| == 8 && KnowsAll(tables[i], known)
    ensures CanServe(tables[j], id) <==> id in known
  {
    var t := tables[i];
    RunKeepsIds(tables, ids, i, i);
    forall k | k in known ensures k in Ids(t) { KnownIsId(t, k); }
    FullIff(t);
    SubsetOfSize(known, Ids(t));
    RunKeepsIds(tables, ids, i, j);
    KnownIsId(tables[j], id);
  }

  lemma SubsetOfSize(a: set<int>, b: set<int>)
    requires a <= b && |b| <= |a|
    ensures a == b
  {
    assert b == a + (b - a);
  }
}
