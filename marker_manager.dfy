/**
 The marker manager of color-indent: a per-editor table from marker id to the
 `{id, line}` record of the marker painted on that line. Removing a marker does
 not delete its key; it leaves a tombstone (`None`, the source's `undefined`).

 The pure functions on `Store` values say what each operation does to the
 table; the class `MarkerManager` holds the table in its `markers` field and
 its methods reassign that field, as the source does.
 */
module Markers {

  type EditorId = nat
  type MarkerId = nat

  datatype Option<T> = None | Some(value: T)

  /** The record stored for one marker. */
  datatype Entry = Entry(id: MarkerId, line: nat)

  /** One editor's markers; `None` is a removed marker's tombstone. */
  type Table = map<MarkerId, Option<Entry>>

  /** Every editor's markers. */
  type Store = map<EditorId, Table>

  /** An editor's table, or the empty table for an editor never seen. */
  function Lookup(s: Store, e: EditorId): Table
  {
    if e in s then s[e] else map[]
  }

  /** Every live record is stored under its own id. */
  ghost predicate WellKeyed(s: Store)
  {
    forall e, id | e in s && id in s[e] && s[e][id].Some? :: s[e][id].value.id == id
  }

  /** The store after `add(e, m, line)`. */
  function Added(s: Store, e: EditorId, m: MarkerId, line: nat): Store
  {
    s[e := Lookup(s, e)[m := Some(Entry(m, line))]]
  }

  /** The store after `remove(e, m)`. */
  function Removed(s: Store, e: EditorId, m: MarkerId): Store
  {
    s[e := Lookup(s, e)[m := None]]
  }

  /** The store after removing every id of `ids` from editor `e`, in any order. */
  function RemoveIds(s: Store, e: EditorId, ids: set<MarkerId>): Store
  {
    if ids == {} then s
    else s[e := map id | id in Lookup(s, e).Keys + ids :: if id in ids then None else Lookup(s, e)[id]]
  }

  /** The ids of the live (not tombstoned) markers of editor `e`. */
  function Live(s: Store, e: EditorId): (ids: set<MarkerId>)
    ensures ids <= Lookup(s, e).Keys
    ensures forall id :: id in ids <==> id in Lookup(s, e) && Lookup(s, e)[id].Some?
  {
    var t := Lookup(s, e);
    set id | id in t && t[id].Some?
  }

  /** The ids that `findByRange(e, from, to)` returns: live markers with `from <= line <= to`. */
  function Found(s: Store, e: EditorId, from: int, to: int): (ids: set<MarkerId>)
    ensures ids <= Live(s, e)
    ensures from > to ==> ids == {}
    ensures e !in s ==> ids == {}
    ensures forall id :: id in ids <==>
      id in Live(s, e) && from <= Lookup(s, e)[id].value.line <= to
  {
    var t := Lookup(s, e);
    set id | id in t && t[id].Some? && from <= t[id].value.line <= to
  }

  /** `add` records `{id: m, line}`; every other editor and every other id keep their tables and records. */
  lemma AddRecords(s: Store, e: EditorId, m: MarkerId, line: nat)
    ensures Lookup(Added(s, e, m, line), e)[m] == Some(Entry(m, line))
    ensures m in Found(Added(s, e, m, line), e, line, line)
    ensures forall d :: d != e ==> (d in Added(s, e, m, line) <==> d in s) && Lookup(Added(s, e, m, line), d) == Lookup(s, d)
    ensures forall id :: id != m ==>
      (id in Lookup(Added(s, e, m, line), e) <==> id in Lookup(s, e)) &&
      (id in Lookup(s, e) ==> Lookup(Added(s, e, m, line), e)[id] == Lookup(s, e)[id])
  {
  }

  /** Re-adding a marker overwrites its line: the last write wins. */
  lemma AddLastWriteWins(s: Store, e: EditorId, m: MarkerId, line1: nat, line2: nat)
    ensures Added(Added(s, e, m, line1), e, m, line2) == Added(s, e, m, line2)
  {
    var t: Table := Lookup(s, e);
    var u: Table := t[m := Some(Entry(m, line1))];
    assert Lookup(Added(s, e, m, line1), e) == u;
    assert u[m := Some(Entry(m, line2))] == t[m := Some(Entry(m, line2))];
  }

  /**
   `add` does not evict other markers on the same line: a range query over the
   line finds everything it found before, plus the new marker.
   */
  lemma AddKeepsLineSharers(s: Store, e: EditorId, m: MarkerId, line: nat)
    ensures Found(Added(s, e, m, line), e, line, line) == Found(s, e, line, line) + {m}
  {
  }

  /** Two markers added on one line are both found: nothing enforces one marker per line. */
  lemma TwoMarkersOnOneLine(s: Store, e: EditorId, m1: MarkerId, m2: MarkerId, line: nat)
    requires m1 != m2
    ensures Found(Added(Added(s, e, m1, line), e, m2, line), e, line, line) >= {m1, m2}
  {
    AddKeepsLineSharers(s, e, m1, line);
    AddKeepsLineSharers(Added(s, e, m1, line), e, m2, line);
  }

  /** After `remove(e, m)`, no range query of `e` finds `m`; everything else it found is still found. */
  lemma RemoveHides(s: Store, e: EditorId, m: MarkerId, from: int, to: int)
    ensures Found(Removed(s, e, m), e, from, to) == Found(s, e, from, to) - {m}
    ensures Live(Removed(s, e, m), e) == Live(s, e) - {m}
  {
  }

  /** `remove` is idempotent and touches nothing but the one key of the one editor. */
  lemma RemoveIdempotent(s: Store, e: EditorId, m: MarkerId)
    ensures Removed(Removed(s, e, m), e, m) == Removed(s, e, m)
    ensures forall d :: d != e ==> (d in Removed(s, e, m) <==> d in s) && Lookup(Removed(s, e, m), d) == Lookup(s, d)
    ensures Lookup(Removed(s, e, m), e).Keys == Lookup(s, e).Keys + {m}
    ensures forall id :: id in Lookup(s, e) && id != m ==> Lookup(Removed(s, e, m), e)[id] == Lookup(s, e)[id]
  {
    var t: Table := Lookup(s, e);
    var u: Table := t[m := None];
    assert Lookup(Removed(s, e, m), e) == u;
    assert u[m := None] == u;
  }

  /** Removing one more id after a set of ids is removing the larger set. */
  lemma RemoveIdsStep(s: Store, e: EditorId, ids: set<MarkerId>, m: MarkerId)
    ensures Removed(RemoveIds(s, e, ids), e, m) == RemoveIds(s, e, ids + {m})
  {
    var t: Table := Lookup(s, e);
    var t': Table := map id | id in t.Keys + (ids + {m}) :: if id in ids + {m} then None else t[id];
    assert m in ids + {m};
    assert RemoveIds(s, e, ids + {m}) == s[e := t'];
    if ids == {} {
      var u: Table := t[m := None];
      assert u == t';
    } else {
      var u := map id | id in t.Keys + ids :: if id in ids then None else t[id];
      assert Lookup(RemoveIds(s, e, ids), e) == u;
      assert u[m := None] == t';
    }
  }

  /** What removing a set of ids does: those ids are tombstoned, nothing else changes. */
  lemma RemoveIdsEffect(s: Store, e: EditorId, ids: set<MarkerId>, from: int, to: int)
    ensures Lookup(RemoveIds(s, e, ids), e).Keys == Lookup(s, e).Keys + ids
    ensures forall id :: id in ids ==> Lookup(RemoveIds(s, e, ids), e)[id] == None
    ensures forall id :: id in Lookup(s, e) && id !in ids ==> Lookup(RemoveIds(s, e, ids), e)[id] == Lookup(s, e)[id]
    ensures forall d :: d != e ==> (d in RemoveIds(s, e, ids) <==> d in s) && Lookup(RemoveIds(s, e, ids), d) == Lookup(s, d)
    ensures Live(RemoveIds(s, e, ids), e) == Live(s, e) - ids
    ensures Found(RemoveIds(s, e, ids), e, from, to) == Found(s, e, from, to) - ids
  {
  }

  /** Every operation on the store keeps each live record under its own id. */
  lemma OperationsKeepWellKeyed(s: Store, e: EditorId, m: MarkerId, line: nat, ids: set<MarkerId>)
    requires WellKeyed(s)
    ensures WellKeyed(Added(s, e, m, line))
    ensures WellKeyed(Removed(s, e, m))
    ensures WellKeyed(RemoveIds(s, e, ids))
  {
  }

  /** Ids in strictly ascending order. */
  predicate Increasing(ks: seq<MarkerId>)
  {
    forall i, j :: 0 <= i < j < |ks| ==> ks[i] < ks[j]
  }

  /** The least element of a non-empty set of ids. */
  method Least(s: set<MarkerId>) returns (m: MarkerId)
    requires s != {}
    ensures m in s
    ensures forall x :: x in s ==> m <= x
  {
    m :| m in s;
    var rest, seen := s - {m}, {m};
    while rest != {}
      invariant seen + rest == s && m in s
      invariant forall x :: x in seen ==> m <= x
      decreases |rest|
    {
      var x :| x in rest;
      if x < m {
        m := x;
      }
      rest, seen := rest - {x}, seen + {x};
    }
  }

  /**
   The keys of a table in the order a JavaScript object enumerates them:
   marker ids are integer keys, which are visited in ascending order.
   */
  method SortedKeys(t: Table) returns (ks: seq<MarkerId>)
    ensures Increasing(ks)
    ensures forall id :: id in ks <==> id in t
  {
    ks := [];
    var rest := t.Keys;
    while rest != {}
      invariant rest <= t.Keys
      invariant forall id :: id in ks <==> id in t && id !in rest
      invariant Increasing(ks)
      invariant forall i, id :: 0 <= i < |ks| && id in rest ==> ks[i] < id
      decreases |rest|
    {
      var m := Least(rest);
      ks := ks + [m];
      rest := rest - {m};
    }
  }

  /** The live records, visited in the order of `ks`, whose line lies in `[from, to]`. */
  function Matching(t: Table, ks: seq<MarkerId>, from: int, to: int): (r: seq<Entry>)
    ensures |r| <= |ks|
  {
    if ks == [] then []
    else
      var rest := Matching(t, ks[..|ks| - 1], from, to);
      var k := ks[|ks| - 1];
      if k in t && t[k].Some? && from <= t[k].value.line <= to then rest + [t[k].value] else rest
  }

  /**
   Every record `Matching` picks is a live record of the table, filed under a
   key of `ks`, whose line is in range; and every such key of `ks` is picked.
   */
  lemma {:induction false} MatchingExactly(t: Table, ks: seq<MarkerId>, from: int, to: int)
    requires forall id :: id in t && t[id].Some? ==> t[id].value.id == id
    ensures forall x :: 0 <= x < |Matching(t, ks, from, to)| ==>
      var m := Matching(t, ks, from, to)[x];
      m.id in ks && m.id in t && t[m.id] == Some(m) && from <= m.line <= to
    ensures forall j :: 0 <= j < |ks| && ks[j] in t && t[ks[j]].Some? && from <= t[ks[j]].value.line <= to ==>
      exists x :: 0 <= x < |Matching(t, ks, from, to)| && Matching(t, ks, from, to)[x].id == ks[j]
  {
    if ks != [] {
      var init := ks[..|ks| - 1];
      MatchingExactly(t, init, from, to);
      var rest := Matching(t, init, from, to);
      var r := Matching(t, ks, from, to);
      assert forall x :: 0 <= x < |rest| ==> r[x] == rest[x];
      forall x | 0 <= x < |r|
        ensures r[x].id in ks
      {
        if x < |rest| {
          assert rest[x].id in init;
        }
      }
      forall j | 0 <= j < |ks| && ks[j] in t && t[ks[j]].Some? && from <= t[ks[j]].value.line <= to
        ensures exists x :: 0 <= x < |r| && r[x].id == ks[j]
      {
        if j < |init| {
          assert ks[j] == init[j];
          var x :| 0 <= x < |rest| && rest[x].id == init[j];
          assert r[x].id == ks[j];
        } else {
          assert r[|r| - 1].id == ks[j];
        }
      }
    }
  }

  /** Visiting keys in ascending order picks records in ascending id order. */
  lemma {:induction false} MatchingIncreasing(t: Table, ks: seq<MarkerId>, from: int, to: int)
    requires forall id :: id in t && t[id].Some? ==> t[id].value.id == id
    requires Increasing(ks)
    ensures forall x, y :: 0 <= x < y < |Matching(t, ks, from, to)| ==>
      Matching(t, ks, from, to)[x].id < Matching(t, ks, from, to)[y].id
  {
    if ks != [] {
      var init := ks[..|ks| - 1];
      assert Increasing(init);
      MatchingIncreasing(t, init, from, to);
      MatchingExactly(t, init, from, to);
      var rest := Matching(t, init, from, to);
      forall x | 0 <= x < |rest|
        ensures rest[x].id < ks[|ks| - 1]
      {
        var j :| 0 <= j < |init| && init[j] == rest[x].id;
      }
    }
  }

  class MarkerManager {
    var markers: Store

    ghost predicate Valid()
      reads this
    {
      WellKeyed(markers)
    }

    constructor ()
      ensures Valid()
      ensures markers == map[]
    {
      markers := map[];
    }

    /** `getMarkers`: the editor's table; empty for an editor that was never added. */
    function GetMarkers(e: EditorId): (t: Table)
      reads this
      ensures e !in markers ==> t == map[]
      ensures e in markers ==> t == markers[e]
    {
      Lookup(markers, e)
    }

    /** `add`: records `{id: m, line}` under `m` for editor `e`, overwriting any earlier record of `m`. */
    method Add(e: EditorId, m: MarkerId, line: nat)
      requires Valid()
      modifies this
      ensures Valid()
      ensures markers == Added(old(markers), e, m, line)
    {
      markers := markers[e := GetMarkers(e)[m := Some(Entry(m, line))]];
    }

    /** `remove`: tombstones `m` in editor `e`, whether or not it was ever added. */
    method Remove(e: EditorId, m: MarkerId)
      requires Valid()
      modifies this
      ensures Valid()
      ensures markers == Removed(old(markers), e, m)
    {
      markers := markers[e := GetMarkers(e)[m := None]];
    }

    /**
     `findByRange`: the live records of editor `e` whose line lies in
     `[fromLine, toLine]`, both ends inclusive, each once, in ascending id order.
     */
    method FindByRange(e: EditorId, fromLine: int, toLine: int) returns (found: seq<Entry>)
      requires Valid()
      ensures forall i, j :: 0 <= i < j < |found| ==> found[i].id < found[j].id
      ensures forall i :: 0 <= i < |found| ==>
        found[i].id in Found(markers, e, fromLine, toLine) && GetMarkers(e)[found[i].id] == Some(found[i])
      ensures forall id :: id in Found(markers, e, fromLine, toLine) ==>
        exists i :: 0 <= i < |found| && found[i].id == id
    {
      var t := GetMarkers(e);
      var ks := SortedKeys(t);
      found := [];
      var i := 0;
      while i < |ks|
        invariant 0 <= i <= |ks|
        invariant found == Matching(t, ks[..i], fromLine, toLine)
      {
        var id := ks[i];
        assert ks[..i + 1][..i] == ks[..i];
        match t[id] {
          case None =>
          case Some(marker) =>
            if fromLine <= marker.line <= toLine {
              found := found + [marker];
            }
        }
        i := i + 1;
      }
      assert ks[..|ks|] == ks;
      MatchingExactly(t, ks, fromLine, toLine);
      MatchingIncreasing(t, ks, fromLine, toLine);
      forall id | id in Found(markers, e, fromLine, toLine)
        ensures exists x :: 0 <= x < |found| && found[x].id == id
      {
        var j :| 0 <= j < |ks| && ks[j] == id;
      }
    }
  }
}
