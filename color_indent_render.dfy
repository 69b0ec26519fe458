/**
 The render and sync logic of color-indent: painting one marker per buffer row,
 removing markers, and resyncing the rows touched by each text change.

 The host editor is abstracted as `TextEditor`: the indentation of each buffer
 row, a counter that hands out fresh marker ids (`markBufferPosition`), and a
 log of the decorations requested (`decorateMarker`). The marker manager is
 passed explicitly to every operation.
 */
module ColorIndentRender {
  import opened Markers

  /** The largest color class; deeper rows share it. */
  const NumberOfColors: nat := 4

  datatype Point = Point(row: nat, column: nat)
  datatype Range = Range(start: Point, end: Point)

  /** One change of a text-change event. Only `newRange` is read when resyncing. */
  datatype Change = Change(oldRange: Range, newRange: Range, oldText: string, newText: string)

  /**
   A decoration request: the parts of the class string
   `color-indent color-indent-<colorClass> <chosenColor> line-<line>`
   for the marker it decorates.
   */
  datatype Decoration = Decoration(marker: MarkerId, colorClass: nat, chosenColor: string, line: nat)

  /** The host text editor, reduced to what the render logic reads and calls. */
  class TextEditor {
    const id: EditorId
    /** `indentationForBufferRow` of each row; `getLineCount` is its length. */
    var indents: seq<nat>
    /** The id the next `markBufferPosition` hands out. */
    var nextId: MarkerId
    /** Every decoration requested so far, oldest first. */
    var decorations: seq<Decoration>

    constructor (id: EditorId, indents: seq<nat>)
      ensures this.id == id && this.indents == indents
      ensures nextId == 0 && decorations == []
    {
      this.id := id;
      this.indents := indents;
      nextId := 0;
      decorations := [];
    }

    /** `markBufferPosition([line, 0])`: a new marker with a fresh id. */
    method MarkBufferPosition(line: nat) returns (markerId: MarkerId)
      modifies this`nextId
      ensures markerId == old(nextId) && nextId == old(nextId) + 1
    {
      markerId := nextId;
      nextId := nextId + 1;
    }

    /** `decorateMarker`: records the decoration request. */
    method DecorateMarker(d: Decoration)
      modifies this`decorations
      ensures decorations == old(decorations) + [d]
    {
      decorations := decorations + [d];
    }
  }

  /** Every id the store holds for editor `e` is below `f`, so ids from `f` on are fresh. */
  ghost predicate FreshFrom(s: Store, e: EditorId, f: MarkerId)
  {
    forall id :: id in Lookup(s, e) ==> id < f
  }

  /** The manager and the editor agree: the manager is well keyed and the editor's next id is fresh. */
  ghost predicate Synced(editor: TextEditor, manager: MarkerManager)
    reads editor, manager
  {
    manager.Valid() && FreshFrom(manager.markers, editor.id, editor.nextId)
  }

  /** Every editor other than `e` has the same table (and presence) in `s` and `s'`. */
  ghost predicate OthersUnchanged(s: Store, s': Store, e: EditorId)
  {
    forall d :: d != e ==> (d in s' <==> d in s) && Lookup(s', d) == Lookup(s, d)
  }

  /** `getColorClass`: the row's indentation, clamped to at most `NumberOfColors`. */
  function GetColorClass(indents: seq<nat>, line: nat): (c: nat)
    requires line < |indents|
    ensures c <= NumberOfColors && c <= indents[line]
    ensures indents[line] <= NumberOfColors ==> c == indents[line]
    ensures c == indents[line] || c == NumberOfColors
  {
    if indents[line] > NumberOfColors then NumberOfColors else indents[line]
  }

  /** The ids of the records in a list of markers; tombstones are skipped. */
  function IdsOf(markers: seq<Option<Entry>>): set<MarkerId>
  {
    set i | 0 <= i < |markers| && markers[i].Some? :: markers[i].value.id
  }

  /** The `n` consecutive ids from `f`. */
  function RowIds(f: MarkerId, n: nat): set<MarkerId>
  {
    if n == 0 then {} else RowIds(f, n - 1) + {f + n - 1}
  }

  /** The store after painting rows `from .. from + n - 1` in ascending order, with ids `f ..`. */
  function Painted(s: Store, e: EditorId, f: MarkerId, from: nat, n: nat): Store
  {
    if n == 0 then s else Added(Painted(s, e, f, from, n - 1), e, f + n - 1, from + n - 1)
  }

  /** The decorations requested while painting rows `from .. from + n - 1` with ids `f ..`. */
  function PaintLog(indents: seq<nat>, f: MarkerId, from: nat, n: nat, chosenColor: string): seq<Decoration>
    requires n == 0 || from + n <= |indents|
  {
    if n == 0 then []
    else PaintLog(indents, f, from, n - 1, chosenColor) + [Decoration(f + n - 1, GetColorClass(indents, from + n - 1), chosenColor, from + n - 1)]
  }

  /** The number of rows of a range, `end.row - start.row + 1`, or none for a reversed range. */
  function Rows(r: Range): nat
  {
    if r.start.row <= r.end.row then r.end.row - r.start.row + 1 else 0
  }

  /** The rows a change repaints exist in a buffer of `lineCount` rows. */
  predicate Fits(c: Change, lineCount: nat)
  {
    Rows(c.newRange) == 0 || c.newRange.end.row < lineCount
  }

  /** The store after one change: markers on its rows removed, then each row repainted with ids `f ..`. */
  function Resynced(s: Store, e: EditorId, f: MarkerId, c: Change): Store
  {
    var r := c.newRange;
    Painted(RemoveIds(s, e, Found(s, e, r.start.row, r.end.row)), e, f, r.start.row, Rows(r))
  }

  /** The number of rows repainted by a batch of changes. */
  function TotalRows(cs: seq<Change>): nat
  {
    if cs == [] then 0 else TotalRows(cs[..|cs| - 1]) + Rows(cs[|cs| - 1].newRange)
  }

  /** The store after a batch of changes, handled one after another in the order given. */
  function ResyncedAll(s: Store, e: EditorId, f: MarkerId, cs: seq<Change>): Store
  {
    if cs == [] then s
    else
      var prefix := cs[..|cs| - 1];
      Resynced(ResyncedAll(s, e, f, prefix), e, f + TotalRows(prefix), cs[|cs| - 1])
  }

  /** The decorations requested while handling a batch of changes. */
  function ResyncLog(indents: seq<nat>, f: MarkerId, cs: seq<Change>, chosenColor: string): seq<Decoration>
    requires forall i :: 0 <= i < |cs| ==> Fits(cs[i], |indents|)
  {
    if cs == [] then []
    else
      var prefix := cs[..|cs| - 1];
      var r := cs[|cs| - 1].newRange;
      assert Fits(cs[|cs| - 1], |indents|);
      ResyncLog(indents, f, prefix, chosenColor) + PaintLog(indents, f + TotalRows(prefix), r.start.row, Rows(r), chosenColor)
  }

  /** `removeMarkers`: removes each listed marker from the manager, skipping tombstones. */
  method RemoveMarkers(editor: TextEditor, manager: MarkerManager, markers: seq<Option<Entry>>)
    requires Synced(editor, manager)
    requires forall id :: id in IdsOf(markers) ==> id < editor.nextId
    modifies manager
    ensures Synced(editor, manager)
    ensures manager.markers == RemoveIds(old(manager.markers), editor.id, IdsOf(markers))
  {
    var i := 0;
    while i < |markers|
      invariant 0 <= i <= |markers|
      invariant Synced(editor, manager)
      invariant manager.markers == RemoveIds(old(manager.markers), editor.id, IdsOf(markers[..i]))
    {
      assert markers[..i + 1] == markers[..i] + [markers[i]];
      match markers[i] {
        case None =>
          assert IdsOf(markers[..i + 1]) == IdsOf(markers[..i]);
        case Some(marker) =>
          assert marker.id in IdsOf(markers);
          manager.Remove(editor.id, marker.id);
          RemoveIdsStep(old(manager.markers), editor.id, IdsOf(markers[..i]), marker.id);
          assert IdsOf(markers[..i + 1]) == IdsOf(markers[..i]) + {marker.id};
      }
      i := i + 1;
    }
    assert markers[..|markers|] == markers;
  }

  /** `cleanFromRange`: removes the markers that `findByRange` reports for the range's rows. */
  method CleanFromRange(editor: TextEditor, range: Range, manager: MarkerManager)
    requires Synced(editor, manager)
    modifies manager
    ensures Synced(editor, manager)
    ensures manager.markers ==
      RemoveIds(old(manager.markers), editor.id, Found(old(manager.markers), editor.id, range.start.row, range.end.row))
  {
    var markers := manager.FindByRange(editor.id, range.start.row, range.end.row);
    var listed := seq(|markers|, i requires 0 <= i < |markers| => Some(markers[i]));
    forall id | id in Found(manager.markers, editor.id, range.start.row, range.end.row)
      ensures id in IdsOf(listed)
    {
      var i :| 0 <= i < |markers| && markers[i].id == id;
      assert listed[i].Some? && listed[i].value.id == id;
    }
    assert IdsOf(listed) <= Found(manager.markers, editor.id, range.start.row, range.end.row);
    assert IdsOf(listed) == Found(manager.markers, editor.id, range.start.row, range.end.row);
    RemoveMarkers(editor, manager, listed);
  }

  /** `clean`: removes every live marker of the editor, visiting its table in key order. */
  method Clean(editor: TextEditor, manager: MarkerManager)
    requires Synced(editor, manager)
    modifies manager
    ensures Synced(editor, manager)
    ensures manager.markers == RemoveIds(old(manager.markers), editor.id, Live(old(manager.markers), editor.id))
  {
    var markers := manager.GetMarkers(editor.id);
    var ids := SortedKeys(markers);
    var values := seq(|ids|, i requires 0 <= i < |ids| => markers[ids[i]]);
    forall id | id in Live(manager.markers, editor.id)
      ensures id in IdsOf(values)
    {
      var i :| 0 <= i < |ids| && ids[i] == id;
      assert values[i].Some? && values[i].value.id == id;
    }
    assert IdsOf(values) <= Live(manager.markers, editor.id);
    assert IdsOf(values) == Live(manager.markers, editor.id);
    RemoveMarkers(editor, manager, values);
  }

  /** `paintTextEditorLine`: one fresh marker on `line`, recorded in the manager and decorated. */
  method PaintTextEditorLine(editor: TextEditor, manager: MarkerManager, line: nat, chosenColor: string)
    requires Synced(editor, manager)
    requires line < |editor.indents|
    modifies manager, editor`nextId, editor`decorations
    ensures Synced(editor, manager)
    ensures manager.markers == Added(old(manager.markers), editor.id, old(editor.nextId), line)
    ensures editor.nextId == old(editor.nextId) + 1
    ensures editor.decorations ==
      old(editor.decorations) + [Decoration(old(editor.nextId), GetColorClass(editor.indents, line), chosenColor, line)]
  {
    var colorClass := GetColorClass(editor.indents, line);
    var markerId := editor.MarkBufferPosition(line);
    manager.Add(editor.id, markerId, line);
    editor.DecorateMarker(Decoration(markerId, colorClass, chosenColor, line));
  }

  /** `readTextEditorLines`: paints rows `0 .. numberOfLines - 1` in ascending order. */
  method ReadTextEditorLines(editor: TextEditor, manager: MarkerManager, numberOfLines: nat, chosenColor: string)
    requires Synced(editor, manager)
    requires numberOfLines <= |editor.indents|
    modifies manager, editor`nextId, editor`decorations
    ensures Synced(editor, manager)
    ensures manager.markers == Painted(old(manager.markers), editor.id, old(editor.nextId), 0, numberOfLines)
    ensures editor.nextId == old(editor.nextId) + numberOfLines
    ensures editor.decorations ==
      old(editor.decorations) + PaintLog(editor.indents, old(editor.nextId), 0, numberOfLines, chosenColor)
  {
    var line := 0;
    while line < numberOfLines
      invariant line <= numberOfLines
      invariant Synced(editor, manager)
      invariant manager.markers == Painted(old(manager.markers), editor.id, old(editor.nextId), 0, line)
      invariant editor.nextId == old(editor.nextId) + line
      invariant editor.decorations ==
        old(editor.decorations) + PaintLog(editor.indents, old(editor.nextId), 0, line, chosenColor)
    {
      PaintTextEditorLine(editor, manager, line, chosenColor);
      line := line + 1;
    }
  }

  /** `paintMultipleLines`: paints rows `fromLine .. toLine`, both inclusive, in ascending order. */
  method PaintMultipleLines(editor: TextEditor, manager: MarkerManager, fromLine: nat, toLine: nat, chosenColor: string)
    requires Synced(editor, manager)
    requires fromLine > toLine || toLine < |editor.indents|
    modifies manager, editor`nextId, editor`decorations
    ensures Synced(editor, manager)
    ensures manager.markers ==
      Painted(old(manager.markers), editor.id, old(editor.nextId), fromLine, Rows(Range(Point(fromLine, 0), Point(toLine, 0))))
    ensures editor.nextId == old(editor.nextId) + Rows(Range(Point(fromLine, 0), Point(toLine, 0)))
    ensures editor.decorations == old(editor.decorations) +
      PaintLog(editor.indents, old(editor.nextId), fromLine, Rows(Range(Point(fromLine, 0), Point(toLine, 0))), chosenColor)
  {
    var line := fromLine;
    while line <= toLine
      invariant fromLine <= line
      invariant fromLine <= toLine ==> line <= toLine + 1
      invariant fromLine > toLine ==> line == fromLine
      invariant Synced(editor, manager)
      invariant manager.markers == Painted(old(manager.markers), editor.id, old(editor.nextId), fromLine, line - fromLine)
      invariant editor.nextId == old(editor.nextId) + (line - fromLine)
      invariant editor.decorations ==
        old(editor.decorations) + PaintLog(editor.indents, old(editor.nextId), fromLine, line - fromLine, chosenColor)
    {
      PaintTextEditorLine(editor, manager, line, chosenColor);
      line := line + 1;
    }
  }

  /**
   The handler `textDidChange` runs for each change: removes the markers on
   the rows of the change's new range, then paints each of those rows, the
   single-row case with `paintTextEditorLine` and the others with
   `paintMultipleLines`.
   */
  method HandleChange(change: Change, editor: TextEditor, chosenColor: string, manager: MarkerManager)
    requires Synced(editor, manager)
    requires Fits(change, |editor.indents|)
    modifies manager, editor`nextId, editor`decorations
    ensures Synced(editor, manager)
    ensures manager.markers == Resynced(old(manager.markers), editor.id, old(editor.nextId), change)
    ensures editor.nextId == old(editor.nextId) + Rows(change.newRange)
    ensures editor.decorations == old(editor.decorations) +
      PaintLog(editor.indents, old(editor.nextId), change.newRange.start.row, Rows(change.newRange), chosenColor)
  {
    CleanFromRange(editor, change.newRange, manager);
    ghost var cleaned := manager.markers;
    var fromLine := change.newRange.start.row;
    var toLine := change.newRange.end.row;
    if fromLine == toLine {
      PaintTextEditorLine(editor, manager, fromLine, chosenColor);
      assert manager.markers == Painted(cleaned, editor.id, old(editor.nextId), fromLine, 1);
      assert PaintLog(editor.indents, old(editor.nextId), fromLine, 1, chosenColor) ==
        [Decoration(old(editor.nextId), GetColorClass(editor.indents, fromLine), chosenColor, fromLine)];
    } else {
      PaintMultipleLines(editor, manager, fromLine, toLine, chosenColor);
    }
  }

  /**
   `textDidChange`: handles the changes of one event one after another, in the
   order given.
   */
  method TextDidChange(changes: seq<Change>, editor: TextEditor, chosenColor: string, manager: MarkerManager)
    requires Synced(editor, manager)
    requires forall i :: 0 <= i < |changes| ==> Fits(changes[i], |editor.indents|)
    modifies manager, editor`nextId, editor`decorations
    ensures Synced(editor, manager)
    ensures manager.markers == ResyncedAll(old(manager.markers), editor.id, old(editor.nextId), changes)
    ensures editor.nextId == old(editor.nextId) + TotalRows(changes)
    ensures editor.decorations ==
      old(editor.decorations) + ResyncLog(editor.indents, old(editor.nextId), changes, chosenColor)
  {
    var i := 0;
    while i < |changes|
      invariant 0 <= i <= |changes|
      invariant Synced(editor, manager)
      invariant manager.markers == ResyncedAll(old(manager.markers), editor.id, old(editor.nextId), changes[..i])
      invariant editor.nextId == old(editor.nextId) + TotalRows(changes[..i])
      invariant editor.decorations ==
        old(editor.decorations) + ResyncLog(editor.indents, old(editor.nextId), changes[..i], chosenColor)
    {
      HandleChange(changes[i], editor, chosenColor, manager);
      ResyncStep(old(manager.markers), editor.id, old(editor.nextId), changes, i);
      ResyncLogStep(old(editor.decorations), editor.indents, old(editor.nextId), changes, i, chosenColor);
      i := i + 1;
    }
    assert changes[..|changes|] == changes;
  }

  /** `paint`: paints every row of the buffer, leaving existing markers in place. */
  method Paint(editor: TextEditor, manager: MarkerManager, chosenColor: string)
    requires Synced(editor, manager)
    modifies manager, editor`nextId, editor`decorations
    ensures Synced(editor, manager)
    ensures manager.markers == Painted(old(manager.markers), editor.id, old(editor.nextId), 0, |editor.indents|)
    ensures editor.nextId == old(editor.nextId) + |editor.indents|
    ensures editor.decorations ==
      old(editor.decorations) + PaintLog(editor.indents, old(editor.nextId), 0, |editor.indents|, chosenColor)
  {
    var numberOfLines := |editor.indents|;
    ReadTextEditorLines(editor, manager, numberOfLines, chosenColor);
  }

  // ---------------------------------------------------------------------------
  // Lemmas

  /**
   Painting a run of rows requests one decoration per row, in ascending row
   order: the i-th decorates marker `f + i` on row `from + i` with that row's
   clamped color class.
   */
  lemma {:induction false} PaintLogRows(indents: seq<nat>, f: MarkerId, from: nat, n: nat, chosenColor: string)
    requires n == 0 || from + n <= |indents|
    ensures |PaintLog(indents, f, from, n, chosenColor)| == n
    ensures forall i :: 0 <= i < n ==>
      PaintLog(indents, f, from, n, chosenColor)[i] ==
        Decoration(f + i, GetColorClass(indents, from + i), chosenColor, from + i)
    ensures forall i, j :: 0 <= i < j < n ==>
      PaintLog(indents, f, from, n, chosenColor)[i].line < PaintLog(indents, f, from, n, chosenColor)[j].line
  {
    if n > 0 {
      PaintLogRows(indents, f, from, n - 1, chosenColor);
    }
  }

  /** Handling the first `i + 1` changes is handling the first `i`, then change `i`. */
  lemma ResyncStep(s: Store, e: EditorId, f: MarkerId, cs: seq<Change>, i: nat)
    requires i < |cs|
    ensures TotalRows(cs[..i + 1]) == TotalRows(cs[..i]) + Rows(cs[i].newRange)
    ensures ResyncedAll(s, e, f, cs[..i + 1]) == Resynced(ResyncedAll(s, e, f, cs[..i]), e, f + TotalRows(cs[..i]), cs[i])
  {
    assert cs[..i + 1][..i] == cs[..i];
  }

  /** The decorations of the first `i + 1` changes extend those of the first `i` by change `i`'s. */
  lemma ResyncLogStep(before: seq<Decoration>, indents: seq<nat>, f: MarkerId, cs: seq<Change>, i: nat, chosenColor: string)
    requires i < |cs|
    requires forall k :: 0 <= k < |cs| ==> Fits(cs[k], |indents|)
    ensures before + ResyncLog(indents, f, cs[..i + 1], chosenColor) ==
      before + ResyncLog(indents, f, cs[..i], chosenColor) +
      PaintLog(indents, f + TotalRows(cs[..i]), cs[i].newRange.start.row, Rows(cs[i].newRange), chosenColor)
  {
    assert cs[..i + 1][..i] == cs[..i];
    assert Fits(cs[i], |indents|);
  }

  /**
   Painting a run records marker `k` on row `from + k - f` for each id `k` of the
   run and keeps every other key of the editor's table; no other editor changes.
   */
  lemma {:induction false} PaintedRecords(s: Store, e: EditorId, f: MarkerId, from: nat, n: nat)
    ensures forall k :: k in Lookup(Painted(s, e, f, from, n), e) <==> k in Lookup(s, e) || f <= k < f + n
    ensures forall k :: f <= k < f + n ==>
      k in Lookup(Painted(s, e, f, from, n), e) && Lookup(Painted(s, e, f, from, n), e)[k] == Some(Entry(k, from + k - f))
    ensures forall k :: k in Lookup(s, e) && !(f <= k < f + n) ==>
      k in Lookup(Painted(s, e, f, from, n), e) && Lookup(Painted(s, e, f, from, n), e)[k] == Lookup(s, e)[k]
    ensures OthersUnchanged(s, Painted(s, e, f, from, n), e)
  {
    if n > 0 {
      PaintedRecords(s, e, f, from, n - 1);
    }
  }

  /** There are exactly `n` consecutive ids from `f`. */
  lemma {:induction false} RowIdsCount(f: MarkerId, n: nat)
    ensures forall k :: k in RowIds(f, n) <==> f <= k < f + n
    ensures |RowIds(f, n)| == n
  {
    if n > 0 {
      RowIdsCount(f, n - 1);
    }
  }

  /**
   `paintMultipleLines` (and `readTextEditorLines`, which starts at row 0) adds
   exactly `n` markers, one on each row `from .. from + n - 1`, never removes or
   changes a marker it found, and leaves every other editor alone; so the live
   count grows by exactly `n`.
   */
  lemma PaintAddsOneMarkerPerRow(s: Store, e: EditorId, f: MarkerId, from: nat, n: nat)
    requires FreshFrom(s, e, f)
    ensures forall k :: f <= k < f + n ==>
      k in Lookup(Painted(s, e, f, from, n), e) && Lookup(Painted(s, e, f, from, n), e)[k] == Some(Entry(k, from + k - f))
    ensures forall id :: id in Lookup(s, e) ==>
      id in Lookup(Painted(s, e, f, from, n), e) && Lookup(Painted(s, e, f, from, n), e)[id] == Lookup(s, e)[id]
    ensures Live(Painted(s, e, f, from, n), e) == Live(s, e) + RowIds(f, n)
    ensures |Live(Painted(s, e, f, from, n), e)| == |Live(s, e)| + n
    ensures forall r :: from <= r < from + n ==>
      Found(Painted(s, e, f, from, n), e, r, r) == Found(s, e, r, r) + {f + r - from}
    ensures FreshFrom(Painted(s, e, f, from, n), e, f + n)
    ensures OthersUnchanged(s, Painted(s, e, f, from, n), e)
  {
    PaintedRecords(s, e, f, from, n);
    PaintedLive(s, e, f, from, n);
    forall r | from <= r < from + n
      ensures Found(Painted(s, e, f, from, n), e, r, r) == Found(s, e, r, r) + {f + r - from}
    {
      PaintedFoundRow(s, e, f, from, n, r);
    }
  }

  /** The live markers after painting a run are the earlier ones plus the run's fresh ids. */
  lemma PaintedLive(s: Store, e: EditorId, f: MarkerId, from: nat, n: nat)
    requires FreshFrom(s, e, f)
    ensures Live(Painted(s, e, f, from, n), e) == Live(s, e) + RowIds(f, n)
    ensures |Live(Painted(s, e, f, from, n), e)| == |Live(s, e)| + n
  {
    PaintedLiveSet(s, e, f, from, n);
    RowIdsCount(f, n);
    assert Live(s, e) * RowIds(f, n) == {};
  }

  /** The set half of `PaintedLive`, kept apart so that each proof stays small. */
  lemma PaintedLiveSet(s: Store, e: EditorId, f: MarkerId, from: nat, n: nat)
    requires FreshFrom(s, e, f)
    ensures Live(Painted(s, e, f, from, n), e) == Live(s, e) + RowIds(f, n)
  {
    var p := Painted(s, e, f, from, n);
    PaintedRecords(s, e, f, from, n);
    RowIdsCount(f, n);
    forall id
      ensures id in Live(p, e) <==> id in Live(s, e) || id in RowIds(f, n)
    {
      if id in Lookup(s, e) {
        assert id < f;
      }
    }
  }


  /** After painting a run, the run's row `r` holds its fresh marker beside whatever was live there. */
  lemma PaintedFoundRow(s: Store, e: EditorId, f: MarkerId, from: nat, n: nat, r: nat)
    requires FreshFrom(s, e, f)
    requires from <= r < from + n
    ensures Found(Painted(s, e, f, from, n), e, r, r) == Found(s, e, r, r) + {f + r - from}
  {
    var p := Painted(s, e, f, from, n);
    PaintedRecords(s, e, f, from, n);
    forall id
      ensures id in Found(p, e, r, r) <==> id in Found(s, e, r, r) || id == f + r - from
    {
      if id in Lookup(s, e) {
        assert id < f;
      }
    }
  }

  /** Rows outside the painted run keep exactly the live markers they had. */
  lemma PaintedFoundOffRun(s: Store, e: EditorId, f: MarkerId, from: nat, n: nat, r: nat)
    requires FreshFrom(s, e, f)
    requires r < from || from + n <= r
    ensures Found(Painted(s, e, f, from, n), e, r, r) == Found(s, e, r, r)
  {
    var p := Painted(s, e, f, from, n);
    PaintedRecords(s, e, f, from, n);
    forall id
      ensures id in Found(p, e, r, r) <==> id in Found(s, e, r, r)
    {
      if id in Lookup(s, e) {
        assert id < f;
      }
    }
  }

  /** On an editor with no live marker, a full paint leaves exactly one marker on each row and none elsewhere. */
  lemma PaintOnCleanEditor(s: Store, e: EditorId, f: MarkerId, n: nat)
    requires FreshFrom(s, e, f)
    requires Live(s, e) == {}
    ensures |Live(Painted(s, e, f, 0, n), e)| == n
    ensures forall r :: 0 <= r < n ==> Found(Painted(s, e, f, 0, n), e, r, r) == {f + r}
    ensures forall r :: r >= n ==> Found(Painted(s, e, f, 0, n), e, r, r) == {}
  {
    PaintedLive(s, e, f, 0, n);
    forall r | 0 <= r < n
      ensures Found(Painted(s, e, f, 0, n), e, r, r) == {f + r}
    {
      PaintedFoundRow(s, e, f, 0, n, r);
    }
    forall r | r >= n
      ensures Found(Painted(s, e, f, 0, n), e, r, r) == {}
    {
      PaintedFoundOffRun(s, e, f, 0, n, r);
    }
  }

  /** `clean` leaves no live marker in the editor, so no range query finds one, and touches no other editor. */
  lemma CleanRemovesAll(s: Store, e: EditorId, from: int, to: int)
    ensures Live(RemoveIds(s, e, Live(s, e)), e) == {}
    ensures Found(RemoveIds(s, e, Live(s, e)), e, from, to) == {}
    ensures Lookup(RemoveIds(s, e, Live(s, e)), e).Keys == Lookup(s, e).Keys
    ensures OthersUnchanged(s, RemoveIds(s, e, Live(s, e)), e)
  {
    RemoveIdsEffect(s, e, Live(s, e), from, to);
  }

  /**
   Toggling off and on (`clean`, then `paint` of all `n` rows) leaves exactly
   one live marker per row, whatever the editor held before.
   */
  lemma CleanThenPaint(s: Store, e: EditorId, f: MarkerId, n: nat)
    requires FreshFrom(s, e, f)
    ensures |Live(Painted(RemoveIds(s, e, Live(s, e)), e, f, 0, n), e)| == n
    ensures forall r :: 0 <= r < n ==> Found(Painted(RemoveIds(s, e, Live(s, e)), e, f, 0, n), e, r, r) == {f + r}
  {
    CleanRemovesAll(s, e, 0, 0);
    PaintOnCleanEditor(RemoveIds(s, e, Live(s, e)), e, f, n);
  }

  /** The single-row branch of `textDidChange` paints exactly what `paintMultipleLines` paints for one row. */
  lemma SingleRowIsOneRowRun(s: Store, e: EditorId, f: MarkerId, row: nat, indents: seq<nat>, chosenColor: string)
    requires row < |indents|
    ensures Added(s, e, f, row) == Painted(s, e, f, row, Rows(Range(Point(row, 0), Point(row, 0))))
    ensures [Decoration(f, GetColorClass(indents, row), chosenColor, row)] ==
      PaintLog(indents, f, row, Rows(Range(Point(row, 0), Point(row, 0))), chosenColor)
  {
  }

  /**
   One change, record by record: every marker that was live on a row of
   `[start.row, end.row]` is gone; every other marker (and tombstone) of the
   editor keeps its record; each row of the range gets one fresh marker
   recording that row; the id counter moves past them; no other editor changes.
   */
  lemma ResyncRecords(s: Store, e: EditorId, f: MarkerId, c: Change)
    requires FreshFrom(s, e, f)
    ensures forall id :: id in Found(s, e, c.newRange.start.row, c.newRange.end.row) ==>
      id !in Live(Resynced(s, e, f, c), e)
    ensures forall id :: id in Lookup(s, e) && id !in Found(s, e, c.newRange.start.row, c.newRange.end.row) ==>
      id in Lookup(Resynced(s, e, f, c), e) && Lookup(Resynced(s, e, f, c), e)[id] == Lookup(s, e)[id]
    ensures forall k :: f <= k < f + Rows(c.newRange) ==>
      k in Lookup(Resynced(s, e, f, c), e) &&
      Lookup(Resynced(s, e, f, c), e)[k] == Some(Entry(k, c.newRange.start.row + k - f))
    ensures FreshFrom(Resynced(s, e, f, c), e, f + Rows(c.newRange))
    ensures OthersUnchanged(s, Resynced(s, e, f, c), e)
  {
    var a, b, n := c.newRange.start.row, c.newRange.end.row, Rows(c.newRange);
    var cleaned := RemoveIds(s, e, Found(s, e, a, b));
    assert Resynced(s, e, f, c) == Painted(cleaned, e, f, a, n);
    CleanedRange(s, e, a, b);
    CleanedFresh(s, e, f, a, b);
    PaintedRecords(cleaned, e, f, a, n);
  }

  /**
   One change, counted: the live markers afterwards are those that were live
   off the range plus one fresh marker per row, so the live count changes by
   the rows painted minus the markers removed.
   */
  lemma ResyncLive(s: Store, e: EditorId, f: MarkerId, c: Change)
    requires FreshFrom(s, e, f)
    ensures Live(Resynced(s, e, f, c), e) ==
      (Live(s, e) - Found(s, e, c.newRange.start.row, c.newRange.end.row)) + RowIds(f, Rows(c.newRange))
    ensures |Live(Resynced(s, e, f, c), e)| ==
      |Live(s, e)| - |Found(s, e, c.newRange.start.row, c.newRange.end.row)| + Rows(c.newRange)
  {
    var a, b, n := c.newRange.start.row, c.newRange.end.row, Rows(c.newRange);
    var cleaned := RemoveIds(s, e, Found(s, e, a, b));
    assert Resynced(s, e, f, c) == Painted(cleaned, e, f, a, n);
    CleanedRange(s, e, a, b);
    CleanedFresh(s, e, f, a, b);
    PaintedLive(cleaned, e, f, a, n);
  }

  /** One change, row by row: each row of the range then holds exactly its one fresh marker. */
  lemma ResyncRows(s: Store, e: EditorId, f: MarkerId, c: Change, r: nat)
    requires FreshFrom(s, e, f)
    requires c.newRange.start.row <= r <= c.newRange.end.row
    ensures Found(Resynced(s, e, f, c), e, r, r) == {f + r - c.newRange.start.row}
  {
    var a, b, n := c.newRange.start.row, c.newRange.end.row, Rows(c.newRange);
    var cleaned := RemoveIds(s, e, Found(s, e, a, b));
    assert Resynced(s, e, f, c) == Painted(cleaned, e, f, a, n);
    CleanedFresh(s, e, f, a, b);
    CleanedRangeRow(s, e, a, b, r);
    PaintedFoundRow(cleaned, e, f, a, n, r);
  }

  /**
   Removing the markers a range query found tombstones exactly those, keeps
   the table's keys and every other record, and lowers the live count by the
   number found.
   */
  lemma CleanedRange(s: Store, e: EditorId, a: nat, b: nat)
    ensures Lookup(RemoveIds(s, e, Found(s, e, a, b)), e).Keys == Lookup(s, e).Keys
    ensures forall id :: id in Found(s, e, a, b) ==> Lookup(RemoveIds(s, e, Found(s, e, a, b)), e)[id] == None
    ensures forall id :: id in Lookup(s, e) && id !in Found(s, e, a, b) ==>
      Lookup(RemoveIds(s, e, Found(s, e, a, b)), e)[id] == Lookup(s, e)[id]
    ensures Live(RemoveIds(s, e, Found(s, e, a, b)), e) == Live(s, e) - Found(s, e, a, b)
    ensures |Live(RemoveIds(s, e, Found(s, e, a, b)), e)| == |Live(s, e)| - |Found(s, e, a, b)|
    ensures OthersUnchanged(s, RemoveIds(s, e, Found(s, e, a, b)), e)
  {
    RemoveIdsEffect(s, e, Found(s, e, a, b), 0, 0);
  }

  /** Removing the markers a range query found leaves every id of the table below the counter. */
  lemma CleanedFresh(s: Store, e: EditorId, f: MarkerId, a: nat, b: nat)
    requires FreshFrom(s, e, f)
    ensures FreshFrom(RemoveIds(s, e, Found(s, e, a, b)), e, f)
  {
    RemoveIdsEffect(s, e, Found(s, e, a, b), 0, 0);
  }

  /** After removing what a range query found, no row of the range holds a live marker. */
  lemma CleanedRangeRow(s: Store, e: EditorId, a: nat, b: nat, r: nat)
    requires a <= r <= b
    ensures Found(RemoveIds(s, e, Found(s, e, a, b)), e, r, r) == {}
  {
    RemoveIdsEffect(s, e, Found(s, e, a, b), r, r);
  }

  /** Handling `cs1 + cs2` is handling `cs1`, then `cs2` from where `cs1` left the store and the id counter. */
  lemma {:induction false} ResyncedAllAppend(s: Store, e: EditorId, f: MarkerId, cs1: seq<Change>, cs2: seq<Change>)
    ensures TotalRows(cs1 + cs2) == TotalRows(cs1) + TotalRows(cs2)
    ensures ResyncedAll(s, e, f, cs1 + cs2) == ResyncedAll(ResyncedAll(s, e, f, cs1), e, f + TotalRows(cs1), cs2)
  {
    if cs2 == [] {
      assert cs1 + cs2 == cs1;
    } else {
      var init := cs2[..|cs2| - 1];
      ResyncedAllAppend(s, e, f, cs1, init);
      assert (cs1 + cs2)[..|cs1 + cs2| - 1] == cs1 + init;
      assert (cs1 + cs2)[|cs1 + cs2| - 1] == cs2[|cs2| - 1];
    }
  }

  /** After a batch, the ids handed out next are still fresh, and no other editor changed. */
  lemma {:induction false} ResyncedAllFresh(s: Store, e: EditorId, f: MarkerId, cs: seq<Change>)
    requires FreshFrom(s, e, f)
    ensures FreshFrom(ResyncedAll(s, e, f, cs), e, f + TotalRows(cs))
    ensures OthersUnchanged(s, ResyncedAll(s, e, f, cs), e)
  {
    if cs != [] {
      var init := cs[..|cs| - 1];
      ResyncedAllFresh(s, e, f, init);
      ResyncRecords(ResyncedAll(s, e, f, init), e, f + TotalRows(init), cs[|cs| - 1]);
    }
  }
  /** Painting `n` rows into an empty store: marker `k` on row `k` for each `k < n`, nothing else. */
  lemma PaintedFromEmpty(e: EditorId, n: nat)
    ensures forall k: MarkerId :: k in Lookup(Painted(map[], e, 0, 0, n), e) <==> k < n
    ensures forall k: MarkerId :: k < n ==> Lookup(Painted(map[], e, 0, 0, n), e)[k] == Some(Entry(k, k))
    ensures |Live(Painted(map[], e, 0, 0, n), e)| == n
  {
    var empty: Store := map[];
    assert forall k :: k !in Lookup(empty, e);
    PaintedRecords(empty, e, 0, 0, n);
    PaintedLive(empty, e, 0, 0, n);
  }

  /** Painting 3 rows into an empty store, then querying row 0, finds marker 0 alone. */
  lemma PaintedThreeRows(e: EditorId)
    ensures forall k: MarkerId :: k in Lookup(Painted(map[], e, 0, 0, 3), e) <==> k < 3
    ensures forall k: MarkerId :: k < 3 ==> Lookup(Painted(map[], e, 0, 0, 3), e)[k] == Some(Entry(k, k))
    ensures Found(Painted(map[], e, 0, 0, 3), e, 0, 0) == {0}
    ensures |Live(Painted(map[], e, 0, 0, 3), e)| == 3
  {
    PaintedFromEmpty(e, 3);
    assert Lookup(Painted(map[], e, 0, 0, 3), e)[0] == Some(Entry(0, 0));
  }

  /**
   A stored line is never moved. Paint a 3-row buffer, then handle a change
   whose new range is row 0 (as when rows 1 and 2 were deleted): the markers
   of rows 1 and 2 stay live, so three markers remain for a 1-row buffer.
   */
  lemma StaleRowsSurviveDeletion(e: EditorId)
    ensures var c := Change(Range(Point(0, 0), Point(2, 0)), Range(Point(0, 0), Point(0, 0)), "a\nb\nc", "");
      |Live(Resynced(Painted(map[], e, 0, 0, 3), e, 3, c), e)| == 3
  {
    var c := Change(Range(Point(0, 0), Point(2, 0)), Range(Point(0, 0), Point(0, 0)), "a\nb\nc", "");
    PaintedThreeRows(e);
    ResyncLive(Painted(map[], e, 0, 0, 3), e, 3, c);
  }

  /** In the same scenario, the deleted rows 1 and 2 are still found, on their old lines. */
  lemma StaleRowsStillFound(e: EditorId)
    ensures var c := Change(Range(Point(0, 0), Point(2, 0)), Range(Point(0, 0), Point(0, 0)), "a\nb\nc", "");
      Found(Resynced(Painted(map[], e, 0, 0, 3), e, 3, c), e, 1, 2) == {1, 2}
  {
    var c := Change(Range(Point(0, 0), Point(2, 0)), Range(Point(0, 0), Point(0, 0)), "a\nb\nc", "");
    var p := Painted(map[], e, 0, 0, 3);
    var after := Resynced(p, e, 3, c);
    PaintedThreeRows(e);
    ResyncRecords(p, e, 3, c);
    forall id
      ensures id in Found(after, e, 1, 2) <==> id == 1 || id == 2
    {
      if id < 3 && id != 0 {
        assert Lookup(after, e)[id] == Some(Entry(id, id));
      }
    }
  }
}
