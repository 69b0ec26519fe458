# color-indent: marker bookkeeping and resync, in Dafny

color-indent colors the line-number gutter of each line of an editor buffer
according to the line's indentation. It does this with one editor marker per
painted line. A `MarkerManager` keeps, for each text editor, a table from
marker id to the `{id, line}` record of the painted line. The render logic
fills that table in three ways:

- `paint` paints every row of the buffer.
- `clean` removes every marker of the editor.
- `textDidChange` handles a batch of changes. For each change it removes the
  markers found on the rows of the change's new range, then repaints each of
  those rows with a fresh marker.

The project has two modules.

- `Markers` (`marker_manager.dfy`) models `lib/MarkerManager.js`.
  - The store is a value of type `map<EditorId, map<MarkerId, Option<Entry>>>`.
  - `None` is the tombstone that `remove` leaves: the code sets the entry to
    `undefined` rather than deleting the key.
  - Pure functions (`Added`, `Removed`, `RemoveIds`, `Live`, `Found`) state
    what each operation does to a store.
  - The class `MarkerManager` holds the store in its `markers` field. Its
    methods `Add` and `Remove` reassign that field, as the code does.
  - A JavaScript object enumerates integer keys in ascending order, and
    `findByRange` (through lodash `filter`) and `clean` visit markers in that
    order. `SortedKeys` models this.
- `ColorIndentRender` (`color_indent_render.dfy`) models
  `lib/color-indent-render.js`.
  - The host editor is the class `TextEditor`. It has:
    - the indentation of each row (`indentationForBufferRow`; `getLineCount`
      is the row count);
    - a counter `nextId` that hands out fresh marker ids
      (`markBufferPosition`);
    - a log of the decorations requested (`decorateMarker`).
  - Each render function is a method that changes the manager and the editor
    step by step. The two counting `for` loops keep their loop form.
  - Each method is proved against a specification function:
    - `Painted` and `PaintLog` for a run of painted rows;
    - `Resynced` for one change;
    - `ResyncedAll` and `ResyncLog` for a batch of changes.
  - Lemmas about those functions state what the code promises: one fresh
    marker per row, rows outside a change untouched, live counts, and other
    editors unchanged.
  - `Synced` (the manager is well keyed, and every id it holds for the editor
    was handed out by the editor) is required and preserved by every method.

Facts about the code that shape the model:

- `getColorClass` clamps the indentation at its own constant 4
  (`lib/color-indent-render.js:30-36`). The preferences built in
  `lib/index.js:8,63` carry `numberOfColors: 8`, but the render code never
  reads them.
- `add` overwrites only the record under the same marker id
  (`lib/MarkerManager.js:14-25`). Other markers on the same line stay, so the
  store itself allows several markers per line. `AddKeepsLineSharers` and
  `TwoMarkersOnOneLine` state this.
- `textDidChange` cleans and repaints the rows of every change's new range
  (`lib/color-indent-render.js:72-97`), whatever text the change inserted or
  deleted.
- A stored `line` is never updated. `cleanFromRange` looks only at the rows of
  the change's new range (`lib/color-indent-render.js:18-22, 77`). So when a
  change deletes rows, the markers recorded on rows below it stay live with
  their old lines. Take a 3-row buffer that was painted, then a change whose
  new range is row 0. `StaleRowsSurviveDeletion` shows that three markers
  remain live, and `StaleRowsStillFound` shows that rows 1 and 2 are still
  found.
- `paint` paints every row without removing the editor's existing markers
  (`lib/color-indent-render.js:99-102`). `PaintedLive` states that the live
  count grows by the number of rows. `CleanThenPaint` states that `clean`
  followed by `paint` leaves exactly one live marker per row.

## Model

| member | source | states |
|---|---|---|
| Markers.MarkerManager.constructor | lib/MarkerManager.js:6-8 | a new manager holds no tables and is well keyed |
| Markers.MarkerManager.GetMarkers | lib/MarkerManager.js:10-12 | an editor never added has the empty table; otherwise its own table |
| Markers.MarkerManager.Add | lib/MarkerManager.js:14-25 | the new store is `Added(old, e, m, line)` and stays well keyed |
| Markers.MarkerManager.Remove | lib/MarkerManager.js:27-35 | the new store is `Removed(old, e, m)`, a tombstone under `m`, and stays well keyed |
| Markers.MarkerManager.FindByRange | lib/MarkerManager.js:37-45 | returns the editor's own records, each a live marker whose line is in `[from, to]`, both ends inclusive; every such marker appears; ids are in ascending order, as object enumeration visits them |
| Markers.Added | lib/MarkerManager.js:14-25 | the store after `add(e, m, line)`: the editor's table, or an empty one, with `m` mapped to `{id: m, line}` |
| Markers.Removed | lib/MarkerManager.js:27-35 | the store after `remove(e, m)`: the editor's table, or an empty one, with `m` mapped to the tombstone |
| Markers.RemoveIds | lib/color-indent-render.js:5-16 | the store after `remove` of each id of a set, in any order: those ids tombstoned, every other entry kept |
| Markers.Live | lib/MarkerManager.js:38-41 | the ids of an editor's table whose entry is not a tombstone |
| Markers.Found | lib/MarkerManager.js:37-45 | exactly the live ids whose line is in `[from, to]`; empty when `from > to` or the editor is unknown |
| Markers.Matching | lib/MarkerManager.js:38-44 | the filter returns at most one record per key visited |
| Markers.MatchingExactly | lib/MarkerManager.js:38-44 | the filter keeps a visited key exactly when its record is live and its line is in range, and keeps that record |
| Markers.MatchingIncreasing | lib/MarkerManager.js:38-44 | visiting keys in ascending order yields records in ascending id order |
| Markers.Least | lib/MarkerManager.js:38 | the least id of a non-empty set, the next key object enumeration visits |
| Markers.SortedKeys | lib/MarkerManager.js:38 | the table's keys, each once, in strictly ascending order |
| Markers.AddRecords | lib/MarkerManager.js:14-25 | after `add` the record of `m` is `{id: m, line}` and a query of that line finds it; other editors and other ids of the editor keep their tables and records |
| Markers.AddLastWriteWins | lib/MarkerManager.js:14-25 | re-adding a marker overwrites its line: two adds equal the second |
| Markers.AddKeepsLineSharers | lib/MarkerManager.js:14-25 | `add` does not evict markers that share the line: the line's query gains `m` and loses nothing |
| Markers.TwoMarkersOnOneLine | lib/MarkerManager.js:14-25 | two distinct markers added on one line are both found |
| Markers.RemoveHides | lib/MarkerManager.js:27-35 | after `remove` no range query finds `m`, and everything else found before is still found |
| Markers.RemoveIdempotent | lib/MarkerManager.js:27-35 | two removes equal one; the key set gains only `m`; every other id and every other editor is unchanged |
| Markers.RemoveIdsStep | lib/color-indent-render.js:5-16 | removing one more id after a set of ids equals removing the larger set |
| Markers.RemoveIdsEffect | lib/color-indent-render.js:5-16 | removing a set tombstones exactly those ids, keeps every other record and editor, and subtracts the set from the live ids and from every range query |
| Markers.OperationsKeepWellKeyed | lib/MarkerManager.js:14-35 | add, remove and removing a set all keep every live record under its own id |
| ColorIndentRender.GetColorClass | lib/color-indent-render.js:29-39 | the color class is `min(indentation, 4)`: at most 4, at most the indentation, equal to it when it is at most 4, and otherwise 4 |
| ColorIndentRender.Painted | lib/color-indent-render.js:61-70 | the store after painting rows `from .. from + n - 1` in ascending order, row `from + i` taking the fresh id `f + i` |
| ColorIndentRender.PaintLog | lib/color-indent-render.js:41-52 | the decoration requests of such a run, one per row in row order, each with the row's clamped color class |
| ColorIndentRender.Resynced | lib/color-indent-render.js:77-96 | the store after one change: the markers found on its new range's rows removed, then those rows painted |
| ColorIndentRender.ResyncedAll | lib/color-indent-render.js:72-97 | the store after a batch: each change resynced in turn, each taking ids after the previous changes' rows |
| ColorIndentRender.ResyncLog | lib/color-indent-render.js:72-97 | the decoration requests of a batch: each change's run, in the order of the changes |
| ColorIndentRender.TextEditor.MarkBufferPosition | lib/color-indent-render.js:45 | the new marker's id is fresh: the counter's value, which then moves on by one |
| ColorIndentRender.TextEditor.DecorateMarker | lib/color-indent-render.js:48-51 | the decoration request is appended to the editor's log |
| ColorIndentRender.RemoveMarkers | lib/color-indent-render.js:5-16 | removes the ids of the listed records and skips tombstones: the new store is `RemoveIds` of their ids |
| ColorIndentRender.CleanFromRange | lib/color-indent-render.js:18-22 | removes exactly the markers `findByRange` finds on the range's rows |
| ColorIndentRender.Clean | lib/color-indent-render.js:24-27 | removes exactly the editor's live markers |
| ColorIndentRender.PaintTextEditorLine | lib/color-indent-render.js:41-52 | records one fresh marker on `line` and requests one decoration with the line's clamped color class and the chosen color |
| ColorIndentRender.ReadTextEditorLines | lib/color-indent-render.js:55-59 | paints rows `0 .. numberOfLines - 1` in ascending order with consecutive fresh ids, one decoration each |
| ColorIndentRender.PaintMultipleLines | lib/color-indent-render.js:61-70 | paints rows `fromLine .. toLine`, both inclusive, in ascending order; paints nothing when `fromLine > toLine` |
| ColorIndentRender.HandleChange | lib/color-indent-render.js:73-96 | one change: clean the new range's rows, then repaint them; the new store is `Resynced` |
| ColorIndentRender.TextDidChange | lib/color-indent-render.js:72-97 | handles the changes one after another in the order given; the new store is `ResyncedAll` and the log is `ResyncLog` |
| ColorIndentRender.Paint | lib/color-indent-render.js:99-102 | paints every row of the buffer, keeping existing markers |
| ColorIndentRender.PaintLogRows | lib/color-indent-render.js:55-70 | painting `n` rows requests exactly `n` decorations; the i-th is for marker `f + i` on row `from + i` with that row's color class, in ascending row order |
| ColorIndentRender.PaintedRecords | lib/color-indent-render.js:61-70 | painting a run records marker `k` on row `from + k - f` for each id of the run; every other key keeps its record; other editors are unchanged |
| ColorIndentRender.PaintAddsOneMarkerPerRow | lib/color-indent-render.js:61-70 | with fresh ids, painting `n` rows adds `n` live markers, one on each row of the run, keeps every earlier record, and keeps the ids fresh and other editors unchanged |
| ColorIndentRender.PaintedLive | lib/color-indent-render.js:55-59 | painting only adds markers: the live ids gain the run's ids, and the live count grows by exactly `n` |
| ColorIndentRender.PaintedLiveSet | lib/color-indent-render.js:55-59 | the live ids after painting are those live before plus the run's ids |
| ColorIndentRender.PaintedFoundRow | lib/color-indent-render.js:61-70 | a painted row's query finds what it found before plus that row's fresh marker |
| ColorIndentRender.PaintedFoundOffRun | lib/color-indent-render.js:61-70 | rows outside the painted run are found exactly as before |
| ColorIndentRender.PaintOnCleanEditor | lib/color-indent-render.js:99-102 | painting `n` rows of an editor with no live marker leaves `n` live markers, exactly one per row, and none beyond the last row |
| ColorIndentRender.CleanRemovesAll | lib/color-indent-render.js:24-27 | after `clean` the editor has no live marker and no range query finds one; its keys stay as tombstones; other editors are unchanged |
| ColorIndentRender.CleanThenPaint | lib/color-indent-render.js:24-27 | `clean` then `paint` of `n` rows leaves exactly `n` live markers, one per row, whatever the editor held before |
| ColorIndentRender.SingleRowIsOneRowRun | lib/color-indent-render.js:82-96 | the single-row branch stores and decorates exactly what `paintMultipleLines` does for that one row |
| ColorIndentRender.ResyncRecords | lib/color-indent-render.js:77-96 | after one change no marker that was live on its rows is live; every marker off those rows keeps its record; each row gets one fresh marker recording it; ids stay fresh; other editors are unchanged |
| ColorIndentRender.ResyncLive | lib/color-indent-render.js:77-96 | the live markers after one change are those live off its rows plus one per row, so the count changes by the rows painted minus the markers removed |
| ColorIndentRender.ResyncRows | lib/color-indent-render.js:77-96 | after one change each row of its range holds exactly its one fresh marker |
| ColorIndentRender.CleanedRange | lib/color-indent-render.js:18-22 | cleaning a range tombstones exactly the found ids, keeps the key set, every other record and other editors, and lowers the live count by the number found |
| ColorIndentRender.CleanedFresh | lib/color-indent-render.js:18-22 | cleaning a range keeps the editor's ids fresh |
| ColorIndentRender.CleanedRangeRow | lib/color-indent-render.js:18-22 | after cleaning a range no row of it has a live marker |
| ColorIndentRender.ResyncStep | lib/color-indent-render.js:72-97 | handling the first `i + 1` changes is handling the first `i`, then change `i` with the ids that follow |
| ColorIndentRender.ResyncLogStep | lib/color-indent-render.js:72-97 | the decorations of the first `i + 1` changes extend those of the first `i` by change `i`'s |
| ColorIndentRender.ResyncedAllAppend | lib/color-indent-render.js:72-73 | a batch `cs1 + cs2` is handled as `cs1`, then `cs2` from where `cs1` left the store and the id counter |
| ColorIndentRender.ResyncedAllFresh | lib/color-indent-render.js:72-97 | after a batch the next ids are still fresh and no other editor changed |
| ColorIndentRender.PaintedFromEmpty | lib/color-indent-render.js:55-59 | painting `n` rows into an empty store records marker `k` on row `k` for each `k < n` and nothing else; `n` markers are live |
| ColorIndentRender.PaintedThreeRows | lib/color-indent-render.js:99-102 | a 3-row paint into an empty store holds markers 0, 1, 2 on rows 0, 1, 2, and a query of row 0 finds marker 0 alone |
| ColorIndentRender.StaleRowsSurviveDeletion | lib/color-indent-render.js:18-22 | a stored line is never moved: after painting 3 rows and handling a change whose new range is row 0, three markers are still live |
| ColorIndentRender.StaleRowsStillFound | lib/color-indent-render.js:18-22 | in that scenario the markers of rows 1 and 2 are still found on their old lines |

## Left out

- Host marker destruction (`getMarker(id).destroy()`, `lib/color-indent-render.js:12-15`): it acts on the editor's own marker storage, which is not modelled. Only the manager's bookkeeping is.
- The decoration's `type: 'line-number'` and the formatting of its class string: a `Decoration` keeps the parts of that string (marker, color class, chosen color, line).
- `console.log` calls (`lib/color-indent-render.js:20`, `lib/color-indent-render.js:74`): output only.
- The values that the lodash `map` calls return (arrays of `undefined`): no caller uses them.
- The `oldRange`, `oldText` and `newText` fields of a change: they are carried in `Change` but the code never reads them.
- Fractional indentation reported by the host: indentation is a natural number.
- `lib/index.js` (activation, subscriptions, configuration, the toggle command) and `lib/color-indent.js` (package boilerplate) are not part of this model. In particular, `lib/index.js` calls `clean` with one argument. The model passes the manager to every operation explicitly.
- Color shading and gutter-width styling: neither appears in the render code.
- ColorIndentRender.RemoveMarkers: requires every listed id to be below the editor's id counter, i.e. handed out by `markBufferPosition`. This keeps `Synced`. The code's `remove` accepts any id.
- ColorIndentRender.PaintTextEditorLine, ColorIndentRender.ReadTextEditorLines, ColorIndentRender.PaintMultipleLines, ColorIndentRender.HandleChange, ColorIndentRender.TextDidChange: require the painted rows to exist in the buffer. What the host reports for a row beyond the buffer is not modelled.
- ColorIndentRender.Paint and the other render methods: require `Synced`. Every id in the manager's table for the editor was handed out by that editor. A manager shared with ids from elsewhere is not modelled.
