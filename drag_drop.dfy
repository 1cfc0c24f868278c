// Drag-and-drop mutators: reorder one sequence, move an element between two
// sequences, and the drop handler that writes the results back into the
// affected columns. Each helper copies its input and splices the copy, so
// the caller's sequences are values here and are never changed.

module DragDrop {
  import opened BoardModel

  /** `copy.splice(i, 1)`: the sequence without its element at `i`. */
  function RemoveAt<T>(s: seq<T>, i: nat): (r: seq<T>)
    requires i < |s|
    ensures |r| == |s| - 1
    ensures forall k :: 0 <= k < |r| ==> r[k] == s[if k < i then k else k + 1]
    ensures multiset(r) + multiset{s[i]} == multiset(s)
  {
    assert s == s[..i] + [s[i]] + s[i + 1..];
    s[..i] + s[i + 1..]
  }

  /** `copy.splice(i, 0, x)`: `x` inserted so that it ends up at index `i`. */
  function InsertAt<T>(s: seq<T>, i: nat, x: T): (r: seq<T>)
    requires i <= |s|
    ensures |r| == |s| + 1 && r[i] == x
    ensures forall k :: 0 <= k < |r| && k != i ==> r[k] == s[if k < i then k else k - 1]
    ensures multiset(r) == multiset(s) + multiset{x}
  {
    assert s == s[..i] + s[i..];
    s[..i] + [x] + s[i..]
  }

  /** Where the element shown at position `k` came from, after the element at
      `from` was taken out and put back at `to`: the elements between the two
      positions shift by one towards `from`, all others stay. */
  function ReorderSource(from: nat, to: nat, k: nat): (r: nat)
    ensures r <= from || r <= to || r <= k
  {
    if k == to then from
    else if from < to && from <= k < to then k + 1
    else if to < from && to < k <= from then k - 1
    else k
  }

  /** `reorderColumns` */
  function ReorderColumns(columns: seq<Column>, startIndex: nat, endIndex: nat): (r: seq<Column>)
    requires startIndex < |columns| && endIndex < |columns|
    ensures |r| == |columns|
    ensures forall k :: 0 <= k < |r| ==> r[k] == columns[ReorderSource(startIndex, endIndex, k)]
    ensures r[endIndex] == columns[startIndex]
    ensures multiset(r) == multiset(columns)
  {
    var result := RemoveAt(columns, startIndex);
    InsertAt(result, endIndex, columns[startIndex])
  }

  /** `reorderBookmarksWithinColumn` */
  function ReorderBookmarksWithinColumn(bookmarks: seq<Bookmark>, startIndex: nat, endIndex: nat): (r: seq<Bookmark>)
    requires startIndex < |bookmarks| && endIndex < |bookmarks|
    ensures |r| == |bookmarks|
    ensures forall k :: 0 <= k < |r| ==> r[k] == bookmarks[ReorderSource(startIndex, endIndex, k)]
    ensures r[endIndex] == bookmarks[startIndex]
    ensures multiset(r) == multiset(bookmarks)
  {
    var result := RemoveAt(bookmarks, startIndex);
    InsertAt(result, endIndex, bookmarks[startIndex])
  }

  /** Moving back undoes a move: the element now at `to` goes back to `from`. */
  lemma ReorderSourceInverse(i: nat, j: nat, k: nat)
    ensures ReorderSource(i, j, ReorderSource(j, i, k)) == k
  {
  }

  /** Reordering from `i` to `j` and then from `j` to `i` restores the columns. */
  lemma {:induction false} ReorderColumnsRoundTrip(columns: seq<Column>, i: nat, j: nat)
    requires i < |columns| && j < |columns|
    ensures ReorderColumns(ReorderColumns(columns, i, j), j, i) == columns
  {
    var once := ReorderColumns(columns, i, j);
    var twice := ReorderColumns(once, j, i);
    forall k | 0 <= k < |columns| ensures twice[k] == columns[k] {
      ReorderSourceInverse(i, j, k);
    }
  }

  /** Reordering a column's bookmarks from `i` to `j` and back restores them. */
  lemma {:induction false} ReorderBookmarksRoundTrip(bookmarks: seq<Bookmark>, i: nat, j: nat)
    requires i < |bookmarks| && j < |bookmarks|
    ensures ReorderBookmarksWithinColumn(ReorderBookmarksWithinColumn(bookmarks, i, j), j, i) == bookmarks
  {
    var once := ReorderBookmarksWithinColumn(bookmarks, i, j);
    var twice := ReorderBookmarksWithinColumn(once, j, i);
    forall k | 0 <= k < |bookmarks| ensures twice[k] == bookmarks[k] {
      ReorderSourceInverse(i, j, k);
    }
  }

  /** A drop onto the position it was picked up from changes nothing. */
  lemma ReorderSamePosition(columns: seq<Column>, bookmarks: seq<Bookmark>, i: nat)
    requires i < |columns| && i < |bookmarks|
    ensures ReorderColumns(columns, i, i) == columns
    ensures ReorderBookmarksWithinColumn(bookmarks, i, i) == bookmarks
  {
    assert forall k :: ReorderSource(i, i, k) == k;
  }

  datatype MovedBookmarks = MovedBookmarks(sourceBookmarks: seq<Bookmark>, destinationBookmarks: seq<Bookmark>)

  /** `moveBookmarkBetweenColumns` */
  function MoveBookmarkBetweenColumns(
    sourceBookmarks: seq<Bookmark>, destinationBookmarks: seq<Bookmark>,
    sourceIndex: nat, destinationIndex: nat): (r: MovedBookmarks)
    requires sourceIndex < |sourceBookmarks| && destinationIndex <= |destinationBookmarks|
    ensures |r.sourceBookmarks| == |sourceBookmarks| - 1
    ensures forall k :: 0 <= k < |r.sourceBookmarks| ==>
      r.sourceBookmarks[k] == sourceBookmarks[if k < sourceIndex then k else k + 1]
    ensures |r.destinationBookmarks| == |destinationBookmarks| + 1
    ensures r.destinationBookmarks[destinationIndex] == sourceBookmarks[sourceIndex]
    ensures forall k :: 0 <= k < |r.destinationBookmarks| && k != destinationIndex ==>
      r.destinationBookmarks[k] == destinationBookmarks[if k < destinationIndex then k else k - 1]
    ensures multiset(r.sourceBookmarks) + multiset(r.destinationBookmarks)
      == multiset(sourceBookmarks) + multiset(destinationBookmarks)
  {
    var sourceClone := RemoveAt(sourceBookmarks, sourceIndex);
    var destClone := InsertAt(destinationBookmarks, destinationIndex, sourceBookmarks[sourceIndex]);
    MovedBookmarks(sourceClone, destClone)
  }

  /** Dragging the card back to where it came from restores both lists. */
  lemma {:induction false} MoveBookmarkRoundTrip(src: seq<Bookmark>, dst: seq<Bookmark>, i: nat, j: nat)
    requires i < |src| && j <= |dst|
    ensures var there := MoveBookmarkBetweenColumns(src, dst, i, j);
      var back := MoveBookmarkBetweenColumns(there.destinationBookmarks, there.sourceBookmarks, j, i);
      back.sourceBookmarks == dst && back.destinationBookmarks == src
  {
    var there := MoveBookmarkBetweenColumns(src, dst, i, j);
    var back := MoveBookmarkBetweenColumns(there.destinationBookmarks, there.sourceBookmarks, j, i);
    forall k | 0 <= k < |dst| ensures back.sourceBookmarks[k] == dst[k] {
    }
    forall k | 0 <= k < |src| ensures back.destinationBookmarks[k] == src[k] {
      if k != i {
        assert back.destinationBookmarks[k] == there.sourceBookmarks[if k < i then k else k - 1];
      }
    }
  }

  // ---------------------------------------------------------------------
  // handleDragEnd

  datatype DraggableLocation = DraggableLocation(droppableId: Id, index: nat)

  /** The drop result of the drag library; `dropType` is the droppable's type
      ("column" for the board, "bookmark" for a column's card list). */
  datatype DropResult = DropResult(
    source: DraggableLocation,
    destination: Option<DraggableLocation>,
    dropType: string)

  /** What the handler does with the board: nothing, `setColumns(columns)`,
      or it throws a TypeError (reading `.id` of a missing bookmark) before
      `setColumns` is reached. */
  datatype DragOutcome = NoUpdate | TypeError | SetColumns(columns: seq<Column>)

  /** `columns.find(col => col.id === id)`: the first column with that id. */
  function FindColumn(columns: seq<Column>, id: Id): (r: Option<Column>)
    ensures r.None? <==> !HasColumn(columns, id)
    ensures r.Some? ==> exists p :: (0 <= p < |columns| && columns[p] == r.value && r.value.id == id
      && forall q :: 0 <= q < p ==> columns[q].id != id)
  {
    if columns == [] then None
    else if columns[0].id == id then Some(columns[0])
    else
      var r := FindColumn(columns[1..], id);
      assert HasColumn(columns, id) ==> HasColumn(columns[1..], id) by {
        if HasColumn(columns, id) {
          var p :| 0 <= p < |columns| && columns[p].id == id;
          assert columns[1..][p - 1].id == id;
        }
      }
      assert r.Some? ==> exists p :: (0 <= p < |columns| && columns[p] == r.value && r.value.id == id
          && forall q :: 0 <= q < p ==> columns[q].id != id) by {
        if r.Some? {
          var p :| (0 <= p < |columns[1..]| && columns[1..][p] == r.value && r.value.id == id
            && forall q :: 0 <= q < p ==> columns[1..][q].id != id);
          assert columns[p + 1] == r.value;
          forall q | 0 <= q < p + 1 ensures columns[q].id != id {
            if q > 0 {
              assert columns[q] == columns[1..][q - 1];
            }
          }
        }
      }
      r
  }

  predicate AllKeys(ids: seq<Id>, bookmarks: map<Id, Bookmark>) {
    forall k :: 0 <= k < |ids| ==> ids[k] in bookmarks
  }

  /** `ids.map(id => bookmarks[id])`, when every id is a key. */
  function Lookup(ids: seq<Id>, bookmarks: map<Id, Bookmark>): (r: seq<Bookmark>)
    requires AllKeys(ids, bookmarks)
    ensures |r| == |ids| && forall k :: 0 <= k < |ids| ==> r[k] == bookmarks[ids[k]]
  {
    seq(|ids|, k requires 0 <= k < |ids| => bookmarks[ids[k]])
  }

  /** `bookmarks.map(b => b.id)` */
  function IdsOf(bookmarks: seq<Bookmark>): (r: seq<Id>)
    ensures |r| == |bookmarks| && forall k :: 0 <= k < |r| ==> r[k] == bookmarks[k].id
  {
    seq(|bookmarks|, k requires 0 <= k < |bookmarks| => bookmarks[k].id)
  }

  /** The indices the drag library hands over are positions in the lists
      they refer to. */
  predicate IndicesValid(result: DropResult, columns: seq<Column>) {
    result.destination.Some? ==>
      var s, d := result.source, result.destination.value;
      if result.dropType == "column" then s.index < |columns| && d.index < |columns|
      else
        var src, dst := FindColumn(columns, s.droppableId), FindColumn(columns, d.droppableId);
        src.Some? && dst.Some? ==>
          if s.droppableId == d.droppableId then
            s.index < |src.value.bookmarkIds| && d.index < |src.value.bookmarkIds|
          else
            s.index < |src.value.bookmarkIds| && d.index <= |dst.value.bookmarkIds|
  }

  /** Lines 89-102 of `handleDragEnd`: a drop within the column `src`. */
  function DropWithinColumn(columns: seq<Column>, bookmarks: map<Id, Bookmark>, src: Column, i: nat, j: nat): (r: DragOutcome)
    requires i < |src.bookmarkIds| && j < |src.bookmarkIds|
    ensures r.TypeError? <==> !AllKeys(src.bookmarkIds, bookmarks)
    ensures r.SetColumns? ==> (|r.columns| == |columns|
      && forall c :: 0 <= c < |columns| ==> r.columns[c].id == columns[c].id)
  {
    if !AllKeys(src.bookmarkIds, bookmarks) then TypeError
    else
      var newBookmarkIds := IdsOf(ReorderBookmarksWithinColumn(Lookup(src.bookmarkIds, bookmarks), i, j));
      SetColumns(MapColumns(columns, (col: Column) =>
        if col.id == src.id then col.(bookmarkIds := newBookmarkIds) else col))
  }

  /** Lines 103-126 of `handleDragEnd`: a drop from column `src` into `dst`. */
  function DropAcrossColumns(columns: seq<Column>, bookmarks: map<Id, Bookmark>, src: Column, dst: Column, i: nat, j: nat): (r: DragOutcome)
    requires i < |src.bookmarkIds| && j <= |dst.bookmarkIds|
    ensures r.TypeError? <==> !(AllKeys(src.bookmarkIds, bookmarks) && AllKeys(dst.bookmarkIds, bookmarks))
    ensures r.SetColumns? ==> (|r.columns| == |columns|
      && forall c :: 0 <= c < |columns| ==> r.columns[c].id == columns[c].id)
  {
    if !AllKeys(src.bookmarkIds, bookmarks) || !AllKeys(dst.bookmarkIds, bookmarks) then TypeError
    else
      var moved := MoveBookmarkBetweenColumns(
        Lookup(src.bookmarkIds, bookmarks), Lookup(dst.bookmarkIds, bookmarks), i, j);
      var sourceIds, destIds := IdsOf(moved.sourceBookmarks), IdsOf(moved.destinationBookmarks);
      SetColumns(MapColumns(columns, (col: Column) =>
        if col.id == src.id then col.(bookmarkIds := sourceIds)
        else if col.id == dst.id then col.(bookmarkIds := destIds)
        else col))
  }

  /** `handleDragEnd`: the outcome of one drop on the board. */
  function HandleDragEnd(result: DropResult, columns: seq<Column>, bookmarks: map<Id, Bookmark>): (r: DragOutcome)
    requires IndicesValid(result, columns)
    ensures result.destination.None? ==> r == NoUpdate
    ensures result.destination.Some? && result.dropType == "column" ==>
      r == SetColumns(ReorderColumns(columns, result.source.index, result.destination.value.index))
    ensures result.destination.Some? && result.dropType != "column"
      && !(HasColumn(columns, result.source.droppableId) && HasColumn(columns, result.destination.value.droppableId))
      ==> r == NoUpdate
    ensures result.destination.Some? && result.dropType != "column" && r.SetColumns? ==>
      |r.columns| == |columns| && forall c :: 0 <= c < |columns| ==> r.columns[c].id == columns[c].id
  {
    if result.destination.None? then NoUpdate
    else
      var source, destination := result.source, result.destination.value;
      if result.dropType == "column" then
        SetColumns(ReorderColumns(columns, source.index, destination.index))
      else
        var sourceColumn := FindColumn(columns, source.droppableId);
        var destColumn := FindColumn(columns, destination.droppableId);
        if sourceColumn.None? || destColumn.None? then NoUpdate
        else if source.droppableId == destination.droppableId then
          DropWithinColumn(columns, bookmarks, sourceColumn.value, source.index, destination.index)
        else
          DropAcrossColumns(columns, bookmarks, sourceColumn.value, destColumn.value, source.index, destination.index)
  }

  lemma ReorderSourceInjective(i: nat, j: nat, k1: nat, k2: nat)
    requires ReorderSource(i, j, k1) == ReorderSource(i, j, k2)
    ensures k1 == k2
  {
    ReorderSourceInverse(j, i, k1);
    ReorderSourceInverse(j, i, k2);
  }

  /** With distinct column ids, `find` returns the only column with that id. */
  lemma FindColumnUnique(columns: seq<Column>, id: Id)
    requires ColumnIdsDistinct(columns) && HasColumn(columns, id)
    ensures forall c :: 0 <= c < |columns| && columns[c].id == id ==> columns[c] == FindColumn(columns, id).value
  {
  }

  lemma IdsOfLookup(ids: seq<Id>, bookmarks: map<Id, Bookmark>)
    requires AllKeys(ids, bookmarks) && KeysMatch(Board([], bookmarks))
    ensures IdsOf(Lookup(ids, bookmarks)) == ids
  {
  }

  /** A drop within one column: only the column(s) carrying its id change,
      and only in the order of their bookmark ids, which move as
      `reorderBookmarksWithinColumn` moves the cards. */
  lemma {:induction false} SameColumnDrop(columns: seq<Column>, bookmarks: map<Id, Bookmark>, src: Column, i: nat, j: nat)
    requires i < |src.bookmarkIds| && j < |src.bookmarkIds|
    requires AllKeys(src.bookmarkIds, bookmarks) && KeysMatch(Board(columns, bookmarks))
    ensures var ids := src.bookmarkIds;
      var r := DropWithinColumn(columns, bookmarks, src, i, j);
      && r.SetColumns? && |r.columns| == |columns|
      && (forall c :: 0 <= c < |columns| && columns[c].id != src.id ==> r.columns[c] == columns[c])
      && (forall c :: 0 <= c < |columns| && columns[c].id == src.id ==>
            && r.columns[c] == columns[c].(bookmarkIds := r.columns[c].bookmarkIds)
            && |r.columns[c].bookmarkIds| == |ids|
            && r.columns[c].bookmarkIds[j] == ids[i]
            && (forall k :: 0 <= k < |ids| ==> r.columns[c].bookmarkIds[k] == ids[ReorderSource(i, j, k)])
            && multiset(r.columns[c].bookmarkIds) == multiset(ids))
  {
    WithinColumnIds(src.bookmarkIds, bookmarks, i, j);
  }

  /** The ids a within-column drop writes back are the source ids reordered,
      as one splice out and one splice in would leave them. */
  lemma WithinColumnIds(ids: seq<Id>, bookmarks: map<Id, Bookmark>, i: nat, j: nat)
    requires i < |ids| && j < |ids|
    requires AllKeys(ids, bookmarks) && KeysMatch(Board([], bookmarks))
    ensures var newIds := IdsOf(ReorderBookmarksWithinColumn(Lookup(ids, bookmarks), i, j));
      && |newIds| == |ids| && newIds[j] == ids[i]
      && (forall k :: 0 <= k < |ids| ==> newIds[k] == ids[ReorderSource(i, j, k)])
      && newIds == InsertAt(RemoveAt(ids, i), j, ids[i])
  {
    var newIds := IdsOf(ReorderBookmarksWithinColumn(Lookup(ids, bookmarks), i, j));
    IdsOfLookup(ids, bookmarks);
    assert forall k :: 0 <= k < |ids| ==> newIds[k] == ids[ReorderSource(i, j, k)];
    var spliced := InsertAt(RemoveAt(ids, i), j, ids[i]);
    assert forall k :: 0 <= k < |ids| ==> spliced[k] == ids[ReorderSource(i, j, k)];
    assert newIds == spliced;
  }

  /** A drop from one column into another: only the source and destination
      columns change; the source loses the card at the source index, the
      destination gains it at the destination index, and no id is gained or
      lost overall. */
  lemma {:induction false} CrossColumnDrop(columns: seq<Column>, bookmarks: map<Id, Bookmark>, src: Column, dst: Column, i: nat, j: nat)
    requires i < |src.bookmarkIds| && j <= |dst.bookmarkIds| && src.id != dst.id
    requires AllKeys(src.bookmarkIds, bookmarks) && AllKeys(dst.bookmarkIds, bookmarks)
    requires KeysMatch(Board(columns, bookmarks))
    ensures var s, d := src.bookmarkIds, dst.bookmarkIds;
      var r := DropAcrossColumns(columns, bookmarks, src, dst, i, j);
      && r.SetColumns? && |r.columns| == |columns|
      && (forall c :: 0 <= c < |columns| && columns[c].id != src.id && columns[c].id != dst.id ==> r.columns[c] == columns[c])
      && (forall c :: 0 <= c < |columns| && columns[c].id == src.id ==>
            r.columns[c] == columns[c].(bookmarkIds := RemoveAt(s, i)))
      && (forall c :: 0 <= c < |columns| && columns[c].id == dst.id ==>
            r.columns[c] == columns[c].(bookmarkIds := InsertAt(d, j, s[i])))
      && multiset(RemoveAt(s, i)) + multiset(InsertAt(d, j, s[i])) == multiset(s) + multiset(d)
      && (Distinct(s) ==> s[i] !in RemoveAt(s, i))
  {
    var s, d := src.bookmarkIds, dst.bookmarkIds;
    var moved := MoveBookmarkBetweenColumns(Lookup(s, bookmarks), Lookup(d, bookmarks), i, j);
    IdsOfLookup(s, bookmarks);
    IdsOfLookup(d, bookmarks);
    assert IdsOf(moved.sourceBookmarks) == RemoveAt(s, i);
    assert IdsOf(moved.destinationBookmarks) == InsertAt(d, j, s[i]);
  }

  lemma {:induction false} AllIdsRemoveAt(cols: seq<Column>, i: nat)
    requires i < |cols|
    ensures AllIds(RemoveAt(cols, i)) + multiset(cols[i].bookmarkIds) == AllIds(cols)
  {
    assert cols == cols[..i] + [cols[i]] + cols[i + 1..];
    AllIdsConcat(cols[..i] + [cols[i]], cols[i + 1..]);
    AllIdsConcat(cols[..i], [cols[i]]);
    AllIdsConcat(cols[..i], cols[i + 1..]);
    AllIdsSingle(cols[i]);
  }

  lemma {:induction false} AllIdsInsertAt(cols: seq<Column>, j: nat, c: Column)
    requires j <= |cols|
    ensures AllIds(InsertAt(cols, j, c)) == AllIds(cols) + multiset(c.bookmarkIds)
  {
    assert cols == cols[..j] + cols[j..];
    assert InsertAt(cols, j, c) == cols[..j] + [c] + cols[j..];
    AllIdsConcat(cols[..j] + [c], cols[j..]);
    AllIdsConcat(cols[..j], [c]);
    AllIdsConcat(cols[..j], cols[j..]);
    AllIdsSingle(c);
  }

  lemma {:induction false} ColumnDropPreserves(columns: seq<Column>, i: nat, j: nat)
    requires i < |columns| && j < |columns| && ColumnIdsDistinct(columns)
    ensures AllIds(ReorderColumns(columns, i, j)) == AllIds(columns)
    ensures ColumnIdsDistinct(ReorderColumns(columns, i, j))
  {
    var r := ReorderColumns(columns, i, j);
    AllIdsRemoveAt(columns, i);
    AllIdsInsertAt(RemoveAt(columns, i), j, columns[i]);
    forall a, b | 0 <= a < b < |r| ensures r[a].id != r[b].id {
      if ReorderSource(i, j, a) == ReorderSource(i, j, b) {
        ReorderSourceInjective(i, j, a, b);
      }
    }
  }

  lemma {:induction false} WithinColumnPreserves(columns: seq<Column>, bookmarks: map<Id, Bookmark>, p: nat, i: nat, j: nat)
    requires p < |columns| && i < |columns[p].bookmarkIds| && j < |columns[p].bookmarkIds|
    requires ColumnIdsDistinct(columns) && KeysMatch(Board(columns, bookmarks))
    requires DropWithinColumn(columns, bookmarks, columns[p], i, j).SetColumns?
    ensures AllIds(DropWithinColumn(columns, bookmarks, columns[p], i, j).columns) == AllIds(columns)
  {
    SameColumnDrop(columns, bookmarks, columns[p], i, j);
    AllIdsPointwise(columns, DropWithinColumn(columns, bookmarks, columns[p], i, j).columns);
  }

  lemma {:induction false} AcrossColumnsPreserves(columns: seq<Column>, bookmarks: map<Id, Bookmark>, p: nat, q: nat, i: nat, j: nat)
    requires p < |columns| && q < |columns| && p != q
    requires i < |columns[p].bookmarkIds| && j <= |columns[q].bookmarkIds|
    requires ColumnIdsDistinct(columns) && KeysMatch(Board(columns, bookmarks))
    requires DropAcrossColumns(columns, bookmarks, columns[p], columns[q], i, j).SetColumns?
    ensures AllIds(DropAcrossColumns(columns, bookmarks, columns[p], columns[q], i, j).columns) == AllIds(columns)
  {
    var r := DropAcrossColumns(columns, bookmarks, columns[p], columns[q], i, j);
    CrossColumnDrop(columns, bookmarks, columns[p], columns[q], i, j);
    var src, dst := columns[p].bookmarkIds, columns[q].bookmarkIds;
    var cp := columns[p].(bookmarkIds := RemoveAt(src, i));
    var cq := columns[q].(bookmarkIds := InsertAt(dst, j, src[i]));
    assert r.columns == columns[p := cp][q := cq];
    AllIdsUpdateTwo(columns, p, q, cp, cq);
  }

  /** A bookmark drop between two existing columns is one of the two
      branch functions, applied to the only columns with those ids. */
  lemma {:induction false} BookmarkDropCases(result: DropResult, columns: seq<Column>, bookmarks: map<Id, Bookmark>, p: nat, q: nat)
    requires IndicesValid(result, columns) && ColumnIdsDistinct(columns)
    requires result.destination.Some? && result.dropType != "column"
    requires p < |columns| && columns[p].id == result.source.droppableId
    requires q < |columns| && columns[q].id == result.destination.value.droppableId
    ensures var s, d := result.source, result.destination.value;
      && (s.droppableId == d.droppableId ==>
            s.index < |columns[p].bookmarkIds| && d.index < |columns[p].bookmarkIds|
            && HandleDragEnd(result, columns, bookmarks) == DropWithinColumn(columns, bookmarks, columns[p], s.index, d.index))
      && (s.droppableId != d.droppableId ==>
            p != q && s.index < |columns[p].bookmarkIds| && d.index <= |columns[q].bookmarkIds|
            && HandleDragEnd(result, columns, bookmarks) == DropAcrossColumns(columns, bookmarks, columns[p], columns[q], s.index, d.index))
  {
    var s, d := result.source, result.destination.value;
    FindColumnUnique(columns, s.droppableId);
    FindColumnUnique(columns, d.droppableId);
    assert FindColumn(columns, s.droppableId) == Some(columns[p]);
    assert FindColumn(columns, d.droppableId) == Some(columns[q]);
  }

  /** Every drop that updates the board keeps the board invariant and the
      distinctness of column ids. */
  lemma {:induction false} DragEndPreservesConsistency(result: DropResult, columns: seq<Column>, bookmarks: map<Id, Bookmark>)
    requires IndicesValid(result, columns)
    requires Consistent(Board(columns, bookmarks)) && KeysMatch(Board(columns, bookmarks))
    requires ColumnIdsDistinct(columns)
    ensures var r := HandleDragEnd(result, columns, bookmarks);
      r.SetColumns? ==> Consistent(Board(r.columns, bookmarks)) && ColumnIdsDistinct(r.columns)
  {
    var r := HandleDragEnd(result, columns, bookmarks);
    if r.SetColumns? {
      var s, d := result.source, result.destination.value;
      if result.dropType == "column" {
        ColumnDropPreserves(columns, s.index, d.index);
      } else {
        assert HasColumn(columns, s.droppableId) && HasColumn(columns, d.droppableId);
        var p :| 0 <= p < |columns| && columns[p].id == s.droppableId;
        var q :| 0 <= q < |columns| && columns[q].id == d.droppableId;
        BookmarkDropCases(result, columns, bookmarks, p, q);
        if s.droppableId == d.droppableId {
          WithinColumnPreserves(columns, bookmarks, p, s.index, d.index);
        } else {
          AcrossColumnsPreserves(columns, bookmarks, p, q, s.index, d.index);
        }
        SameIdsDistinct(columns, r.columns);
      }
    }
  }
}
