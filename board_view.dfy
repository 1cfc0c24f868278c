// What a column shows under the current search, and the three column
// controls of the board (delete, rename, recolour), which rewrite the
// columns the board was rendered with.

module BoardView {
  import opened BoardModel
  import opened Text
  import opened ChangeReconciler
  import DragDrop

  /** `handleSearch`: the query is kept lower-cased. */
  function HandleSearch(query: string): (r: string)
    ensures |r| == |query|
    ensures forall k :: 0 <= k < |r| ==> !('A' <= r[k] <= 'Z')
    ensures forall k :: 0 <= k < |r| ==> LowerChar(r[k]) == LowerChar(query[k])
  {
    Lower(query)
  }

  /** The search filter for one bookmark: an empty query keeps everything;
      otherwise the lower-cased title or url must contain the query. */
  predicate Matches(b: Bookmark, searchQuery: string): (r: bool)
    ensures searchQuery == [] ==> r
    ensures r <==> (searchQuery == []
      || (exists i :: OccursAt(Lower(b.title), searchQuery, i))
      || (exists i :: OccursAt(Lower(b.url), searchQuery, i)))
  {
    searchQuery == [] || Contains(Lower(b.title), searchQuery) || Contains(Lower(b.url), searchQuery)
  }

  /** `column.bookmarkIds.map(id => bookmarks[id]).filter(Boolean).filter(...)`:
      the bookmarks a column shows, in the column's order. */
  function VisibleBookmarks(ids: seq<Id>, bookmarks: map<Id, Bookmark>, searchQuery: string): (r: seq<Bookmark>)
    ensures |r| <= |ids|
    ensures forall b :: b in r <==>
      exists k :: 0 <= k < |ids| && ids[k] in bookmarks && bookmarks[ids[k]] == b && Matches(b, searchQuery)
  {
    if ids == [] then []
    else
      var rest := VisibleBookmarks(ids[1..], bookmarks, searchQuery);
      assert forall k :: 1 <= k < |ids| ==> ids[k] == ids[1..][k - 1];
      assert forall k :: 0 <= k < |ids| - 1 ==> ids[1..][k] == ids[k + 1];
      if ids[0] in bookmarks && Matches(bookmarks[ids[0]], searchQuery) then [bookmarks[ids[0]]] + rest
      else rest
  }

  /** The view keeps the column's order: it distributes over concatenation. */
  lemma {:induction false} VisibleConcat(a: seq<Id>, b: seq<Id>, bookmarks: map<Id, Bookmark>, searchQuery: string)
    ensures VisibleBookmarks(a + b, bookmarks, searchQuery)
      == VisibleBookmarks(a, bookmarks, searchQuery) + VisibleBookmarks(b, bookmarks, searchQuery)
  {
    if a == [] {
      assert a + b == b;
    } else {
      assert (a + b)[1..] == a[1..] + b;
      VisibleConcat(a[1..], b, bookmarks, searchQuery);
    }
  }

  /** With an empty query a column shows each of its ids that is a key, in
      order; when all are keys, exactly its bookmarks. */
  lemma {:induction false} EmptyQueryShowsAll(ids: seq<Id>, bookmarks: map<Id, Bookmark>)
    requires forall k :: 0 <= k < |ids| ==> ids[k] in bookmarks
    ensures var r := VisibleBookmarks(ids, bookmarks, HandleSearch(""));
      |r| == |ids| && forall k :: 0 <= k < |ids| ==> r[k] == bookmarks[ids[k]]
  {
    if ids != [] {
      EmptyQueryShowsAll(ids[1..], bookmarks);
    }
  }

  /** The drag library numbers the cards a column shows. With an empty query
      and every id a key, the card shown at the source index is the one whose
      id a same-column drop puts at the destination index. */
  lemma DraggedCardMovesWithinColumn(columns: seq<Column>, bookmarks: map<Id, Bookmark>, src: Column, i: nat, j: nat)
    requires i < |src.bookmarkIds| && j < |src.bookmarkIds|
    requires DragDrop.AllKeys(src.bookmarkIds, bookmarks) && KeysMatch(Board(columns, bookmarks))
    ensures var view := VisibleBookmarks(src.bookmarkIds, bookmarks, HandleSearch(""));
      var r := DragDrop.DropWithinColumn(columns, bookmarks, src, i, j);
      && i < |view| && r.SetColumns?
      && forall c :: 0 <= c < |columns| && columns[c].id == src.id ==> r.columns[c].bookmarkIds[j] == view[i].id
  {
    EmptyQueryShowsAll(src.bookmarkIds, bookmarks);
    DragDrop.SameColumnDrop(columns, bookmarks, src, i, j);
  }

  /** Likewise for a drop into another column: with an empty query and every
      id a key, the card shown at the source index is the one that leaves the
      source and lands at the destination index. */
  lemma DraggedCardMovesAcrossColumns(columns: seq<Column>, bookmarks: map<Id, Bookmark>, src: Column, dst: Column, i: nat, j: nat)
    requires i < |src.bookmarkIds| && j <= |dst.bookmarkIds| && src.id != dst.id
    requires DragDrop.AllKeys(src.bookmarkIds, bookmarks) && DragDrop.AllKeys(dst.bookmarkIds, bookmarks)
    requires KeysMatch(Board(columns, bookmarks))
    ensures var view := VisibleBookmarks(src.bookmarkIds, bookmarks, HandleSearch(""));
      var r := DragDrop.DropAcrossColumns(columns, bookmarks, src, dst, i, j);
      && i < |view| && r.SetColumns?
      && (forall c :: 0 <= c < |columns| && columns[c].id == dst.id ==> r.columns[c].bookmarkIds[j] == view[i].id)
      && (forall c :: 0 <= c < |columns| && columns[c].id == src.id ==>
            r.columns[c].bookmarkIds == DragDrop.RemoveAt(src.bookmarkIds, i))
  {
    EmptyQueryShowsAll(src.bookmarkIds, bookmarks);
    DragDrop.CrossColumnDrop(columns, bookmarks, src, dst, i, j);
  }

  /** Typing the query in upper or lower case makes no difference. */
  lemma SearchIgnoresCase(ids: seq<Id>, bookmarks: map<Id, Bookmark>, query: string)
    ensures VisibleBookmarks(ids, bookmarks, HandleSearch(query))
      == VisibleBookmarks(ids, bookmarks, HandleSearch(Lower(query)))
  {
    LowerIdempotent(query);
  }

  /** `onColorChange`: the column of that id takes the new colour. */
  function RecolorColumn(cols: seq<Column>, id: Id, color: Color): (r: seq<Column>)
    ensures |r| == |cols|
    ensures forall c :: 0 <= c < |cols| ==>
      && r[c].id == cols[c].id && r[c].title == cols[c].title
      && r[c].bookmarkIds == cols[c].bookmarkIds
      && r[c].color == (if cols[c].id == id then color else cols[c].color)
  {
    MapColumns(cols, (col: Column) => if col.id == id then col.(color := color) else col)
  }

  /** Renaming and recolouring touch no column's ids: the board invariant
      and distinct column ids are kept. */
  lemma {:induction false} ColumnControlsKeepIds(b: Board, id: Id, title: string, color: Color)
    ensures Consistent(Board(RenameColumn(b.columns, id, title), b.bookmarks)) <==> Consistent(b)
    ensures Consistent(Board(RecolorColumn(b.columns, id, color), b.bookmarks)) <==> Consistent(b)
    ensures ColumnIdsDistinct(RenameColumn(b.columns, id, title)) <==> ColumnIdsDistinct(b.columns)
    ensures ColumnIdsDistinct(RecolorColumn(b.columns, id, color)) <==> ColumnIdsDistinct(b.columns)
  {
    AllIdsPointwise(b.columns, RenameColumn(b.columns, id, title));
    AllIdsPointwise(b.columns, RecolorColumn(b.columns, id, color));
  }

  /** Renaming a column, and then receiving the store's change event for the
      same title, leaves the board as the rename made it. */
  lemma {:induction false} RenameThenChangedEvent(b: Board, id: Id, title: string)
    ensures var renamed := Board(RenameColumn(b.columns, id, title), b.bookmarks);
      HandleChanged(renamed, id, ChangeInfo(title, None)) == renamed
  {
    var renamed := RenameColumn(b.columns, id, title);
    var again := RenameColumn(renamed, id, title);
    assert again == renamed;
  }

  /** Deleting a column, and then receiving the store's removal event for
      that folder, leaves the board as the delete made it. */
  lemma {:induction false} DeleteThenRemovedEvent(b: Board, id: Id, removeInfo: RemoveInfo)
    requires !HasUrl(removeInfo.node)
    ensures var deleted := Board(RemoveColumn(b.columns, id), b.bookmarks);
      HandleRemoved(deleted, id, removeInfo) == deleted
  {
    RemoveColumnAbsent(RemoveColumn(b.columns, id), id);
  }
}
