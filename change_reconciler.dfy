// The four bookmark-store listeners of the board (created, removed, changed,
// moved). Each applies one incremental patch to the columns and to the
// bookmark map; here each is a function from the board and the event to the
// new board. The colour a new bookmark or column gets is drawn at random in
// the application and is a parameter here.

module ChangeReconciler {
  import opened BoardModel

  /** The store's `onChanged` payload: the node's title and, for links, url. */
  datatype ChangeInfo = ChangeInfo(title: string, url: Option<string>)

  /** The store's `onMoved` payload. */
  datatype MoveInfo = MoveInfo(parentId: Id, index: nat, oldParentId: Id, oldIndex: nat)

  /** The store's `onRemoved` payload: the removed node, as it was. */
  datatype RemoveInfo = RemoveInfo(parentId: Id, index: nat, node: Node)

  /** `{ ...col, bookmarkIds: [...col.bookmarkIds, id] }` for the column(s)
      carrying `parentId`, every other column as it is. */
  function AppendTo(cols: seq<Column>, parentId: Id, id: Id): (r: seq<Column>)
    ensures |r| == |cols|
    ensures forall c :: 0 <= c < |cols| ==>
      && r[c].id == cols[c].id && r[c].title == cols[c].title && r[c].color == cols[c].color
      && r[c].bookmarkIds == (if cols[c].id == parentId then cols[c].bookmarkIds + [id] else cols[c].bookmarkIds)
  {
    MapColumns(cols, (col: Column) =>
      if col.id == parentId then col.(bookmarkIds := col.bookmarkIds + [id]) else col)
  }

  /** `handleBookmarkCreated`. A link is stored under the listener's `id` and
      appended to the column of its parent, when the node names a parent; a
      folder becomes a new empty column at the end of the board. */
  function HandleCreated(b: Board, id: Id, node: Node, color: Color): (r: Board)
    ensures HasUrl(node) ==>
      && r.bookmarks.Keys == b.bookmarks.Keys + {id}
      && r.bookmarks[id] == Bookmark(node.id, node.title, node.url.value, color)
      && (forall k :: k in b.bookmarks && k != id ==> r.bookmarks[k] == b.bookmarks[k])
      && r.columns == (if Truthy(node.parentId) then AppendTo(b.columns, node.parentId.value, id) else b.columns)
    ensures !HasUrl(node) ==>
      && r.bookmarks == b.bookmarks
      && |r.columns| == |b.columns| + 1
      && r.columns[..|b.columns|] == b.columns
      && r.columns[|b.columns|] == Column(node.id, node.title, color, [])
  {
    if HasUrl(node) then
      var newBookmark := Bookmark(node.id, node.title, node.url.value, color);
      var columns := if Truthy(node.parentId) then AppendTo(b.columns, node.parentId.value, id) else b.columns;
      Board(columns, b.bookmarks[id := newBookmark])
    else
      Board(b.columns + [Column(node.id, node.title, color, [])], b.bookmarks)
  }

  /** `handleBookmarkRemoved`. A removed link disappears from the map and from
      every column; a removed folder takes its column (and only that) away and
      leaves the map as it is. */
  function HandleRemoved(b: Board, id: Id, removeInfo: RemoveInfo): (r: Board)
    ensures HasUrl(removeInfo.node) ==>
      && r.bookmarks.Keys == b.bookmarks.Keys - {id}
      && (forall k :: k in r.bookmarks ==> r.bookmarks[k] == b.bookmarks[k])
      && |r.columns| == |b.columns|
      && forall c :: 0 <= c < |b.columns| ==>
        && r.columns[c] == b.columns[c].(bookmarkIds := r.columns[c].bookmarkIds)
        && r.columns[c].bookmarkIds == FilterOut(b.columns[c].bookmarkIds, id)
        && id !in r.columns[c].bookmarkIds
        && multiset(r.columns[c].bookmarkIds) == multiset(b.columns[c].bookmarkIds)[id := 0]
    ensures !HasUrl(removeInfo.node) ==>
      && r.bookmarks == b.bookmarks
      && r.columns == RemoveColumn(b.columns, id)
      && !HasColumn(r.columns, id)
      && forall c :: c in b.columns && c.id != id <==> c in r.columns
  {
    if HasUrl(removeInfo.node) then
      var columns := MapColumns(b.columns, (col: Column) => col.(bookmarkIds := FilterOut(col.bookmarkIds, id)));
      Board(columns, b.bookmarks - {id})
    else
      Board(RemoveColumn(b.columns, id), b.bookmarks)
  }

  /** `handleBookmarkChanged`. With a url, the stored bookmark of that id (if
      any) takes the new url, and the new title unless that is empty; without
      one, the column of that id takes the new title. */
  function HandleChanged(b: Board, id: Id, changeInfo: ChangeInfo): (r: Board)
    ensures Truthy(changeInfo.url) ==>
      && r.columns == b.columns
      && r.bookmarks.Keys == b.bookmarks.Keys
      && (forall k :: k in b.bookmarks && k != id ==> r.bookmarks[k] == b.bookmarks[k])
      && (id in b.bookmarks ==>
            var before, after := b.bookmarks[id], r.bookmarks[id];
            && after.id == before.id && after.color == before.color
            && after.url == changeInfo.url.value
            && after.title == (if changeInfo.title != "" then changeInfo.title else before.title))
    ensures !Truthy(changeInfo.url) ==>
      r.bookmarks == b.bookmarks && r.columns == RenameColumn(b.columns, id, changeInfo.title)
  {
    if Truthy(changeInfo.url) then
      if id !in b.bookmarks then b
      else
        var bookmark := b.bookmarks[id];
        var title := if changeInfo.title != "" then changeInfo.title else bookmark.title;
        Board(b.columns, b.bookmarks[id := bookmark.(title := title, url := changeInfo.url.value)])
    else
      Board(RenameColumn(b.columns, id, changeInfo.title), b.bookmarks)
  }

  /** `handleBookmarkMoved`. The column of the old parent loses `id`; failing
      that, the column of the new parent gains it at the end. The map is never
      touched. */
  function HandleMoved(b: Board, id: Id, moveInfo: MoveInfo): (r: Board)
    ensures r.bookmarks == b.bookmarks
    ensures |r.columns| == |b.columns|
    ensures forall c :: 0 <= c < |b.columns| ==>
      var col, col' := b.columns[c], r.columns[c];
      && col' == col.(bookmarkIds := col'.bookmarkIds)
      && (col.id == moveInfo.oldParentId ==>
            && col'.bookmarkIds == FilterOut(col.bookmarkIds, id)
            && id !in col'.bookmarkIds && multiset(col'.bookmarkIds) == multiset(col.bookmarkIds)[id := 0])
      && (col.id != moveInfo.oldParentId && col.id == moveInfo.parentId ==>
            col'.bookmarkIds == col.bookmarkIds + [id])
      && (col.id != moveInfo.oldParentId && col.id != moveInfo.parentId ==> col' == col)
  {
    var columns := MapColumns(b.columns, (col: Column) =>
      if col.id == moveInfo.oldParentId then col.(bookmarkIds := FilterOut(col.bookmarkIds, id))
      else if col.id == moveInfo.parentId then col.(bookmarkIds := col.bookmarkIds + [id])
      else col);
    Board(columns, b.bookmarks)
  }

  // ---------------------------------------------------------------------
  // Which listeners keep the board invariant

  /** With the invariant, a key that is not yet in the map is listed nowhere. */
  lemma FreshIdUnlisted(b: Board, id: Id)
    requires Consistent(b) && id !in b.bookmarks
    ensures id !in AllIds(b.columns)
  {
  }

  /** With distinct column ids, appending to the parent's column rewrites
      that one column. */
  lemma {:induction false} AppendToOne(cols: seq<Column>, p: nat, id: Id)
    requires ColumnIdsDistinct(cols) && p < |cols|
    ensures AppendTo(cols, cols[p].id, id) == cols[p := cols[p].(bookmarkIds := cols[p].bookmarkIds + [id])]
  {
  }

  /** A new link whose parent is one of the columns keeps the board
      consistent, given a fresh id that the node itself carries. */
  lemma {:induction false} CreatedBookmarkPreservesConsistency(b: Board, id: Id, node: Node, color: Color)
    requires Consistent(b) && KeysMatch(b) && ColumnIdsDistinct(b.columns)
    requires HasUrl(node) && node.id == id && id !in b.bookmarks
    requires Truthy(node.parentId) && HasColumn(b.columns, node.parentId.value)
    ensures var r := HandleCreated(b, id, node, color);
      Consistent(r) && KeysMatch(r) && ColumnIdsDistinct(r.columns)
  {
    var r := HandleCreated(b, id, node, color);
    var p :| 0 <= p < |b.columns| && b.columns[p].id == node.parentId.value;
    AppendToOne(b.columns, p, id);
    AllIdsAppendOne(b.columns, p, id);
    var entry := Bookmark(node.id, node.title, node.url.value, color);
    KeysAdd(b.bookmarks, id, entry);
    assert r.bookmarks == b.bookmarks[id := entry];
    SameIdsDistinct(b.columns, r.columns);
  }

  /** A new folder keeps the board consistent, and keeps column ids distinct
      when no column has its id yet. */
  lemma {:induction false} CreatedFolderPreservesConsistency(b: Board, id: Id, node: Node, color: Color)
    requires Consistent(b) && KeysMatch(b) && !HasUrl(node)
    ensures var r := HandleCreated(b, id, node, color);
      && Consistent(r) && KeysMatch(r)
      && (ColumnIdsDistinct(b.columns) && !HasColumn(b.columns, node.id) ==> ColumnIdsDistinct(r.columns))
  {
    var r := HandleCreated(b, id, node, color);
    assert r.columns == b.columns + [Column(node.id, node.title, color, [])];
    AllIdsConcat(b.columns, [Column(node.id, node.title, color, [])]);
    AllIdsSingle(Column(node.id, node.title, color, []));
  }

  /** A new link whose parent is missing or is not one of the columns is
      stored in the map but listed by no column: the invariant breaks. */
  lemma {:induction false} CreatedUnderUnknownParentOrphans(b: Board, id: Id, node: Node, color: Color)
    requires Consistent(b) && HasUrl(node) && id !in b.bookmarks
    requires !Truthy(node.parentId) || !HasColumn(b.columns, node.parentId.value)
    ensures var r := HandleCreated(b, id, node, color);
      && id in r.bookmarks && id !in AllIds(r.columns)
      && !Consistent(r)
  {
    var r := HandleCreated(b, id, node, color);
    FreshIdUnlisted(b, id);
    if Truthy(node.parentId) {
      forall c | 0 <= c < |b.columns| ensures r.columns[c] == b.columns[c] {
      }
    }
    assert r.columns == b.columns;
    assert id in multiset(r.bookmarks.Keys);
  }

  /** Removing a link always keeps the board consistent, and the removed id
      is neither a key nor listed afterwards. */
  lemma {:induction false} RemovedBookmarkPreservesConsistency(b: Board, id: Id, removeInfo: RemoveInfo)
    requires Consistent(b) && KeysMatch(b) && HasUrl(removeInfo.node)
    ensures var r := HandleRemoved(b, id, removeInfo);
      && Consistent(r) && KeysMatch(r) && ColumnIdsDistinct(r.columns) == ColumnIdsDistinct(b.columns)
      && id !in r.bookmarks && id !in AllIds(r.columns)
  {
    var r := HandleRemoved(b, id, removeInfo);
    AllIdsStrip(b.columns, r.columns, id);
    KeysRemove(b.bookmarks, id);
    assert r.bookmarks == b.bookmarks - {id};
  }

  /** Removing a folder keeps the board consistent exactly when every column
      carrying its id was empty. */
  lemma {:induction false} RemovedFolderConsistentIff(b: Board, id: Id, removeInfo: RemoveInfo)
    requires Consistent(b) && !HasUrl(removeInfo.node)
    ensures var r := HandleRemoved(b, id, removeInfo);
      Consistent(r) <==> forall c :: 0 <= c < |b.columns| && b.columns[c].id == id ==> b.columns[c].bookmarkIds == []
  {
    var r := HandleRemoved(b, id, removeInfo);
    AllIdsRemoveColumn(b.columns, id);
    HeldByEmpty(b.columns, id);
    var held := HeldBy(b.columns, id);
    if held != multiset{} {
      var x :| x in held;
      assert AllIds(r.columns)[x] < AllIds(b.columns)[x];
    }
  }

  /** Removing a folder that held links leaves each of them in the map but in
      no column. */
  lemma {:induction false} RemovedFolderOrphans(b: Board, id: Id, removeInfo: RemoveInfo, p: nat, k: Id)
    requires Consistent(b) && !HasUrl(removeInfo.node)
    requires p < |b.columns| && b.columns[p].id == id && k in b.columns[p].bookmarkIds
    ensures var r := HandleRemoved(b, id, removeInfo);
      k in r.bookmarks && k !in AllIds(r.columns)
  {
    var r := HandleRemoved(b, id, removeInfo);
    AllIdsRemoveColumn(b.columns, id);
    HeldByCovers(b.columns, id, p);
    assert k in multiset(b.columns[p].bookmarkIds);
    assert AllIds(b.columns)[k] == 1;
  }

  lemma {:induction false} HeldByCovers(cols: seq<Column>, id: Id, p: nat)
    requires p < |cols| && cols[p].id == id
    ensures multiset(cols[p].bookmarkIds) <= HeldBy(cols, id)
  {
    if p > 0 {
      HeldByCovers(cols[1..], id, p - 1);
    }
  }

  /** A change event never breaks the invariant. */
  lemma {:induction false} ChangedPreservesConsistency(b: Board, id: Id, changeInfo: ChangeInfo)
    requires Consistent(b) && KeysMatch(b)
    ensures var r := HandleChanged(b, id, changeInfo);
      && Consistent(r) && KeysMatch(r)
      && (ColumnIdsDistinct(r.columns) <==> ColumnIdsDistinct(b.columns))
  {
    var r := HandleChanged(b, id, changeInfo);
    AllIdsPointwise(b.columns, r.columns);
  }

  /** With distinct column ids, a move between two different columns
      rewrites exactly those two columns. */
  lemma {:induction false} MovedColumns(b: Board, id: Id, moveInfo: MoveInfo, p: nat, q: nat)
    requires ColumnIdsDistinct(b.columns) && moveInfo.oldParentId != moveInfo.parentId
    requires p < |b.columns| && b.columns[p].id == moveInfo.oldParentId
    requires q < |b.columns| && b.columns[q].id == moveInfo.parentId
    ensures var cp := b.columns[p].(bookmarkIds := FilterOut(b.columns[p].bookmarkIds, id));
      var cq := b.columns[q].(bookmarkIds := b.columns[q].bookmarkIds + [id]);
      HandleMoved(b, id, moveInfo).columns == b.columns[p := cp][q := cq]
  {
  }

  /** Moving an id listed once from one list to the end of another keeps
      the two lists' ids together. */
  lemma MoveIdMultiset(src: seq<Id>, dst: seq<Id>, id: Id)
    requires multiset(src)[id] == 1
    ensures multiset(FilterOut(src, id)) + multiset(dst + [id]) == multiset(src) + multiset(dst)
  {
    FilterOutOnce(src, id);
    assert multiset(dst + [id]) == multiset(dst) + multiset{id};
  }

  /** Moving a link between two different columns keeps the board consistent. */
  lemma {:induction false} MovedPreservesConsistency(b: Board, id: Id, moveInfo: MoveInfo)
    requires Consistent(b) && ColumnIdsDistinct(b.columns)
    requires moveInfo.oldParentId != moveInfo.parentId
    requires exists p :: 0 <= p < |b.columns| && b.columns[p].id == moveInfo.oldParentId && id in b.columns[p].bookmarkIds
    requires HasColumn(b.columns, moveInfo.parentId)
    ensures var r := HandleMoved(b, id, moveInfo);
      Consistent(r) && ColumnIdsDistinct(r.columns)
  {
    var p :| 0 <= p < |b.columns| && b.columns[p].id == moveInfo.oldParentId && id in b.columns[p].bookmarkIds;
    var q :| 0 <= q < |b.columns| && b.columns[q].id == moveInfo.parentId;
    MovedColumns(b, id, moveInfo, p, q);
    MoveKeepsInvariant(b, id, p, q);
  }

  /** Taking a listed id out of column `p` and appending it to another
      column `q` keeps the invariant and the column ids. */
  lemma MoveKeepsInvariant(b: Board, id: Id, p: nat, q: nat)
    requires Consistent(b) && ColumnIdsDistinct(b.columns)
    requires p < |b.columns| && q < |b.columns| && p != q && id in b.columns[p].bookmarkIds
    ensures var cp := b.columns[p].(bookmarkIds := FilterOut(b.columns[p].bookmarkIds, id));
      var cq := b.columns[q].(bookmarkIds := b.columns[q].bookmarkIds + [id]);
      var cols := b.columns[p := cp][q := cq];
      Consistent(Board(cols, b.bookmarks)) && ColumnIdsDistinct(cols)
  {
    var src, dst := b.columns[p].bookmarkIds, b.columns[q].bookmarkIds;
    var cp := b.columns[p].(bookmarkIds := FilterOut(src, id));
    var cq := b.columns[q].(bookmarkIds := dst + [id]);
    ListedOnce(b, p, id);
    MoveIdMultiset(src, dst, id);
    AllIdsUpdateTwo(b.columns, p, q, cp, cq);
    SameIdsDistinct(b.columns, b.columns[p := cp][q := cq]);
  }

  /** A move whose old and new parent are the same column takes the id out of
      that column and puts it nowhere: the link stays in the map, unlisted. */
  lemma {:induction false} MovedWithinSameParentDrops(b: Board, id: Id, moveInfo: MoveInfo, p: nat)
    requires Consistent(b)
    requires moveInfo.oldParentId == moveInfo.parentId
    requires p < |b.columns| && b.columns[p].id == moveInfo.parentId && id in b.columns[p].bookmarkIds
    ensures var r := HandleMoved(b, id, moveInfo);
      id in r.bookmarks && id !in AllIds(r.columns) && !Consistent(r)
  {
    MovedOutOfColumn(b, id, moveInfo, p);
  }

  /** A move out of a column to a parent that is not a column takes the link
      off the board while it stays in the map. */
  lemma {:induction false} MovedOutOfScopeOrphans(b: Board, id: Id, moveInfo: MoveInfo, p: nat)
    requires Consistent(b)
    requires !HasColumn(b.columns, moveInfo.parentId)
    requires p < |b.columns| && b.columns[p].id == moveInfo.oldParentId && id in b.columns[p].bookmarkIds
    ensures var r := HandleMoved(b, id, moveInfo);
      id in r.bookmarks && id !in AllIds(r.columns) && !Consistent(r)
  {
    MovedOutOfColumn(b, id, moveInfo, p);
  }

  /** Shared step: when no column gains the id, a consistent board loses it
      from every column. */
  lemma {:induction false} MovedOutOfColumn(b: Board, id: Id, moveInfo: MoveInfo, p: nat)
    requires Consistent(b)
    requires moveInfo.oldParentId == moveInfo.parentId || !HasColumn(b.columns, moveInfo.parentId)
    requires p < |b.columns| && b.columns[p].id == moveInfo.oldParentId && id in b.columns[p].bookmarkIds
    ensures var r := HandleMoved(b, id, moveInfo);
      id in r.bookmarks && id !in AllIds(r.columns) && !Consistent(r)
  {
    var r := HandleMoved(b, id, moveInfo);
    OnlyColumnWith(b, p, id);
    AllIdsStrip(b.columns, r.columns, id);
    assert id in multiset(r.bookmarks.Keys);
  }
}
