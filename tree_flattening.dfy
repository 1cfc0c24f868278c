// `processBookmarkTree`: the initial load of the board from the bookmark
// bar. Every child of the bar that is a folder (no url, a children array)
// becomes one column, in child order; the folder's links (children with a
// url) become that column's bookmark ids and entries of the bookmark map.
// Links directly under the bar and folders nested deeper are not shown.
// The random colour drawn for each bookmark and column is a function of
// the id it is drawn for, passed in.

module TreeFlattening {
  import opened BoardModel

  /** `!node.url && node.children`: the node becomes a column. */
  predicate IsFolder(n: Node) {
    !HasUrl(n) && n.children.Some?
  }

  function Kids(n: Node): seq<Node> {
    if n.children.Some? then n.children.value else []
  }

  function LinkOf(n: Node, colorOf: Id -> Color): Bookmark
    requires HasUrl(n)
  {
    Bookmark(n.id, n.title, n.url.value, colorOf(n.id))
  }

  /** The ids of the links among `kids`, in order. */
  function LinkIds(kids: seq<Node>): (r: seq<Id>)
    ensures |r| <= |kids|
    ensures forall x :: x in r <==> exists k :: 0 <= k < |kids| && HasUrl(kids[k]) && kids[k].id == x
  {
    if kids == [] then []
    else
      var last := kids[|kids| - 1];
      var pre := LinkIds(kids[..|kids| - 1]);
      assert forall k :: 0 <= k < |kids| - 1 ==> kids[..|kids| - 1][k] == kids[k];
      pre + (if HasUrl(last) then [last.id] else [])
  }

  /** `m` after storing each link of `kids` under its id, in order. */
  function AddLinks(m: map<Id, Bookmark>, kids: seq<Node>, colorOf: Id -> Color): map<Id, Bookmark> {
    if kids == [] then m
    else
      var last := kids[|kids| - 1];
      var m' := AddLinks(m, kids[..|kids| - 1], colorOf);
      if HasUrl(last) then m'[last.id := LinkOf(last, colorOf)] else m'
  }

  /** The columns the children of the bar give, in order. */
  function FolderColumns(children: seq<Node>, colorOf: Id -> Color): seq<Column> {
    if children == [] then []
    else
      var last := children[|children| - 1];
      var pre := FolderColumns(children[..|children| - 1], colorOf);
      if IsFolder(last) then pre + [Column(last.id, last.title, colorOf(last.id), LinkIds(Kids(last)))] else pre
  }

  /** The bookmark map the children of the bar give. */
  function TreeMap(children: seq<Node>, colorOf: Id -> Color): map<Id, Bookmark> {
    if children == [] then map[]
    else
      var last := children[|children| - 1];
      var pre := TreeMap(children[..|children| - 1], colorOf);
      if IsFolder(last) then AddLinks(pre, Kids(last), colorOf) else pre
  }

  /** The folders among `children`, in order. */
  function Folders(children: seq<Node>): (r: seq<Node>)
    ensures forall n :: n in r <==> n in children && IsFolder(n)
  {
    if children == [] then []
    else
      var last := children[|children| - 1];
      var pre := Folders(children[..|children| - 1]);
      assert children == children[..|children| - 1] + [last];
      if IsFolder(last) then pre + [last] else pre
  }

  /** The link ids come in child order: they distribute over concatenation. */
  lemma {:induction false} LinkIdsConcat(a: seq<Node>, b: seq<Node>)
    ensures LinkIds(a + b) == LinkIds(a) + LinkIds(b)
  {
    if b == [] {
      assert a + b == a;
    } else {
      var ab := a + b;
      assert ab[..|ab| - 1] == a + b[..|b| - 1];
      assert ab[|ab| - 1] == b[|b| - 1];
      LinkIdsConcat(a, b[..|b| - 1]);
    }
  }

  /** The folders come in child order: they distribute over concatenation. */
  lemma {:induction false} FoldersConcat(a: seq<Node>, b: seq<Node>)
    ensures Folders(a + b) == Folders(a) + Folders(b)
  {
    if b == [] {
      assert a + b == a;
    } else {
      var ab := a + b;
      assert ab[..|ab| - 1] == a + b[..|b| - 1];
      assert ab[|ab| - 1] == b[|b| - 1];
      FoldersConcat(a, b[..|b| - 1]);
    }
  }

  /** `processBookmarkTree(node)`: fills a fresh map and a fresh column list
      while walking the children of `node` and, for each folder, its
      children. */
  method ProcessBookmarkTree(node: Node, colorOf: Id -> Color) returns (columns: seq<Column>, bookmarks: map<Id, Bookmark>)
    ensures columns == FolderColumns(Kids(node), colorOf)
    ensures bookmarks == TreeMap(Kids(node), colorOf)
  {
    var newBookmarks: map<Id, Bookmark> := map[];
    var newColumns: seq<Column> := [];
    var children := Kids(node);
    var i := 0;
    while i < |children|
      invariant 0 <= i <= |children|
      invariant newColumns == FolderColumns(children[..i], colorOf)
      invariant newBookmarks == TreeMap(children[..i], colorOf)
    {
      var child := children[i];
      assert children[..i + 1][..i] == children[..i];
      if !HasUrl(child) && child.children.Some? {
        var kids := child.children.value;
        var bookmarkIds: seq<Id> := [];
        var j := 0;
        while j < |kids|
          invariant 0 <= j <= |kids|
          invariant bookmarkIds == LinkIds(kids[..j])
          invariant newBookmarks == AddLinks(TreeMap(children[..i], colorOf), kids[..j], colorOf)
        {
          var grandchild := kids[j];
          assert kids[..j + 1][..j] == kids[..j];
          if HasUrl(grandchild) {
            var bookmark := Bookmark(grandchild.id, grandchild.title, grandchild.url.value, colorOf(grandchild.id));
            newBookmarks := newBookmarks[grandchild.id := bookmark];
            bookmarkIds := bookmarkIds + [grandchild.id];
          }
          j := j + 1;
        }
        assert kids[..j] == kids;
        newColumns := newColumns + [Column(child.id, child.title, colorOf(child.id), bookmarkIds)];
      }
      i := i + 1;
    }
    assert children[..i] == children;
    columns, bookmarks := newColumns, newBookmarks;
  }

  // ---------------------------------------------------------------------
  // What the flattened board is

  /** One column per folder child, in child order, carrying the folder's id,
      title and the ids of its links in order. */
  lemma {:induction false} ColumnsAreFolders(children: seq<Node>, colorOf: Id -> Color)
    ensures var cols, folders := FolderColumns(children, colorOf), Folders(children);
      && |cols| == |folders|
      && forall k :: 0 <= k < |cols| ==>
        && cols[k].id == folders[k].id && cols[k].title == folders[k].title
        && cols[k].bookmarkIds == LinkIds(Kids(folders[k]))
  {
    if children != [] {
      ColumnsAreFolders(children[..|children| - 1], colorOf);
    }
  }

  /** Links directly under the bar, and the folders inside the folders, have
      no part in the board: a bar holding no folder gives an empty board. */
  lemma {:induction false} NoFolderEmptyBoard(children: seq<Node>, colorOf: Id -> Color)
    requires forall k :: 0 <= k < |children| ==> !IsFolder(children[k])
    ensures FolderColumns(children, colorOf) == [] && TreeMap(children, colorOf) == map[]
  {
    if children != [] {
      NoFolderEmptyBoard(children[..|children| - 1], colorOf);
    }
  }

  /** Storing links adds exactly their ids as keys, each under its own id. */
  lemma {:induction false} AddLinksKeys(m: map<Id, Bookmark>, kids: seq<Node>, colorOf: Id -> Color)
    ensures forall x :: x in AddLinks(m, kids, colorOf) <==> x in m || x in LinkIds(kids)
    ensures KeysMatch(Board([], m)) ==> KeysMatch(Board([], AddLinks(m, kids, colorOf)))
  {
    if kids != [] {
      AddLinksKeys(m, kids[..|kids| - 1], colorOf);
    }
  }

  /** The keys of the map are exactly the ids the columns list, and each
      entry is stored under its own id. */
  lemma {:induction false} KeysAreListedIds(children: seq<Node>, colorOf: Id -> Color)
    ensures var cols, m := FolderColumns(children, colorOf), TreeMap(children, colorOf);
      && (forall x :: x in m <==> x in AllIds(cols))
      && KeysMatch(Board(cols, m))
  {
    if children != [] {
      var pre := children[..|children| - 1];
      var last := children[|children| - 1];
      KeysAreListedIds(pre, colorOf);
      if IsFolder(last) {
        var col := Column(last.id, last.title, colorOf(last.id), LinkIds(Kids(last)));
        AddLinksKeys(TreeMap(pre, colorOf), Kids(last), colorOf);
        AllIdsConcat(FolderColumns(pre, colorOf), [col]);
        AllIdsSingle(col);
      }
    }
  }

  /** The flattened board satisfies the board invariant exactly when no link
      id is listed twice, by one folder or by two. */
  lemma {:induction false} FlattenedConsistentIff(children: seq<Node>, colorOf: Id -> Color)
    ensures Consistent(Board(FolderColumns(children, colorOf), TreeMap(children, colorOf)))
      <==> forall x :: AllIds(FolderColumns(children, colorOf))[x] <= 1
  {
    var cols, m := FolderColumns(children, colorOf), TreeMap(children, colorOf);
    KeysAreListedIds(children, colorOf);
    var a, k := AllIds(cols), multiset(m.Keys);
    assert forall x :: k[x] == (if x in a then 1 else 0);
    if forall x :: a[x] <= 1 {
      forall x ensures a[x] == k[x] {
      }
      assert a == k;
      assert Consistent(Board(cols, m));
    } else {
      var x :| a[x] > 1;
      assert k[x] == 1;
      assert a != k;
      assert !Consistent(Board(cols, m));
      assert AllIds(FolderColumns(children, colorOf))[x] > 1;
    }
  }

  /** Storing the links of `kids` whose ids do not repeat: each link's entry
      is its own record, and any other key keeps its entry. */
  lemma AddLinksValues(m: map<Id, Bookmark>, kids: seq<Node>, colorOf: Id -> Color)
    requires forall x :: multiset(LinkIds(kids))[x] <= 1
    ensures forall l :: l in kids && HasUrl(l) ==>
      l.id in AddLinks(m, kids, colorOf) && AddLinks(m, kids, colorOf)[l.id] == LinkOf(l, colorOf)
    ensures forall x :: x in m && x !in LinkIds(kids) ==>
      x in AddLinks(m, kids, colorOf) && AddLinks(m, kids, colorOf)[x] == m[x]
  {
    forall l | l in kids && HasUrl(l)
      ensures l.id in AddLinks(m, kids, colorOf) && AddLinks(m, kids, colorOf)[l.id] == LinkOf(l, colorOf)
    {
      AddLinksValue(m, kids, colorOf, l);
    }
    forall x | x in m && x !in LinkIds(kids)
      ensures x in AddLinks(m, kids, colorOf) && AddLinks(m, kids, colorOf)[x] == m[x]
    {
      AddLinksOther(m, kids, colorOf, x);
    }
  }

  lemma {:induction false} AddLinksValue(m: map<Id, Bookmark>, kids: seq<Node>, colorOf: Id -> Color, l: Node)
    requires forall x :: multiset(LinkIds(kids))[x] <= 1
    requires l in kids && HasUrl(l)
    ensures l.id in AddLinks(m, kids, colorOf) && AddLinks(m, kids, colorOf)[l.id] == LinkOf(l, colorOf)
  {
    var pre, last := kids[..|kids| - 1], kids[|kids| - 1];
    assert kids == pre + [last];
    if l != last {
      assert l in pre;
      var tail := if HasUrl(last) then [last.id] else [];
      assert LinkIds(kids) == LinkIds(pre) + tail;
      forall x ensures multiset(LinkIds(pre))[x] <= 1 {
        assert multiset(LinkIds(kids))[x] == multiset(LinkIds(pre))[x] + multiset(tail)[x];
      }
      AddLinksValue(m, pre, colorOf, l);
      assert l.id in LinkIds(pre);
      assert multiset(LinkIds(kids))[l.id] == multiset(LinkIds(pre))[l.id] + multiset(tail)[l.id];
    }
  }

  lemma {:induction false} AddLinksOther(m: map<Id, Bookmark>, kids: seq<Node>, colorOf: Id -> Color, x: Id)
    requires x in m && x !in LinkIds(kids)
    ensures x in AddLinks(m, kids, colorOf) && AddLinks(m, kids, colorOf)[x] == m[x]
  {
    if kids != [] {
      var pre := kids[..|kids| - 1];
      AddLinksOther(m, pre, colorOf, x);
    }
  }

  /** When no link id repeats, the map holds every link of every folder
      child under its id, with that link's id, title, url and colour. */
  lemma TreeMapStoresLinks(children: seq<Node>, colorOf: Id -> Color)
    requires forall x :: AllIds(FolderColumns(children, colorOf))[x] <= 1
    ensures forall f, l :: f in children && IsFolder(f) && l in Kids(f) && HasUrl(l) ==>
      l.id in TreeMap(children, colorOf) && TreeMap(children, colorOf)[l.id] == LinkOf(l, colorOf)
  {
    forall f, l | f in children && IsFolder(f) && l in Kids(f) && HasUrl(l)
      ensures l.id in TreeMap(children, colorOf) && TreeMap(children, colorOf)[l.id] == LinkOf(l, colorOf)
    {
      TreeMapStoresLink(children, colorOf, f, l);
    }
  }

  /** One link of one folder child, by induction on the children. */
  lemma {:induction false} TreeMapStoresLink(children: seq<Node>, colorOf: Id -> Color, f: Node, l: Node)
    requires forall x :: AllIds(FolderColumns(children, colorOf))[x] <= 1
    requires f in children && IsFolder(f) && l in Kids(f) && HasUrl(l)
    ensures l.id in TreeMap(children, colorOf) && TreeMap(children, colorOf)[l.id] == LinkOf(l, colorOf)
  {
    var pre, last := children[..|children| - 1], children[|children| - 1];
    assert children == pre + [last];
    if IsFolder(last) {
      var col := Column(last.id, last.title, colorOf(last.id), LinkIds(Kids(last)));
      AllIdsConcat(FolderColumns(pre, colorOf), [col]);
      AllIdsSingle(col);
      var a, own := AllIds(FolderColumns(pre, colorOf)), multiset(LinkIds(Kids(last)));
      assert AllIds(FolderColumns(children, colorOf)) == a + own;
      forall x ensures a[x] <= 1 && own[x] <= 1 {
        assert (a + own)[x] == a[x] + own[x];
      }
      AddLinksValues(TreeMap(pre, colorOf), Kids(last), colorOf);
      if f != last {
        assert f in pre;
        TreeMapStoresLink(pre, colorOf, f, l);
        KeysAreListedIds(pre, colorOf);
        assert l.id in a;
        assert (a + own)[l.id] == a[l.id] + own[l.id];
        assert l.id !in LinkIds(Kids(last));
      }
    } else {
      assert f in pre;
      TreeMapStoresLink(pre, colorOf, f, l);
    }
  }
}
