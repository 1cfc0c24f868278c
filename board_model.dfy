// The in-memory board: an ordered sequence of columns (bookmark folders),
// each holding an ordered list of bookmark ids, plus a map from id to
// bookmark record. Also the store's node shape and the board invariant.

module BoardModel {

  type Id = string
  type Color = string

  datatype Option<T> = None | Some(value: T)

  /** A node of the browser's bookmark store (the fields of
      chrome.bookmarks.BookmarkTreeNode that the board reads). */
  datatype Node = Node(
    id: Id,
    parentId: Option<Id>,
    url: Option<string>,
    title: string,
    children: Option<seq<Node>>)

  /** JavaScript truthiness of an optional string: absent and "" are false. */
  predicate Truthy(s: Option<string>) {
    s.Some? && s.value != ""
  }

  /** `if (node.url)`: the node is a link rather than a folder. */
  predicate HasUrl(n: Node) {
    Truthy(n.url)
  }

  datatype Bookmark = Bookmark(id: Id, title: string, url: string, color: Color)

  datatype Column = Column(id: Id, title: string, color: Color, bookmarkIds: seq<Id>)

  datatype Board = Board(columns: seq<Column>, bookmarks: map<Id, Bookmark>)

  /** Every id listed by any column, counted with multiplicity. */
  function AllIds(cols: seq<Column>): multiset<Id> {
    if cols == [] then multiset{} else multiset(cols[0].bookmarkIds) + AllIds(cols[1..])
  }

  /** The board invariant: every id a column lists is a key of the bookmark
      map, and every key is listed exactly once across all columns. */
  predicate Consistent(b: Board) {
    AllIds(b.columns) == multiset(b.bookmarks.Keys)
  }

  /** Each bookmark record carries the id it is stored under. */
  predicate KeysMatch(b: Board) {
    forall k :: k in b.bookmarks ==> b.bookmarks[k].id == k
  }

  predicate ColumnIdsDistinct(cols: seq<Column>) {
    forall i, j :: 0 <= i < j < |cols| ==> cols[i].id != cols[j].id
  }

  predicate HasColumn(cols: seq<Column>, id: Id) {
    exists i :: 0 <= i < |cols| && cols[i].id == id
  }

  predicate Distinct(s: seq<Id>) {
    forall p, q :: 0 <= p < q < |s| ==> s[p] != s[q]
  }

  /** `cols.map(f)` */
  function MapColumns(cols: seq<Column>, f: Column -> Column): (r: seq<Column>)
    ensures |r| == |cols|
    ensures forall i :: 0 <= i < |cols| ==> r[i] == f(cols[i])
  {
    seq(|cols|, i requires 0 <= i < |cols| => f(cols[i]))
  }

  /** `ids.filter(x => x !== id)` */
  function FilterOut(ids: seq<Id>, id: Id): (r: seq<Id>)
    ensures id !in r
    ensures forall x :: x != id ==> (x in r <==> x in ids)
    ensures multiset(r) == multiset(ids)[id := 0]
    ensures id !in ids ==> r == ids
  {
    if ids == [] then []
    else
      assert ids == [ids[0]] + ids[1..];
      if ids[0] == id then FilterOut(ids[1..], id) else [ids[0]] + FilterOut(ids[1..], id)
  }

  /** The filter keeps the surviving ids in their order: it distributes over
      concatenation. */
  lemma {:induction false} FilterOutConcat(a: seq<Id>, b: seq<Id>, id: Id)
    ensures FilterOut(a + b, id) == FilterOut(a, id) + FilterOut(b, id)
  {
    if a == [] {
      assert a + b == b;
    } else {
      assert (a + b)[0] == a[0];
      assert (a + b)[1..] == a[1..] + b;
      FilterOutConcat(a[1..], b, id);
    }
  }

  lemma {:induction false} AllIdsConcat(a: seq<Column>, b: seq<Column>)
    ensures AllIds(a + b) == AllIds(a) + AllIds(b)
  {
    if a == [] {
      assert a + b == b;
    } else {
      assert (a + b)[1..] == a[1..] + b;
      AllIdsConcat(a[1..], b);
    }
  }

  /** Replacing one column changes the listed ids by exactly the difference
      between the old and the new column. */
  lemma {:induction false} AllIdsUpdate(cols: seq<Column>, p: nat, c: Column)
    requires p < |cols|
    ensures AllIds(cols[p := c]) + multiset(cols[p].bookmarkIds) == AllIds(cols) + multiset(c.bookmarkIds)
  {
    assert cols == cols[..p] + [cols[p]] + cols[p + 1..];
    assert cols[p := c] == cols[..p] + [c] + cols[p + 1..];
    AllIdsConcat(cols[..p] + [cols[p]], cols[p + 1..]);
    AllIdsConcat(cols[..p], [cols[p]]);
    AllIdsConcat(cols[..p] + [c], cols[p + 1..]);
    AllIdsConcat(cols[..p], [c]);
    assert AllIds([c]) == multiset(c.bookmarkIds) by { assert [c][1..] == []; }
    assert AllIds([cols[p]]) == multiset(cols[p].bookmarkIds) by { assert [cols[p]][1..] == []; }
  }

  /** Two sequences of columns that list the same ids column by column list
      the same ids overall. */
  lemma {:induction false} AllIdsPointwise(cols: seq<Column>, cols': seq<Column>)
    requires |cols'| == |cols|
    requires forall i :: 0 <= i < |cols| ==> multiset(cols'[i].bookmarkIds) == multiset(cols[i].bookmarkIds)
    ensures AllIds(cols') == AllIds(cols)
  {
    if cols != [] {
      AllIdsPointwise(cols[1..], cols'[1..]);
    }
  }

  /** Filtering one id out of every column removes every occurrence of it. */
  lemma {:induction false} AllIdsStrip(cols: seq<Column>, cols': seq<Column>, x: Id)
    requires |cols'| == |cols|
    requires forall i :: 0 <= i < |cols| ==> multiset(cols'[i].bookmarkIds) == multiset(cols[i].bookmarkIds)[x := 0]
    ensures AllIds(cols') == AllIds(cols)[x := 0]
  {
    if cols != [] {
      AllIdsStrip(cols[1..], cols'[1..], x);
    }
  }

  lemma AllIdsSingle(c: Column)
    ensures AllIds([c]) == multiset(c.bookmarkIds)
  {
    assert [c][1..] == [];
  }

  lemma {:induction false} AllIdsCovers(cols: seq<Column>, i: nat)
    requires i < |cols|
    ensures multiset(cols[i].bookmarkIds) <= AllIds(cols)
  {
    if i > 0 {
      AllIdsCovers(cols[1..], i - 1);
    }
  }

  lemma {:induction false} AllIdsWitness(cols: seq<Column>, x: Id)
    requires x in AllIds(cols)
    ensures exists i :: 0 <= i < |cols| && x in cols[i].bookmarkIds
  {
    if x !in multiset(cols[0].bookmarkIds) {
      AllIdsWitness(cols[1..], x);
      var i :| 0 <= i < |cols[1..]| && x in cols[1..][i].bookmarkIds;
      assert x in cols[i + 1].bookmarkIds;
    }
  }

  lemma {:induction false} DistinctFromCount(s: seq<Id>)
    requires forall x :: multiset(s)[x] <= 1
    ensures Distinct(s)
  {
    forall p, q | 0 <= p < q < |s| ensures s[p] != s[q] {
      assert s == s[..q] + s[q..];
      assert s[..q][p] == s[p] && s[q..][0] == s[q];
      assert s[p] in multiset(s[..q]) && s[q] in multiset(s[q..]);
      assert multiset(s)[s[q]] == multiset(s[..q])[s[q]] + multiset(s[q..])[s[q]];
    }
  }

  /** The invariant in plain terms: every listed id is a key, every key is
      listed by exactly one column, and no column lists an id twice. */
  predicate KeysListedOnce(b: Board) {
    && (forall i, x :: 0 <= i < |b.columns| && x in b.columns[i].bookmarkIds ==> x in b.bookmarks)
    && (forall k :: k in b.bookmarks ==>
          exists i :: (0 <= i < |b.columns| && k in b.columns[i].bookmarkIds
            && forall j :: 0 <= j < |b.columns| && j != i ==> k !in b.columns[j].bookmarkIds))
    && (forall i :: 0 <= i < |b.columns| ==> Distinct(b.columns[i].bookmarkIds))
  }

  /** The multiset invariant says exactly what `KeysListedOnce` says. */
  lemma ConsistentMeaning(b: Board)
    ensures Consistent(b) <==> KeysListedOnce(b)
  {
    if Consistent(b) {
      ConsistentImpliesListed(b);
    }
    if KeysListedOnce(b) {
      ListedImpliesConsistent(b);
    }
  }

  lemma ConsistentImpliesListed(b: Board)
    requires Consistent(b)
    ensures KeysListedOnce(b)
  {
    var cols := b.columns;
    forall i, x | 0 <= i < |cols| && x in cols[i].bookmarkIds ensures x in b.bookmarks {
      AllIdsCovers(cols, i);
      assert x in multiset(cols[i].bookmarkIds);
      assert x in multiset(b.bookmarks.Keys);
    }
    forall i | 0 <= i < |cols| ensures Distinct(cols[i].bookmarkIds) {
      AllIdsCovers(cols, i);
      DistinctFromCount(cols[i].bookmarkIds);
    }
    forall k | k in b.bookmarks
      ensures exists i :: (0 <= i < |cols| && k in cols[i].bookmarkIds
        && forall j :: 0 <= j < |cols| && j != i ==> k !in cols[j].bookmarkIds)
    {
      AllIdsWitness(cols, k);
      var i :| 0 <= i < |cols| && k in cols[i].bookmarkIds;
      forall j | 0 <= j < |cols| && j != i ensures k !in cols[j].bookmarkIds {
        ListedInOneColumn(cols, i, j, k);
      }
    }
  }

  lemma ListedImpliesConsistent(b: Board)
    requires KeysListedOnce(b)
    ensures Consistent(b)
  {
    var cols, keys := b.columns, multiset(b.bookmarks.Keys);
    forall x ensures AllIds(cols)[x] == keys[x] {
      if x in b.bookmarks {
        var i :| 0 <= i < |cols| && x in cols[i].bookmarkIds
          && forall j :: 0 <= j < |cols| && j != i ==> x !in cols[j].bookmarkIds;
        OnlyListerCount(cols, i, x);
        CountFromDistinct(cols[i].bookmarkIds, x);
        assert x in multiset(cols[i].bookmarkIds);
        assert keys[x] == 1;
      } else {
        AllIdsAbsent(cols, x);
      }
    }
    assert AllIds(cols) == keys;
  }

  /** An id counted once among all columns is listed by no other column
      than one that lists it. */
  lemma ListedInOneColumn(cols: seq<Column>, i: nat, j: nat, k: Id)
    requires i < |cols| && j < |cols| && i != j
    requires k in cols[i].bookmarkIds && AllIds(cols)[k] <= 1
    ensures k !in cols[j].bookmarkIds
  {
    var e := Column(cols[i].id, cols[i].title, cols[i].color, []);
    AllIdsUpdate(cols, i, e);
    assert cols[i := e][j] == cols[j];
    AllIdsCovers(cols[i := e], j);
    assert multiset(e.bookmarkIds) == multiset{};
    assert AllIds(cols) == AllIds(cols[i := e]) + multiset(cols[i].bookmarkIds);
    assert multiset(cols[i].bookmarkIds)[k] >= 1;
    assert AllIds(cols[i := e])[k] == 0;
    assert multiset(cols[j].bookmarkIds)[k] == 0;
  }

  /** An id no column lists is not among the listed ids. */
  lemma {:induction false} AllIdsAbsent(cols: seq<Column>, x: Id)
    requires forall i :: 0 <= i < |cols| ==> x !in cols[i].bookmarkIds
    ensures AllIds(cols)[x] == 0
  {
    if cols != [] {
      assert x !in cols[0].bookmarkIds;
      assert x !in multiset(cols[0].bookmarkIds);
      AllIdsAbsent(cols[1..], x);
    }
  }

  /** An id that only column `i` lists is counted as often as `i` lists it. */
  lemma OnlyListerCount(cols: seq<Column>, i: nat, x: Id)
    requires i < |cols|
    requires forall j :: 0 <= j < |cols| && j != i ==> x !in cols[j].bookmarkIds
    ensures AllIds(cols)[x] == multiset(cols[i].bookmarkIds)[x]
  {
    var e := cols[i].(bookmarkIds := []);
    var emptied := cols[i := e];
    AllIdsUpdate(cols, i, e);
    forall j | 0 <= j < |emptied| ensures x !in emptied[j].bookmarkIds {
      if j != i {
        assert emptied[j] == cols[j];
      }
    }
    AllIdsAbsent(emptied, x);
    var before, gone := AllIds(cols), multiset(cols[i].bookmarkIds);
    assert AllIds(emptied) + gone == before + multiset(e.bookmarkIds);
    assert multiset(e.bookmarkIds) == multiset{};
    assert (AllIds(emptied) + gone)[x] == before[x];
  }

  /** A list without repeats holds each id at most once. */
  lemma {:induction false} CountFromDistinct(s: seq<Id>, x: Id)
    requires Distinct(s)
    ensures multiset(s)[x] <= 1
  {
    if s != [] {
      assert s == [s[0]] + s[1..];
      assert Distinct(s[1..]) by {
        forall p, q | 0 <= p < q < |s[1..]| ensures s[1..][p] != s[1..][q] {
          assert s[1..][p] == s[p + 1] && s[1..][q] == s[q + 1];
        }
      }
      CountFromDistinct(s[1..], x);
      if x == s[0] {
        assert x !in s[1..] by {
          forall k | 0 <= k < |s[1..]| ensures s[1..][k] != x {
            assert s[1..][k] == s[k + 1];
          }
        }
      }
    }
  }

  /** Replacing two different columns so that together they list the same
      ids as before leaves the listed ids unchanged. */
  lemma {:induction false} AllIdsUpdateTwo(cols: seq<Column>, p: nat, q: nat, cp: Column, cq: Column)
    requires p < |cols| && q < |cols| && p != q
    requires multiset(cp.bookmarkIds) + multiset(cq.bookmarkIds)
      == multiset(cols[p].bookmarkIds) + multiset(cols[q].bookmarkIds)
    ensures AllIds(cols[p := cp][q := cq]) == AllIds(cols)
  {
    var mid := cols[p := cp];
    AllIdsUpdate(cols, p, cp);
    AllIdsUpdate(mid, q, cq);
    var a, m, z := AllIds(cols), AllIds(mid), AllIds(mid[q := cq]);
    var sp, sq, tp, tq := multiset(cols[p].bookmarkIds), multiset(cols[q].bookmarkIds), multiset(cp.bookmarkIds), multiset(cq.bookmarkIds);
    assert m + sp == a + tp;
    assert z + sq == m + tq;
    forall x ensures z[x] == a[x] {
      assert (m + sp)[x] == (a + tp)[x];
      assert (z + sq)[x] == (m + tq)[x];
      assert (tp + tq)[x] == (sp + sq)[x];
    }
    assert z == a;
  }

  /** The keys of a map as a multiset, after adding a fresh key. */
  lemma KeysAdd(m: map<Id, Bookmark>, k: Id, v: Bookmark)
    requires k !in m
    ensures multiset(m[k := v].Keys) == multiset(m.Keys) + multiset{k}
  {
    assert m[k := v].Keys == m.Keys + {k};
  }

  /** The keys of a map as a multiset, after deleting a key. */
  lemma KeysRemove(m: map<Id, Bookmark>, k: Id)
    ensures multiset((m - {k}).Keys) == multiset(m.Keys)[k := 0]
  {
    assert (m - {k}).Keys == m.Keys - {k};
  }

  // ---------------------------------------------------------------------
  // Column updates shared by the store listeners and the column controls

  /** `columns.filter(col => col.id !== id)` */
  function RemoveColumn(cols: seq<Column>, id: Id): (r: seq<Column>)
    ensures |r| <= |cols|
    ensures forall c :: c in r ==> c in cols && c.id != id
    ensures forall c :: c in cols && c.id != id ==> c in r
  {
    if cols == [] then []
    else if cols[0].id == id then RemoveColumn(cols[1..], id)
    else [cols[0]] + RemoveColumn(cols[1..], id)
  }

  /** Filtering keeps the relative order: it distributes over concatenation. */
  lemma {:induction false} RemoveColumnConcat(a: seq<Column>, b: seq<Column>, id: Id)
    ensures RemoveColumn(a + b, id) == RemoveColumn(a, id) + RemoveColumn(b, id)
  {
    if a == [] {
      assert a + b == b;
    } else {
      assert (a + b)[1..] == a[1..] + b;
      RemoveColumnConcat(a[1..], b, id);
    }
  }

  /** Without a column of that id, filtering changes nothing. */
  lemma {:induction false} RemoveColumnAbsent(cols: seq<Column>, id: Id)
    requires !HasColumn(cols, id)
    ensures RemoveColumn(cols, id) == cols
  {
    if cols != [] {
      assert !HasColumn(cols[1..], id) by {
        forall i | 0 <= i < |cols[1..]| ensures cols[1..][i].id != id {
          assert cols[1..][i] == cols[i + 1];
        }
      }
      RemoveColumnAbsent(cols[1..], id);
    }
  }

  /** The ids listed by the columns that carry the id `id`. */
  function HeldBy(cols: seq<Column>, id: Id): multiset<Id> {
    if cols == [] then multiset{}
    else (if cols[0].id == id then multiset(cols[0].bookmarkIds) else multiset{}) + HeldBy(cols[1..], id)
  }

  /** Removing the columns with id `id` removes exactly the ids they held. */
  lemma {:induction false} AllIdsRemoveColumn(cols: seq<Column>, id: Id)
    ensures AllIds(cols) == AllIds(RemoveColumn(cols, id)) + HeldBy(cols, id)
  {
    if cols != [] {
      AllIdsRemoveColumn(cols[1..], id);
      if cols[0].id != id {
        var rest := RemoveColumn(cols[1..], id);
        assert ([cols[0]] + rest)[1..] == rest;
      }
    }
  }

  /** The removed columns held nothing exactly when each of them was empty. */
  lemma {:induction false} HeldByEmpty(cols: seq<Column>, id: Id)
    ensures HeldBy(cols, id) == multiset{} <==>
      forall c :: 0 <= c < |cols| && cols[c].id == id ==> cols[c].bookmarkIds == []
  {
    if cols != [] {
      HeldByEmpty(cols[1..], id);
      assert forall c :: 1 <= c < |cols| ==> cols[c] == cols[1..][c - 1];
      if cols[0].id == id && cols[0].bookmarkIds != [] {
        assert cols[0].bookmarkIds[0] in multiset(cols[0].bookmarkIds);
      }
    }
  }

  /** `columns.map(col => col.id === id ? { ...col, title } : col)` */
  function RenameColumn(cols: seq<Column>, id: Id, title: string): (r: seq<Column>)
    ensures |r| == |cols|
    ensures forall c :: 0 <= c < |cols| ==>
      && r[c].id == cols[c].id && r[c].color == cols[c].color
      && r[c].bookmarkIds == cols[c].bookmarkIds
      && r[c].title == (if cols[c].id == id then title else cols[c].title)
  {
    MapColumns(cols, (col: Column) => if col.id == id then col.(title := title) else col)
  }

  /** Appending one id to one column adds exactly that id to the listed ids. */
  lemma {:induction false} AllIdsAppendOne(cols: seq<Column>, p: nat, x: Id)
    requires p < |cols|
    ensures AllIds(cols[p := cols[p].(bookmarkIds := cols[p].bookmarkIds + [x])]) == AllIds(cols) + multiset{x}
  {
    var c := cols[p].(bookmarkIds := cols[p].bookmarkIds + [x]);
    AllIdsUpdate(cols, p, c);
    var a, z, s := AllIds(cols), AllIds(cols[p := c]), multiset(cols[p].bookmarkIds);
    assert multiset(c.bookmarkIds) == s + multiset{x};
    forall y ensures z[y] == (a + multiset{x})[y] {
      assert (z + s)[y] == (a + (s + multiset{x}))[y];
    }
    assert z == a + multiset{x};
  }

  /** Filtering out an id listed once takes exactly that one occurrence away. */
  lemma FilterOutOnce(ids: seq<Id>, x: Id)
    requires multiset(ids)[x] == 1
    ensures multiset(FilterOut(ids, x)) + multiset{x} == multiset(ids)
  {
    var m := multiset(ids);
    assert multiset(FilterOut(ids, x)) == m[x := 0];
    forall y ensures (m[x := 0] + multiset{x})[y] == m[y] {
    }
    assert m[x := 0] + multiset{x} == m;
  }

  /** Under the invariant, a listed id is listed once by its column. */
  lemma OnlyColumnWith(b: Board, p: nat, x: Id)
    requires Consistent(b) && p < |b.columns| && x in b.columns[p].bookmarkIds
    ensures x in b.bookmarks
    ensures forall c :: 0 <= c < |b.columns| && c != p ==> x !in b.columns[c].bookmarkIds
  {
    AllIdsCovers(b.columns, p);
    assert x in multiset(b.columns[p].bookmarkIds);
    assert AllIds(b.columns)[x] <= 1;
    forall c | 0 <= c < |b.columns| && c != p ensures x !in b.columns[c].bookmarkIds {
      ListedInOneColumn(b.columns, p, c, x);
    }
  }

  lemma ListedOnce(b: Board, p: nat, x: Id)
    requires Consistent(b) && p < |b.columns| && x in b.columns[p].bookmarkIds
    ensures multiset(b.columns[p].bookmarkIds)[x] == 1
    ensures x in b.bookmarks
  {
    AllIdsCovers(b.columns, p);
    assert x in multiset(b.columns[p].bookmarkIds);
  }

  /** Rewriting columns without touching their ids keeps the ids distinct. */
  lemma SameIdsDistinct(cols: seq<Column>, cols': seq<Column>)
    requires ColumnIdsDistinct(cols) && |cols'| == |cols|
    requires forall c :: 0 <= c < |cols| ==> cols'[c].id == cols[c].id
    ensures ColumnIdsDistinct(cols')
  {
  }
}
