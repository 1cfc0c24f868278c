# Bookmarko board: a Dafny model

Bookmarko is a browser extension that shows the bookmark bar as a board.
Each folder directly under the bar is a column. A column lists the ids of the
folder's links, and a map takes each id to its bookmark (title, url, colour).
This project models that board and the code that changes it, and proves what
each change does to it. The code comes in four parts:

- **Tree flattening and change reconciliation** (`src/App.tsx`).
  - `processBookmarkTree` builds the board from the bookmark bar. It is modelled as an imperative method with nested loops, proved against recursive definitions.
  - The four bookmark-store listeners (created, removed, changed, moved) each patch the board. Each is a pure function from the board and the event to the new board.
  - The column view filters a column's bookmarks by the search query.
  - The column controls delete, rename and recolour a column.
- **Drag and drop** (`chrome-extension/src/utils/dragDropHelpers.ts`).
  - The splice-based reorder of one list and the move of a card between two lists.
  - `handleDragEnd`, which writes the result back into the affected columns.
- **The bookmark card** (`src/components/Card.tsx`).
  - A class holding the card's props and editing state.
  - The submit rule: trim both fields, refuse blanks, add `https://` when no `http(s)://` scheme is present (any case), then test validity.
  - The key, cancel and re-render rules.
- **The column** (`src/components/Column.tsx`).
  - A class holding the title editor.
  - The `newBookmarkId` slot, which picks the card that opens in edit mode. Store-call completions set and clear it.

The board invariant is `BoardModel.Consistent`: the ids listed by all columns,
counted with multiplicity, are exactly the keys of the map.
`BoardModel.ConsistentMeaning` proves it equivalent to three plain facts,
collected in `BoardModel.KeysListedOnce`. Every listed id is a key. Every key
is listed by exactly one column. No column lists an id twice.

The model proves which handlers keep the invariant and which break it. It
models these cases as the code behaves, without repairing them:

- Removing a folder leaves its links in the map, listed by no column.
- Creating a link under a parent that is not a column adds a map entry that no column lists.
- A move whose old and new parent are the same column removes the id and does not put it back.
- A move to a parent that is not a column takes the link off the board but leaves it in the map.

Files:
- `text.dfy`: JavaScript's `trim`, lower-casing, `includes`, and the scheme test.
- `board_model.dfy`: the board, the invariant, and the shared column updates.
- `drag_drop.dfy`: drag and drop.
- `change_reconciler.dfy`: the store listeners.
- `tree_flattening.dfy`: the initial load.
- `board_view.dfy`: the search filter and the column controls.
- `card_editor.dfy`: the card.
- `column_editor.dfy`: the column.

## Model

| member | source | states |
|---|---|---|
| Text.Trim | src/components/Card.tsx:41-42 | the result is a slice of the input with only whitespace, as `trim` defines it, on either side, and no whitespace at either end |
| Text.TrimEmptyIffBlank | src/components/Card.tsx:44-52 | a field trims to the empty string exactly when every character is whitespace, so the blank checks refuse exactly the blank fields |
| Text.TrimIdempotent | src/components/Card.tsx:41-42 | trimming a trimmed string changes nothing |
| Text.Lower | src/App.tsx:198 | same length; each ASCII capital becomes its small letter and every other character stays |
| Text.Contains | src/App.tsx:281-282 | `includes` is true exactly when the needle occurs at some position of the text |
| Text.HasHttpScheme | src/components/Card.tsx:55 | true exactly when the text starts with `http` or `https` in any letter case, followed by `://` |
| BoardModel.MapColumns | src/App.tsx:99-104 | `map` keeps the length and applies the function to each column at its own position |
| BoardModel.FilterOut | src/App.tsx:102 | the id no longer occurs, every other id keeps its membership and its count, and a list without the id is unchanged |
| BoardModel.FilterOutConcat | src/App.tsx:102 | the filter distributes over concatenation, so the kept ids stay in their original order |
| BoardModel.ConsistentMeaning | src/App.tsx:26-27 | the invariant holds exactly when every listed id is a key, every key sits in exactly one column, and no column lists an id twice |
| BoardModel.RemoveColumn | src/App.tsx:107 | keeps exactly the columns whose id differs, and never lengthens the list |
| BoardModel.RemoveColumnConcat | src/App.tsx:107 | the filter keeps the remaining columns in their relative order |
| BoardModel.RemoveColumnAbsent | src/App.tsx:107 | filtering an id no column carries changes nothing |
| BoardModel.AllIdsRemoveColumn | src/App.tsx:105-108 | removing a folder's columns removes exactly the ids those columns held from the listed ids |
| BoardModel.RenameColumn | src/App.tsx:129-133 | only the title of the column(s) with that id changes; ids, colours and bookmark lists stay |
| DragDrop.RemoveAt | chrome-extension/src/utils/dragDropHelpers.ts:23 | one element shorter, later elements shift down by one, and the multiset loses exactly the removed element |
| DragDrop.InsertAt | chrome-extension/src/utils/dragDropHelpers.ts:24 | one element longer, the element sits at the index, later elements shift up, and the multiset gains exactly that element |
| DragDrop.ReorderColumns | chrome-extension/src/utils/dragDropHelpers.ts:17-26 | same length; a permutation of the input; the picked column lands at `endIndex`; each position holds the column `ReorderSource` names |
| DragDrop.ReorderBookmarksWithinColumn | chrome-extension/src/utils/dragDropHelpers.ts:28-37 | the same four facts for the cards of one column |
| DragDrop.ReorderColumnsRoundTrip | chrome-extension/src/utils/dragDropHelpers.ts:17-26 | moving from `i` to `j` and back from `j` to `i` restores the columns |
| DragDrop.ReorderBookmarksRoundTrip | chrome-extension/src/utils/dragDropHelpers.ts:28-37 | moving a card from `i` to `j` and back restores the column's cards |
| DragDrop.ReorderSamePosition | chrome-extension/src/utils/dragDropHelpers.ts:17-37 | a drop at the position it was picked up from returns the input unchanged |
| DragDrop.MoveBookmarkBetweenColumns | chrome-extension/src/utils/dragDropHelpers.ts:39-62 | the source loses the card at its index and the others keep their order; the destination holds it at the destination index; the two lists together hold the same cards |
| DragDrop.MoveBookmarkRoundTrip | chrome-extension/src/utils/dragDropHelpers.ts:39-62 | moving the card back from where it landed restores both lists |
| DragDrop.FindColumn | chrome-extension/src/utils/dragDropHelpers.ts:84-85 | `None` exactly when no column has the id; otherwise the first column of the list with that id, as `find` returns |
| DragDrop.Lookup | chrome-extension/src/utils/dragDropHelpers.ts:91 | the records stored under the ids, one per id and in the same order |
| DragDrop.IdsOf | chrome-extension/src/utils/dragDropHelpers.ts:94 | the ids of the records, one per record and in the same order |
| DragDrop.FindColumnUnique | chrome-extension/src/utils/dragDropHelpers.ts:84-85 | with distinct column ids, `find` returns the only column with that id |
| DragDrop.IdsOfLookup | chrome-extension/src/utils/dragDropHelpers.ts:91-94 | looking ids up in the map and reading back `.id` gives the ids again, when each entry is stored under its own id |
| DragDrop.DropWithinColumn | chrome-extension/src/utils/dragDropHelpers.ts:89-102 | throws exactly when an id of the column is missing from the map; otherwise keeps the column list's length and ids |
| DragDrop.DropAcrossColumns | chrome-extension/src/utils/dragDropHelpers.ts:103-126 | throws exactly when an id of either column is missing from the map; otherwise keeps the column list's length and ids |
| DragDrop.HandleDragEnd | chrome-extension/src/utils/dragDropHelpers.ts:64-127 | no destination, or a droppable id matching no column: no update; a column drop: exactly `reorderColumns`; any update keeps the columns' length and ids |
| DragDrop.SameColumnDrop | chrome-extension/src/utils/dragDropHelpers.ts:89-102 | a same-column drop changes only that column's bookmark ids, to a permutation with the id at the source index of the column's id list moved to the destination index; every other column is identical |
| DragDrop.CrossColumnDrop | chrome-extension/src/utils/dragDropHelpers.ts:103-126 | only the source and destination columns change, by removal at the source index and insertion at the destination index; their multiset union is kept; with unique ids the moved id leaves the source |
| BoardView.DraggedCardMovesWithinColumn | src/App.tsx:276-283 | with an empty query and every id a key, the card shown at the source index is the one whose id a same-column drop puts at the destination index |
| BoardView.DraggedCardMovesAcrossColumns | chrome-extension/src/utils/dragDropHelpers.ts:103-126 | with an empty query and every id a key, the card shown at the source index is the one removed from the source column and placed at the destination index |
| DragDrop.ColumnDropPreserves | chrome-extension/src/utils/dragDropHelpers.ts:74-82 | reordering columns keeps the listed ids and distinct column ids |
| DragDrop.WithinColumnPreserves | chrome-extension/src/utils/dragDropHelpers.ts:89-102 | a same-column drop keeps the listed ids |
| DragDrop.AcrossColumnsPreserves | chrome-extension/src/utils/dragDropHelpers.ts:103-126 | a cross-column drop keeps the listed ids |
| DragDrop.DragEndPreservesConsistency | chrome-extension/src/utils/dragDropHelpers.ts:64-127 | every drop that updates the board keeps the invariant and distinct column ids |
| ChangeReconciler.AppendTo | src/App.tsx:69-75 | only the parent's column(s) change, by gaining the id at the end |
| ChangeReconciler.HandleCreated | src/App.tsx:56-87 | a link: the map gains `id` with the node's title and url and the drawn colour, other keys keep their entries, and the parent column gains the id at its end (if the parent is truthy); a folder: the map stays and one empty column is appended after all others |
| ChangeReconciler.HandleRemoved | src/App.tsx:89-109 | a link: the key goes, and every column's list is filtered, losing every occurrence of the id and keeping the other ids in order; a folder: the map stays and the columns with other ids remain, in order (`RemoveColumn`) |
| ChangeReconciler.HandleChanged | src/App.tsx:111-135 | with a url: columns and keys stay; a known bookmark takes the url, takes the title only if non-empty, and keeps id and colour; without a url: only the matching column's title changes |
| ChangeReconciler.HandleMoved | src/App.tsx:137-157 | the map never changes; the old parent's column loses the id and keeps its other ids in order; otherwise the new parent's column gains it at the end; other columns are identical |
| ChangeReconciler.CreatedBookmarkPreservesConsistency | src/App.tsx:56-76 | a fresh link created under an existing column keeps the invariant, the key-to-id match and distinct column ids |
| ChangeReconciler.CreatedFolderPreservesConsistency | src/App.tsx:77-86 | a new folder keeps the invariant, and keeps column ids distinct when its id is new |
| ChangeReconciler.CreatedUnderUnknownParentOrphans | src/App.tsx:65-76 | a link whose parent is missing or not a column becomes a key listed by no column, so the invariant breaks |
| ChangeReconciler.RemovedBookmarkPreservesConsistency | src/App.tsx:90-104 | removing a link always keeps the invariant; the id is neither a key nor listed afterwards |
| ChangeReconciler.RemovedFolderConsistentIff | src/App.tsx:105-108 | removing a folder keeps the invariant exactly when every column with its id was empty |
| ChangeReconciler.RemovedFolderOrphans | src/App.tsx:105-108 | every link of a removed folder stays a key, listed by no column |
| ChangeReconciler.ChangedPreservesConsistency | src/App.tsx:111-135 | a change event keeps the invariant and the key-to-id match, and leaves column ids as distinct as they were |
| ChangeReconciler.MovedColumns | src/App.tsx:140-156 | with distinct column ids, a move between two different columns rewrites exactly those two columns |
| ChangeReconciler.MovedPreservesConsistency | src/App.tsx:137-157 | moving a listed link between two different columns keeps the invariant and distinct column ids |
| ChangeReconciler.MovedWithinSameParentDrops | src/App.tsx:142-153 | a move within one column removes the id and does not re-add it: the link stays a key, unlisted, and the invariant breaks |
| ChangeReconciler.MovedOutOfScopeOrphans | src/App.tsx:140-156 | a move out of a column to a parent that is not a column leaves the link a key, unlisted |
| TreeFlattening.LinkIds | src/App.tsx:169-181 | an id is listed exactly when some child with a url carries it |
| TreeFlattening.Folders | src/App.tsx:164 | exactly the children with no url and a children array |
| TreeFlattening.LinkIdsConcat | src/App.tsx:169-181 | the link ids distribute over concatenation, so they come in child order |
| TreeFlattening.FoldersConcat | src/App.tsx:163-164 | the folders distribute over concatenation, so columns come in child order |
| TreeFlattening.AddLinksValues | src/App.tsx:170-179 | with no repeated link id, each link is stored as its own record (id, title, url, colour), and other keys keep their entries |
| TreeFlattening.TreeMapStoresLinks | src/App.tsx:159-195 | with no repeated link id, every link of every folder child is in the map under its id, with its own title, url and colour |
| TreeFlattening.ProcessBookmarkTree | src/App.tsx:159-195 | the loops build exactly the columns and the map that the recursive definitions give for the bar's children |
| TreeFlattening.ColumnsAreFolders | src/App.tsx:163-192 | one column per folder child, in child order, with the folder's id and title and its links' ids in order |
| TreeFlattening.NoFolderEmptyBoard | src/App.tsx:163-192 | bare links under the bar and non-folders give no column and no map entry |
| TreeFlattening.AddLinksKeys | src/App.tsx:169-180 | storing a folder's links adds exactly their ids as keys, each entry under its own id |
| TreeFlattening.KeysAreListedIds | src/App.tsx:159-195 | the map's keys are exactly the ids the columns list, and each entry is stored under its own id |
| TreeFlattening.FlattenedConsistentIff | src/App.tsx:159-195 | the loaded board satisfies the invariant exactly when no link id is listed twice across the folders |
| BoardView.HandleSearch | src/App.tsx:197-199 | the stored query has the typed length, contains no ASCII capital, and agrees with the typed query up to case |
| BoardView.Matches | src/App.tsx:279-282 | an empty query keeps every bookmark; otherwise the query must occur in the lower-cased title or the lower-cased url |
| BoardView.VisibleBookmarks | src/App.tsx:276-283 | a bookmark is shown exactly when one of the column's ids is a key for it and it matches the query |
| BoardView.VisibleConcat | src/App.tsx:276-283 | the shown list follows the column's order |
| BoardView.EmptyQueryShowsAll | src/App.tsx:280 | with an empty query a column whose ids are all keys shows exactly its bookmarks, in order |
| BoardView.SearchIgnoresCase | src/App.tsx:197-199 | typing the query in upper or lower case shows the same bookmarks |
| BoardView.RecolorColumn | src/App.tsx:299-305 | only the colour of the column(s) with that id changes |
| BoardView.ColumnControlsKeepIds | src/App.tsx:290-305 | renaming or recolouring keeps the invariant and distinct column ids as they were |
| BoardView.RenameThenChangedEvent | src/App.tsx:290-297 | the store's change event that follows a rename leaves the renamed board as it is |
| BoardView.DeleteThenRemovedEvent | src/App.tsx:284-289 | the store's removal event that follows a column delete leaves the board as the delete made it |
| CardEditor.NormalizeUrl | src/components/Card.tsx:54-57 | the result has an `http(s)://` scheme and ends with the input; a url that already had one is unchanged; otherwise exactly `https://` is put in front |
| CardEditor.NormalizeUrlIdempotent | src/components/Card.tsx:54-57 | normalising a normalised url changes nothing |
| CardEditor.SubmitResult | src/components/Card.tsx:40-66 | refused as empty title exactly when the title is blank; as empty url exactly when only the url is blank; as invalid exactly when the normalised trimmed url fails the test; otherwise the edit carries the trimmed title and the normalised trimmed url |
| CardEditor.SubmitIsStable | src/components/Card.tsx:40-66 | an accepted edit has a scheme, and submitting its title and url again gives the same edit |
| CardEditor.Card.constructor | src/components/Card.tsx:27-29 | the state starts from the first props |
| CardEditor.Card.Rerender | src/components/Card.tsx:31-38 | `isEditing` follows the prop only when the prop changed; both edit fields reset to the props only when the title or url changed |
| CardEditor.Card.StartEditing | src/components/Card.tsx:157 | opens the editor and changes nothing else |
| CardEditor.Card.EditTitleInput | src/components/Card.tsx:93 | the title field takes the typed value; nothing else changes |
| CardEditor.Card.EditUrlInput | src/components/Card.tsx:102 | the url field takes the typed value; nothing else changes |
| CardEditor.Card.HandleSubmit | src/components/Card.tsx:40-66 | the outcome is `SubmitResult` of the fields; the editor closes exactly on an accepted edit; the fields and props stay |
| CardEditor.Card.HandleKeyPress | src/components/Card.tsx:68-73 | submits exactly on Enter without Shift, with the submit's outcome and effect; any other key changes nothing |
| CardEditor.Card.Cancel | src/components/Card.tsx:109-117 | asks for deletion exactly when the props are still the placeholder; otherwise closes the editor and resets both fields to the props |
| ColumnEditor.AtMostOneEditingCard | src/components/Column.tsx:163-174 | among cards with distinct ids at most one opens in edit mode, the one the slot names |
| ColumnEditor.TitleSubmit | src/components/Column.tsx:39-45 | nothing is submitted exactly when the title is blank; otherwise the untrimmed title is |
| ColumnEditor.ColumnState.constructor | src/components/Column.tsx:35-37 | the editor starts closed with the first title and an empty slot |
| ColumnEditor.ColumnState.CardIsEditing | src/components/Column.tsx:173 | a card opens in edit mode exactly when the slot names its id |
| ColumnEditor.ColumnState.Rerender | src/components/Column.tsx:25-36 | a new title prop leaves the edit field as it was |
| ColumnEditor.ColumnState.StartEditing | src/components/Column.tsx:132 | opens the editor and changes nothing else |
| ColumnEditor.ColumnState.CancelEditing | src/components/Column.tsx:108 | closes the editor and keeps the typed text |
| ColumnEditor.ColumnState.EditTitleInput | src/components/Column.tsx:101 | the title field takes the typed value |
| ColumnEditor.ColumnState.HandleSubmit | src/components/Column.tsx:39-45 | a non-blank title goes out untrimmed and closes the editor; a blank one changes nothing |
| ColumnEditor.ColumnState.OnCreateCompleted | src/components/Column.tsx:47-62 | after an error the slot stays; after a success with a node the slot names that node |
| ColumnEditor.ColumnState.OnDeleteCompleted | src/components/Column.tsx:64-69 | the slot is cleared whichever card was deleted |
| ColumnEditor.ColumnState.OnEditCompleted | src/components/Column.tsx:71-81 | the slot is cleared exactly when the edited id equals the slot the callback saw; otherwise it stays |

## Left out

- The store calls and their asynchronous completions are not modelled as I/O. These are `getTree`, `create`, `remove`, `removeTree` and `update`, and the listener registration (src/App.tsx:30-54). Their results enter the model as event or result parameters.
- `getRandomColor` is `Math.random`, so a colour is a parameter. `TreeFlattening.ProcessBookmarkTree` takes the colour as a function of the id it is drawn for. It does not model the order of the draws (each link of a folder, then the folder).
- `getContrastColor` uses floating-point luminance. `getFaviconUrl` depends on the URL parser's host name. Both are left out.
- `CardEditor.Card.HandleSubmit` treats the `new URL(...)` check as a predicate passed in (`isValidUrl`). It does not model the URL parser.
- `Text.Lower` models `toLowerCase` for ASCII letters only. Other letters are unchanged here, unlike JavaScript's full Unicode mapping. This applies to `BoardView.HandleSearch` and to the search filter. The scheme test is unaffected: a regular expression with the `i` flag and no `u` flag never matches a non-ASCII character against an ASCII letter, so ASCII folding is exact there.
- Toast messages are not modelled. The submit outcomes name which refusal happened.
- The search bar's 300 ms debounce is timer behaviour and is left out. So are the background script's message routing, the colour picker, the notification component and all rendering.
- `addColumn` (src/App.tsx:201-217) creates a folder through the store and is outside this model.
- The column controls are modelled as functions of the columns they receive. The source applies them to the columns of the render that created the callback. An update that lands in between would be overwritten, and that is not modelled.
- `ColumnEditor.ColumnState.OnEditCompleted` takes the slot its closure saw as a parameter. It does not model which render that was.
- A listener's two state updates (map and columns) are modelled as one combined step. Each is a functional update (`prev => ...`) of its own state variable, so applying them in either order gives the same final state.
- Each reorder helper copies its input and splices the copy. The copy is never shared, so the helpers are modelled as values. No array is updated in place.
- `DragDrop.HandleDragEnd` requires the drop indices to lie within the column id lists it applies them to. JavaScript's clamping of out-of-range `splice` indices is not modelled. The drag library reports positions in the cards a column shows, which is the id list after dropping ids missing from the map and applying the search filter (src/components/Column.tsx:163-167, src/App.tsx:276-283). The model, like the code, applies those positions to the unfiltered `bookmarkIds`. So with a non-empty query, or an id missing from the map, the bookmark moved can differ from the one dragged; `BoardView.DraggedCardMovesWithinColumn` and `BoardView.DraggedCardMovesAcrossColumns` show they agree when the query is empty and every id is a key.
- A bookmark the map does not hold makes `handleDragEnd` throw when it reads `.id`. This is the `TypeError` outcome, and no board update follows it.
