// The column's own state: the title editor and the `newBookmarkId` slot,
// which names the card that opens in edit mode after "Add Bookmark". The
// slot is set and cleared by the completions of the store's create, remove
// and update calls; those calls themselves are outside the model.

module ColumnEditor {
  import opened Text
  import opened BoardModel

  /** Whether the card for `bookmarkId` is rendered in edit mode. */
  predicate OpensInEditMode(slot: Option<Id>, bookmarkId: Id) {
    slot == Some(bookmarkId)
  }

  /** Among cards with distinct ids, at most one opens in edit mode, and if
      one does, it is the card the slot names. */
  lemma AtMostOneEditingCard(slot: Option<Id>, cardIds: seq<Id>)
    requires Distinct(cardIds)
    ensures forall i, j :: (0 <= i < |cardIds| && 0 <= j < |cardIds|
      && OpensInEditMode(slot, cardIds[i]) && OpensInEditMode(slot, cardIds[j])) ==> i == j
    ensures forall i :: 0 <= i < |cardIds| && OpensInEditMode(slot, cardIds[i]) ==> slot.Some? && cardIds[i] == slot.value
  {
  }

  /** The title a submit hands to `onTitleChange`, untrimmed, or `None` when
      the field is blank. */
  function TitleSubmit(editTitle: string): (r: Option<string>)
    ensures r.None? <==> IsBlank(editTitle)
    ensures r.Some? ==> r.value == editTitle && Trim(r.value) != []
  {
    TrimEmptyIffBlank(editTitle);
    if Trim(editTitle) != [] then Some(editTitle) else None
  }

  class ColumnState {
    const id: Id
    var title: string
    var isEditing: bool
    var editTitle: string
    var newBookmarkId: Option<Id>

    /** The state hooks start closed, with the first title and no new card. */
    constructor(id: Id, title: string)
      ensures this.id == id && this.title == title
      ensures !isEditing && editTitle == title && newBookmarkId == None
    {
      this.id := id;
      this.title := title;
      isEditing := false;
      editTitle := title;
      newBookmarkId := None;
    }

    /** Whether the card for `bookmarkId` gets `isEditing` set. */
    function CardIsEditing(bookmarkId: Id): (r: bool)
      reads this
      ensures r <==> newBookmarkId.Some? && newBookmarkId.value == bookmarkId
    {
      OpensInEditMode(newBookmarkId, bookmarkId)
    }

    /** A new `title` prop. No effect follows it, so the edit field keeps
        what it holds. */
    method Rerender(title': string)
      modifies this
      ensures title == title'
      ensures isEditing == old(isEditing) && editTitle == old(editTitle) && newBookmarkId == old(newBookmarkId)
    {
      title := title';
    }

    /** The edit button. */
    method StartEditing()
      modifies this
      ensures isEditing
      ensures title == old(title) && editTitle == old(editTitle) && newBookmarkId == old(newBookmarkId)
    {
      isEditing := true;
    }

    /** The cancel button: closes the editor and keeps the typed text. */
    method CancelEditing()
      modifies this
      ensures !isEditing
      ensures title == old(title) && editTitle == old(editTitle) && newBookmarkId == old(newBookmarkId)
    {
      isEditing := false;
    }

    /** Typing into the title input. */
    method EditTitleInput(value: string)
      modifies this
      ensures editTitle == value
      ensures title == old(title) && isEditing == old(isEditing) && newBookmarkId == old(newBookmarkId)
    {
      editTitle := value;
    }

    /** `handleSubmit`: a title that is not blank goes to `onTitleChange` as
        typed, and the editor closes; a blank one changes nothing. */
    method HandleSubmit() returns (titleChange: Option<string>)
      modifies this
      ensures titleChange == TitleSubmit(old(editTitle))
      ensures isEditing == (if titleChange.Some? then false else old(isEditing))
      ensures title == old(title) && editTitle == old(editTitle) && newBookmarkId == old(newBookmarkId)
    {
      if Trim(editTitle) != [] {
        titleChange := Some(editTitle);
        isEditing := false;
      } else {
        titleChange := None;
      }
    }

    /** The completion of the create call of `handleAddBookmark`: on an
        error the slot stays; otherwise a returned node becomes the new card. */
    method OnCreateCompleted(lastError: bool, result: Option<Node>)
      modifies this
      ensures newBookmarkId == if !lastError && result.Some? then Some(result.value.id) else old(newBookmarkId)
      ensures title == old(title) && isEditing == old(isEditing) && editTitle == old(editTitle)
    {
      if lastError {
        return;
      }
      if result.Some? {
        newBookmarkId := Some(result.value.id);
      }
    }

    /** The completion of the remove call of `handleDeleteBookmark`: the slot
        is cleared whichever card was deleted. */
    method OnDeleteCompleted()
      modifies this
      ensures newBookmarkId == None
      ensures title == old(title) && isEditing == old(isEditing) && editTitle == old(editTitle)
    {
      newBookmarkId := None;
    }

    /** The completion of the update call of `handleEditBookmark`. The
        callback compares with the slot as it was when the card was rendered
        (`renderedSlot`), and clears the slot when that named the edited card. */
    method OnEditCompleted(bookmarkId: Id, renderedSlot: Option<Id>)
      modifies this
      ensures newBookmarkId == if renderedSlot == Some(bookmarkId) then None else old(newBookmarkId)
      ensures title == old(title) && isEditing == old(isEditing) && editTitle == old(editTitle)
    {
      if renderedSlot == Some(bookmarkId) {
        newBookmarkId := None;
      }
    }
  }
}
