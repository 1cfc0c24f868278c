// The bookmark card's editing state: the edit fields, the submit rule that
// trims, rejects blanks and prefixes a scheme, the cancel rule for a
// freshly created placeholder, and the effects that follow the props.
// The `new URL(...)` validity test is a predicate passed in.

module CardEditor {
  import opened Text
  import opened BoardModel

  /** The placeholder a column creates for "Add Bookmark". */
  const PlaceholderTitle := "New Bookmark"
  const PlaceholderUrl := "https://example.com"

  /** What a submit does: refuse with one of three messages, or hand the
      trimmed title and normalised url to `onEdit`. */
  datatype SubmitOutcome = TitleEmpty | UrlEmpty | InvalidUrl | Edited(title: string, url: string)

  /** The scheme rule: a url without `http://` or `https://` (in any case)
      at its start gets `https://` in front. */
  function NormalizeUrl(u: string): (r: string)
    ensures HasHttpScheme(r)
    ensures |r| >= |u| && r[|r| - |u|..] == u
    ensures HasHttpScheme(u) ==> r == u
    ensures !HasHttpScheme(u) ==> r[..|r| - |u|] == "https://"
  {
    if HasHttpScheme(u) then u
    else
      var r := "https://" + u;
      assert r[..8] == "https://";
      assert Lower("https://") == "https://";
      r
  }

  /** A normalised url is left alone by a second normalisation. */
  lemma NormalizeUrlIdempotent(u: string)
    ensures NormalizeUrl(NormalizeUrl(u)) == NormalizeUrl(u)
  {
  }

  /** The result of `handleSubmit` for the given edit fields. */
  function SubmitResult(editTitle: string, editUrl: string, isValidUrl: string -> bool): (r: SubmitOutcome)
    ensures r == TitleEmpty <==> IsBlank(editTitle)
    ensures r == UrlEmpty <==> !IsBlank(editTitle) && IsBlank(editUrl)
    ensures r == InvalidUrl <==> !IsBlank(editTitle) && !IsBlank(editUrl) && !isValidUrl(NormalizeUrl(Trim(editUrl)))
    ensures r.Edited? ==>
      && r.title == Trim(editTitle) && r.title != []
      && r.url == NormalizeUrl(Trim(editUrl)) && isValidUrl(r.url)
  {
    TrimEmptyIffBlank(editTitle);
    TrimEmptyIffBlank(editUrl);
    var trimmedTitle, trimmedUrl := Trim(editTitle), Trim(editUrl);
    if trimmedTitle == [] then TitleEmpty
    else if trimmedUrl == [] then UrlEmpty
    else if isValidUrl(NormalizeUrl(trimmedUrl)) then Edited(trimmedTitle, NormalizeUrl(trimmedUrl))
    else InvalidUrl
  }

  /** Cancelling a card whose props are still the placeholder deletes it. */
  predicate IsPlaceholder(title: string, url: string) {
    title == PlaceholderTitle && url == PlaceholderUrl
  }

  /** One card: its props (`title`, `url`, the `isEditing` prop) as last
      rendered, and its state. */
  class Card {
    const id: Id
    var title: string
    var url: string
    var isEditingProp: bool
    var isEditing: bool
    var editTitle: string
    var editUrl: string

    /** The state hooks start from the first props. */
    constructor(id: Id, title: string, url: string, isEditingProp: bool)
      ensures this.id == id && this.title == title && this.url == url && this.isEditingProp == isEditingProp
      ensures isEditing == isEditingProp && editTitle == title && editUrl == url
    {
      this.id := id;
      this.title := title;
      this.url := url;
      this.isEditingProp := isEditingProp;
      isEditing := isEditingProp;
      editTitle := title;
      editUrl := url;
    }

    /** A re-render with new props. The first effect copies the `isEditing`
        prop when it changed; the second resets both edit fields when the
        title or the url changed. */
    method Rerender(title': string, url': string, isEditingProp': bool)
      modifies this
      ensures title == title' && url == url' && isEditingProp == isEditingProp'
      ensures isEditing == if isEditingProp' != old(isEditingProp) then isEditingProp' else old(isEditing)
      ensures (editTitle, editUrl) == if title' != old(title) || url' != old(url) then (title', url') else (old(editTitle), old(editUrl))
    {
      if isEditingProp' != isEditingProp {
        isEditing := isEditingProp';
      }
      if title' != title || url' != url {
        editTitle := title';
        editUrl := url';
      }
      title, url, isEditingProp := title', url', isEditingProp';
    }

    /** The edit button. */
    method StartEditing()
      modifies this
      ensures isEditing
      ensures title == old(title) && url == old(url) && isEditingProp == old(isEditingProp)
      ensures editTitle == old(editTitle) && editUrl == old(editUrl)
    {
      isEditing := true;
    }

    /** Typing into the title input. */
    method EditTitleInput(value: string)
      modifies this
      ensures editTitle == value
      ensures editUrl == old(editUrl) && isEditing == old(isEditing)
      ensures title == old(title) && url == old(url) && isEditingProp == old(isEditingProp)
    {
      editTitle := value;
    }

    /** Typing into the url input. */
    method EditUrlInput(value: string)
      modifies this
      ensures editUrl == value
      ensures editTitle == old(editTitle) && isEditing == old(isEditing)
      ensures title == old(title) && url == old(url) && isEditingProp == old(isEditingProp)
    {
      editUrl := value;
    }

    /** `handleSubmit`: trims both fields, refuses a blank one, prefixes the
        scheme, and on a url the validity test accepts calls `onEdit` (the
        `Edited` outcome) and closes the editor. Nothing else changes. */
    method HandleSubmit(isValidUrl: string -> bool) returns (outcome: SubmitOutcome)
      modifies this
      ensures outcome == SubmitResult(old(editTitle), old(editUrl), isValidUrl)
      ensures isEditing == (if outcome.Edited? then false else old(isEditing))
      ensures editTitle == old(editTitle) && editUrl == old(editUrl)
      ensures title == old(title) && url == old(url) && isEditingProp == old(isEditingProp)
    {
      TrimEmptyIffBlank(editTitle);
      TrimEmptyIffBlank(editUrl);
      var trimmedTitle := Trim(editTitle);
      var trimmedUrl := Trim(editUrl);
      if trimmedTitle == [] {
        return TitleEmpty;
      }
      if trimmedUrl == [] {
        return UrlEmpty;
      }
      if !HasHttpScheme(trimmedUrl) {
        trimmedUrl := "https://" + trimmedUrl;
      }
      if isValidUrl(trimmedUrl) {
        outcome := Edited(trimmedTitle, trimmedUrl);
        isEditing := false;
      } else {
        outcome := InvalidUrl;
      }
    }

    /** `handleKeyPress`: Enter without Shift submits; any other key does
        nothing (`None`). */
    method HandleKeyPress(key: string, shiftKey: bool, isValidUrl: string -> bool) returns (outcome: Option<SubmitOutcome>)
      modifies this
      ensures outcome.Some? <==> key == "Enter" && !shiftKey
      ensures outcome.Some? ==> outcome.value == SubmitResult(old(editTitle), old(editUrl), isValidUrl)
      ensures isEditing == (if outcome.Some? && outcome.value.Edited? then false else old(isEditing))
      ensures editTitle == old(editTitle) && editUrl == old(editUrl)
      ensures title == old(title) && url == old(url) && isEditingProp == old(isEditingProp)
    {
      if key == "Enter" && !shiftKey {
        var submitted := HandleSubmit(isValidUrl);
        outcome := Some(submitted);
      } else {
        outcome := None;
      }
    }

    /** The cancel button: an untouched placeholder asks for its deletion and
        keeps its state; any other card closes the editor and drops the
        edits, going back to the props. */
    method Cancel() returns (deleteRequested: bool)
      modifies this
      ensures deleteRequested <==> IsPlaceholder(title, url)
      ensures deleteRequested ==> isEditing == old(isEditing) && editTitle == old(editTitle) && editUrl == old(editUrl)
      ensures !deleteRequested ==> !isEditing && editTitle == title && editUrl == url
      ensures title == old(title) && url == old(url) && isEditingProp == old(isEditingProp)
    {
      if title == PlaceholderTitle && url == PlaceholderUrl {
        deleteRequested := true;
      } else {
        deleteRequested := false;
        isEditing := false;
        editTitle := title;
        editUrl := url;
      }
    }
  }

  /** A submit that goes through hands over a non-blank title and a url with
      an explicit scheme, and submitting what was handed over again yields the
      same edit. */
  lemma {:induction false} SubmitIsStable(editTitle: string, editUrl: string, isValidUrl: string -> bool)
    requires SubmitResult(editTitle, editUrl, isValidUrl).Edited?
    ensures var r := SubmitResult(editTitle, editUrl, isValidUrl);
      && HasHttpScheme(r.url)
      && SubmitResult(r.title, r.url, isValidUrl) == r
  {
    var r := SubmitResult(editTitle, editUrl, isValidUrl);
    TrimEmptyIffBlank(editTitle);
    TrimEmptyIffBlank(editUrl);
    TitleIsStable(editTitle);
    UrlIsStable(editUrl);
    assert r == Edited(Trim(editTitle), NormalizeUrl(Trim(editUrl)));
    ResubmitEdited(r.title, r.url, isValidUrl);
  }

  /** A trimmed, non-blank title trims to itself. */
  lemma TitleIsStable(editTitle: string)
    requires !IsBlank(editTitle)
    ensures Trim(Trim(editTitle)) == Trim(editTitle) && Trim(editTitle) != []
  {
    TrimIdempotent(editTitle);
    TrimEmptyIffBlank(editTitle);
  }

  /** The normalised trimmed url trims and normalises to itself. */
  lemma UrlIsStable(editUrl: string)
    requires !IsBlank(editUrl)
    ensures var u := NormalizeUrl(Trim(editUrl));
      Trim(u) == u && u != [] && NormalizeUrl(u) == u
  {
    TrimIdempotent(editUrl);
    TrimEmptyIffBlank(editUrl);
    TrimOfNormalized(Trim(editUrl));
    NormalizeUrlIdempotent(Trim(editUrl));
  }

  /** Fields that trim and normalise to themselves submit as themselves. */
  lemma ResubmitEdited(title: string, url: string, isValidUrl: string -> bool)
    requires Trim(title) == title && title != []
    requires Trim(url) == url && url != [] && NormalizeUrl(url) == url && isValidUrl(url)
    ensures SubmitResult(title, url, isValidUrl) == Edited(title, url)
  {
    TrimEmptyIffBlank(title);
    TrimEmptyIffBlank(url);
  }

  /** Trimming leaves a normalised url of a trimmed url alone. */
  lemma {:induction false} TrimOfNormalized(u: string)
    requires u == Trim(u) && u != []
    ensures Trim(NormalizeUrl(u)) == NormalizeUrl(u)
  {
    if !HasHttpScheme(u) {
      var r := "https://" + u;
      assert r[|r| - 1] == u[|u| - 1];
      assert r[0] == 'h';
      TrimStartOfTrimmed(r);
      TrimEndOfTrimmed(r);
      assert TrimStart(r) == r && TrimEnd(r) == r;
      assert NormalizeUrl(u) == r;
    } else {
      assert NormalizeUrl(u) == u;
    }
  }
}
