/** The document detail page of the frontend
    (`frontend/src/app/components/pdf-detail-view/pdf-detail-view.component.ts`): an edit
    mode, the pending update with its tag list, and the snapshot of the metadata loaded from
    the backend, which "revert" restores. */
module DetailView {
  import opened Base
  import opened Text

  /** The metadata the page loads; a JSON `null` field is `None`. */
  datatype PdfDetails = PdfDetails(
    id: string,
    title: Option<string>,
    author: Option<string>,
    comments: Option<string>,
    tags: seq<string>,
    picture: Option<string>)

  /** The pending update the edit form is bound to. */
  datatype UpdatePdf = UpdatePdf(
    id: string,
    title: Option<string>,
    author: Option<string>,
    comments: Option<string>,
    tags: seq<string>,
    picture: Option<string>)

  /** What the page does when it starts. */
  datatype InitAction = NavigateTo(path: string) | FetchMetadata(id: string)

  const OVERVIEW: string := "/overview"

  /** The pending update right after the metadata arrived: the loaded fields, with a copy
      of the tag list. */
  function Loaded(v: PdfDetails): (u: UpdatePdf)
    ensures u.id == v.id && u.tags == v.tags && u.picture == v.picture
    ensures u.title == v.title && u.author == v.author && u.comments == v.comments
  {
    UpdatePdf(v.id, v.title, v.author, v.comments, v.tags, v.picture)
  }

  // ---------------------------------------------------------------------------
  // add and remove
  // ---------------------------------------------------------------------------

  /** The tag that `add` takes from the chip input: the value, or `''` when there is none,
      trimmed as JavaScript's `trim` does. */
  function TagOf(input: Option<string>): (tag: string)
    ensures input.None? ==> tag == []
    ensures tag == [] <==> AllWhitespace(input.GetOr(""), IsJsWhitespace)
    ensures tag != [] ==> !IsJsWhitespace(tag[0]) && !IsJsWhitespace(tag[|tag| - 1])
    ensures exists i :: SliceAt(input.GetOr(""), tag, i)
  {
    Trim(input.GetOr(""), IsJsWhitespace)
  }

  /** The tag list after `add`: unchanged when the trimmed input is empty or already in
      the list (compared exactly), otherwise extended by it at the end. */
  function WithTagAdded(tags: seq<string>, input: Option<string>): (r: seq<string>)
    ensures TagOf(input) == [] || TagOf(input) in tags ==> r == tags
    ensures TagOf(input) != [] && TagOf(input) !in tags ==> r == tags + [TagOf(input)]
  {
    var value := TagOf(input);
    if value != [] && value !in tags then tags + [value] else tags
  }

  /** The position of the first occurrence of `tag`, or -1: `Array.prototype.indexOf`. */
  function IndexOf(tags: seq<string>, tag: string): (i: int)
    ensures -1 <= i < |tags|
    ensures i == -1 <==> tag !in tags
    ensures i >= 0 ==> tags[i] == tag && tag !in tags[..i]
  {
    if tags == [] then -1
    else if tags[0] == tag then 0
    else
      var i := IndexOf(tags[1..], tag);
      assert tags[1..] == tags[1..];
      if i == -1 then -1
      else
        assert tags[..i + 1] == [tags[0]] + tags[1..][..i];
        i + 1
  }

  /** The tag list after `remove`: the first occurrence of `tag` spliced out, if any. */
  function WithTagRemoved(tags: seq<string>, tag: string): (r: seq<string>)
    ensures tag !in tags ==> r == tags
    ensures tag in tags ==> |r| == |tags| - 1
    ensures multiset(r) == multiset(tags) - multiset{tag}
  {
    var i := IndexOf(tags, tag);
    if i < 0 then
      assert multiset(tags)[tag] == 0;
      tags
    else
      assert tags == tags[..i] + [tags[i]] + tags[i + 1..];
      tags[..i] + tags[i + 1..]
  }

  /** Adding a tag twice is adding it once. */
  lemma AddIdempotent(tags: seq<string>, input: Option<string>)
    ensures WithTagAdded(WithTagAdded(tags, input), input) == WithTagAdded(tags, input)
  {
    var value := TagOf(input);
    if value != [] && value !in tags {
      assert value in tags + [value];
    }
  }

  /** `add` keeps a list without duplicates free of them. */
  lemma AddKeepsNoDuplicates(tags: seq<string>, input: Option<string>)
    requires NoDuplicates(tags)
    ensures NoDuplicates(WithTagAdded(tags, input))
  {
    var value := TagOf(input);
    if value != [] && value !in tags {
      var r := tags + [value];
      forall i, j | 0 <= i < j < |r| ensures r[i] != r[j] {
        if j == |tags| { assert r[i] == tags[i]; }
      }
    }
  }

  /** The tag `add` appends is never blank and never starts or ends with whitespace. */
  lemma AddedTagIsTrimmed(tags: seq<string>, input: Option<string>)
    ensures WithTagAdded(tags, input) != tags ==>
      var t := WithTagAdded(tags, input)[|tags|];
      t != [] && !IsJsWhitespace(t[0]) && !IsJsWhitespace(t[|t| - 1])
  {
    var value := TagOf(input);
    if WithTagAdded(tags, input) != tags {
      assert WithTagAdded(tags, input) == tags + [value];
      assert (tags + [value])[|tags|] == value;
    }
  }

  /** `remove` keeps a list without duplicates free of them, and then takes every
      occurrence of the tag away. */
  lemma RemoveKeepsNoDuplicates(tags: seq<string>, tag: string)
    requires NoDuplicates(tags)
    ensures NoDuplicates(WithTagRemoved(tags, tag))
    ensures tag !in WithTagRemoved(tags, tag)
  {
    var i := IndexOf(tags, tag);
    if i >= 0 {
      var r := tags[..i] + tags[i + 1..];
      forall a, b | 0 <= a < b < |r| ensures r[a] != r[b] {
        SpliceIndex(tags, i, a);
        SpliceIndex(tags, i, b);
      }
      forall k | 0 <= k < |r| ensures r[k] != tag {
        SpliceIndex(tags, i, k);
      }
    }
  }

  /** `WithTagRemoved` is the splice at `IndexOf`. */
  lemma RemovedIsSplice(tags: seq<string>, tag: string)
    ensures IndexOf(tags, tag) < 0 ==> WithTagRemoved(tags, tag) == tags
    ensures IndexOf(tags, tag) >= 0 ==>
      WithTagRemoved(tags, tag) == tags[..IndexOf(tags, tag)] + tags[IndexOf(tags, tag) + 1..]
  {
  }

  /** Where the elements of a list with position `i` spliced out come from. */
  lemma SpliceIndex(s: seq<string>, i: int, k: int)
    requires 0 <= i < |s| && 0 <= k < |s| - 1
    ensures (s[..i] + s[i + 1..])[k] == s[if k < i then k else k + 1]
  {
  }

  /** Removing a tag just added gives the list back. */
  lemma RemoveUndoesAdd(tags: seq<string>, input: Option<string>)
    requires TagOf(input) != [] && TagOf(input) !in tags
    ensures WithTagRemoved(WithTagAdded(tags, input), TagOf(input)) == tags
  {
    var value := TagOf(input);
    var r := tags + [value];
    assert IndexOf(r, value) == |tags| by {
      assert r[..|tags|] == tags;
    }
    assert r[..|tags|] == tags;
  }

  // ---------------------------------------------------------------------------
  // revert
  // ---------------------------------------------------------------------------

  /** The pending update after `revertEditChanges`: title, author and comments from the
      snapshot (`""` for a missing snapshot or field), the tags a copy of the snapshot's
      (none without one); `id` and `picture` stay as they are. */
  function Reverted(u: UpdatePdf, details: Option<PdfDetails>): (r: UpdatePdf)
    ensures r.id == u.id && r.picture == u.picture
    ensures details.None? ==> r.title == Some("") && r.author == Some("") &&
                              r.comments == Some("") && r.tags == []
    ensures details.Some? ==>
      && r.title == Some(details.value.title.GetOr(""))
      && r.author == Some(details.value.author.GetOr(""))
      && r.comments == Some(details.value.comments.GetOr(""))
      && r.tags == details.value.tags
  {
    var author := if details.Some? then details.value.author.GetOr("") else "";
    var title := if details.Some? then details.value.title.GetOr("") else "";
    var tags := if details.Some? then details.value.tags else [];
    var comments := if details.Some? then details.value.comments.GetOr("") else "";
    u.(author := Some(author), title := Some(title), tags := tags, comments := Some(comments))
  }

  /** Reverting discards every edit of title, author, comments and tags. */
  lemma RevertDiscardsEdits(u: UpdatePdf, title: Option<string>, author: Option<string>,
                            comments: Option<string>, tags: seq<string>, details: Option<PdfDetails>)
    ensures Reverted(u.(title := title, author := author, comments := comments, tags := tags), details)
         == Reverted(u, details)
  {
  }

  /** Reverting twice is reverting once. */
  lemma RevertIdempotent(u: UpdatePdf, details: Option<PdfDetails>)
    ensures Reverted(Reverted(u, details), details) == Reverted(u, details)
  {
  }

  /** Right after loading, reverting changes only missing text fields, which become `""`. */
  lemma RevertAfterLoad(v: PdfDetails)
    ensures Reverted(Loaded(v), Some(v)).tags == v.tags
    ensures v.title.Some? && v.author.Some? && v.comments.Some? ==>
      Reverted(Loaded(v), Some(v)) == Loaded(v)
  {
  }

  // ---------------------------------------------------------------------------
  // The component
  // ---------------------------------------------------------------------------

  class PdfDetailView {
    var editMode: bool
    var pdfUpdate: UpdatePdf
    var pdfId: Option<string>
    var pdfDetails: Option<PdfDetails>

    constructor()
      ensures !editMode && pdfId.None? && pdfDetails.None?
      ensures pdfUpdate == UpdatePdf("", Some(""), Some(""), Some(""), [], Some(""))
    {
      editMode := false;
      pdfUpdate := UpdatePdf("", Some(""), Some(""), Some(""), [], Some(""));
      pdfId := None;
      pdfDetails := None;
    }

    /** `ngOnInit`: without an id in the route the page leaves for the overview and fetches
        nothing; otherwise it fetches the document's metadata. */
    method NgOnInit(routeId: Option<string>) returns (action: InitAction)
      modifies this
      ensures pdfId == routeId
      ensures routeId.None? ==> action == NavigateTo(OVERVIEW)
      ensures routeId.Some? ==> action == FetchMetadata(routeId.value)
      ensures editMode == old(editMode) && pdfUpdate == old(pdfUpdate) && pdfDetails == old(pdfDetails)
    {
      pdfId := routeId;
      if routeId.None? {
        return NavigateTo(OVERVIEW);
      }
      return FetchMetadata(routeId.value);
    }

    /** The metadata arrived: it becomes the snapshot and the pending update. */
    method OnMetadataLoaded(value: PdfDetails)
      modifies this
      ensures pdfDetails == Some(value) && pdfUpdate == Loaded(value)
      ensures editMode == old(editMode) && pdfId == old(pdfId)
    {
      pdfDetails := Some(value);
      pdfUpdate := Loaded(value);
    }

    /** The metadata request failed: the page leaves for the overview and keeps its state. */
    method OnMetadataError() returns (action: InitAction)
      ensures action == NavigateTo(OVERVIEW)
    {
      return NavigateTo(OVERVIEW);
    }

    method RevertEditChanges()
      modifies this
      ensures pdfUpdate == Reverted(old(pdfUpdate), pdfDetails)
      ensures editMode == old(editMode) && pdfId == old(pdfId) && pdfDetails == old(pdfDetails)
    {
      var u := pdfUpdate;
      u := u.(author := Some(if pdfDetails.Some? then pdfDetails.value.author.GetOr("") else ""));
      u := u.(title := Some(if pdfDetails.Some? then pdfDetails.value.title.GetOr("") else ""));
      pdfUpdate := u;
      if pdfDetails.Some? {
        pdfUpdate := pdfUpdate.(tags := pdfDetails.value.tags);
      } else {
        pdfUpdate := pdfUpdate.(tags := []);
      }
      pdfUpdate := pdfUpdate.(comments := Some(if pdfDetails.Some? then pdfDetails.value.comments.GetOr("") else ""));
    }

    /** `toggleEditMode`: leaving edit mode reverts the pending update; entering it
        changes nothing else. */
    method ToggleEditMode()
      modifies this
      ensures editMode == !old(editMode)
      ensures old(editMode) ==> pdfUpdate == Reverted(old(pdfUpdate), pdfDetails)
      ensures !old(editMode) ==> pdfUpdate == old(pdfUpdate)
      ensures pdfId == old(pdfId) && pdfDetails == old(pdfDetails)
    {
      if editMode {
        RevertEditChanges();
      }
      editMode := !editMode;
    }

    /** `cancelEdit`: revert and leave edit mode. */
    method CancelEdit()
      modifies this
      ensures !editMode && pdfUpdate == Reverted(old(pdfUpdate), pdfDetails)
      ensures pdfId == old(pdfId) && pdfDetails == old(pdfDetails)
    {
      RevertEditChanges();
      editMode := false;
    }

    /** `saveEdit`: sends the pending update; edit mode ends only when the backend accepts it. */
    method SaveEdit(accepted: bool) returns (request: UpdatePdf)
      modifies this
      ensures request == old(pdfUpdate)
      ensures editMode == (old(editMode) && !accepted)
      ensures pdfUpdate == old(pdfUpdate) && pdfId == old(pdfId) && pdfDetails == old(pdfDetails)
    {
      request := pdfUpdate;
      if accepted {
        editMode := false;
      }
    }

    /** `add`: the trimmed chip input joins the tags unless it is empty or already there. */
    method Add(input: Option<string>)
      modifies this
      ensures pdfUpdate == old(pdfUpdate).(tags := WithTagAdded(old(pdfUpdate.tags), input))
      ensures NoDuplicates(old(pdfUpdate.tags)) ==> NoDuplicates(pdfUpdate.tags)
      ensures editMode == old(editMode) && pdfId == old(pdfId) && pdfDetails == old(pdfDetails)
    {
      if NoDuplicates(pdfUpdate.tags) {
        AddKeepsNoDuplicates(pdfUpdate.tags, input);
      }
      var value := TagOf(input);
      if value != [] && value !in pdfUpdate.tags {
        pdfUpdate := pdfUpdate.(tags := pdfUpdate.tags + [value]);
      }
    }

    /** `remove`: the first occurrence of the tag leaves the list, if there is one. */
    method Remove(tag: string)
      modifies this
      ensures pdfUpdate == old(pdfUpdate).(tags := WithTagRemoved(old(pdfUpdate.tags), tag))
      ensures NoDuplicates(old(pdfUpdate.tags)) ==> NoDuplicates(pdfUpdate.tags) && tag !in pdfUpdate.tags
      ensures editMode == old(editMode) && pdfId == old(pdfId) && pdfDetails == old(pdfDetails)
    {
      var tags := pdfUpdate.tags;
      if NoDuplicates(tags) {
        RemoveKeepsNoDuplicates(tags, tag);
      }
      var index := IndexOf(tags, tag);
      RemovedIsSplice(tags, tag);
      if index >= 0 {
        pdfUpdate := pdfUpdate.(tags := tags[..index] + tags[index + 1..]);
      }
    }
  }
}
