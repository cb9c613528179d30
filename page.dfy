/**
 * The state of the bookmarks page and its handlers. Each handler runs to
 * completion; `addBookmark` and `deleteBookmark` are cut at their `await`
 * into the part that issues the request and the part that handles its outcome.
 */
module Page {

  import opened Optional
  import opened Text
  import opened Bookmarks
  import Reconcile
  import Search
  import Display

  /** The add-bookmark form's two inputs. */
  datatype Form = Form(title: string, url: string)

  /** The `name` attribute of the input that changed. */
  datatype FormField = TitleField | UrlField

  /** The record `addBookmark` hands to the backend's insert. */
  datatype InsertRow = InsertRow(userId: UserId, title: string, url: string)

  const FillBothMessage := "Please fill in both title and URL"
  const InvalidUrlMessage := "Please enter a valid URL (include http:// or https://)"
  const AddFailedMessage := "Failed to add bookmark. Please try again."
  const DeleteFailedMessage := "Failed to delete bookmark. Please try again."

  /**
   * The checks `addBookmark` makes before sending anything: both fields must
   * be non-blank, and then the url as typed (untrimmed) must be accepted by
   * the URL constructor, here `isValidUrl`.
   */
  function FormError(form: Form, isValidUrl: string -> bool): (r: Option<string>)
    ensures r.None? <==> !AllWhitespace(form.title) && !AllWhitespace(form.url) && isValidUrl(form.url)
    ensures r == Some(FillBothMessage) <==> AllWhitespace(form.title) || AllWhitespace(form.url)
    ensures !AllWhitespace(form.title) && !AllWhitespace(form.url) && !isValidUrl(form.url) ==> r == Some(InvalidUrlMessage)
    ensures r.Some? ==> r.value != ""
  {
    if Trim(form.title) == "" || Trim(form.url) == "" then Some(FillBothMessage)
    else if !isValidUrl(form.url) then Some(InvalidUrlMessage)
    else None
  }

  /**
   * A form whose fields both have text, as validation demands, sends a title
   * and a url that still have text after trimming.
   */
  lemma ValidFormTrimsToText(form: Form)
    requires !AllWhitespace(form.title) && !AllWhitespace(form.url)
    ensures !AllWhitespace(Trim(form.title)) && !AllWhitespace(Trim(form.url))
  {
    TrimKeepsText(form.title);
    TrimKeepsText(form.url);
  }

  /** Every field of the page's state at once. */
  datatype PageState = PageState(
    bookmarks: seq<Bookmark>,
    newBookmark: Form,
    isAdding: bool,
    error: string,
    searchTerm: string,
    deletingId: Option<Id>,
    faviconErrors: map<Id, bool>)

  class BookmarksPage {
    var bookmarks: seq<Bookmark>
    var newBookmark: Form
    var isAdding: bool
    var error: string
    var searchTerm: string
    var deletingId: Option<Id>
    var faviconErrors: map<Id, bool>

    function State(): PageState
      reads this
    {
      PageState(bookmarks, newBookmark, isAdding, error, searchTerm, deletingId, faviconErrors)
    }

    /** The initial values of the page's `useState` hooks. */
    constructor ()
      ensures State() == PageState([], Form("", ""), false, "", "", None, map[])
    {
      bookmarks := [];
      newBookmark := Form("", "");
      isAdding := false;
      error := "";
      searchTerm := "";
      deletingId := None;
      faviconErrors := map[];
    }

    /** The list the cards are drawn from, kept equal to `Search.Filtered` by the filter effect. */
    function FilteredBookmarks(): (r: seq<Bookmark>)
      reads this
      ensures forall b :: b in r <==> b in bookmarks && (AllWhitespace(searchTerm) || Search.Matches(b, Lower(searchTerm)))
    {
      Search.FilteredMembers(bookmarks, searchTerm);
      Search.Filtered(bookmarks, searchTerm)
    }

    /** The submit button and both inputs are disabled while an insert is in flight. */
    predicate SubmitDisabled()
      reads this
    {
      isAdding
    }

    /** A card's delete button is disabled while a delete of its id is in flight. */
    predicate DeleteDisabled(id: Id)
      reads this
    {
      deletingId == Some(id)
    }

    /** The card's icon failed to load, so it shows the title's initial instead. */
    predicate FaviconFailed(id: Id)
      reads this
    {
      id in faviconErrors && faviconErrors[id]
    }

    /** A card shows its favicon when the url has a hostname and no load error was recorded for it. */
    predicate ShowsFavicon(b: Bookmark, hostname: string -> Option<string>)
      reads this
    {
      Display.FaviconUrl(b.url, hostname).Some? && !FaviconFailed(b.id)
    }

    /** Typing in the search box. */
    method SetSearchTerm(term: string)
      modifies this
      ensures State() == old(State()).(searchTerm := term)
    {
      searchTerm := term;
    }

    /** `handleInputChange`: the named field takes the new value and the error is cleared. */
    method HandleInputChange(field: FormField, value: string)
      modifies this
      ensures State() == old(State()).(
        newBookmark := if field == TitleField then old(newBookmark).(title := value) else old(newBookmark).(url := value),
        error := "")
    {
      if field == TitleField {
        newBookmark := newBookmark.(title := value);
      } else {
        newBookmark := newBookmark.(url := value);
      }
      error := "";
    }

    /** The initial fetch's response arrives. */
    method ReceiveFetch(res: Reconcile.FetchResult)
      modifies this
      ensures State() == old(State()).(bookmarks := Reconcile.ApplyFetch(old(bookmarks), res))
    {
      bookmarks := Reconcile.ApplyFetch(bookmarks, res);
    }

    /** A realtime INSERT event arrives. */
    method ReceiveInsert(row: Bookmark)
      modifies this
      ensures State() == old(State()).(bookmarks := Reconcile.ApplyInsert(old(bookmarks), row))
      ensures row.id in Ids(bookmarks)
    {
      bookmarks := Reconcile.ApplyInsert(bookmarks, row);
    }

    /** A realtime DELETE event arrives. */
    method ReceiveDelete(p: Reconcile.DeletePayload)
      modifies this
      ensures State() == old(State()).(bookmarks := Reconcile.ApplyDelete(old(bookmarks), p))
      ensures Reconcile.DeleteTarget(p).Some? ==> Reconcile.DeleteTarget(p).value !in Ids(bookmarks)
    {
      Reconcile.DeleteFacts(bookmarks, p);
      bookmarks := Reconcile.ApplyDelete(bookmarks, p);
    }

    /**
     * `addBookmark` up to its `await`: on a validation error only the message
     * is set and nothing is sent; otherwise the submit control is disabled,
     * the error cleared and the trimmed fields sent with the user's id.
     */
    method SubmitBookmark(userId: UserId, isValidUrl: string -> bool) returns (request: Option<InsertRow>)
      modifies this
      ensures FormError(old(newBookmark), isValidUrl).Some? ==>
        request.None? && State() == old(State()).(error := FormError(old(newBookmark), isValidUrl).value)
      ensures FormError(old(newBookmark), isValidUrl).None? ==>
        && request == Some(InsertRow(userId, Trim(old(newBookmark).title), Trim(old(newBookmark).url)))
        && State() == old(State()).(isAdding := true, error := "")
      ensures request.Some? ==> SubmitDisabled()
    {
      var form := newBookmark;
      var err := FormError(form, isValidUrl);
      if err.Some? {
        error := err.value;
        request := None;
      } else {
        isAdding := true;
        error := "";
        request := Some(InsertRow(userId, Trim(form.title), Trim(form.url)));
      }
    }

    /**
     * `addBookmark` after its `await`: success empties the form, failure keeps
     * it and reports the error; either way the submit control is enabled again
     * and the list is left to the INSERT event.
     */
    method CompleteAdd(succeeded: bool)
      modifies this
      ensures succeeded ==> State() == old(State()).(newBookmark := Form("", ""), isAdding := false)
      ensures !succeeded ==> State() == old(State()).(error := AddFailedMessage, isAdding := false)
      ensures !SubmitDisabled() && bookmarks == old(bookmarks)
    {
      if succeeded {
        newBookmark := Form("", "");
      } else {
        error := AddFailedMessage;
      }
      isAdding := false;
    }

    /**
     * `deleteBookmark` up to its `await`: a declined confirmation changes
     * nothing and sends nothing; otherwise the card's button is disabled and
     * a delete of `id` is sent.
     */
    method RequestDelete(id: Id, confirmed: bool) returns (request: Option<Id>)
      modifies this
      ensures !confirmed ==> request.None? && State() == old(State())
      ensures confirmed ==> request == Some(id) && State() == old(State()).(deletingId := Some(id))
      ensures confirmed ==> DeleteDisabled(id)
    {
      if !confirmed {
        request := None;
        return;
      }
      deletingId := Some(id);
      request := Some(id);
    }

    /**
     * `deleteBookmark` after its `await`: the `finally` clears the in-flight
     * id on success and on failure alike; a failure raises an alert. The list
     * is left to the DELETE event.
     */
    method CompleteDelete(succeeded: bool) returns (alert: Option<string>)
      modifies this
      ensures State() == old(State()).(deletingId := None)
      ensures alert == if succeeded then None else Some(DeleteFailedMessage)
      ensures forall id :: !DeleteDisabled(id)
    {
      alert := if succeeded then None else Some(DeleteFailedMessage);
      deletingId := None;
    }

    /** `handleFaviconError`: records the failure for this id only. */
    method HandleFaviconError(id: Id)
      modifies this
      ensures State() == old(State()).(faviconErrors := old(faviconErrors)[id := true])
      ensures FaviconFailed(id)
      ensures forall b: Bookmark, hostname: string -> Option<string> :: b.id == id ==> !ShowsFavicon(b, hostname)
      ensures forall other :: other != id ==> FaviconFailed(other) == old(FaviconFailed(other))
    {
      faviconErrors := faviconErrors[id := true];
    }
  }

  /**
   * An insert in flight on a page showing only `a`, echoed by the realtime
   * INSERT before its own response arrives: the new row is shown in front,
   * the response leaves the list alone, and a second delivery of the event
   * is a no-op.
   */
  method AddScenario(page: BookmarksPage, a: Bookmark, b: Bookmark)
    requires page.bookmarks == [a] && page.isAdding && a.id != b.id
    modifies page
  {
    assert b.id !in Ids([a]);
    page.ReceiveInsert(b);
    assert page.bookmarks == [b, a];
    page.CompleteAdd(true);
    assert page.newBookmark == Form("", "") && !page.isAdding;
    page.ReceiveInsert(b);
    assert page.bookmarks == [b, a];
  }

  /**
   * A delete whose realtime DELETE arrives before its own response: the entry
   * is gone, and neither the response nor a second delivery of the event changes that.
   * The event carries only `old.id`, as the backend sends it; a non-zero id is truthy.
   */
  method DeleteScenario(a: Bookmark)
    requires a.id != 0
  {
    var page := new BookmarksPage();
    page.ReceiveFetch(Reconcile.Fetched(Some([a])));
    var request := page.RequestDelete(a.id, true);
    assert request == Some(a.id) && page.DeleteDisabled(a.id);
    var p := Reconcile.DeletePayload(Some(a.id), None);
    page.ReceiveDelete(p);
    var alert := page.CompleteDelete(true);
    assert alert.None? && page.deletingId.None?;
    var before := page.bookmarks;
    page.ReceiveDelete(p);
    Reconcile.DeleteIdempotent([a], p);
    assert page.bookmarks == before;
    assert a.id !in Ids(page.bookmarks);
  }

  /**
   * The other order for an insert in flight on a page showing only `a`: its
   * response arrives first and leaves the list alone, and the realtime
   * INSERT that follows puts the new row in front.
   */
  method AddResponseFirstScenario(page: BookmarksPage, a: Bookmark, b: Bookmark)
    requires page.bookmarks == [a] && page.isAdding && a.id != b.id
    modifies page
  {
    page.CompleteAdd(true);
    assert page.bookmarks == [a] && !page.isAdding;
    assert b.id !in Ids([a]);
    page.ReceiveInsert(b);
    assert page.bookmarks == [b, a];
  }

  /**
   * The other order for a delete: its response arrives first, which clears
   * the in-flight id but keeps the entry; the realtime DELETE that follows,
   * carrying only `old.id`, removes it.
   */
  method DeleteResponseFirstScenario(a: Bookmark)
    requires a.id != 0
  {
    var page := new BookmarksPage();
    page.ReceiveFetch(Reconcile.Fetched(Some([a])));
    var request := page.RequestDelete(a.id, true);
    var alert := page.CompleteDelete(true);
    assert alert.None? && page.deletingId.None? && page.bookmarks == [a];
    page.ReceiveDelete(Reconcile.DeletePayload(Some(a.id), None));
    assert a.id !in Ids(page.bookmarks);
  }
}
