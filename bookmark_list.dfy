/**
 * The `BookmarkList` component's state and its handlers. Each asynchronous
 * handler is split at its `await`: a `Begin…` method does what happens before
 * the store is called (checks, the optimistic write) and returns what the
 * handler remembers, and a `Complete…` method takes the store's reply and does
 * what happens after it. Remote change events and other handlers may run
 * between the two calls, and the model admits every such interleaving.
 */
module Component {
  import opened Text
  import opened Types
  import opened Urls
  import opened Updaters
  import opened View

  /** What the add form's error slot can show. */
  datatype Notice = DuplicateUrl | InvalidUrl | SaveFailed

  /** The text the form shows for each notice. */
  function NoticeText(n: Notice): (r: string)
    ensures r != []
  {
    match n
    case DuplicateUrl => "This URL is already in your library!"
    case InvalidUrl => "Please enter a valid URL"
    case SaveFailed => "Failed to save bookmark. Check your connection."
  }

  /** Each notice reads differently, so the text tells the user which one it is. */
  lemma NoticeTextInjective(a: Notice, b: Notice)
    requires NoticeText(a) == NoticeText(b)
    ensures a == b
  {
    var text := NoticeText(a);
    var last := text[|text| - 1];
    match a
    case DuplicateUrl => assert last == '!';
    case InvalidUrl => assert last == 'L';
    case SaveFailed => assert last == '.';
  }

  /**
   * Why a write did not go through: the url was refused by the URL
   * constructor (a `TypeError`), or the store or the network reported an error.
   */
  datatype Failure = UrlRejected | StoreError

  /** The outcome of an insert or an update followed by `.select()`. */
  datatype Reply = Failed(cause: Failure) | Returned(rows: seq<Bookmark>)

  /** The outcome of a delete. */
  datatype DeleteReply = DeleteFailed | Deleted

  /** What `handleSubmit` keeps across its `await`. */
  datatype PendingAdd = PendingAdd(tempId: string, savedTitle: string, savedUrl: string)

  /** What `handleUpdate` keeps across its `await`: the entry as it was before the edit. */
  datatype PendingEdit = PendingEdit(original: Bookmark)

  /**
   * When an add's reply keeps the list consistent: the first returned row is
   * durable, and it is not listed yet while the provisional entry still is.
   * This holds when the store hands back the title and url it was sent, since
   * an INSERT echo of that row that arrived first has then taken the
   * provisional entry's place (`OptimisticAddThenEcho`). The model does not
   * link an INSERT event to the add it echoes, so the condition is stated
   * here; `DivergentReplyListedTwice` shows the list it guards against.
   */
  predicate AddReplyFresh(s: seq<Bookmark>, tempId: string, reply: Reply) {
    reply.Returned? && reply.rows != [] ==>
      !IsTemp(reply.rows[0].id) && (!HasId(s, reply.rows[0].id) || !HasId(s, tempId))
  }

  /** What the store is trusted to do with an update: the first returned row keeps the id. */
  predicate EditReplyKeepsId(id: string, reply: Reply) {
    reply.Returned? && reply.rows != [] ==> reply.rows[0].id == id
  }

  /** The reply to an add keeps the list consistent when the store behaves as trusted. */
  lemma ReplaceProvisionalConsistent(s: seq<Bookmark>, next: nat, tempId: string, row: Bookmark)
    requires Consistent(s, next)
    requires !IsTemp(row.id) && (!HasId(s, row.id) || !HasId(s, tempId))
    ensures Consistent(ReplaceById(s, tempId, row), next)
  {
    if HasId(s, tempId) {
      ReplaceByIdConsistent(s, next, tempId, row);
    }
  }

  /**
   * A returned row whose title differs from what the provisional entry holds
   * is not taken for its echo: the INSERT event adds it at the front, and
   * the reply then turns the provisional entry into a second copy of it.
   */
  lemma DivergentReplyListedTwice(t: Bookmark, y: Bookmark)
    requires IsTemp(t.id) && !IsTemp(y.id) && y.url == t.url && y.title != t.title
    ensures RemoteInsert([t], y) == [y, t]
    ensures !AddReplyFresh([y, t], t.id, Returned([y]))
    ensures ReplaceById([y, t], t.id, y) == [y, y] && !DistinctIds([y, y])
  {
    assert !HasId([t], y.id) by {
      assert [t][0].id != y.id;
    }
    assert !IsEchoOf([t][0], y);
    assert [y] + [t] == [y, t];
    assert [y, t][0].id == y.id && [y, t][1].id == t.id;
    assert [y, y][0].id == [y, y][1].id;
  }

  class BookmarkList {
    const userId: string
    var bookmarks: seq<Bookmark>
    var title: string
    var url: string
    var error: Option<Notice>
    var editingId: Option<string>
    var editTitle: string
    var editUrl: string
    var searchQuery: string
    var sortBy: SortMode
    /** Stands in for `Date.now()`: the counter of the next provisional id. */
    var nextTemp: nat

    /**
     * The list has distinct ids, holds no provisional id the counter has yet
     * to hand out and at most one provisional entry per url; the entry being
     * edited is durable.
     */
    ghost predicate Valid()
      reads this
    {
      Consistent(bookmarks, nextTemp) && (editingId.Some? ==> !IsTemp(editingId.value))
    }

    /** The component mounted with the rows the server fetched. */
    constructor (initialBookmarks: seq<Bookmark>, userId: string)
      ensures this.userId == userId && bookmarks == initialBookmarks
      ensures title == "" && url == "" && error == None
      ensures editingId == None && editTitle == "" && editUrl == ""
      ensures searchQuery == "" && sortBy == DateDesc && nextTemp == 0
      ensures DistinctIds(initialBookmarks) && (forall i :: 0 <= i < |initialBookmarks| ==> !IsTemp(initialBookmarks[i].id))
              ==> Valid()
    {
      this.userId := userId;
      bookmarks := initialBookmarks;
      title, url, error := "", "", None;
      editingId, editTitle, editUrl := None, "", "";
      searchQuery, sortBy, nextTemp := "", DateDesc, 0;
      new;
      forall i, k | 0 <= i < |initialBookmarks| && !IsTemp(initialBookmarks[i].id)
        ensures initialBookmarks[i].id != TempId(k)
      {
        assert IsTemp(TempId(k));
      }
    }

    method SetTitle(value: string)
      modifies this`title
      ensures title == value
    {
      title := value;
    }

    method SetUrl(value: string)
      modifies this`url
      ensures url == value
    {
      url := value;
    }

    method SetEditTitle(value: string)
      modifies this`editTitle
      ensures editTitle == value
    {
      editTitle := value;
    }

    method SetEditUrl(value: string)
      modifies this`editUrl
      ensures editUrl == value
    {
      editUrl := value;
    }

    method SetSearchQuery(value: string)
      modifies this`searchQuery
      ensures searchQuery == value
    {
      searchQuery := value;
    }

    method SetSortBy(mode: SortMode)
      modifies this`sortBy
      ensures sortBy == mode
    {
      sortBy := mode;
    }

    /** A remote INSERT event; a durable row keeps the component valid. */
    method OnRemoteInsert(row: Bookmark)
      modifies this`bookmarks
      ensures bookmarks == RemoteInsert(old(bookmarks), row)
      ensures old(Valid()) ==> DistinctIds(bookmarks)
      ensures old(Valid()) && !IsTemp(row.id) ==> Valid()
    {
      if Valid() {
        RemoteInsertConsistent(bookmarks, nextTemp, row);
      }
      bookmarks := RemoteInsert(bookmarks, row);
    }

    /** A remote DELETE event. */
    method OnRemoteDelete(id: string)
      modifies this`bookmarks
      ensures bookmarks == RemoveById(old(bookmarks), id)
      ensures old(Valid()) ==> Valid()
    {
      if Valid() {
        RemoveByIdConsistent(bookmarks, nextTemp, id);
      }
      bookmarks := RemoveById(bookmarks, id);
    }

    /** A remote UPDATE event; a durable row keeps the component valid. */
    method OnRemoteUpdate(row: Bookmark)
      modifies this`bookmarks
      ensures bookmarks == RemoteUpdate(old(bookmarks), row)
      ensures old(Valid()) && !IsTemp(row.id) ==> Valid()
    {
      if Valid() && !IsTemp(row.id) {
        ReplaceByIdConsistent(bookmarks, nextTemp, row.id, row);
      }
      bookmarks := RemoteUpdate(bookmarks, row);
    }

    /**
     * `handleSubmit` up to its `await`: a duplicate url is refused with a
     * notice and nothing else changes; otherwise a provisional entry with the
     * trimmed title and the normalised url is put in front and the form is
     * cleared.
     */
    method BeginSubmit(now: int) returns (pending: Option<PendingAdd>)
      modifies this`bookmarks, this`title, this`url, this`error, this`nextTemp
      ensures var processed := NormalizeUrl(old(url));
        if HasUrl(old(bookmarks), processed) then
          && pending == None && error == Some(DuplicateUrl)
          && bookmarks == old(bookmarks) && title == old(title) && url == old(url)
          && nextTemp == old(nextTemp)
        else
          var tempId := TempId(old(nextTemp));
          && pending == Some(PendingAdd(tempId, old(title), processed))
          && bookmarks == [Bookmark(tempId, userId, Trim(old(title)), processed, None, None, now)] + old(bookmarks)
          && title == "" && url == "" && error == None
          && nextTemp == old(nextTemp) + 1
      ensures HasUrl(old(bookmarks), NormalizeUrl(old(url))) ==>
        error.Some? && NoticeText(error.value) == "This URL is already in your library!"
      ensures old(Valid()) ==> Valid()
    {
      error := None;
      var processed := NormalizeUrl(url);
      if HasUrl(bookmarks, processed) {
        error := Some(DuplicateUrl);
        return None;
      }
      var provisional := Bookmark(TempId(nextTemp), userId, Trim(title), processed, None, None, now);
      pending := Some(PendingAdd(provisional.id, title, processed));
      PutProvisional(provisional);
    }

    /**
     * The optimistic write of `handleSubmit`: the provisional entry goes in
     * front, the counter moves on and the form is cleared.
     */
    method PutProvisional(provisional: Bookmark)
      modifies this`bookmarks, this`title, this`url, this`nextTemp
      ensures bookmarks == [provisional] + old(bookmarks)
      ensures title == "" && url == "" && nextTemp == old(nextTemp) + 1
      ensures old(Valid()) && provisional.id == TempId(old(nextTemp)) && !HasUrl(old(bookmarks), provisional.url) ==> Valid()
    {
      if Valid() && provisional.id == TempId(nextTemp) && !HasUrl(bookmarks, provisional.url) {
        PrependProvisionalConsistent(bookmarks, nextTemp, provisional);
      }
      bookmarks := [provisional] + bookmarks;
      nextTemp := nextTemp + 1;
      title, url := "", "";
    }

    /**
     * `handleSubmit` after its `await`: a failure drops the provisional entry,
     * puts the typed title and the normalised url back in the form and shows
     * a notice; returned rows replace the provisional entry in place by the
     * first of them; no rows leave the provisional entry where it is.
     */
    method CompleteSubmit(pending: PendingAdd, reply: Reply)
      modifies this`bookmarks, this`title, this`url, this`error
      ensures match reply
        case Failed(cause) =>
          && bookmarks == RemoveById(old(bookmarks), pending.tempId)
          && title == pending.savedTitle && url == pending.savedUrl
          && error == Some(if cause == UrlRejected then InvalidUrl else SaveFailed)
        case Returned(rows) =>
          && bookmarks == (if rows != [] then ReplaceById(old(bookmarks), pending.tempId, rows[0]) else old(bookmarks))
          && title == old(title) && url == old(url) && error == old(error)
      ensures old(Valid()) && AddReplyFresh(old(bookmarks), pending.tempId, reply) ==> Valid()
    {
      match reply
      case Failed(cause) =>
        DropProvisional(pending, cause);
      case Returned(rows) =>
        if rows != [] {
          if Valid() && AddReplyFresh(bookmarks, pending.tempId, reply) {
            ReplaceProvisionalConsistent(bookmarks, nextTemp, pending.tempId, rows[0]);
          }
          bookmarks := ReplaceById(bookmarks, pending.tempId, rows[0]);
        }
    }

    /** The rollback of `handleSubmit`'s `catch`. */
    method DropProvisional(pending: PendingAdd, cause: Failure)
      modifies this`bookmarks, this`title, this`url, this`error
      ensures bookmarks == RemoveById(old(bookmarks), pending.tempId)
      ensures title == pending.savedTitle && url == pending.savedUrl
      ensures error == Some(if cause == UrlRejected then InvalidUrl else SaveFailed)
      ensures NoticeText(error.value)
              == if cause == UrlRejected then "Please enter a valid URL" else "Failed to save bookmark. Check your connection."
      ensures old(Valid()) ==> Valid()
    {
      if Valid() {
        RemoveByIdConsistent(bookmarks, nextTemp, pending.tempId);
      }
      bookmarks := RemoveById(bookmarks, pending.tempId);
      title, url := pending.savedTitle, pending.savedUrl;
      error := Some(if cause == UrlRejected then InvalidUrl else SaveFailed);
    }

    /** `handleEdit`: opens the edit form, except on a provisional entry. */
    method BeginEdit(b: Bookmark)
      modifies this`editingId, this`editTitle, this`editUrl
      ensures IsTemp(b.id) ==> editingId == old(editingId) && editTitle == old(editTitle) && editUrl == old(editUrl)
      ensures !IsTemp(b.id) ==> editingId == Some(b.id) && editTitle == b.title && editUrl == b.url
      ensures old(Valid()) ==> Valid()
    {
      if IsTemp(b.id) {
        return;
      }
      editingId, editTitle, editUrl := Some(b.id), b.title, b.url;
    }

    /** `cancelEdit`: closes the edit form. */
    method CancelEdit()
      modifies this`editingId, this`editTitle, this`editUrl
      ensures editingId == None && editTitle == "" && editUrl == ""
      ensures old(Valid()) ==> Valid()
    {
      editingId, editTitle, editUrl := None, "", "";
    }

    /**
     * `handleUpdate` up to its `await`. With no entry being edited (or the
     * empty id, which JavaScript reads as false) nothing happens. Otherwise
     * the notice is cleared; when no entry has the id nothing else happens;
     * when one does, every entry with the id becomes that entry with the
     * trimmed title and the normalised url, the edit form closes, and the
     * entry as it was is returned as the snapshot to roll back to.
     */
    method BeginUpdate() returns (pending: Option<PendingEdit>)
      modifies this`bookmarks, this`error, this`editingId
      ensures old(editingId).None? || old(editingId).value == "" ==>
        pending == None && bookmarks == old(bookmarks) && error == old(error) && editingId == old(editingId)
      ensures old(editingId).Some? && old(editingId).value != "" ==>
        var id := old(editingId).value;
        && error == None
        && match FindById(old(bookmarks), id)
           case None =>
             pending == None && bookmarks == old(bookmarks) && editingId == old(editingId)
           case Some(original) =>
             && pending == Some(PendingEdit(original))
             && bookmarks == ReplaceById(old(bookmarks), id, original.(title := Trim(editTitle), url := NormalizeUrl(editUrl)))
             && editingId == None
      ensures pending.Some? ==> pending.value.original.id == old(editingId).value && pending.value.original in old(bookmarks)
      ensures old(Valid()) ==> Valid()
    {
      if editingId.None? || editingId.value == "" {
        return None;
      }
      var id := editingId.value;
      error := None;
      match FindById(bookmarks, id)
      case None =>
        return None;
      case Some(original) =>
        PutEdit(original.(title := Trim(editTitle), url := NormalizeUrl(editUrl)));
        pending := Some(PendingEdit(original));
    }

    /** The optimistic write of `handleUpdate`: every entry with the edited record's id becomes that record. */
    method PutEdit(edited: Bookmark)
      modifies this`bookmarks, this`editingId
      ensures bookmarks == ReplaceById(old(bookmarks), edited.id, edited)
      ensures editingId == None
      ensures old(Valid()) && !IsTemp(edited.id) ==> Valid()
    {
      if Valid() && !IsTemp(edited.id) {
        ReplaceByIdConsistent(bookmarks, nextTemp, edited.id, edited);
      }
      bookmarks := ReplaceById(bookmarks, edited.id, edited);
      editingId := None;
    }

    /**
     * `handleUpdate` after its `await`: returned rows overwrite the entry by
     * the first of them; no rows or a failure put the snapshot back.
     */
    method CompleteUpdate(pending: PendingEdit, reply: Reply)
      modifies this`bookmarks
      ensures reply.Returned? && reply.rows != [] ==>
        bookmarks == ReplaceById(old(bookmarks), pending.original.id, reply.rows[0])
      ensures !(reply.Returned? && reply.rows != []) ==>
        bookmarks == ReplaceById(old(bookmarks), pending.original.id, pending.original)
      ensures old(Valid()) && !IsTemp(pending.original.id) && EditReplyKeepsId(pending.original.id, reply) ==> Valid()
    {
      var row := if reply.Returned? && reply.rows != [] then reply.rows[0] else pending.original;
      if Valid() && !IsTemp(pending.original.id) && EditReplyKeepsId(pending.original.id, reply) {
        ReplaceByIdConsistent(bookmarks, nextTemp, pending.original.id, row);
      }
      bookmarks := ReplaceById(bookmarks, pending.original.id, row);
    }

    /**
     * `handleDelete` after its `await` (a declined confirmation never calls
     * the store): the entry goes only once the store reports success.
     */
    method FinishDelete(id: string, reply: DeleteReply)
      modifies this`bookmarks
      ensures reply == DeleteFailed ==> bookmarks == old(bookmarks)
      ensures reply == Deleted ==> bookmarks == RemoveById(old(bookmarks), id)
      ensures old(Valid()) ==> Valid()
    {
      if reply == Deleted {
        if Valid() {
          RemoveByIdConsistent(bookmarks, nextTemp, id);
        }
        bookmarks := RemoveById(bookmarks, id);
      }
    }

    /**
     * `filteredAndSortedBookmarks`: sorted by the chosen mode, made of listed
     * entries only; all of them when the query is blank, otherwise exactly
     * the matching ones.
     */
    function Displayed(hostname: string -> string): (r: seq<Bookmark>)
      reads this
      ensures SortedBy(r, sortBy, hostname)
      ensures multiset(r) <= multiset(bookmarks)
      ensures IsAllWhitespace(searchQuery) ==> multiset(r) == multiset(bookmarks)
      ensures !IsAllWhitespace(searchQuery) ==> forall b: Bookmark ::
        multiset(r)[b] == if MatchesQuery(b, ToLower(searchQuery), hostname) then multiset(bookmarks)[b] else 0
    {
      FilterByQuerySubset(bookmarks, searchQuery, hostname);
      FilteredAndSorted(bookmarks, searchQuery, sortBy, hostname)
    }
  }
}
