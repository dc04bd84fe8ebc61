/** The five handlers of `videosRouter` (src/videos/videosRouter.ts), as
    pure decisions: each takes the store and the request's parts and gives
    the reply and the new store. The path's `:id` arrives already converted
    by `Number(req.params.id)`: `Some(n)` for an integer, `None` for `NaN`
    or a fraction, neither of which equals any stored integer id. */
module VideosRouter {
  import opened Wrappers
  import opened JsValue
  import opened VideoTypes
  import opened ValidationErrorBuilder
  import opened VideosValidation
  import opened VideosRepository
  import opened ArrayUtils
  import opened JsCoercion

  /** The status codes the handlers send. */
  datatype Status = Ok | Created | NoContent | BadRequest | NotFound {
    function Code(): int {
      match this
      case Ok => 200
      case Created => 201
      case NoContent => 204
      case BadRequest => 400
      case NotFound => 404
    }
  }

  /** What a reply carries: nothing (`sendStatus`), one video, the list,
      or `{errorsMessages}`. */
  datatype Body = NoBody | One(video: Object) | Many(videos: Store) | Errors(errorsMessages: seq<FieldError>)

  datatype Reply = Reply(status: Status, body: Body)

  /** A reply and the store after the request. */
  datatype Handled = Handled(reply: Reply, store: Store)

  /** `Number(req.params.id)` reduced to what a lookup can use. */
  type PathId = Option<int>

  /** Lookup with a converted path id; `NaN` finds nothing. */
  function Find(store: Store, id: PathId): (r: Option<Object>)
    ensures id.None? ==> r.None?
    ensures id.Some? ==> r == FindById(store, id.value)
  {
    if id.None? then None else FindById(store, id.value)
  }

  /** `GET /`: the whole list. */
  function GetVideos(store: Store): (h: Handled)
    ensures h.store == store
    ensures h.reply == Reply(Ok, Many(FindAll(store)))
  {
    Handled(Reply(Ok, Many(FindAll(store))), store)
  }

  /** `GET /:id`: the first video with the id, or 404. */
  function GetVideo(store: Store, id: PathId): (h: Handled)
    ensures h.store == store
    ensures h.reply.status == Ok <==> Find(store, id).Some?
    ensures h.reply.status == Ok ==> h.reply.body == One(Find(store, id).value)
    ensures h.reply.status != Ok ==> h.reply == Reply(NotFound, NoBody)
  {
    match Find(store, id)
    case None => Handled(Reply(NotFound, NoBody), store)
    case Some(v) => Handled(Reply(Ok, One(v)), store)
  }

  /** `POST /`: the create validator's errors as 400, or the sanitized body
      appended as it is and sent back with 201. */
  function PostVideo(store: Store, body: Object): (h: Handled)
    ensures h.reply.status == Created <==> AcceptableCreate(body)
    ensures h.reply.status != Created ==>
      h.reply == Reply(BadRequest, Errors(CreateErrors(body))) && h.store == store
    ensures h.reply.status == Created ==>
      var rec := ValidateCreate(body).cleanData;
      h.reply == Reply(Created, One(rec)) && h.store == store + [rec]
  {
    var v := ValidateCreate(body);
    if |v.errors| != 0 then Handled(Reply(BadRequest, Errors(v.errors)), store)
    else
      var (s, rec) := Create(store, v.cleanData);
      Handled(Reply(Created, One(rec)), s)
  }

  /** `PUT /:id`: the update validator runs before any lookup; a valid body
      then updates the video, 204, or finds none, 404. */
  function PutVideo(store: Store, id: PathId, body: Object): (h: Handled)
    ensures h.reply.status == BadRequest <==> !AcceptableUpdate(body)
    ensures h.reply.status == BadRequest ==>
      h.reply.body == Errors(UpdateErrors(body)) && h.store == store
    ensures h.reply.status == NoContent <==> AcceptableUpdate(body) && Find(store, id).Some?
    ensures h.reply.status == NoContent ==>
      h.store == Update(store, id.value, ValidateUpdate(body).cleanData).0
    ensures h.reply.status != NoContent ==> h.store == store
    ensures h.reply.status in {BadRequest, NoContent, NotFound}
  {
    var v := ValidateUpdate(body);
    if |v.errors| != 0 then Handled(Reply(BadRequest, Errors(v.errors)), store)
    else if id.None? then Handled(Reply(NotFound, NoBody), store)
    else
      var (s, updated) := Update(store, id.value, v.cleanData);
      Handled(Reply(if updated then NoContent else NotFound, NoBody), s)
  }

  /** `DELETE /:id`: 204 when some video had the id, 404 otherwise. */
  function DeleteVideo(store: Store, id: PathId): (h: Handled)
    ensures h.reply.status == NoContent <==> Find(store, id).Some?
    ensures h.reply.status != NoContent ==> h.reply == Reply(NotFound, NoBody) && h.store == store
    ensures id.Some? ==> h.store == Delete(store, id.value).0
  {
    if id.None? then Handled(Reply(NotFound, NoBody), store)
    else
      var (s, deleted) := Delete(store, id.value);
      Handled(Reply(if deleted then NoContent else NotFound, NoBody), s)
  }

  /* ---------------------------------------------------------------------
     Lemmas.
     --------------------------------------------------------------------- */

  /** A rejected body never touches the store: a 400 from POST or PUT
      leaves it as it was. */
  lemma InvalidInputLeavesStore(store: Store, id: PathId, body: Object)
    ensures PostVideo(store, body).reply.status == BadRequest ==> PostVideo(store, body).store == store
    ensures PutVideo(store, id, body).reply.status == BadRequest ==> PutVideo(store, id, body).store == store
  {
  }

  /** After a rejected PUT, reading the video gives the same reply as before. */
  lemma InvalidPutThenGet(store: Store, id: PathId, body: Object, other: PathId)
    requires !AcceptableUpdate(body)
    ensures GetVideo(PutVideo(store, id, body).store, other) == GetVideo(store, other)
  {
  }

  /** Deleting a video and then reading it gives 404. */
  lemma DeleteThenGet(store: Store, id: PathId)
    ensures GetVideo(DeleteVideo(store, id).store, id).reply.status == NotFound
  {
    if id.Some? {
      DeleteThenFind(store, id.value);
    }
  }

  /** A created video is listed last by `GET /`. */
  lemma PostThenList(store: Store, body: Object)
    requires AcceptableCreate(body)
    ensures GetVideos(PostVideo(store, body).store).reply.body ==
      Many(store + [ValidateCreate(body).cleanData])
  {
  }

  /** The create validator passes on the body's keys and no others, so a
      body without `id` is stored without one and no `GET /:id` finds it:
      every lookup gives what it gave before. */
  lemma PostedVideoHasNoId(store: Store, body: Object, id: PathId)
    requires AcceptableCreate(body) && IdKey !in body
    ensures IdKey !in ValidateCreate(body).cleanData
    ensures GetVideo(PostVideo(store, body).store, id).reply == GetVideo(store, id).reply
  {
    var rec := ValidateCreate(body).cleanData;
    assert PostVideo(store, body).store == store + [rec];
    if id.Some? {
      assert !HasId(rec, id.value);
      FindSnoc(store, rec, id.value);
    }
  }

  /** A valid PUT on a stored video leaves it a well-formed video, with the
      same id and creation time and the validated fields of the body. */
  lemma ValidPutKeepsVideo(store: Store, id: int, body: Object)
    requires AcceptableUpdate(body)
    requires FindById(store, id).Some? && FromRecord(FindById(store, id).value).Some?
    ensures var after := PutVideo(store, Some(id), body).store;
      var prev := FromRecord(FindById(store, id).value).value;
      && FindById(after, id).Some?
      && FromRecord(FindById(after, id).value).Some?
      && var v := FromRecord(FindById(after, id).value).value;
      && v.id == prev.id && v.createdAt == prev.createdAt
      && v.title == Trim(body[TitleKey].s) && v.author == Trim(body[AuthorKey].s)
      && v.canBeDownloaded == body[CanBeDownloadedKey].b
      && v.publicationDate == body[PublicationDateKey].s
  {
    var clean := ValidateUpdate(body).cleanData;
    var found := FindById(store, id).value;
    assert PutVideo(store, Some(id), body).store == Update(store, id, clean).0;
    UpdateThenFind(store, id, clean);
    OverwriteDecodes(found, clean, body);
  }

  /** Overwriting a decodable record with the sanitized fields of an
      accepted update body leaves it decodable. */
  lemma OverwriteDecodes(found: Object, clean: Object, body: Object)
    requires AcceptableUpdate(body) && FromRecord(found).Some?
    requires clean == ValidateUpdate(body).cleanData
    ensures var rec := Overwrite(found, clean);
      var prev := FromRecord(found).value;
      && FromRecord(rec).Some?
      && var v := FromRecord(rec).value;
      && v.id == prev.id && v.createdAt == prev.createdAt
      && v.title == Trim(body[TitleKey].s) && v.author == Trim(body[AuthorKey].s)
      && v.canBeDownloaded == body[CanBeDownloadedKey].b
      && v.publicationDate == body[PublicationDateKey].s
  {
    var rec := Overwrite(found, clean);
    var given := body[AvailableResolutionsKey].items;
    var items := Unique(given);
    KeptKeys();
    assert IdKey in found && CreatedAtKey in found;
    assert rec[IdKey] == found[IdKey];
    assert rec[CreatedAtKey] == found[CreatedAtKey];
    assert rec[TitleKey] == JStr(Trim(body[TitleKey].s));
    assert rec[AuthorKey] == JStr(Trim(body[AuthorKey].s));
    assert rec[CanBeDownloadedKey] == body[CanBeDownloadedKey];
    assert rec[MinAgeRestrictionKey] == body[MinAgeRestrictionKey];
    assert rec[PublicationDateKey] == body[PublicationDateKey];
    assert rec[AvailableResolutionsKey] == JArr(items);
    forall i | 0 <= i < |items|
      ensures IsResolutionTag(items[i])
    {
      assert items[i] in given;
    }
    assert ResolutionsFromJson(items).Some?;
    assert FromRecord(rec).Some?;
    var v := FromRecord(rec).value;
    assert v.id == found[IdKey].n && v.createdAt == found[CreatedAtKey].s;
    assert v.title == Trim(body[TitleKey].s) && v.author == Trim(body[AuthorKey].s);
  }

  /** `PUT /:id` uses the corrected date check: a body accepted in every
      other respect, whose date is wrapped in a one-element array, passes
      the check as written at videosValidation.ts:188, yet the handler
      answers 400 with the date error and leaves the store alone. */
  lemma ArrayDateRejected(store: Store, id: PathId, b: Object)
    requires AcceptableUpdate(b)
    ensures var m := b[PublicationDateKey := JArr([b[PublicationDateKey]])];
      && DateFailureAsWritten(m) == Returns(None)
      && PutVideo(store, id, m).reply.status == BadRequest
      && PutVideo(store, id, m).store == store
      && DateFailure(m) == Some(NotIsoDateString)
  {
    SingletonArrayText(b[PublicationDateKey]);
  }
}
