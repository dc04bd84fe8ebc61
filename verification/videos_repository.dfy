/** `videosRepoitory` (src/videos/videosRepository.ts): the in-memory
    collection of videos and its five operations. The store is the list
    `database.videos`; each operation takes it and returns the new list, so
    every mutation of the original is an explicit result here. Records are
    plain objects because `create` stores whatever the create validator
    passed on, which holds no `id` unless the client sent one. */
module VideosRepository {
  import opened Wrappers
  import opened JsValue
  import opened ArrayUtils
  import opened VideoTypes

  /** `database.videos`, in insertion order. */
  type Store = seq<Object>

  /** `v.id === id`: a record matches only when its `id` is that number. */
  predicate HasId(rec: Object, id: int) {
    IdKey in rec && rec[IdKey] == JNum(id)
  }

  /** No record from position `k` on matches. */
  predicate NoneFrom(store: Store, id: int, k: nat) {
    forall j :: k <= j < |store| ==> !HasId(store[j], id)
  }

  /** No record before position `i` matches. */
  predicate NoneBefore(store: Store, id: int, i: nat)
    requires i <= |store|
  {
    forall j :: 0 <= j < i ==> !HasId(store[j], id)
  }

  /** The first position at or after `k` whose record matches. */
  function FindFrom(store: Store, id: int, k: nat): (r: Option<nat>)
    requires k <= |store|
    ensures r.None? <==> NoneFrom(store, id, k)
    ensures r.Some? ==> k <= r.value < |store| && HasId(store[r.value], id)
    ensures r.Some? ==> forall j :: k <= j < r.value ==> !HasId(store[j], id)
    decreases |store| - k
  {
    if k == |store| then None
    else if HasId(store[k], id) then Some(k)
    else FindFrom(store, id, k + 1)
  }

  /** The position of the first matching record, as `Array.prototype.find` sees it. */
  function FindIndex(store: Store, id: int): (r: Option<nat>)
    ensures r.None? <==> forall j :: 0 <= j < |store| ==> !HasId(store[j], id)
    ensures r.Some? ==> r.value < |store| && HasId(store[r.value], id)
    ensures r.Some? ==> forall j :: 0 <= j < r.value ==> !HasId(store[j], id)
  {
    FindFrom(store, id, 0)
  }

  /** `findAll`: the stored list itself. */
  function FindAll(store: Store): (r: Store)
    ensures |r| == |store| && forall i :: 0 <= i < |r| ==> r[i] == store[i]
  {
    store
  }

  /** `findById`: the first record with the id, or `null`. */
  function FindById(store: Store, id: int): (r: Option<Object>)
    ensures r.None? <==> forall j :: 0 <= j < |store| ==> !HasId(store[j], id)
    ensures r.Some? ==> HasId(r.value, id)
    ensures r.Some? ==>
      exists i :: 0 <= i < |store| && store[i] == r.value && NoneBefore(store, id, i)
  {
    match FindIndex(store, id)
    case None => None
    case Some(i) => Some(store[i])
  }

  /** `create`: appends the record as given and returns it. */
  function Create(store: Store, rec: Object): (r: (Store, Object))
    ensures |r.0| == |store| + 1 && r.0[|store|] == rec && r.1 == rec
    ensures forall i :: 0 <= i < |store| ==> r.0[i] == store[i]
  {
    (store + [rec], rec)
  }

  /** The six fields `update` assigns. */
  const UpdatedKeys: set<string> := {
    TitleKey, AuthorKey, AvailableResolutionsKey, CanBeDownloadedKey,
    MinAgeRestrictionKey, PublicationDateKey
  }

  /** The record after the six assignments `foundVideo.x = input.x`. An
      input without the key assigns `undefined`, which here is absence. */
  function Overwrite(rec: Object, input: Object): (r: Object)
    ensures forall k :: k in UpdatedKeys ==> (k in r <==> k in input)
    ensures forall k :: k in UpdatedKeys && k in input ==> r[k] == input[k]
    ensures forall k :: k !in UpdatedKeys ==> (k in r <==> k in rec)
    ensures forall k :: k !in UpdatedKeys && k in rec ==> r[k] == rec[k]
  {
    map k | k in (rec.Keys - UpdatedKeys) + (input.Keys * UpdatedKeys) ::
      if k in UpdatedKeys then input[k] else rec[k]
  }

  /** `update` never assigns the id or the creation time. */
  lemma KeptKeys()
    ensures IdKey !in UpdatedKeys && CreatedAtKey !in UpdatedKeys
  {
    assert |IdKey| == 2 && |CreatedAtKey| == 9;
    assert |TitleKey| == 5 && |AuthorKey| == 6 && |AvailableResolutionsKey| == 20;
    assert |CanBeDownloadedKey| == 15 && |MinAgeRestrictionKey| == 17 && |PublicationDateKey| == 15;
  }

  /** `update`: `false` and nothing changed when no record has the id;
      otherwise the first such record gets the six fields of the input. */
  function Update(store: Store, id: int, input: Object): (r: (Store, bool))
    ensures r.1 <==> exists j :: 0 <= j < |store| && HasId(store[j], id)
    ensures !r.1 ==> r.0 == store
    ensures |r.0| == |store|
    ensures r.1 ==> var i := FindIndex(store, id).value;
      && r.0[i] == Overwrite(store[i], input)
      && forall j :: 0 <= j < |store| && j != i ==> r.0[j] == store[j]
  {
    match FindIndex(store, id)
    case None => (store, false)
    case Some(i) => (store[i := Overwrite(store[i], input)], true)
  }

  /** The records without the id, in their order: the `filter` in `delete`. */
  function Without(store: Store, id: int): (r: Store)
    ensures |r| <= |store|
    ensures forall j :: 0 <= j < |r| ==> !HasId(r[j], id)
    ensures Elements(r) == set x | x in Elements(store) && !HasId(x, id)
  {
    if |store| == 0 then []
    else
      var pre, last := store[..|store| - 1], store[|store| - 1];
      assert pre + [last] == store;
      ElementsSnoc(pre, last);
      var p := Without(pre, id);
      if HasId(last, id) then p
      else
        ElementsSnoc(p, last);
        p + [last]
  }

  /** `delete`: drops every record with the id and tells whether there was one. */
  function Delete(store: Store, id: int): (r: (Store, bool))
    ensures r.1 <==> exists j :: 0 <= j < |store| && HasId(store[j], id)
    ensures !r.1 ==> r.0 == store
    ensures forall j :: 0 <= j < |r.0| ==> !HasId(r.0[j], id)
    ensures Elements(r.0) == set x | x in Elements(store) && !HasId(x, id)
    ensures r.0 == Without(store, id)
  {
    var rest := Without(store, id);
    if FindIndex(store, id).Some? then (rest, true)
    else
      WithoutNoMatch(store, id);
      (rest, false)
  }

  /* ---------------------------------------------------------------------
     Lemmas.
     --------------------------------------------------------------------- */

  /** Filtering a list without matches changes nothing. */
  lemma {:induction false} WithoutNoMatch(store: Store, id: int)
    requires forall j :: 0 <= j < |store| ==> !HasId(store[j], id)
    ensures Without(store, id) == store
  {
    if |store| > 0 {
      WithoutNoMatch(store[..|store| - 1], id);
      assert store[..|store| - 1] + [store[|store| - 1]] == store;
    }
  }

  /** Filtering keeps every record without the id as often as it occurs. */
  lemma {:induction false} WithoutKeepsCounts(store: Store, id: int)
    ensures forall x :: !HasId(x, id) ==> multiset(Without(store, id))[x] == multiset(store)[x]
  {
    if |store| > 0 {
      var pre, last := store[..|store| - 1], store[|store| - 1];
      WithoutKeepsCounts(pre, id);
      WithoutSnoc(pre, last, id);
      assert pre + [last] == store;
    }
  }

  /** Filtering one element further keeps that element exactly when it does
      not have the id. */
  lemma WithoutSnoc(s: Store, last: Object, id: int)
    ensures Without(s + [last], id) ==
      if HasId(last, id) then Without(s, id) else Without(s, id) + [last]
  {
    assert (s + [last])[..|s|] == s;
  }

  /** Filtering distributes over concatenation, so the records that stay
      keep their relative order. */
  lemma {:induction false} WithoutAppend(a: Store, b: Store, id: int)
    ensures Without(a + b, id) == Without(a, id) + Without(b, id)
  {
    if |b| > 0 {
      var pre, last := b[..|b| - 1], b[|b| - 1];
      var ap := a + pre;
      assert a + b == ap + [last];
      assert pre + [last] == b;
      WithoutAppend(a, pre, id);
      WithoutSnoc(ap, last, id);
      WithoutSnoc(pre, last, id);
      if !HasId(last, id) {
        assert Without(a, id) + Without(pre, id) + [last] ==
          Without(a, id) + (Without(pre, id) + [last]);
      }
    } else {
      assert a + b == a;
    }
  }

  /** After a delete, looking the id up finds nothing. */
  lemma DeleteThenFind(store: Store, id: int)
    ensures FindById(Delete(store, id).0, id).None?
  {
  }

  /** Deleting leaves records with other ids findable as before. */
  lemma DeleteKeepsOthers(store: Store, id: int, other: int)
    requires other != id
    ensures FindById(Delete(store, id).0, other) == FindById(store, other)
  {
    var rest := Delete(store, id).0;
    FindWithout(store, id, other);
  }

  /** Looking up another id in the filtered list finds what it found before. */
  lemma {:induction false} FindWithout(store: Store, id: int, other: int)
    requires other != id
    ensures FindById(Without(store, id), other) == FindById(store, other)
  {
    if |store| > 0 {
      var pre, last := store[..|store| - 1], store[|store| - 1];
      assert pre + [last] == store;
      FindWithout(pre, id, other);
      FindSnoc(pre, last, other);
      if !HasId(last, id) {
        FindSnoc(Without(pre, id), last, other);
      }
    }
  }

  /** Looking up in a list with one more record at the end. */
  lemma FindSnoc(store: Store, rec: Object, id: int)
    ensures FindById(store + [rec], id) ==
      if FindById(store, id).Some? then FindById(store, id)
      else if HasId(rec, id) then Some(rec) else None
  {
    var s := store + [rec];
    assert forall j :: 0 <= j < |store| ==> s[j] == store[j];
    match FindIndex(store, id)
    case None =>
      if HasId(rec, id) {
        assert s[|store|] == rec;
        assert FindIndex(s, id).Some?;
        assert FindIndex(s, id).value >= |store|;
      }
    case Some(i) =>
      assert FindIndex(s, id) == Some(i);
  }

  /** A created record is listed last by `findAll`, after all earlier ones. */
  lemma CreateThenFindAll(store: Store, rec: Object)
    ensures FindAll(Create(store, rec).0) == FindAll(store) + [rec]
  {
  }

  /** A created record that has an id no earlier record has is what
      `findById` returns for it. */
  lemma CreateThenFind(store: Store, rec: Object, id: int)
    requires HasId(rec, id)
    requires FindById(store, id).None?
    ensures FindById(Create(store, rec).0, id) == Some(rec)
  {
    FindSnoc(store, rec, id);
  }

  /** An update is seen by the next lookup of the same id, and the id and
      creation time stay as they were. */
  lemma UpdateThenFind(store: Store, id: int, input: Object)
    requires FindById(store, id).Some?
    ensures var found := FindById(store, id).value;
      FindById(Update(store, id, input).0, id) == Some(Overwrite(found, input))
  {
    var i := FindIndex(store, id).value;
    var s := Update(store, id, input).0;
    assert HasId(s[i], id);
    assert forall j :: 0 <= j < i ==> s[j] == store[j];
    assert FindIndex(s, id) == Some(i);
  }

  /** Updating one record leaves lookups of other ids unchanged. */
  lemma UpdateKeepsOthers(store: Store, id: int, other: int, input: Object)
    requires other != id
    ensures FindById(Update(store, id, input).0, other) == FindById(store, other)
  {
    var s := Update(store, id, input).0;
    if FindIndex(store, id).Some? {
      var i := FindIndex(store, id).value;
      assert forall j :: 0 <= j < |s| ==> (HasId(s[j], other) <==> HasId(store[j], other));
      match FindIndex(store, other)
      case None =>
      case Some(k) =>
        assert s[k] == store[k];
        assert FindIndex(s, other) == Some(k);
    }
  }

  /** Updating twice with the same input is updating once. */
  lemma UpdateIdempotent(store: Store, id: int, input: Object)
    ensures var once := Update(store, id, input).0;
      Update(once, id, input) == (once, Update(store, id, input).1)
  {
    var once := Update(store, id, input).0;
    if FindIndex(store, id).Some? {
      var i := FindIndex(store, id).value;
      assert HasId(once[i], id);
      assert forall j :: 0 <= j < i ==> once[j] == store[j];
      assert FindIndex(once, id) == Some(i);
      var rec := Overwrite(once[i], input);
      assert rec == once[i];
      assert once[i := rec] == once;
    }
  }
}
