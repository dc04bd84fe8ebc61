/** `createVideoValidation` and `updateVideoValidation`
    (src/videos/videosValidation.ts).

    Both take the request body and return `{cleanData, errors}`. Checks run
    field by field in a fixed order; every presence, type, length or
    emptiness failure records one error and ends validation at once, so no
    later field is looked at. The one exception is the resolution-tag loop:
    its `return` only leaves the `forEach` callback, so it records one error
    per distinct non-tag element and validation carries on. */
module VideosValidation {
  import opened Wrappers
  import opened JsValue
  import opened Constants
  import opened ArrayUtils
  import opened NumbersUtils
  import opened ValidationErrorBuilder
  import opened VideoTypes
  import opened DateFormat
  import opened JsCoercion
  import opened ValueSet

  /** `{cleanData, errors}`; `cleanData` is returned even when there are errors. */
  datatype ValidationResult = ValidationResult(cleanData: Object, errors: seq<FieldError>)

  /** The keys whose values the validators rewrite in `cleanData`. */
  const SanitizedKeys: set<string> := {TitleKey, AuthorKey, AvailableResolutionsKey}

  /* ---------------------------------------------------------------------
     What an acceptable body looks like, stated field by field.
     --------------------------------------------------------------------- */

  /** A present string whose trimmed form is at most `maxLength` long. */
  predicate AcceptableText(data: Object, key: string, maxLength: nat) {
    key in data && data[key].JStr? && Utf16Length(Trim(data[key].s)) <= maxLength
  }

  /** A present, non-empty array all of whose elements are resolution tags. */
  predicate AcceptableResolutions(data: Object) {
    && AvailableResolutionsKey in data
    && data[AvailableResolutionsKey].JArr?
    && |data[AvailableResolutionsKey].items| > 0
    && forall i :: 0 <= i < |data[AvailableResolutionsKey].items| ==>
         IsResolutionTag(data[AvailableResolutionsKey].items[i])
  }

  /** `null`, or a number from 1 to 18. */
  predicate AcceptableAge(v: Json) {
    v.JNull? || (v.JNum? && InRange(v.n, MinAgeRestriction, MaxAgeRestriction))
  }

  /** A body the create validator accepts. */
  predicate AcceptableCreate(input: Object) {
    && AcceptableText(input, TitleKey, MaxTitleLength)
    && AcceptableText(input, AuthorKey, MaxAuthorLength)
    && AcceptableResolutions(input)
  }

  /** A body the update validator accepts. */
  predicate AcceptableUpdate(input: Object) {
    && AcceptableCreate(input)
    && CanBeDownloadedKey in input && input[CanBeDownloadedKey].JBool?
    && MinAgeRestrictionKey in input && AcceptableAge(input[MinAgeRestrictionKey])
    && PublicationDateKey in input && input[PublicationDateKey].JStr?
    && IsIsoDateString(input[PublicationDateKey].s)
  }

  /* ---------------------------------------------------------------------
     Each field's checks, in the order the original makes them: the first
     check that fails names the error kind.
     --------------------------------------------------------------------- */

  /** `title` / `author`: not present, not a string, too long once trimmed. */
  function TextFailure(data: Object, key: string, maxLength: nat): (k: Option<MessageKind>)
    ensures k.None? <==> AcceptableText(data, key, maxLength)
    ensures key !in data ==> k == Some(NotExist)
    ensures key in data && !data[key].JStr? ==> k == Some(NotString)
    ensures key in data && data[key].JStr? && Utf16Length(Trim(data[key].s)) > maxLength ==>
      k == Some(MaxLength(maxLength))
  {
    if key !in data then Some(NotExist)
    else if !data[key].JStr? then Some(NotString)
    else if Utf16Length(Trim(data[key].s)) > maxLength then Some(MaxLength(maxLength))
    else None
  }

  /** `availableResolutions` before its elements are looked at: not present,
      not an array, empty. */
  function ShapeFailure(data: Object): (k: Option<MessageKind>)
    ensures k.None? <==>
      AvailableResolutionsKey in data && data[AvailableResolutionsKey].JArr?
      && |data[AvailableResolutionsKey].items| > 0
    ensures AvailableResolutionsKey !in data ==> k == Some(NotExist)
    ensures AvailableResolutionsKey in data && !data[AvailableResolutionsKey].JArr? ==>
      k == Some(NotArray)
    ensures AvailableResolutionsKey in data && data[AvailableResolutionsKey] == JArr([]) ==>
      k == Some(Empty)
  {
    if AvailableResolutionsKey !in data then Some(NotExist)
    else if !data[AvailableResolutionsKey].JArr? then Some(NotArray)
    else if |data[AvailableResolutionsKey].items| == 0 then Some(Empty)
    else None
  }

  /** `canBeDownloaded`: not present, not a boolean (`null` included). */
  function CanBeDownloadedFailure(data: Object): (k: Option<MessageKind>)
    ensures k.None? <==> CanBeDownloadedKey in data && data[CanBeDownloadedKey].JBool?
    ensures CanBeDownloadedKey !in data ==> k == Some(NotExist)
    ensures CanBeDownloadedKey in data && !data[CanBeDownloadedKey].JBool? ==> k == Some(NotBoolean)
  {
    if CanBeDownloadedKey !in data then Some(NotExist)
    else if !data[CanBeDownloadedKey].JBool? then Some(NotBoolean)
    else None
  }

  /** `minAgeRestriction`: not present, neither `null` nor a number, a number
      out of range. */
  function AgeFailure(data: Object): (k: Option<MessageKind>)
    ensures k.None? <==> MinAgeRestrictionKey in data && AcceptableAge(data[MinAgeRestrictionKey])
    ensures MinAgeRestrictionKey !in data ==> k == Some(NotExist)
    ensures MinAgeRestrictionKey in data ==>
      var v := data[MinAgeRestrictionKey];
      && (!v.JNull? && !v.JNum? ==> k == Some(NotNumberOrNull))
      && (v.JNum? && !InRange(v.n, MinAgeRestriction, MaxAgeRestriction) ==>
            k == Some(OutOfRange(MinAgeRestriction, MaxAgeRestriction)))
  {
    if MinAgeRestrictionKey !in data then Some(NotExist)
    else
      var v := data[MinAgeRestrictionKey];
      if !v.JNull? && !v.JNum? then Some(NotNumberOrNull)
      else if v.JNum? && OutRange(v.n, MinAgeRestriction, MaxAgeRestriction) then
        Some(OutOfRange(MinAgeRestriction, MaxAgeRestriction))
      else None
  }

  /** `publicationDate`: not present, not an ISO date-time string. */
  function DateFailure(data: Object): (k: Option<MessageKind>)
    ensures k.None? <==>
      PublicationDateKey in data && data[PublicationDateKey].JStr?
      && IsIsoDateString(data[PublicationDateKey].s)
    ensures PublicationDateKey !in data ==> k == Some(NotExist)
    ensures k.Some? && PublicationDateKey in data ==> k == Some(NotIsoDateString)
  {
    if PublicationDateKey !in data then Some(NotExist)
    else if !(data[PublicationDateKey].JStr? && IsIsoDateString(data[PublicationDateKey].s)) then
      Some(NotIsoDateString)
    else None
  }

  /** The error the tag loop records for each element that is not a tag. */
  function BadTagError(): FieldError {
    Build(AvailableResolutionsKey, HasIncorrectValue)
  }

  /** The distinct primitive values among `items` that are not tags. */
  function BadPrimitives(items: seq<Json>): set<Json> {
    set x | x in Elements(items) && IsPrimitive(x) && !IsResolutionTag(x)
  }

  /** How many errors the tag loop records: one per distinct non-tag
      primitive, and one per array or object, since `new Set` keeps every
      one of those and none is a tag. */
  function BadTagCount(items: seq<Json>): nat {
    |BadPrimitives(items)| + CompositeCount(items)
  }

  /** `n` tag errors. */
  function BadTagErrors(n: nat): (es: seq<FieldError>)
    ensures |es| == n && forall i :: 0 <= i < n ==> es[i] == BadTagError()
  {
    seq(n, _ => BadTagError())
  }

  /** The `forEach` over the deduplicated array, element by element: one
      error per element that is not a tag. Its `return` leaves only the
      callback, so the loop never stops early. */
  function TagErrors(items: seq<Json>): (es: seq<FieldError>)
    ensures |es| <= |items|
    ensures forall i :: 0 <= i < |es| ==> es[i] == BadTagError()
  {
    if |items| == 0 then []
    else
      TagErrors(items[..|items| - 1])
        + (if IsResolutionTag(items[|items| - 1]) then [] else [BadTagError()])
  }

  /** Errors of the three checks after the tag loop in the update validator,
      which again stop at the first failure. */
  function FlagErrors(data: Object): (es: seq<FieldError>)
    ensures |es| <= 1
    ensures es == [] <==>
      CanBeDownloadedFailure(data).None? && AgeFailure(data).None? && DateFailure(data).None?
  {
    match CanBeDownloadedFailure(data)
    case Some(k) => [Build(CanBeDownloadedKey, k)]
    case None =>
      match AgeFailure(data)
      case Some(k) => [Build(MinAgeRestrictionKey, k)]
      case None =>
        match DateFailure(data)
        case Some(k) => [Build(PublicationDateKey, k)]
        case None => []
  }

  /* ---------------------------------------------------------------------
     The steps that build `cleanData`.
     --------------------------------------------------------------------- */

  /** One fail-fast step: carry on with the rewritten data, or stop with one error. */
  datatype Step = Next(data: Object) | Halt(data: Object, error: FieldError)

  /** A text field's checks. A string value is replaced by its trimmed form
      before the length test, so it is trimmed in `cleanData` even when too long. */
  function CheckText(data: Object, key: string, maxLength: nat): (st: Step)
    ensures st.data.Keys == data.Keys
    ensures forall k :: k in data && k != key ==> st.data[k] == data[k]
    ensures key in data && data[key].JStr? ==> st.data[key] == JStr(Trim(data[key].s))
    ensures !(key in data && data[key].JStr?) ==> st.data == data
    ensures st.Next? <==> AcceptableText(data, key, maxLength)
    ensures st.Halt? ==> st.error == Build(key, TextFailure(data, key, maxLength).value)
  {
    var d := if key in data && data[key].JStr? then data[key := JStr(Trim(data[key].s))] else data;
    match TextFailure(data, key, maxLength)
    case Some(kind) => Halt(d, Build(key, kind))
    case None => Next(d)
  }

  /** The resolution list's presence, type and emptiness checks; then the
      list is replaced by `arrayUtils.unique` of it. */
  function CheckResolutions(data: Object): (st: Step)
    ensures st.data.Keys == data.Keys
    ensures forall k :: k in data && k != AvailableResolutionsKey ==> st.data[k] == data[k]
    ensures st.Halt? ==> st.data == data
    ensures st.Halt? <==> ShapeFailure(data).Some?
    ensures st.Halt? ==> st.error == Build(AvailableResolutionsKey, ShapeFailure(data).value)
    ensures st.Next? ==>
      st.data[AvailableResolutionsKey] == JArr(UniqueValues(data[AvailableResolutionsKey].items))
  {
    match ShapeFailure(data)
    case Some(kind) => Halt(data, Build(AvailableResolutionsKey, kind))
    case None =>
      var items := data[AvailableResolutionsKey].items;
      Next(data[AvailableResolutionsKey := JArr(UniqueValues(items))])
  }

  /* ---------------------------------------------------------------------
     The validators.
     --------------------------------------------------------------------- */

  /** The errors the create validator reports, read off the original body:
      the first failing presence/type/length/emptiness check alone, or else
      the tag loop's errors. */
  function CreateErrors(input: Object): seq<FieldError> {
    if TextFailure(input, TitleKey, MaxTitleLength).Some? then
      [Build(TitleKey, TextFailure(input, TitleKey, MaxTitleLength).value)]
    else if TextFailure(input, AuthorKey, MaxAuthorLength).Some? then
      [Build(AuthorKey, TextFailure(input, AuthorKey, MaxAuthorLength).value)]
    else if ShapeFailure(input).Some? then
      [Build(AvailableResolutionsKey, ShapeFailure(input).value)]
    else BadTagErrors(BadTagCount(input[AvailableResolutionsKey].items))
  }

  /** The errors the update validator reports: as for create, except that
      after the tag errors the three remaining fields are checked, again
      stopping at the first failure. */
  function UpdateErrors(input: Object): seq<FieldError> {
    if TextFailure(input, TitleKey, MaxTitleLength).Some? then
      [Build(TitleKey, TextFailure(input, TitleKey, MaxTitleLength).value)]
    else if TextFailure(input, AuthorKey, MaxAuthorLength).Some? then
      [Build(AuthorKey, TextFailure(input, AuthorKey, MaxAuthorLength).value)]
    else if ShapeFailure(input).Some? then
      [Build(AvailableResolutionsKey, ShapeFailure(input).value)]
    else BadTagErrors(BadTagCount(input[AvailableResolutionsKey].items)) + FlagErrors(input)
  }

  /** The sanitized fields of an accepted body: trimmed title and author,
      deduplicated resolutions. */
  predicate IsSanitized(input: Object, clean: Object)
    requires AcceptableCreate(input)
  {
    && TitleKey in clean && clean[TitleKey] == JStr(Trim(input[TitleKey].s))
    && AuthorKey in clean && clean[AuthorKey] == JStr(Trim(input[AuthorKey].s))
    && AvailableResolutionsKey in clean
    && clean[AvailableResolutionsKey] == JArr(Unique(input[AvailableResolutionsKey].items))
  }

  /** Where the shared part of both validators ends: stopped at a failing
      check with its one error, or through the tag loop with its errors. */
  datatype Common = Common(data: Object, errors: seq<FieldError>, stopped: bool)

  /** The three steps shared by both validators. */
  function ValidateCommon(input: Object): (c: Common)
    ensures c.data.Keys == input.Keys
    ensures forall k :: k in input && k !in SanitizedKeys ==> c.data[k] == input[k]
    ensures c.errors == CreateErrors(input)
    ensures c.stopped <==>
      TextFailure(input, TitleKey, MaxTitleLength).Some?
      || TextFailure(input, AuthorKey, MaxAuthorLength).Some?
      || ShapeFailure(input).Some?
    ensures AcceptableCreate(input) ==> IsSanitized(input, c.data)
  {
    match CheckText(input, TitleKey, MaxTitleLength)
    case Halt(d, e) => Common(d, [e], true)
    case Next(d1) =>
      match CheckText(d1, AuthorKey, MaxAuthorLength)
      case Halt(d, e) => Common(d, [e], true)
      case Next(d2) =>
        match CheckResolutions(d2)
        case Halt(d, e) => Common(d, [e], true)
        case Next(d3) =>
          TagErrorsOfUnique(input[AvailableResolutionsKey].items);
          UniqueOfTags(input[AvailableResolutionsKey].items);
          Common(d3, TagErrors(d3[AvailableResolutionsKey].items), false)
  }

  /** `createVideoValidation`. */
  function ValidateCreate(input: Object): (r: ValidationResult)
    ensures r.cleanData.Keys == input.Keys
    ensures forall k :: k in input && k !in SanitizedKeys ==> r.cleanData[k] == input[k]
    ensures r.errors == CreateErrors(input)
    ensures r.errors == [] <==> AcceptableCreate(input)
    ensures r.errors == [] ==> IsSanitized(input, r.cleanData)
  {
    CreateErrorsEmpty(input);
    var c := ValidateCommon(input);
    ValidationResult(c.data, c.errors)
  }

  /** `updateVideoValidation`. */
  function ValidateUpdate(input: Object): (r: ValidationResult)
    ensures r.cleanData.Keys == input.Keys
    ensures forall k :: k in input && k !in SanitizedKeys ==> r.cleanData[k] == input[k]
    ensures r.errors == UpdateErrors(input)
    ensures r.errors == [] <==> AcceptableUpdate(input)
    ensures r.errors == [] ==> IsSanitized(input, r.cleanData)
  {
    CreateErrorsEmpty(input);
    var c := ValidateCommon(input);
    if c.stopped then ValidationResult(c.data, c.errors)
    else
      FlagErrorsFramed(input, c.data);
      ValidationResult(c.data, c.errors + FlagErrors(c.data))
  }

  /* ---------------------------------------------------------------------
     Lemmas behind the contracts.
     --------------------------------------------------------------------- */

  /** The tag loop over the deduplicated array records `BadTagCount` errors. */
  lemma TagErrorsOfUnique(items: seq<Json>)
    ensures TagErrors(UniqueValues(items)) == BadTagErrors(BadTagCount(items))
  {
    TagErrorsCount(items);
  }

  /** Appending one element to the loop's input adds at most its own error. */
  lemma TagErrorsSnoc(a: seq<Json>, x: Json)
    ensures TagErrors(a + [x]) == TagErrors(a) + (if IsResolutionTag(x) then [] else [BadTagError()])
  {
    assert (a + [x])[..|a|] == a;
  }

  /** Appending one element adds it to the bad primitives when it is one. */
  lemma BadPrimitivesSnoc(a: seq<Json>, x: Json)
    ensures BadPrimitives(a + [x]) ==
      BadPrimitives(a) + (if IsPrimitive(x) && !IsResolutionTag(x) then {x} else {})
  {
    ElementsSnoc(a, x);
  }

  /** Counting the loop's errors over the deduplicated array, one element of
      the original array at a time. */
  lemma {:induction false} TagErrorsCount(items: seq<Json>)
    ensures |TagErrors(UniqueValues(items))| == BadTagCount(items)
  {
    if |items| > 0 {
      TagErrorsCount(items[..|items| - 1]);
      TagErrorsCountStep(items);
    }
  }

  /** The inductive step of `TagErrorsCount`: the appended element adds an
      error exactly when it also adds to the count. */
  lemma TagErrorsCountStep(items: seq<Json>)
    requires |items| > 0
    requires var pre := items[..|items| - 1];
      |TagErrors(UniqueValues(pre))| == BadTagCount(pre)
    ensures |TagErrors(UniqueValues(items))| == BadTagCount(items)
  {
    var pre, last := items[..|items| - 1], items[|items| - 1];
    SplitLast(items);
    var p := UniqueValues(pre);
    assert UniqueValues(items) == if IsPrimitive(last) && last in p then p else p + [last];
    TagCountStep(pre, last, p);
  }

  /** `TagErrorsCountStep` for any deduplication `p` of `pre` with the same
      elements. */
  lemma TagCountStep(pre: seq<Json>, last: Json, p: seq<Json>)
    requires Elements(p) == Elements(pre)
    requires |TagErrors(p)| == BadTagCount(pre)
    ensures |TagErrors(if IsPrimitive(last) && last in p then p else p + [last])| ==
      BadTagCount(pre + [last])
  {
    BadPrimitivesSnoc(pre, last);
    CompositeCountSnoc(pre, last);
    InElements(p, last);
    InElements(pre, last);
    var bad := BadPrimitives(pre);
    if IsPrimitive(last) && last in p {
      assert !IsResolutionTag(last) ==> last in bad;
      assert BadPrimitives(pre + [last]) == bad;
    } else {
      TagErrorsSnoc(p, last);
      if IsPrimitive(last) {
        assert last !in bad;
        assert BadTagCount(pre + [last]) == BadTagCount(pre) + (if IsResolutionTag(last) then 0 else 1);
      } else {
        assert !IsResolutionTag(last);
        assert BadPrimitives(pre + [last]) == bad;
      }
    }
  }

  /** No error is counted exactly when every element is a tag. */
  lemma BadTagCountZero(items: seq<Json>)
    ensures BadTagCount(items) == 0 <==> forall i :: 0 <= i < |items| ==> IsResolutionTag(items[i])
  {
    CompositeCountPositive(items);
    if BadTagCount(items) == 0 {
      forall i | 0 <= i < |items|
        ensures IsResolutionTag(items[i])
      {
        InElements(items, items[i]);
        assert items[i] !in BadPrimitives(items);
      }
    } else if |BadPrimitives(items)| > 0 {
      var x :| x in BadPrimitives(items);
      InElements(items, x);
    }
  }

  /** On an array of tags alone, `new Set` is plain deduplication. */
  lemma UniqueOfTags(items: seq<Json>)
    ensures (forall i :: 0 <= i < |items| ==> IsResolutionTag(items[i])) ==>
      UniqueValues(items) == Unique(items)
  {
    if forall i :: 0 <= i < |items| ==> IsResolutionTag(items[i]) {
      UniqueValuesOfPrimitives(items);
    }
  }

  /** The last three checks only look at their own keys, which the shared
      steps leave alone. */
  lemma FlagErrorsFramed(a: Object, b: Object)
    requires a.Keys == b.Keys
    requires forall k :: k in a && k !in SanitizedKeys ==> b[k] == a[k]
    ensures FlagErrors(b) == FlagErrors(a)
  {
    assert CanBeDownloadedFailure(b) == CanBeDownloadedFailure(a);
    assert AgeFailure(b) == AgeFailure(a);
    assert DateFailure(b) == DateFailure(a);
  }

  /** The create errors are empty exactly for an acceptable body. */
  lemma CreateErrorsEmpty(input: Object)
    ensures CreateErrors(input) == [] <==> AcceptableCreate(input)
    ensures UpdateErrors(input) == [] <==> AcceptableUpdate(input)
  {
    if ShapeFailure(input).None? {
      BadTagCountZero(input[AvailableResolutionsKey].items);
    }
  }

  /* ---------------------------------------------------------------------
     Properties of the validators.
     --------------------------------------------------------------------- */

  /** Only the tag loop can record more than one error: every error but the
      last is a tag error. */
  lemma OnlyTagErrorsAccumulate(input: Object)
    ensures var es := ValidateCreate(input).errors;
      forall i :: 0 <= i < |es| - 1 ==> es[i] == BadTagError()
    ensures var es := ValidateUpdate(input).errors;
      forall i :: 0 <= i < |es| - 1 ==> es[i] == BadTagError()
  {
  }

  /** A failing title decides the outcome alone: two bodies with the same
      title get the same single error, whatever their other fields hold. */
  lemma TitleFailureHidesTheRest(a: Object, b: Object)
    requires TextFailure(a, TitleKey, MaxTitleLength).Some?
    requires TitleKey in a <==> TitleKey in b
    requires TitleKey in a ==> a[TitleKey] == b[TitleKey]
    ensures ValidateCreate(a).errors == ValidateCreate(b).errors == ValidateUpdate(b).errors
    ensures |ValidateUpdate(a).errors| == 1
  {
    assert TextFailure(a, TitleKey, MaxTitleLength) == TextFailure(b, TitleKey, MaxTitleLength);
  }

  /** Validating an accepted body's `cleanData` again accepts it and
      changes nothing: trimming and deduplication are idempotent. */
  lemma ValidateCreateIdempotent(input: Object)
    requires AcceptableCreate(input)
    ensures var clean := ValidateCreate(input).cleanData;
      ValidateCreate(clean) == ValidationResult(clean, [])
  {
    var clean := ValidateCreate(input).cleanData;
    CleanDataAccepted(input, clean);
    var again := ValidateCreate(clean);
    assert again.cleanData == clean by {
      CleanDataStable(clean, again.cleanData);
    }
  }

  /** The same for the update validator. */
  lemma ValidateUpdateIdempotent(input: Object)
    requires AcceptableUpdate(input)
    ensures var clean := ValidateUpdate(input).cleanData;
      ValidateUpdate(clean) == ValidationResult(clean, [])
  {
    var clean := ValidateUpdate(input).cleanData;
    assert ValidateCreate(input).cleanData == clean;
    CleanDataAccepted(input, clean);
    var again := ValidateUpdate(clean);
    assert AcceptableUpdate(clean);
    assert again.cleanData == clean by {
      CleanDataStable(clean, again.cleanData);
    }
  }

  /** The sanitized fields of an accepted body are themselves acceptable. */
  lemma CleanDataAccepted(input: Object, clean: Object)
    requires AcceptableCreate(input) && IsSanitized(input, clean)
    ensures AcceptableCreate(clean)
    ensures Trim(clean[TitleKey].s) == clean[TitleKey].s
    ensures Trim(clean[AuthorKey].s) == clean[AuthorKey].s
    ensures UniqueValues(clean[AvailableResolutionsKey].items) == clean[AvailableResolutionsKey].items
  {
    TrimIdempotent(input[TitleKey].s);
    TrimIdempotent(input[AuthorKey].s);
    var items := input[AvailableResolutionsKey].items;
    var u := Unique(items);
    forall i | 0 <= i < |u|
      ensures IsResolutionTag(u[i])
    {
      var k :| 0 <= k < |items| && items[k] == u[i];
    }
    UniqueIdempotent(items);
    UniqueOfTags(u);
  }

  /** Re-validating sanitized data leaves every field as it was. */
  lemma CleanDataStable(clean: Object, again: Object)
    requires AcceptableCreate(clean) && IsSanitized(clean, again)
    requires Trim(clean[TitleKey].s) == clean[TitleKey].s
    requires Trim(clean[AuthorKey].s) == clean[AuthorKey].s
    requires UniqueValues(clean[AvailableResolutionsKey].items) == clean[AvailableResolutionsKey].items
    requires again.Keys == clean.Keys
    requires forall k :: k in clean && k !in SanitizedKeys ==> again[k] == clean[k]
    ensures again == clean
  {
    var items := clean[AvailableResolutionsKey].items;
    TagsAlreadyUnique(items);
    assert again[TitleKey] == clean[TitleKey];
    assert again[AuthorKey] == clean[AuthorKey];
    assert again[AvailableResolutionsKey] == clean[AvailableResolutionsKey];
    SameOnEveryKey(clean, again);
  }

  /** A tag array that `new Set` leaves alone is also left alone by plain
      deduplication. */
  lemma TagsAlreadyUnique(items: seq<Json>)
    requires forall i :: 0 <= i < |items| ==> IsResolutionTag(items[i])
    requires UniqueValues(items) == items
    ensures Unique(items) == items
  {
    UniqueOfTags(items);
  }

  /** Two objects agreeing on the sanitized keys and on all others are equal. */
  lemma SameOnEveryKey(a: Object, b: Object)
    requires b.Keys == a.Keys
    requires TitleKey in a && b[TitleKey] == a[TitleKey]
    requires AuthorKey in a && b[AuthorKey] == a[AuthorKey]
    requires AvailableResolutionsKey in a && b[AvailableResolutionsKey] == a[AvailableResolutionsKey]
    requires forall k :: k in a && k !in SanitizedKeys ==> b[k] == a[k]
    ensures b == a
  {
    forall k | k in a
      ensures b[k] == a[k]
    {
    }
  }

  /* ---------------------------------------------------------------------
     The date check as written.
     --------------------------------------------------------------------- */

  /** `ISODateStringRegExp.test(publicationDate)` as written: `test` first
      converts its argument to a string, so a non-string value is judged by
      its string form, and a value that cannot be converted makes the
      validator throw. */
  function DateFailureAsWritten(data: Object): (k: Outcome<Option<MessageKind>>)
    ensures PublicationDateKey !in data ==> k == Returns(Some(NotExist))
    ensures k.Throws? <==> PublicationDateKey in data && ToJsString(data[PublicationDateKey]).Throws?
    ensures k == Returns(None) <==>
      && PublicationDateKey in data && ToJsString(data[PublicationDateKey]).Returns?
      && IsIsoDateString(ToJsString(data[PublicationDateKey]).value)
  {
    if PublicationDateKey !in data then Returns(Some(NotExist))
    else
      match ToJsString(data[PublicationDateKey])
      case Throws => Throws
      case Returns(text) => Returns(if IsIsoDateString(text) then None else Some(NotIsoDateString))
  }

  /** The two date checks agree on strings and on an absent date; on other
      values the written one is the more lenient, or throws. */
  lemma DateChecksAgreeOnStrings(data: Object)
    ensures PublicationDateKey in data && data[PublicationDateKey].JStr? ==>
      DateFailureAsWritten(data) == Returns(DateFailure(data))
    ensures PublicationDateKey !in data ==> DateFailureAsWritten(data) == Returns(DateFailure(data))
    ensures DateFailure(data).None? ==> DateFailureAsWritten(data) == Returns(None)
  {
  }

  /** The written check lets an array holding one date string through; the
      value would then be stored as `publicationDate`. */
  lemma DateCheckAdmitsArray(date: string)
    requires IsIsoDateString(date)
    ensures var data := map[PublicationDateKey := JArr([JStr(date)])];
      DateFailureAsWritten(data) == Returns(None) && DateFailure(data) == Some(NotIsoDateString)
  {
    SingletonArrayText(JStr(date));
  }

  /** The same for the sample date `2025-12-30T00:00:00.000Z` in an array. */
  lemma SampleDateInArray()
    ensures var data := map[PublicationDateKey := JArr([JStr(SampleDate)])];
      DateFailureAsWritten(data) == Returns(None) && DateFailure(data) == Some(NotIsoDateString)
  {
    SampleDateIsIso();
    DateCheckAdmitsArray(SampleDate);
  }

  /** A date given as an object with its own `toString` key makes the
      written check throw, where the corrected one reports a bad date. */
  lemma DateObjectThrows(fields: map<string, Json>)
    requires ToStringKey in fields
    ensures var data := map[PublicationDateKey := JObj(fields)];
      DateFailureAsWritten(data).Throws? && DateFailure(data) == Some(NotIsoDateString)
  {
    OwnToStringThrows(fields);
  }

  /* ---------------------------------------------------------------------
     Concrete bodies.
     --------------------------------------------------------------------- */

  /** A body with every field wrong gets only the title's error, not one
      error per field: validation stops at the first failing check. */
  lemma AllDataIncorrect()
    ensures var body := map[
        TitleKey := JNum(10),
        AuthorKey := JStr("ppppppppppppppppppppp"),
        AvailableResolutionsKey := JArr([JNum(1440)]),
        CanBeDownloadedKey := JNum(10),
        MinAgeRestrictionKey := JStr("10")];
      && ValidateCreate(body).errors == [Build(TitleKey, NotString)]
      && ValidateUpdate(body).errors == [Build(TitleKey, NotString)]
  {
  }

  /** After the tag loop the update validator goes on: a bad value given
      twice yields one error, then a non-boolean `canBeDownloaded` (`null`,
      say) yields another. */
  lemma TagLoopDoesNotStop(input: Object, bad: Json)
    requires TextFailure(input, TitleKey, MaxTitleLength).None?
    requires TextFailure(input, AuthorKey, MaxAuthorLength).None?
    requires AvailableResolutionsKey in input && input[AvailableResolutionsKey] == JArr([bad, bad])
    requires IsPrimitive(bad) && !IsResolutionTag(bad)
    requires CanBeDownloadedKey in input && !input[CanBeDownloadedKey].JBool?
    ensures UpdateErrors(input) == [BadTagError(), Build(CanBeDownloadedKey, NotBoolean)]
  {
    assert ShapeFailure(input).None?;
    ErrorsPastTheShapeChecks(input);
    RepeatedBadTag(bad);
    assert BadTagErrors(1) == [BadTagError()];
    BadDownloadFlag(input);
  }

  /** A non-boolean `canBeDownloaded` is the one error of the last three checks. */
  lemma BadDownloadFlag(input: Object)
    requires CanBeDownloadedKey in input && !input[CanBeDownloadedKey].JBool?
    ensures FlagErrors(input) == [Build(CanBeDownloadedKey, NotBoolean)]
  {
  }

  /** A string without surrounding whitespace, made of characters that take
      one UTF-16 unit each, is kept as it is and fits a limit at least its
      length: the empty string and a string of exactly the limit both pass. */
  lemma PlainTextFits(w: string, maxLength: nat)
    requires |w| <= maxLength
    requires forall k :: 0 <= k < |w| ==> w[k] as int <= 0xFFFF
    requires |w| == 0 || (!IsWhitespace(w[0]) && !IsWhitespace(w[|w| - 1]))
    ensures Trim(w) == w
    ensures Utf16Length(Trim(w)) <= maxLength
  {
    TrimOfTrimmed(w);
  }

  /** Once title, author and the array's shape pass, the update errors are
      the tag loop's followed by those of the last three checks. */
  lemma ErrorsPastTheShapeChecks(input: Object)
    requires TextFailure(input, TitleKey, MaxTitleLength).None?
    requires TextFailure(input, AuthorKey, MaxAuthorLength).None?
    requires ShapeFailure(input).None?
    ensures UpdateErrors(input) ==
      BadTagErrors(BadTagCount(input[AvailableResolutionsKey].items)) + FlagErrors(input)
  {
  }

  /** The tag loop's errors for one bad value given twice. */
  lemma RepeatedBadTag(bad: Json)
    requires IsPrimitive(bad) && !IsResolutionTag(bad)
    ensures BadTagCount([bad, bad]) == 1
  {
    assert [bad][..0] == [];
    assert UniqueValues([bad]) == [bad];
    assert [bad, bad][..1] == [bad];
    assert UniqueValues([bad, bad]) == [bad];
    assert TagErrors([bad]) == [BadTagError()];
    TagErrorsOfUnique([bad, bad]);
  }
}
