/** Which error each single failing field earns (src/videos/videosValidation.ts).

    Every lemma starts from a body the validator accepts and breaks one
    field, the way the original's request tests build their bad bodies
    (`objectsUtils.skipField`, or a spread with one field replaced). The
    error list is then exactly one error on that field, with the message
    the matching builder method produces. */
module ValidationMessages {
  import opened Wrappers
  import opened JsValue
  import opened Constants
  import opened ValidationErrorBuilder
  import opened VideoTypes
  import opened DateFormat
  import opened ValueSet
  import opened NumbersUtils
  import opened Decimal
  import opened ObjectsUtils
  import opened VideosValidation

  /** The length limit of a text field. */
  function TextLimit(key: string): nat {
    if key == TitleKey then MaxTitleLength else MaxAuthorLength
  }

  /** The six body keys are pairwise distinct; only `canBeDownloaded` and
      `publicationDate` have the same length. */
  lemma BodyKeysDistinct()
    ensures CanBeDownloadedKey != PublicationDateKey
    ensures |TitleKey| == 5 && |AuthorKey| == 6 && |AvailableResolutionsKey| == 20
    ensures |CanBeDownloadedKey| == 15 && |PublicationDateKey| == 15 && |MinAgeRestrictionKey| == 17
  {
    assert CanBeDownloadedKey[0] != PublicationDateKey[0];
  }

  /** With the first three fields acceptable, the update errors are those of
      the last three checks: no tag error is recorded. */
  lemma OnlyFlagErrors(m: Object)
    requires AcceptableCreate(m)
    ensures ValidateCreate(m).errors == []
    ensures ValidateUpdate(m).errors == FlagErrors(m)
  {
    ErrorsPastTheShapeChecks(m);
    BadTagCountZero(m[AvailableResolutionsKey].items);
    assert BadTagErrors(0) == [];
  }

  /** A body that keeps an accepted body's title, author and resolutions is
      accepted by the create validator as well. */
  lemma KeepsCreatePart(b: Object, m: Object)
    requires AcceptableCreate(b)
    requires TitleKey in m && m[TitleKey] == b[TitleKey]
    requires AuthorKey in m && m[AuthorKey] == b[AuthorKey]
    requires AvailableResolutionsKey in m && m[AvailableResolutionsKey] == b[AvailableResolutionsKey]
    ensures AcceptableCreate(m)
  {
  }

  /* ---------------------------------------------------------------------
     Fields both validators check.
     --------------------------------------------------------------------- */

  /** A missing title, author or resolution list: `notExist` on that field. */
  lemma MissingField(b: Object, key: string)
    requires AcceptableCreate(b)
    requires key == TitleKey || key == AuthorKey || key == AvailableResolutionsKey
    ensures var m := SkipField(b, key);
      && ValidateCreate(m).errors == [Build(key, NotExist)]
      && (AcceptableUpdate(b) ==> ValidateUpdate(m).errors == [Build(key, NotExist)])
    ensures Build(key, NotExist).message == "Not exist"
  {
    BodyKeysDistinct();
  }

  /** A title or author that is not a string: `notString` on that field. */
  lemma NonStringText(b: Object, key: string, v: Json)
    requires AcceptableCreate(b)
    requires key == TitleKey || key == AuthorKey
    requires !v.JStr?
    ensures var m := b[key := v];
      && ValidateCreate(m).errors == [Build(key, NotString)]
      && (AcceptableUpdate(b) ==> ValidateUpdate(m).errors == [Build(key, NotString)])
  {
    BodyKeysDistinct();
  }

  /** The string type error reads "Is not a string type", whatever the field. */
  lemma StringMessage(key: string)
    ensures Build(key, NotString).message == "Is not a string type"
  {
  }

  /** A title or author longer than its limit once trimmed: `maxLength` with
      that limit. */
  lemma TooLongText(b: Object, key: string, text: string)
    requires AcceptableCreate(b)
    requires key == TitleKey || key == AuthorKey
    requires Utf16Length(Trim(text)) > TextLimit(key)
    ensures var m := b[key := JStr(text)];
      && ValidateCreate(m).errors == [Build(key, MaxLength(TextLimit(key)))]
      && (AcceptableUpdate(b) ==> ValidateUpdate(m).errors == [Build(key, MaxLength(TextLimit(key)))])
    ensures key == TitleKey ==> TextLimit(key) == 40
    ensures key == AuthorKey ==> TextLimit(key) == 20
  {
    BodyKeysDistinct();
  }

  /** The two length messages name the limits 40 and 20. */
  lemma MaxLengthMessages()
    ensures Message(MaxLength(MaxTitleLength)) == MaxLengthPrefix + "40"
    ensures Message(MaxLength(MaxAuthorLength)) == MaxLengthPrefix + "20"
  {
    assert NatToString(40) == NatToString(4) + [DigitChar(0)];
    assert NatToString(20) == NatToString(2) + [DigitChar(0)];
  }

  /** A resolution list that is not an array: `notArray`. */
  lemma NotArrayResolutions(b: Object, v: Json)
    requires AcceptableCreate(b)
    requires !v.JArr?
    ensures var m := b[AvailableResolutionsKey := v];
      && ValidateCreate(m).errors == [Build(AvailableResolutionsKey, NotArray)]
      && (AcceptableUpdate(b) ==> ValidateUpdate(m).errors == [Build(AvailableResolutionsKey, NotArray)])
    ensures Build(AvailableResolutionsKey, NotArray).message == "Is not a array type"
  {
    BodyKeysDistinct();
  }

  /** An empty resolution list: `empty`. */
  lemma EmptyResolutions(b: Object)
    requires AcceptableCreate(b)
    ensures var m := b[AvailableResolutionsKey := JArr([])];
      && ValidateCreate(m).errors == [Build(AvailableResolutionsKey, Empty)]
      && (AcceptableUpdate(b) ==> ValidateUpdate(m).errors == [Build(AvailableResolutionsKey, Empty)])
    ensures Build(AvailableResolutionsKey, Empty).message == "Is empty"
  {
    BodyKeysDistinct();
  }

  /** A resolution list holding one value that is not a tag (`"bla-bla"`,
      say): one `hasIncorrectValue`, and the update validator finds nothing
      else wrong. */
  lemma IncorrectResolution(b: Object, x: Json)
    requires AcceptableCreate(b)
    requires IsPrimitive(x) && !IsResolutionTag(x)
    ensures var m := b[AvailableResolutionsKey := JArr([x])];
      && ValidateCreate(m).errors == [BadTagError()]
      && (AcceptableUpdate(b) ==> ValidateUpdate(m).errors == [BadTagError()])
    ensures BadTagError() == Build(AvailableResolutionsKey, HasIncorrectValue)
    ensures BadTagError().message == "Has incorrect value"
  {
    BodyKeysDistinct();
    var m := b[AvailableResolutionsKey := JArr([x])];
    SingleBadTag(x);
    ErrorsPastTheShapeChecks(m);
    if AcceptableUpdate(b) {
      assert FlagErrors(m) == FlagErrors(b) == [];
    }
  }

  /** One value that is not a tag counts one tag error. */
  lemma SingleBadTag(x: Json)
    requires IsPrimitive(x) && !IsResolutionTag(x)
    ensures BadTagErrors(BadTagCount([x])) == [BadTagError()]
  {
    UniqueValuesSnoc([], x);
    TagErrorsSnoc([], x);
    assert [] + [x] == [x];
    TagErrorsOfUnique([x]);
  }

  /* ---------------------------------------------------------------------
     Fields only the update validator checks.
     --------------------------------------------------------------------- */

  /** A missing `canBeDownloaded`, `minAgeRestriction` or `publicationDate`:
      `notExist` on that field. */
  lemma MissingFlag(b: Object, key: string)
    requires AcceptableUpdate(b)
    requires key == CanBeDownloadedKey || key == MinAgeRestrictionKey || key == PublicationDateKey
    ensures ValidateUpdate(SkipField(b, key)).errors == [Build(key, NotExist)]
  {
    var m := SkipField(b, key);
    BodyKeysDistinct();
    KeepsCreatePart(b, m);
    OnlyFlagErrors(m);
    MissingFlagErrors(b, key);
  }

  /** The last three checks on a body missing one of their fields. */
  lemma MissingFlagErrors(b: Object, key: string)
    requires AcceptableUpdate(b)
    requires key == CanBeDownloadedKey || key == MinAgeRestrictionKey || key == PublicationDateKey
    ensures FlagErrors(SkipField(b, key)) == [Build(key, NotExist)]
  {
    var m := SkipField(b, key);
    BodyKeysDistinct();
    if key == CanBeDownloadedKey {
      assert CanBeDownloadedFailure(m) == Some(NotExist);
    } else if key == MinAgeRestrictionKey {
      assert m[CanBeDownloadedKey] == b[CanBeDownloadedKey];
      assert AgeFailure(m) == Some(NotExist);
    } else {
      assert m[CanBeDownloadedKey] == b[CanBeDownloadedKey];
      assert m[MinAgeRestrictionKey] == b[MinAgeRestrictionKey];
      assert DateFailure(m) == Some(NotExist);
    }
  }

  /** A `canBeDownloaded` that is not a boolean (`10` or `null`): `notBoolean`. */
  lemma NonBooleanDownload(b: Object, v: Json)
    requires AcceptableUpdate(b)
    requires !v.JBool?
    ensures ValidateUpdate(b[CanBeDownloadedKey := v]).errors == [Build(CanBeDownloadedKey, NotBoolean)]
  {
    var m := b[CanBeDownloadedKey := v];
    BodyKeysDistinct();
    KeepsCreatePart(b, m);
    OnlyFlagErrors(m);
  }

  /** The download type error reads "Is not a boolean type". */
  lemma DownloadMessage()
    ensures Build(CanBeDownloadedKey, NotBoolean).message == "Is not a boolean type"
  {
  }

  /** A `minAgeRestriction` that is neither `null` nor a number (`"10"`,
      say): `notNumberOrNull`. */
  lemma AgeNotNumber(b: Object, v: Json)
    requires AcceptableUpdate(b)
    requires !v.JNull? && !v.JNum?
    ensures ValidateUpdate(b[MinAgeRestrictionKey := v]).errors ==
      [Build(MinAgeRestrictionKey, NotNumberOrNull)]
  {
    var m := b[MinAgeRestrictionKey := v];
    BodyKeysDistinct();
    KeepsCreatePart(b, m);
    OnlyFlagErrors(m);
    assert m[CanBeDownloadedKey] == b[CanBeDownloadedKey];
  }

  /** The age type error reads "Is not a number or null". */
  lemma AgeTypeMessage()
    ensures Build(MinAgeRestrictionKey, NotNumberOrNull).message == "Is not a number or null"
  {
  }

  /** A number outside 1..18 (`19`, say): `outOfRange(1, 18)`. */
  lemma AgeOutOfRange(b: Object, n: int)
    requires AcceptableUpdate(b)
    requires !InRange(n, MinAgeRestriction, MaxAgeRestriction)
    ensures ValidateUpdate(b[MinAgeRestrictionKey := JNum(n)]).errors ==
      [Build(MinAgeRestrictionKey, OutOfRange(1, 18))]
  {
    var m := b[MinAgeRestrictionKey := JNum(n)];
    BodyKeysDistinct();
    KeepsCreatePart(b, m);
    OnlyFlagErrors(m);
    assert m[CanBeDownloadedKey] == b[CanBeDownloadedKey];
  }

  /** The range message names 1 and 18. */
  lemma AgeRangeMessage()
    ensures Message(OutOfRange(MinAgeRestriction, MaxAgeRestriction)) ==
      RangePrefix + "1" + RangeSeparator + "18"
  {
    assert NatToString(18) == NatToString(1) + [DigitChar(8)];
  }

  /** A date that is not an ISO date-time string (`"10"`, or the number
      `2026`): `notIsoDateString`. */
  lemma BadDate(b: Object, v: Json)
    requires AcceptableUpdate(b)
    requires !(v.JStr? && IsIsoDateString(v.s))
    ensures ValidateUpdate(b[PublicationDateKey := v]).errors ==
      [Build(PublicationDateKey, NotIsoDateString)]
  {
    var m := b[PublicationDateKey := v];
    BodyKeysDistinct();
    KeepsCreatePart(b, m);
    OnlyFlagErrors(m);
    assert m[CanBeDownloadedKey] == b[CanBeDownloadedKey];
    assert m[MinAgeRestrictionKey] == b[MinAgeRestrictionKey];
  }

  /** The date error reads "Is not ISO format date string". */
  lemma DateMessage()
    ensures Build(PublicationDateKey, NotIsoDateString).message == "Is not ISO format date string"
  {
  }
}
