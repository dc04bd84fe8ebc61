/** The video entity and its resolution tags (src/videos/types.ts), and the
    encoding of a typed video as the plain object the store actually holds. */
module VideoTypes {
  import opened Wrappers
  import opened JsValue
  import opened JsCoercion

  /** `AvailableResolutions`: the eight resolution tags. */
  datatype Resolution = P144 | P240 | P360 | P480 | P720 | P1080 | P1440 | P2160

  /** The enum member's string value (each member's value is its own name). */
  function ResolutionName(r: Resolution): string {
    match r
    case P144 => "P144"
    case P240 => "P240"
    case P360 => "P360"
    case P480 => "P480"
    case P720 => "P720"
    case P1080 => "P1080"
    case P1440 => "P1440"
    case P2160 => "P2160"
  }

  /** The tag a string names, if any. */
  function ParseResolution(s: string): (r: Option<Resolution>)
    ensures r.Some? ==> ResolutionName(r.value) == s
    ensures r.None? ==> forall t: Resolution :: ResolutionName(t) != s
  {
    if s == "P144" then Some(P144)
    else if s == "P240" then Some(P240)
    else if s == "P360" then Some(P360)
    else if s == "P480" then Some(P480)
    else if s == "P720" then Some(P720)
    else if s == "P1080" then Some(P1080)
    else if s == "P1440" then Some(P1440)
    else if s == "P2160" then Some(P2160)
    else None
  }

  /** Every tag's name reads back as that tag. */
  lemma ResolutionNameRoundTrip(r: Resolution)
    ensures ParseResolution(ResolutionName(r)) == Some(r)
  {
  }

  /** The membership test the resolution check means to make: the value is
      a string naming one of the tags. */
  predicate IsResolutionTag(v: Json) {
    v.JStr? && ParseResolution(v.s).Some?
  }

  /** A value passes the tag test exactly when it is the string of some tag. */
  lemma ResolutionTagIsName(v: Json)
    ensures IsResolutionTag(v) <==> exists r: Resolution :: v == JStr(ResolutionName(r))
  {
    if IsResolutionTag(v) {
      var r := ParseResolution(v.s).value;
      assert v == JStr(ResolutionName(r));
    }
  }

  /** The own keys of the `AvailableResolutions` enum object. */
  const EnumKeys: set<string> := {"P144", "P240", "P360", "P480", "P720", "P1080", "P1440", "P2160"}

  /** `ar in AvailableResolutions` as written: `ar` is converted to a
      property key, and the enum object also has every inherited
      `Object.prototype` name. A value whose conversion throws makes the
      test throw. */
  function InResolutionsEnum(v: Json): (r: Outcome<bool>)
    ensures r.Throws? <==> ToJsString(v).Throws?
  {
    match ToJsString(v)
    case Throws => Throws
    case Returns(key) => Returns(key in EnumKeys || key in ObjectPrototypeKeys)
  }

  /** For a string, the `in` test accepts the tags and the inherited names. */
  lemma InResolutionsEnumOnStrings(s: string)
    ensures InResolutionsEnum(JStr(s)) == Returns(IsResolutionTag(JStr(s)) || s in ObjectPrototypeKeys)
  {
  }

  /** Every tag passes the `in` test; so do the inherited name `toString`
      and a one-element array holding a tag, which are not tags; and an
      object with its own `toString` key makes the test throw. */
  lemma InResolutionsEnumAdmitsNonTags(v: Json)
    ensures IsResolutionTag(v) ==> InResolutionsEnum(v) == Returns(true)
    ensures InResolutionsEnum(JStr("toString")) == Returns(true) && !IsResolutionTag(JStr("toString"))
    ensures InResolutionsEnum(JArr([JStr("P720")])) == Returns(true) && !IsResolutionTag(JArr([JStr("P720")]))
    ensures InResolutionsEnum(JObj(map[ToStringKey := JNum(1)])).Throws?
  {
    SingletonArrayText(JStr("P720"));
  }

  /** `VideoType`. `minAgeRestriction` is `None` where the original holds `null`. */
  datatype Video = Video(
    id: int,
    title: string,
    author: string,
    canBeDownloaded: bool,
    minAgeRestriction: Option<int>,
    createdAt: string,
    publicationDate: string,
    availableResolutions: seq<Resolution>)

  const IdKey := "id"
  const TitleKey := "title"
  const AuthorKey := "author"
  const CanBeDownloadedKey := "canBeDownloaded"
  const MinAgeRestrictionKey := "minAgeRestriction"
  const CreatedAtKey := "createdAt"
  const PublicationDateKey := "publicationDate"
  const AvailableResolutionsKey := "availableResolutions"

  /** The keys of a `VideoType` object. */
  const VideoKeys: set<string> := {
    IdKey, TitleKey, AuthorKey, CanBeDownloadedKey, MinAgeRestrictionKey,
    CreatedAtKey, PublicationDateKey, AvailableResolutionsKey
  }

  /** Tags as the JSON strings that carry them. */
  function ResolutionsToJson(rs: seq<Resolution>): (items: seq<Json>)
    ensures |items| == |rs|
    ensures forall i :: 0 <= i < |rs| ==> items[i] == JStr(ResolutionName(rs[i]))
  {
    if |rs| == 0 then [] else [JStr(ResolutionName(rs[0]))] + ResolutionsToJson(rs[1..])
  }

  /** Reads a JSON array of tag strings; `None` if some element is not a tag. */
  function ResolutionsFromJson(items: seq<Json>): (rs: Option<seq<Resolution>>)
    ensures rs.Some? <==> forall i :: 0 <= i < |items| ==> IsResolutionTag(items[i])
    ensures rs.Some? ==> ResolutionsToJson(rs.value) == items
  {
    if |items| == 0 then Some([])
    else if !IsResolutionTag(items[0]) then None
    else match ResolutionsFromJson(items[1..])
      case None => None
      case Some(rest) =>
        var r := ParseResolution(items[0].s).value;
        assert items == [items[0]] + items[1..];
        Some([r] + rest)
  }

  /** Writing tags as JSON and reading them back gives the same tags. */
  lemma {:induction false} ResolutionsRoundTrip(rs: seq<Resolution>)
    ensures ResolutionsFromJson(ResolutionsToJson(rs)) == Some(rs)
  {
    if |rs| > 0 {
      var items := ResolutionsToJson(rs);
      ResolutionsRoundTrip(rs[1..]);
      ResolutionNameRoundTrip(rs[0]);
      assert items[1..] == ResolutionsToJson(rs[1..]);
      assert [rs[0]] + rs[1..] == rs;
    }
  }

  /** `null` or a number. */
  function AgeToJson(age: Option<int>): Json {
    match age
    case None => JNull
    case Some(n) => JNum(n)
  }

  /** A video as the plain object the store holds: exactly the eight keys. */
  function ToRecord(v: Video): (o: Object)
    ensures o.Keys == VideoKeys
  {
    map[
      IdKey := JNum(v.id),
      TitleKey := JStr(v.title),
      AuthorKey := JStr(v.author),
      CanBeDownloadedKey := JBool(v.canBeDownloaded),
      MinAgeRestrictionKey := AgeToJson(v.minAgeRestriction),
      CreatedAtKey := JStr(v.createdAt),
      PublicationDateKey := JStr(v.publicationDate),
      AvailableResolutionsKey := JArr(ResolutionsToJson(v.availableResolutions))
    ]
  }

  /** Reads a stored object as a video, if it has the shape of `VideoType`
      (other keys are ignored). What is read agrees with the object on every
      key of a video. */
  function FromRecord(o: Object): (r: Option<Video>)
    ensures r.Some? ==> forall k :: k in VideoKeys ==> k in o && o[k] == ToRecord(r.value)[k]
  {
    if && IdKey in o && o[IdKey].JNum?
       && TitleKey in o && o[TitleKey].JStr?
       && AuthorKey in o && o[AuthorKey].JStr?
       && CanBeDownloadedKey in o && o[CanBeDownloadedKey].JBool?
       && MinAgeRestrictionKey in o && (o[MinAgeRestrictionKey].JNull? || o[MinAgeRestrictionKey].JNum?)
       && CreatedAtKey in o && o[CreatedAtKey].JStr?
       && PublicationDateKey in o && o[PublicationDateKey].JStr?
       && AvailableResolutionsKey in o && o[AvailableResolutionsKey].JArr?
       && ResolutionsFromJson(o[AvailableResolutionsKey].items).Some?
    then
      Some(Video(
        o[IdKey].n,
        o[TitleKey].s,
        o[AuthorKey].s,
        o[CanBeDownloadedKey].b,
        if o[MinAgeRestrictionKey].JNull? then None else Some(o[MinAgeRestrictionKey].n),
        o[CreatedAtKey].s,
        o[PublicationDateKey].s,
        ResolutionsFromJson(o[AvailableResolutionsKey].items).value))
    else None
  }

  /** Encoding a video and reading it back gives the same video. */
  lemma RecordRoundTrip(v: Video)
    ensures FromRecord(ToRecord(v)) == Some(v)
  {
    ResolutionsRoundTrip(v.availableResolutions);
  }
}
