/** The in-memory database (src/database/index.ts): two seed videos and
    `cleanDatabase`, which empties the list. */
module Database {
  import opened Wrappers
  import opened JsValue
  import opened Constants
  import opened ArrayUtils
  import opened VideoTypes
  import opened IdGeneration
  import opened VideosRepository

  /** The seed videos. Their dates come from `new Date(2025, 11, d).toISOString()`,
      local midnight printed in UTC; they are written here as on a host whose
      time zone is UTC. */
  const FirstSeed: Video := Video(1, "Happy New Year", "Andrey", false, None,
    "2025-12-30T00:00:00.000Z", "2025-12-31T00:00:00.000Z", [P480, P720, P1080])

  const SecondSeed: Video := Video(2, "How deploy to Vercel?", "IT-INCUBATOR", false, None,
    "2025-12-25T00:00:00.000Z", "2025-12-27T00:00:00.000Z", [P720, P1080, P1440])

  function SeedVideos(): (vs: seq<Video>)
    ensures |vs| == 2
  {
    [FirstSeed, SecondSeed]
  }

  /** Videos as the objects the store holds; each reads back as its video
      and carries its id. */
  function Records(vs: seq<Video>): (s: Store)
    ensures |s| == |vs|
    ensures forall i :: 0 <= i < |s| ==> FromRecord(s[i]) == Some(vs[i])
    ensures forall i :: 0 <= i < |s| ==> HasId(s[i], vs[i].id)
  {
    RecordsRoundTrip(vs);
    seq(|vs|, i requires 0 <= i < |vs| => ToRecord(vs[i]))
  }

  lemma RecordsRoundTrip(vs: seq<Video>)
    ensures forall i :: 0 <= i < |vs| ==> FromRecord(ToRecord(vs[i])) == Some(vs[i])
  {
    forall i | 0 <= i < |vs| {
      RecordRoundTrip(vs[i]);
    }
  }

  /** `database.videos` at start. */
  function Seed(): (s: Store)
    ensures |s| == |SeedVideos()|
    ensures forall i :: 0 <= i < |s| ==> FromRecord(s[i]) == Some(SeedVideos()[i])
    ensures forall i :: 0 <= i < |s| ==> HasId(s[i], SeedVideos()[i].id)
  {
    Records(SeedVideos())
  }

  /** `cleanDatabase`: no video is left, so every lookup fails. */
  function CleanDatabase(): (s: Store)
    ensures |s| == 0
    ensures forall id :: FindById(s, id).None?
  {
    []
  }

  /** Text made of printable ASCII characters. */
  predicate IsPrintableAscii(s: string) {
    forall k :: 0 <= k < |s| ==> ' ' <= s[k] <= '~'
  }

  /** Printable ASCII text takes one UTF-16 unit per character, so its
      `length` is its character count. */
  lemma AsciiLength(s: string)
    requires IsPrintableAscii(s)
    ensures Utf16Length(s) == |s|
  {
  }

  /** The limits the seed videos keep: title and author of printable ASCII
      within their lengths, a non-empty list of tags each given once,
      downloads off and no age restriction. */
  predicate SeedShape(v: Video) {
    && IsPrintableAscii(v.title) && |v.title| <= MaxTitleLength
    && IsPrintableAscii(v.author) && |v.author| <= MaxAuthorLength
    && |v.availableResolutions| > 0 && NoDuplicates(v.availableResolutions)
    && !v.canBeDownloaded && v.minAgeRestriction.None?
  }

  /** A video of that shape has title and author within the limits the
      validators apply. */
  lemma SeedShapeWithinLimits(v: Video)
    requires SeedShape(v)
    ensures Utf16Length(v.title) <= MaxTitleLength
    ensures Utf16Length(v.author) <= MaxAuthorLength
  {
    AsciiLength(v.title);
    AsciiLength(v.author);
  }

  /** Both seed videos have that shape. */
  lemma SeedWithinLimits()
    ensures forall i :: 0 <= i < |SeedVideos()| ==> SeedShape(SeedVideos()[i])
  {
    FirstSeedShape();
    SecondSeedShape();
  }

  lemma FirstSeedShape()
    ensures SeedShape(FirstSeed)
  {
  }

  lemma SecondSeedShape()
    ensures SeedShape(SecondSeed)
  {
    SecondSeedTitle();
    SecondSeedAuthor();
  }

  lemma SecondSeedTitle()
    ensures IsPrintableAscii(SecondSeed.title) && |SecondSeed.title| <= MaxTitleLength
  {
  }

  lemma SecondSeedAuthor()
    ensures IsPrintableAscii(SecondSeed.author) && |SecondSeed.author| <= MaxAuthorLength
  {
  }

  /** The seed ids are 1 and 2, in increasing order. */
  lemma SeedIds()
    ensures Ids(SeedVideos()) == [1, 2] && StrictlyIncreasing(Ids(SeedVideos()))
  {
  }

  /** The ids of the videos, in order. */
  function Ids(vs: seq<Video>): (ids: seq<int>)
    ensures |ids| == |vs| && forall i :: 0 <= i < |vs| ==> ids[i] == vs[i].id
  {
    seq(|vs|, i requires 0 <= i < |vs| => vs[i].id)
  }

  /** The next generated id is 3 for the seed and 1 once the database is clean. */
  lemma NextIds()
    ensures GenerateId(Ids(SeedVideos())) == 3
    ensures GenerateId(Ids([])) == 1
  {
  }

  /** Each seed video is found by its id; id 3 is not found. */
  lemma SeedLookups()
    ensures FindById(Seed(), 1) == Some(Seed()[0])
    ensures FindById(Seed(), 2) == Some(Seed()[1])
    ensures FindById(Seed(), 3).None?
  {
    var s := Seed();
    assert SeedVideos()[0].id == 1 && SeedVideos()[1].id == 2;
    FindInPair(s, 1, 2, 3);
  }

  /** Lookups in a two-record store whose records carry distinct ids. */
  lemma FindInPair(s: Store, a: int, b: int, c: int)
    requires |s| == 2 && HasId(s[0], a) && HasId(s[1], b)
    requires a != b && c != a && c != b
    ensures FindById(s, a) == Some(s[0])
    ensures FindById(s, b) == Some(s[1])
    ensures FindById(s, c).None?
  {
    assert FindIndex(s, a) == Some(0);
    assert !HasId(s[0], b);
    assert FindIndex(s, b) == Some(1);
  }
}
