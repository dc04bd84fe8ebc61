# Videos API core, modelled in Dafny

This project models the core of a small Express server that keeps a list of
videos in memory. It covers:

- the two request validators, `createVideoValidation` and
  `updateVideoValidation`;
- the in-memory repository (`findAll`, `findById`, `create`, `update`,
  `delete`);
- the five handlers of the videos router;
- the seed data and `cleanDatabase`;
- the helpers these rely on: `arrayUtils.unique`, `numbersUtils.inRange` and
  `outRange`, `validationErrorBuilder`, `objectsUtils.skipField` and
  `generateId`.

Request bodies are JSON values (`JsValue.Json`). An object is a
`map<string, Json>`, and an absent key stands for `undefined`. The store is a
sequence of such objects, because the POST handler stores the validator's
`cleanData` exactly as it is. The typed `VideoTypes.Video` and its
`ToRecord`/`FromRecord` round trip describe what a well-formed stored video
looks like. The handlers are pure functions. Each takes the store and the
request's parts, and returns the reply together with the new store.

Modules, one per source file or concept:

| module | models |
|---|---|
| `Constants` | the four limits |
| `JsValue` | JSON values, `String.prototype.trim`, `length` in UTF-16 units |
| `JsCoercion` | `String(v)`, the conversion used by `in` and `RegExp.test` |
| `Decimal` | how `${n}` prints an integer |
| `ArrayUtils` | `unique` on values compared by equality |
| `ValueSet` | `unique` on body values, where `Set` compares arrays and objects by reference |
| `NumbersUtils` | `inRange` and `outRange` |
| `ObjectsUtils` | `skipField` |
| `ValidationErrorBuilder` | the error builder and the parsing of its messages |
| `DateFormat` | the ISO date-time shape |
| `VideoTypes` | the resolution enum, the video record and its keys |
| `VideosValidation` | both validators |
| `ValidationMessages` | the error each single failing field earns |
| `VideosRepository` | the repository |
| `IdGeneration` | `generateId` |
| `Database` | the seed list and `cleanDatabase` |
| `VideosRouter` | the five handlers |

## Where the code and the repository's tests disagree

The model follows the code in each case below.

- **Fail-fast across fields.** The "all data incorrect" request tests
  (`__tests__/videos.spec.ts:127-140` and `:421-438`) expect one error for
  every wrong field at once. In the code, every presence, type, length or
  emptiness failure pushes one error and returns at once
  (src/videos/videosValidation.ts:25-72 and 92-191). So a body with every
  field wrong gets only the title's error. See
  `VideosValidation.AllDataIncorrect` and
  `VideosValidation.TitleFailureHidesTheRest`.
- **Create assigns nothing.** The successful-create tests
  (`__tests__/videos.spec.ts:45-54` and `:239-245`) expect the server to add
  a numeric `id`, `createdAt`, a `publicationDate` one day later,
  `canBeDownloaded: false` and `minAgeRestriction: null`. The POST handler
  passes the validator's `cleanData` to the repository's `create`, which
  only appends it (src/videos/videosRouter.ts:42 and
  src/videos/videosRepository.ts:11-14), and no modelled file calls
  `generateId`. So a posted body without `id` is stored without one, and no
  `GET /:id` can find it (`VideosRouter.PostedVideoHasNoId`).

Two further behaviours of the code that the tests do not exercise:

- **The tag loop does not stop.** The `return` inside the `forEach` callback
  (src/videos/videosValidation.ts:76-81 and 143-148) only ends that
  callback. The loop therefore pushes one error per element of the
  deduplicated array that is not a tag, and the update validator goes on to
  `canBeDownloaded` afterwards. See `VideosValidation.TagErrorsCount` and
  `VideosValidation.TagLoopDoesNotStop`.
- **Extra fields are kept.** `cleanData` starts as a copy of the whole body
  (src/videos/videosValidation.ts:23 and 90), and POST stores it, extra
  keys included.

## Model

| member | source | states |
|---|---|---|
| ArrayUtils.Unique | src/core/utils/arrayUtils.ts:2 | the result has no duplicates and the same element set as the input; its elements keep the order of their first occurrence; it is no longer than the input and non-empty for a non-empty input |
| ArrayUtils.UniqueBySet | src/core/utils/arrayUtils.ts:2 | walking the array and adding each unseen element to a set, listed in insertion order, gives exactly `Unique` |
| ArrayUtils.UniqueIdempotent | src/core/utils/arrayUtils.ts:2 | `unique(unique(a)) == unique(a)` |
| ArrayUtils.UniqueOfDistinct | src/core/utils/arrayUtils.ts:2 | an array without duplicates comes back unchanged |
| ArrayUtils.UniqueOfRepeat | src/core/utils/arrayUtils.ts:2 | `[x, x]` becomes `[x]` |
| ValueSet.UniqueValues | src/core/utils/arrayUtils.ts:2 | on body values: the element set is the same, no primitive repeats, the result is drawn from the input and never longer, and every array or object stays |
| ValueSet.UniqueValuesOrder | src/core/utils/arrayUtils.ts:2 | the result is the input's elements at exactly the kept positions, in increasing order: an array or object is always kept, a primitive only at its first occurrence |
| ValueSet.KeptPositions | src/core/utils/arrayUtils.ts:2 | the kept positions below `n` are increasing, each is kept, and every kept position below `n` is among them |
| ValueSet.UniqueValuesOfDistinct | src/core/utils/arrayUtils.ts:2 | values with no primitive repeated come back unchanged and in the same order |
| ValueSet.UniqueValuesOfPrimitives | src/core/utils/arrayUtils.ts:2 | on strings, numbers, booleans and null, `new Set` is plain deduplication (`Unique`) |
| ValueSet.ArraysAreNotMerged | src/core/utils/arrayUtils.ts:2 | two empty arrays in a body are both kept |
| ValueSet.StringsAreMerged | src/core/utils/arrayUtils.ts:2 | two equal strings collapse to one |
| NumbersUtils.OutRangeIsNotInRange | src/core/utils/numbersUtils.ts:2-3 | `outRange` is exactly the negation of `inRange`, and `inRange(n, min, max)` holds exactly when `min <= n <= max` |
| NumbersUtils.EndpointsInRange | src/core/utils/numbersUtils.ts:2-3 | for `min <= max`, both endpoints are in range and not out of range |
| NumbersUtils.InvertedRangeIsEmpty | src/core/utils/numbersUtils.ts:2-3 | for `min > max`, no number is in range and every number is out of range |
| ObjectsUtils.SkipField | src/core/utils/objectsUtils.ts:2-5 | the key is gone, every other key stays with the same value, and nothing else is added |
| ObjectsUtils.SkipAbsentField | src/core/utils/objectsUtils.ts:2-5 | skipping a key the object lacks gives an equal object |
| ObjectsUtils.SkipFieldIdempotent | src/core/utils/objectsUtils.ts:2-5 | skipping the same key twice is skipping it once |
| ValidationErrorBuilder.Build | src/core/utils/validationErrorBuilder.ts:3-62 | the error's field is exactly the name passed in, and `custom(m)` stores `m` as the message |
| ValidationErrorBuilder.MessageRoundTrip | src/core/utils/validationErrorBuilder.ts:9-56 | every message except `custom` reads back as the method and arguments that built it |
| ValidationErrorBuilder.FixedRoundTrip | src/core/utils/validationErrorBuilder.ts:9-36 | each method without arguments has its own message, which reads back as that method |
| ValidationErrorBuilder.MinLengthRoundTrip | src/core/utils/validationErrorBuilder.ts:37-40 | `minLength(n)`'s message, "Must have min length n", reads back as `n` |
| ValidationErrorBuilder.MaxLengthRoundTrip | src/core/utils/validationErrorBuilder.ts:41-44 | `maxLength(n)`'s message, "Must have max length n", reads back as `n` |
| ValidationErrorBuilder.OutOfRangeRoundTrip | src/core/utils/validationErrorBuilder.ts:49-52 | `outOfRange(min, max)`'s message, "Out of range. Available min: min max: max", reads back as both numbers |
| ValidationErrorBuilder.BuildInjective | src/core/utils/validationErrorBuilder.ts:3-62 | two errors built by non-custom methods are equal only when field, method and arguments are equal |
| ValidationErrorBuilder.FixedMessagesDistinct | src/core/utils/validationErrorBuilder.ts:9-56 | the fixed messages are pairwise distinct |
| Decimal.IntToStringRoundTrip | src/core/utils/validationErrorBuilder.ts:37-44 | the decimal text `${n}` gives for an integer reads back as that integer |
| Decimal.IntToStringInjective | src/core/utils/validationErrorBuilder.ts:37-44 | distinct integers print differently |
| IdGeneration.GenerateId | src/core/utils/generateId.ts:1-9 | 1 for an empty list, otherwise more than the last id |
| IdGeneration.FreshOnIncreasing | src/core/utils/generateId.ts:2-5 | on strictly increasing ids, the new id exceeds every existing one, and appending it keeps the ids strictly increasing |
| IdGeneration.GeneratedFromEmpty | src/core/utils/generateId.ts:2-5 | starting from an empty list and appending generated ids gives 1, 2, ..., n, and the next id is n + 1 |
| IdGeneration.CanRepeatOutOfOrder | src/core/utils/generateId.ts:3-5 | the rule uses the last id, not the largest: after ids 3 and 2 it hands out 3 again |
| JsValue.Trim | src/videos/videosValidation.ts:35 | the result is the input with leading and trailing whitespace removed, and neither end of it is whitespace |
| JsValue.TrimIdempotent | src/videos/videosValidation.ts:35 | trimming twice is trimming once |
| JsValue.Utf16Length | src/videos/videosValidation.ts:37 | `length` lies between the character count and twice it, and equals the count when every character is in the basic plane |
| JsCoercion.ToJsString | src/videos/videosValidation.ts:77 | `String(v)`: a string converts to itself; an object throws exactly when it has its own `toString` key; an array throws exactly when one of its elements does |
| JsCoercion.Join | src/videos/videosValidation.ts:77 | joining throws exactly when some part throws, and a single part is returned as it is |
| JsCoercion.SingletonArrayText | src/videos/videosValidation.ts:188 | a one-element array holding a non-null value converts exactly as that value does, a throw included |
| JsCoercion.OwnToStringThrows | src/videos/videosValidation.ts:188 | an object, or a one-element array holding it, fails to convert exactly when the object has its own `toString` key; otherwise the object prints as `[object Object]` |
| VideoTypes.ResolutionNameRoundTrip | src/videos/types.ts:1-10 | each enum member's name reads back as that member |
| VideoTypes.ResolutionTagIsName | src/videos/types.ts:1-10 | a value passes the tag test exactly when it is the string name of one of the eight members |
| VideoTypes.InResolutionsEnumOnStrings | src/videos/videosValidation.ts:77 | on a string, the written `in` test returns true exactly for a tag name or an inherited `Object.prototype` property name, and never throws |
| VideoTypes.InResolutionsEnum | src/videos/videosValidation.ts:77 | the written `in` test throws exactly when converting the value to a property key throws |
| VideoTypes.InResolutionsEnumAdmitsNonTags | src/videos/videosValidation.ts:77 | every tag passes `ar in AvailableResolutions`, and so do `"toString"` and `["P720"]`, which are not tags; an object with its own `toString` key makes the test throw |
| VideoTypes.ResolutionsFromJson | src/videos/types.ts:1-10 | a JSON array decodes to resolutions exactly when every element is a tag, and encodes back to the same array |
| VideoTypes.ResolutionsRoundTrip | src/videos/types.ts:1-10 | encoding a resolution list and decoding it gives the same list |
| VideoTypes.ToRecord | src/videos/types.ts:14-23 | a video's JSON object has exactly the eight `VideoType` keys |
| VideoTypes.FromRecord | src/videos/types.ts:14-23 | a decoded object holds each of the eight keys with the value the video encodes to |
| VideoTypes.RecordRoundTrip | src/videos/types.ts:14-23 | encoding a video and decoding it gives the same video |
| VideosValidation.TextFailure | src/videos/videosValidation.ts:25-40 | title or author: absent gives `notExist`, a non-string gives `notString`, a string longer than the limit once trimmed gives `maxLength(limit)`; no failure exactly when the value is a string whose trimmed `length` is within the limit |
| VideosValidation.ShapeFailure | src/videos/videosValidation.ts:59-72 | absent gives `notExist`, a non-array gives `notArray`, `[]` gives `empty`; no failure exactly when the resolutions are a non-empty array, judged before deduplication |
| VideosValidation.CanBeDownloadedFailure | src/videos/videosValidation.ts:150-158 | absent gives `notExist`, any non-boolean (`null` included) gives `notBoolean`; no failure exactly when the value is a boolean |
| VideosValidation.AgeFailure | src/videos/videosValidation.ts:160-181 | absent gives `notExist`, a value neither `null` nor a number gives `notNumberOrNull`, a number outside 1..18 gives `outOfRange(1, 18)`; no failure exactly when the value is `null` or a number from 1 to 18 |
| VideosValidation.DateFailure | src/videos/videosValidation.ts:183-191 | corrected date check, the one the update validator uses: absent gives `notExist`, any other failure is `notIsoDateString`; no failure exactly when the value is a string of ISO date-time shape |
| VideosValidation.DateFailureAsWritten | src/videos/videosValidation.ts:183-191 | date check as written: absent gives `notExist`; the check throws exactly when the value cannot be converted to a string; no failure exactly when the value's string form has the ISO shape |
| VideosValidation.DateChecksAgreeOnStrings | src/videos/videosValidation.ts:183-191 | the two date checks agree on strings and on an absent date, and the written one accepts everything the corrected one accepts |
| VideosValidation.DateCheckAdmitsArray | src/videos/videosValidation.ts:188 | an array holding one ISO date string passes the written check and fails the corrected one |
| VideosValidation.SampleDateInArray | src/videos/videosValidation.ts:188 | the same for `["2025-12-30T00:00:00.000Z"]` |
| VideosValidation.DateObjectThrows | src/videos/videosValidation.ts:188 | a date given as an object with its own `toString` key makes the written check throw, where the corrected one reports `notIsoDateString` |
| VideosValidation.TagErrors | src/videos/videosValidation.ts:76-81 | the loop records at most one error per element, and every error it records is `hasIncorrectValue` on `availableResolutions` |
| VideosValidation.FlagErrors | src/videos/videosValidation.ts:150-191 | at most one error, and none exactly when `canBeDownloaded`, `minAgeRestriction` and `publicationDate` all pass |
| VideosValidation.CheckText | src/videos/videosValidation.ts:30-40 | a string value is replaced by its trimmed form even when it then fails, other keys are untouched, and the step passes exactly when the field is acceptable |
| VideosValidation.CheckResolutions | src/videos/videosValidation.ts:59-74 | the step stops with the shape error exactly when the shape fails; otherwise it replaces the array by its `new Set` deduplication and touches no other key |
| VideosValidation.ValidateCommon | src/videos/videosValidation.ts:22-81 | the part both validators share stops exactly at a failing title, author or shape check, with that one error; the keys are those of the body, and only title, author and resolutions are rewritten |
| VideosValidation.ValidateCreate | src/videos/videosValidation.ts:19-84 | `cleanData` has the body's keys and values except the three sanitized fields; the errors are the first failing check's single error, or else one tag error per distinct bad value; no error exactly when the body is acceptable, and then title and author are trimmed and the resolutions deduplicated; the error each single failing field earns is stated by the `ValidationMessages` lemmas |
| VideosValidation.ValidateUpdate | src/videos/videosValidation.ts:86-194 | as for create; after the tag errors the three further checks add at most one error, the first that fails; no error exactly when all six fields are acceptable, with the corrected date check (see Left out) |
| VideosValidation.TagErrorsCount | src/videos/videosValidation.ts:74-81 | over the deduplicated array the loop records one error per distinct non-tag primitive plus one per array or object |
| VideosValidation.BadTagCountZero | src/videos/videosValidation.ts:76-81 | the loop records no error exactly when every element is a tag |
| VideosValidation.CreateErrorsEmpty | src/videos/videosValidation.ts:19-194 | the create (update) errors are empty exactly when the body meets every create (update) check |
| VideosValidation.OnlyTagErrorsAccumulate | src/videos/videosValidation.ts:25-191 | in both validators every error except the last is a tag error: the other checks end validation |
| VideosValidation.TitleFailureHidesTheRest | src/videos/videosValidation.ts:25-33 | with a failing title, the errors depend on the title alone and there is exactly one |
| VideosValidation.AllDataIncorrect | src/videos/videosValidation.ts:92-100 | a body with every field wrong and a numeric title gets only "title: Is not a string type" from both validators |
| VideosValidation.TagLoopDoesNotStop | src/videos/videosValidation.ts:141-158 | a bad value given twice gives one tag error, and the update validator then still reports a non-boolean `canBeDownloaded` (in `UpdateErrors`, the list `ValidateUpdate` returns) |
| VideosValidation.RepeatedBadTag | src/videos/videosValidation.ts:141-148 | a non-tag value given twice counts once |
| VideosValidation.BadDownloadFlag | src/videos/videosValidation.ts:155-158 | a present non-boolean `canBeDownloaded` is the one error of the last three checks |
| VideosValidation.PlainTextFits | src/videos/videosValidation.ts:35-40 | text without surrounding whitespace and within the limit passes unchanged; this includes the empty string and text of exactly the limit |
| VideosValidation.ValidateCreateIdempotent | src/videos/videosValidation.ts:23-83 | validating an accepted body's `cleanData` again gives no error and the same `cleanData` |
| VideosValidation.ValidateUpdateIdempotent | src/videos/videosValidation.ts:90-193 | the same for the update validator |
| VideosValidation.CleanDataAccepted | src/videos/videosValidation.ts:35-74 | accepted `cleanData` is itself acceptable, and its title, author and resolutions are left alone by trimming and deduplication |
| ValidationMessages.OnlyFlagErrors | src/videos/videosValidation.ts:141-191 | with title, author and resolutions acceptable, the create validator reports nothing and the update validator reports only what its last three checks find |
| ValidationMessages.MissingField | src/videos/videosValidation.ts:25-62 | an accepted body without its title, author or resolutions gets exactly one error, `notExist` on that field ("Not exist"), from both validators |
| ValidationMessages.NonStringText | src/videos/videosValidation.ts:30-50 | an accepted body whose title or author is not a string gets exactly `notString` on that field |
| ValidationMessages.StringMessage | src/core/utils/validationErrorBuilder.ts:21-24 | that error reads "Is not a string type" for any field |
| ValidationMessages.TooLongText | src/videos/videosValidation.ts:35-57 | an accepted body whose title or author is longer than its limit once trimmed gets exactly `maxLength` with that limit, 40 for the title and 20 for the author |
| ValidationMessages.MaxLengthMessages | src/core/utils/validationErrorBuilder.ts:41-44 | the two length errors read "Must have max length 40" and "Must have max length 20" |
| ValidationMessages.NotArrayResolutions | src/videos/videosValidation.ts:64-67 | an accepted body whose resolutions are not an array gets exactly `notArray` ("Is not a array type") |
| ValidationMessages.EmptyResolutions | src/videos/videosValidation.ts:69-72 | an accepted body whose resolutions are `[]` gets exactly `empty` ("Is empty") |
| ValidationMessages.IncorrectResolution | src/videos/videosValidation.ts:74-81 | an accepted body whose resolutions are one non-tag value gets exactly one `hasIncorrectValue` ("Has incorrect value") from both validators |
| ValidationMessages.SingleBadTag | src/videos/videosValidation.ts:74-81 | one value that is not a tag makes the tag loop record exactly one error |
| ValidationMessages.MissingFlag | src/videos/videosValidation.ts:150-186 | an accepted update body without `canBeDownloaded`, `minAgeRestriction` or `publicationDate` gets exactly `notExist` on that field |
| ValidationMessages.NonBooleanDownload | src/videos/videosValidation.ts:155-158 | an accepted update body whose `canBeDownloaded` is not a boolean (`10` or `null`) gets exactly `notBoolean` |
| ValidationMessages.DownloadMessage | src/core/utils/validationErrorBuilder.ts:25-28 | that error reads "Is not a boolean type" |
| ValidationMessages.AgeNotNumber | src/videos/videosValidation.ts:165-168 | an accepted update body whose `minAgeRestriction` is neither `null` nor a number gets exactly `notNumberOrNull` |
| ValidationMessages.AgeTypeMessage | src/core/utils/validationErrorBuilder.ts:45-48 | that error reads "Is not a number or null" |
| ValidationMessages.AgeOutOfRange | src/videos/videosValidation.ts:170-181 | an accepted update body whose `minAgeRestriction` is a number outside 1..18 gets exactly `outOfRange(1, 18)` |
| ValidationMessages.AgeRangeMessage | src/core/utils/validationErrorBuilder.ts:49-52 | that error reads "Out of range. Available min: 1 max: 18" |
| ValidationMessages.BadDate | src/videos/videosValidation.ts:188-191 | an accepted update body whose date is not an ISO date-time string (`"10"`, `2026`) gets exactly `notIsoDateString` |
| ValidationMessages.DateMessage | src/core/utils/validationErrorBuilder.ts:53-56 | that error reads "Is not ISO format date string" |
| VideosRepository.FindIndex | src/videos/videosRepository.ts:8-10 | the index of the first record with the id, or none exactly when no record has it |
| VideosRepository.FindAll | src/videos/videosRepository.ts:5-7 | the whole list, in order |
| VideosRepository.FindById | src/videos/videosRepository.ts:8-10 | none exactly when no record has the id; otherwise a record with the id with none before it |
| VideosRepository.Create | src/videos/videosRepository.ts:11-14 | the record is appended exactly as given and returned; earlier records are unchanged |
| VideosRepository.Overwrite | src/videos/videosRepository.ts:18-23 | the six updated keys take the input's values, and become absent when the input lacks them; every other key keeps its value |
| VideosRepository.KeptKeys | src/videos/videosRepository.ts:18-23 | `id` and `createdAt` are not among the updated keys |
| VideosRepository.Update | src/videos/videosRepository.ts:15-25 | true exactly when some record has the id; false leaves the store unchanged; true overwrites the first match only; the length never changes |
| VideosRepository.Without | src/videos/videosRepository.ts:28-34 | no record with the id remains, and exactly the other records' values are kept |
| VideosRepository.WithoutSnoc | src/videos/videosRepository.ts:28-34 | filtering one more record appends it exactly when it lacks the id |
| VideosRepository.WithoutKeepsCounts | src/videos/videosRepository.ts:28-34 | every record without the id is kept as many times as it occurs |
| VideosRepository.Delete | src/videos/videosRepository.ts:26-36 | true exactly when some record had the id; false leaves the store unchanged; the new list is exactly `Without`, the order-keeping filter, so every record with the id is removed and the rest stay in order |
| VideosRepository.WithoutAppend | src/videos/videosRepository.ts:28-34 | filtering distributes over concatenation, so the kept records stay in order |
| VideosRepository.WithoutNoMatch | src/videos/videosRepository.ts:28-34 | filtering a store without the id changes nothing |
| VideosRepository.DeleteThenFind | src/videos/videosRepository.ts:26-36 | after `delete(id)`, `findById(id)` finds nothing |
| VideosRepository.DeleteKeepsOthers | src/videos/videosRepository.ts:26-36 | deleting one id does not change the lookup of any other id |
| VideosRepository.FindWithout | src/videos/videosRepository.ts:28-34 | filtering out one id does not change the lookup of any other id |
| VideosRepository.FindSnoc | src/videos/videosRepository.ts:8-14 | after an append, a lookup finds the earlier match if there was one, else the new record if it has the id |
| VideosRepository.CreateThenFindAll | src/videos/videosRepository.ts:11-14 | after `create`, `findAll` is the old list plus the new record |
| VideosRepository.CreateThenFind | src/videos/videosRepository.ts:11-14 | a created record with a new id is found by that id |
| VideosRepository.UpdateThenFind | src/videos/videosRepository.ts:15-25 | after an update the lookup of that id gives the overwritten record |
| VideosRepository.UpdateKeepsOthers | src/videos/videosRepository.ts:15-25 | updating one id does not change the lookup of any other id |
| VideosRepository.UpdateIdempotent | src/videos/videosRepository.ts:15-25 | updating twice with the same input is updating once |
| VideosRouter.Find | src/videos/videosRouter.ts:21-22 | a path id that is not an integer finds nothing; otherwise the lookup is `findById` |
| VideosRouter.GetVideos | src/videos/videosRouter.ts:15-18 | Ok with exactly `findAll`'s list; the store is unchanged |
| VideosRouter.GetVideo | src/videos/videosRouter.ts:20-30 | Ok with the found video exactly when the lookup finds one, otherwise NotFound with no body; the store is unchanged |
| VideosRouter.PostVideo | src/videos/videosRouter.ts:32-45 | Created exactly when the body is acceptable, with the sanitized body appended and returned; otherwise BadRequest with the validator's errors and the store unchanged |
| VideosRouter.PutVideo | src/videos/videosRouter.ts:47-64 | BadRequest exactly when the body is not acceptable, whatever the id; NoContent exactly when it is acceptable and the id is found, with the store updated; any other outcome leaves the store unchanged |
| VideosRouter.DeleteVideo | src/videos/videosRouter.ts:66-70 | NoContent exactly when a video had the id; otherwise NotFound with the store unchanged |
| VideosRouter.InvalidInputLeavesStore | src/videos/videosRouter.ts:35-59 | a BadRequest from POST or PUT never changes the store |
| VideosRouter.InvalidPutThenGet | src/videos/videosRouter.ts:53-59 | after a rejected PUT, every GET of a video replies as before |
| VideosRouter.DeleteThenGet | src/videos/videosRouter.ts:66-70 | after DELETE of an id, GET of it is NotFound |
| VideosRouter.PostThenList | src/videos/videosRouter.ts:42-43 | after an accepted POST, GET / lists the old videos and then the sanitized body |
| VideosRouter.PostedVideoHasNoId | src/videos/videosRouter.ts:42-43 | a posted body without `id` is stored without one, and every GET by id replies as before |
| VideosRouter.ValidPutKeepsVideo | src/videos/videosRouter.ts:53-62 | an accepted PUT on a well-formed stored video leaves it well-formed, with the same id and creation time, and with the trimmed title and author and the new flag and date |
| VideosRouter.OverwriteDecodes | src/videos/videosRepository.ts:15-25 | overwriting a well-formed record with accepted update data keeps it well-formed and keeps its id and creation time |
| VideosRouter.ArrayDateRejected | src/videos/videosValidation.ts:183-191 | for any otherwise acceptable update body, wrapping its date in a one-element array passes the written date check, yet `PUT` answers BadRequest with the date error and leaves the store unchanged, because the model validates with the corrected check |
| Database.Records | src/database/index.ts:7-38 | each stored seed object decodes back to its video and carries its id |
| Database.Seed | src/database/index.ts:7-38 | the initial list: the seed videos as records, in order |
| Database.CleanDatabase | src/database/index.ts:40-42 | the list is empty and every lookup fails |
| Database.SeedWithinLimits | src/database/index.ts:7-38 | both seed videos have ASCII title and author within 40 and 20 characters, a non-empty duplicate-free resolution list, downloads off and no age restriction |
| Database.SeedShapeWithinLimits | src/database/index.ts:7-38 | a video of that shape passes the validators' length limits |
| Database.SeedIds | src/database/index.ts:8-22 | the seed ids are 1 and 2, in increasing order |
| Database.NextIds | src/core/utils/generateId.ts:1-9 | `generateId` gives 3 for the seed list and 1 once the list is empty |
| Database.SeedLookups | src/database/index.ts:7-38 | ids 1 and 2 find the first and second seed video; id 3 finds nothing |

## Left out

- Express wiring is not modelled: route mounting, JSON body parsing and
  `res.status(...).json(...)`. Replies are a status and a body value.
- The testing router is left out. Its one effect is `cleanDatabase`, which is
  modelled. Also left out: the swagger router, `validationMiddleware` (never
  mounted) and `videosControllers` (never mounted, and it duplicates the
  router without validation).
- `numbersUtils.getRandomFromRange` is left out because it uses randomness and
  floating point.
- Numbers are integers. Fractions, `NaN`, `Infinity` and the exponent form
  that `${n}` uses for very large numbers are not modelled.
- `Number(req.params.id)` is not modelled. The path id arrives already
  converted, as an integer or as "no integer".
- The ISO date regular expression is in src/core/utils/dateUtils.ts, which is
  not part of this model. `DateFormat.IsIsoDateString` checks the ISO 8601
  shape instead: date, `T`, time, optional fraction, then `Z` or an offset. It
  does not check calendar ranges.
- The seed timestamps come from `new Date(2025, 11, d).toISOString()`, which
  depends on the host's time zone. They are written as on a host whose time
  zone is UTC.
- A body that is not a JSON object (an array or a string, say) is not
  modelled. Bodies are objects.
- VideosValidation.ValidateCreate: the tag test is the corrected one, the
  eight tag strings (`VideosValidation.AcceptableResolutions`). The written
  `in` test also passes inherited `Object.prototype` names and values whose
  string form is a tag, and throws on an object with its own `toString`
  key, so the request would end in a 500. That test is modelled separately
  (`VideoTypes.InResolutionsEnum`) and compared under Findings.
- VideosValidation.ValidateUpdate: besides the corrected tag test, the date
  check is the corrected one (`VideosValidation.DateFailure`, strings only),
  not the written `ISODateStringRegExp.test` of
  src/videos/videosValidation.ts:188. The written check also accepts any
  value whose string form is an ISO date-time, such as a one-element array
  holding one, and throws on an object with its own `toString` key. That
  check is `VideosValidation.DateFailureAsWritten`, compared under Findings.
- VideosRouter.PutVideo: inherits both corrected checks. An otherwise valid
  body whose date is wrapped in a one-element array gets 400 here, where
  the code would answer 204 or 404 and store the array
  (`VideosRouter.ArrayDateRejected`). A body that makes the written checks
  throw gets 400 here, where Express would answer 500. `PostVideo` is
  affected the same way through the tag test.
- JsValue.Utf16Length: JSON text may hold lone UTF-16 surrogates such as
  `"\ud800"`. A Dafny string holds only Unicode scalar values, so `length`
  is modelled for well-formed text only.
- JsValue.Trim: for the same reason, trimming is modelled on well-formed
  text only.
- JsCoercion.ToJsString: numbers print as integers (see above); the other
  conversions, the throw on an own `toString` key included, follow
  `String(v)` on parsed JSON values.
- Database.SeedWithinLimits: states the limits for printable-ASCII text by
  character count. It does not evaluate the UTF-16 length of the literal
  strings, and it says nothing about the seed dates' shape.
- IdGeneration.GenerateId: the `else` branch for a falsy last entity is left
  out. The entities are objects, so that branch cannot run.

## Findings

| source | as written | input that shows it | evidently intended | confidence | as-written member | corrected member |
|---|---|---|---|---|---|---|
| src/videos/videosValidation.ts:77 | `ar in AvailableResolutions` converts `ar` to a property key and also finds names inherited from `Object.prototype` | the body `availableResolutions: ["toString"]`, or `[["P720"]]`, is accepted and stored | only the eight tag strings pass | not executed | VideoTypes.InResolutionsEnumAdmitsNonTags | VideoTypes.ResolutionTagIsName |
| src/videos/videosValidation.ts:188 | `ISODateStringRegExp.test(publicationDate)` converts a non-string value to a string first | `publicationDate: ["2025-12-30T00:00:00.000Z"]` passes, and the array is stored as the date | only an ISO date-time string passes | not executed | VideosValidation.DateCheckAdmitsArray | VideosValidation.DateFailure |
