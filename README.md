# ShokoServer core, modelled in Dafny

This project models the part of ShokoServer (an anime collection server) that
sits between its queue, its AniDB client and its web API:

- **The command queue's base class.** It covers a command request's defaults and how
  `ProcessCommand` treats a fault. It also covers how `Save` resolves a conflict with
  a stored request: Replace, Ignore or Error, with one retry after a failed
  transaction and then a wake-up call to one of three queue processors. Last come
  the three `TryGetProperty` helpers, which read parameters back from a command's
  XML payload. One concrete command is modelled in full:
  `CommandRequest_UpdateMyListStats`.
- **The AniDB HTTP anime parser's decoders.** These are:
  - episode numbers and types ("S12", "3-4");
  - partial dates ("2008", "2008-12", "2008-12-31") and the start and end dates of an anime;
  - the anime-type, relation and title-language code tables;
  - tags, relations and episodes;
  - the unescaping of XML text.
- **The v3 API's model helpers.** These are:
  - paging with the full total kept;
  - the episode-identifier parser ("12", "S3");
  - `data:` URLs, as section 3 of RFC 2397 defines them, with base 64 from section 4 of RFC 4648;
  - the per-type episode and file counters of a series and of a group.
- **Parts of the v2 API controller.** These are:
  - vote validation and score scaling;
  - the search-flag table;
  - the unsorted-file and watched-episode pages;
  - the statistics of an import folder, and the short listing of its series with `*` added to repeated names;
  - the comparator that orders a character's roles.
- **Two filter members.** These are `MissingTraktLinkExpression` (a negation, with equality by run-time type)
  and `AirDateSortingSelector` (the air date, or a default).

Modules follow the source files:

| module | file | models |
|---|---|---|
| `CommandRequests` | command_requests.dfy | `CommandRequestImplementation`: defaults, `ProcessCommand`, `Save` on a store object, `TryGetProperty` |
| `UpdateMyListStats` | update_mylist_stats.dfy | `CommandRequest_UpdateMyListStats` |
| `HttpAnimeParser` | http_anime_parser.dfy | the parser's decoders and list builders |
| `AniDbCodes` | anidb_codes.dfy | the anime-type, relation and language switches of the parser |
| `ModelHelper` | model_helper.dfy | `ModelHelper` |
| `Common` | common.dfy | `GetFlags`, `GetUnsort`, `ListWatchedEpisodes`, `CompareRoleByImportance` |
| `CommonVotes` | common_votes.dfy | `EpisodeVote`, `SerieVote` |
| `CommonFolders` | common_folders.dfy | both `GetSeriesInfoByFolder` overloads |
| `Filters` | filters.dfy | `MissingTraktLinkExpression`, `AirDateSortingSelector` |
| `Runtime`, `Calendar`, `Base64`, `EpisodeTypes`, `Wrappers` | runtime.dfy, calendar.dfy, base64.dfy, episode_types.dfy, wrappers.dfy | the .NET behaviour the core relies on: `Trim`, `ToLowerInvariant` (ASCII), `int.TryParse`, `bool.TryParse`, 32-bit wrap-around, ordinal string order, dates, `Convert.ToBase64String`/`FromBase64String`, the `EpisodeType` letters, `Option`/`Result` |

Modelling choices:

- **The stores are values.** The command-request table is a sequence of rows and
  `GetByCommandID` is its first match. The vote table is a sequence of votes and
  `GetByEntityAndType` is its first match.
- **Library calls and platform services are parameters.** `HttpUtility.HtmlDecode`,
  `Path.GetDirectoryName`, `Enum.TryParse` and `string.GetHashCode` are passed in as
  functions. So are the base class's `Equals`, a series' preferred title and the
  API models' constructors.
- **What a call outside the model returns is an input.** This covers:
  - the clock (`now`);
  - the serialised payload;
  - the outcome of each repository save;
  - `GetQueueIndex`;
  - what `Process` throws;
  - whether `XmlDocument.LoadXml` accepts a payload.
- **Thrown exceptions are `Fail`/`None` results.** A list builder that skips the
  items it cannot parse is specified by a function over the prefix it has read.
- **A fresh request is never a duplicate.** `Save` looks up the CommandID as it
  stands on entry (CommandRequestImplementation.cs:99-100), and `GenerateCommandID`
  runs only later (line 114). So a freshly built request, whose CommandID is still
  unset, is never found to be a duplicate, and a second UpdateMyListStats request
  adds a second row with the same CommandID (`FreshRequestIsNotDeduplicated`).
  Rows are therefore not keyed by CommandID: the table is a sequence of rows, not
  a map.
- **`ListWatchedEpisodes` at offset `int.MinValue` returns every watched episode.**
  The break test `index - offset >= limit` is unchecked 32-bit arithmetic. At
  that offset the difference always wraps below zero, so the loop never breaks
  and the limit is ignored. The model computes the test with `Wrap32` and
  follows the code.
- **`GetUnsort` with a negative offset returns an empty page.** It does not return
  the whole list. The loop counts a negative offset down and never reaches zero.
  The model follows the code.

## Model

| member | source | states |
|---|---|---|
| CommandRequests.CommandKind.ConflictBehavior | Shoko.Server/Commands/Generic/CommandRequestImplementation.cs:65 | a command that does not override the policy resolves conflicts by Ignore |
| CommandRequests.CommandKind.Process | Shoko.Server/Commands/AniDB/CommandRequest_UpdateMyListStats.cs:26-29 | the UpdateMyListStats command only logs its deprecation message and never faults |
| CommandRequests.UpdateMyListStatsProcessCompletes | Shoko.Server/Commands/AniDB/CommandRequest_UpdateMyListStats.cs:26-29 | processing UpdateMyListStats completes with one information line, whatever fault another command might raise |
| CommandRequests.FindByCommandId | Shoko.Server/Commands/Generic/CommandRequestImplementation.cs:100 | the lookup finds the first row holding the ID, and none exactly when no row holds it |
| CommandRequests.NotifiedLanes | Shoko.Server/Commands/Generic/CommandRequestImplementation.cs:135-146 | queue index 0 wakes only General, 1 only Hasher, 2 only Images, any other index none |
| CommandRequests.CommandStore.GetByCommandID | Shoko.Server/Commands/Generic/CommandRequestImplementation.cs:100 | the scan over the table returns the first row holding the ID, as `FindByCommandId` specifies |
| CommandRequests.CommandStore.Delete | Shoko.Server/Commands/Generic/CommandRequestImplementation.cs:106 | exactly the given row leaves the table |
| CommandRequests.CommandStore.Save | Shoko.Server/Commands/Generic/CommandRequestImplementation.cs:118-133 | a committed save appends the row; a failed transaction leaves the table as it was and is reported |
| CommandRequests.Processors.NotifyOfNewCommand | Shoko.Server/Commands/Generic/CommandRequestImplementation.cs:135-146 | the lane the queue index names, if any, is recorded as woken |
| CommandRequests.CommandRequest.constructor | Shoko.Server/Commands/Generic/CommandRequestImplementation.cs:30-42 | the command type is the `[Command]` attribute's request type (-1 without one), the priority is the class's default, and exceptions are not bubbled |
| CommandRequests.CommandRequest.GenerateCommandID | Shoko.Server/Commands/AniDB/CommandRequest_UpdateMyListStats.cs:31-34 | the CommandID becomes the command's own constant ("CommandRequest_UpdateMyListStats" for UpdateMyListStats), nothing else changes |
| CommandRequests.CommandRequest.ProcessCommand | Shoko.Server/Commands/Generic/CommandRequestImplementation.cs:51-63 | a fault from `Process` is rethrown exactly when `BubbleExceptions` is set, and otherwise logged and swallowed |
| CommandRequests.CommandRequest.Save | Shoko.Server/Commands/Generic/CommandRequestImplementation.cs:97-147 | the new table, lanes, request fields, exception and number of save attempts are those `SaveSpec` gives for the old state |
| CommandRequests.SaveIgnoresStoredKey | Shoko.Server/Commands/Generic/CommandRequestImplementation.cs:99-108 | under Ignore, a stored key leaves the table, the lanes and the request untouched, with no save attempted |
| CommandRequests.SaveRejectsStoredKey | Shoko.Server/Commands/Generic/CommandRequestImplementation.cs:99-110 | under Error or an undefined policy, a stored key raises `CommandExistsException` carrying the looked-up key, and nothing changes |
| CommandRequests.SaveStoresOnce | Shoko.Server/Commands/Generic/CommandRequestImplementation.cs:99-146 | a save that goes ahead stamps the clock, the generated ID and the payload, tries once more only after a failure, stores the row once if either try commits, swallows a second failure and wakes the lane either way |
| CommandRequests.SaveReplaceKeepsSize | Shoko.Server/Commands/Generic/CommandRequestImplementation.cs:105-120 | Replace deletes exactly the stored row with the key, so a committed save keeps the table size, with that row swapped for the new request |
| CommandRequests.SaveKeepsIdsDistinct | Shoko.Server/Commands/Generic/CommandRequestImplementation.cs:99-120 | a request whose CommandID is already its generated one, saved without force, never creates a duplicate CommandID |
| CommandRequests.FreshRequestIsNotDeduplicated | Shoko.Server/Commands/Generic/CommandRequestImplementation.cs:99-115 | the duplicate check uses the CommandID on entry, so a fresh UpdateMyListStats request adds a second row with the same ID |
| CommandRequests.FirstNamed | Shoko.Server/Commands/Generic/CommandRequestImplementation.cs:153-155 | the first node whose name matches after lower-casing and removing '_', and none exactly when no node matches |
| CommandRequests.PropertyText | Shoko.Server/Commands/Generic/CommandRequestImplementation.cs:161-164 | a property's text comes back trimmed, "" when the property is absent |
| CommandRequests.TryGetProperty | Shoko.Server/Commands/Generic/CommandRequestImplementation.cs:149-175 | "" for a null document or a missing key, otherwise the trimmed text of the named property |
| CommandRequests.FirstPropertyOf | Shoko.Server/Commands/Generic/CommandRequestImplementation.cs:189-200 | the loop over property names returns the first non-empty property, "" when none is |
| CommandRequests.TryGetPropertyOf | Shoko.Server/Commands/Generic/CommandRequestImplementation.cs:177-211 | the first non-empty property of the node named by the key |
| CommandRequests.TryGetPropertyOfAny | Shoko.Server/Commands/Generic/CommandRequestImplementation.cs:213-251 | keys are tried in order, and for each key its properties in order; the first non-empty text wins, otherwise "" |
| CommandRequests.OverloadsAgree | Shoko.Server/Commands/Generic/CommandRequestImplementation.cs:149-251 | on a single key and a single property name, the three overloads give the same answer |
| CommandRequests.NamesMatchLoosely | Shoko.Server/Commands/Generic/CommandRequestImplementation.cs:153-163 | key and property names that differ only in letter case and underscores give the same answer |
| CommandRequests.UnderscoreAndCaseIgnored | Shoko.Server/Commands/Generic/CommandRequestImplementation.cs:153 | "Anime_ID" and "animeid" name the same node |
| UpdateMyListStats.PrettyDescription | Shoko.Server/Commands/AniDB/CommandRequest_UpdateMyListStats.cs:19-24 | a fixed message, the UpdateMyListStats queue state and no parameters |
| UpdateMyListStats.LoadFromCommandDetails | Shoko.Server/Commands/AniDB/CommandRequest_UpdateMyListStats.cs:36-45 | false exactly for a payload that trims to nothing, true when the XML loads, and the parser's exception otherwise |
| UpdateMyListStats.BlankDetailsNotLoaded | Shoko.Server/Commands/AniDB/CommandRequest_UpdateMyListStats.cs:39 | a payload of white space only is reported as not loaded |
| HttpAnimeParser.SingleCharParses | Shoko.Server/Providers/AniDB/HTTP/HttpAnimeParser.cs:481 | reading one non-blank character as an integer succeeds exactly on a digit |
| HttpAnimeParser.TypeOfFirstChar | Shoko.Server/Providers/AniDB/HTTP/HttpAnimeParser.cs:490-500 | the upper-cased first character C, S, O, T or P names its type; anything else is a regular episode |
| HttpAnimeParser.LetterNamesType | Shoko.Server/Providers/AniDB/HTTP/HttpAnimeParser.cs:490-500 | each type's own letter is read back as that type |
| HttpAnimeParser.GetEpisodeType | Shoko.Server/Providers/AniDB/HTTP/HttpAnimeParser.cs:478-500 | decoding fails exactly on blank text |
| HttpAnimeParser.EpisodeTypeOf | Shoko.Server/Providers/AniDB/HTTP/HttpAnimeParser.cs:478-500 | on trimmed text, a leading digit gives a regular episode and any other character the type it names |
| HttpAnimeParser.GetEpisodeNumber | Shoko.Server/Providers/AniDB/HTTP/HttpAnimeParser.cs:457-476 | blank text raises an exception |
| HttpAnimeParser.EpNoRoundTrip | Shoko.Server/Providers/AniDB/HTTP/HttpAnimeParser.cs:457-500 | every episode number AniDB writes (type letter, then number) is decoded back to its type and number |
| HttpAnimeParser.EpisodeRangeTakesFirst | Shoko.Server/Providers/AniDB/HTTP/HttpAnimeParser.cs:471-475 | a range "m-n" is a regular episode numbered m |
| HttpAnimeParser.DoubleEpisodeExample | Shoko.Server/Providers/AniDB/HTTP/HttpAnimeParser.cs:466-475 | "3-4" is episode 3 |
| HttpAnimeParser.SpecialExample | Shoko.Server/Providers/AniDB/HTTP/HttpAnimeParser.cs:457-500 | "S12" is special 12 |
| HttpAnimeParser.GetDate | Shoko.Server/Providers/AniDB/HTTP/HttpAnimeParser.cs:876-890 | null or text shorter than four characters gives the Unix epoch, and every date returned is a real date |
| HttpAnimeParser.MonthField | Shoko.Server/Providers/AniDB/HTTP/HttpAnimeParser.cs:885 | a missing month is January for a start date and December for an end date, otherwise characters 5-6 are read |
| HttpAnimeParser.DayField | Shoko.Server/Providers/AniDB/HTTP/HttpAnimeParser.cs:886-887 | a missing day is the 1st for a start date and the month's last day for an end date, otherwise characters 8-9 are read |
| HttpAnimeParser.NewDate | Shoko.Server/Providers/AniDB/HTTP/HttpAnimeParser.cs:889 | the constructor succeeds exactly on a real date |
| HttpAnimeParser.GetDateReadsFullDate | Shoko.Server/Providers/AniDB/HTTP/HttpAnimeParser.cs:876-890 | a full "yyyy-MM-dd" date is read back as written |
| HttpAnimeParser.GetDateCompletesDay | Shoko.Server/Providers/AniDB/HTTP/HttpAnimeParser.cs:876-890 | "yyyy-MM" becomes the month's first day for a start date and its last day for an end date |
| HttpAnimeParser.GetDateCompletesYear | Shoko.Server/Providers/AniDB/HTTP/HttpAnimeParser.cs:876-890 | "yyyy" becomes 1 January for a start date and 31 December for an end date |
| HttpAnimeParser.ParseExact | Shoko.Server/Providers/AniDB/HTTP/HttpAnimeParser.cs:136-153 | an exact-format parse yields only real dates |
| HttpAnimeParser.FirstKept | Shoko.Server/Providers/AniDB/HTTP/HttpAnimeParser.cs:136-156 | the date kept is a real date that one of the formats gives, and is neither the Unix epoch nor `DateTime.MinValue` |
| HttpAnimeParser.AniDbDate | Shoko.Server/Providers/AniDB/HTTP/HttpAnimeParser.cs:132-156 | a start or end date is never a placeholder date |
| HttpAnimeParser.AniDbDateRoundTrip | Shoko.Server/Providers/AniDB/HTTP/HttpAnimeParser.cs:132-156 | a written date is read back, unless it is a placeholder |
| HttpAnimeParser.Year1970Dropped | Shoko.Server/Providers/AniDB/HTTP/HttpAnimeParser.cs:150-156 | the year "1970" is taken for the Unix-epoch placeholder and dropped |
| HttpAnimeParser.ClampEnd | Shoko.Server/Providers/AniDB/HTTP/HttpAnimeParser.cs:199 | the end date is never before the air date; it is moved up to the air date only when it was earlier |
| HttpAnimeParser.YearOf | Shoko.Server/Providers/AniDB/HTTP/HttpAnimeParser.cs:202-203 | the year is 0 without a date, and 1 to 9999 with one |
| HttpAnimeParser.MainTitle | Shoko.Server/Providers/AniDB/HTTP/HttpAnimeParser.cs:118 | the text of the first main title, and none exactly when no title is a main one |
| HttpAnimeParser.ResponseAnime.constructor | Shoko.Server/Providers/AniDB/HTTP/HttpAnimeParser.cs:75-116 | the record as its initialiser fills it: both episode counts equal, no dates, years 0 |
| HttpAnimeParser.ResponseAnime.ParseDates | Shoko.Server/Providers/AniDB/HTTP/HttpAnimeParser.cs:130-203 | sets the air and end dates from the texts, never leaves the end before the air date, derives both years, and leaves every other field alone |
| HttpAnimeParser.ParsedAnimeFacts | Shoko.Server/Providers/AniDB/HTTP/HttpAnimeParser.cs:84-116 | a parsed anime has no backtick in its description and its end date is not before its air date; it is unrestricted without the attribute |
| HttpAnimeParser.ParseAnime | Shoko.Server/Providers/AniDB/HTTP/HttpAnimeParser.cs:72-128 | null exactly without an id attribute or without a main title that has text, otherwise a fresh record with the parsed fields |
| HttpAnimeParser.ParseTag | Shoko.Server/Providers/AniDB/HTTP/HttpAnimeParser.cs:538-575 | null exactly when the id is not an integer or the name is empty; name and description have backticks turned into apostrophes; the parent is set only when it is positive; weight defaults to 0; verified and both spoiler flags are set exactly when their text parses as true; the update time defaults to the Unix epoch |
| HttpAnimeParser.ParsedTags | Shoko.Server/Providers/AniDB/HTTP/HttpAnimeParser.cs:507-536 | every tag collected is valid and belongs to the anime |
| HttpAnimeParser.ParseTags | Shoko.Server/Providers/AniDB/HTTP/HttpAnimeParser.cs:507-536 | the loop keeps exactly the tags `ParseTag` accepts, in order |
| HttpAnimeParser.ParsedTagsAppend | Shoko.Server/Providers/AniDB/HTTP/HttpAnimeParser.cs:507-536 | each tag is parsed on its own: two runs of nodes give their tags concatenated |
| HttpAnimeParser.RelationOf | Shoko.Server/Providers/AniDB/HTTP/HttpAnimeParser.cs:746-790 | a relation is kept exactly when its id is an integer, and then names that anime |
| HttpAnimeParser.ParseRelations | Shoko.Server/Providers/AniDB/HTTP/HttpAnimeParser.cs:746-790 | the loop collects one relation per node whose id is an integer, in order |
| HttpAnimeParser.RelationKept | Shoko.Server/Providers/AniDB/HTTP/HttpAnimeParser.cs:746-790 | a node with an integer id adds exactly its relation, with the type from the relation table |
| HttpAnimeParser.ParseEpisode | Shoko.Server/Providers/AniDB/HTTP/HttpAnimeParser.cs:408-455 | an episode parses exactly when its id, number and air date decode; it then belongs to the anime and carries the decoded id, type, number and air date (a real date), the parsed vote count (0 when it does not parse), the summary with backticks turned into apostrophes and the update time (the epoch by default); its length in seconds is exact while `minutes * 60` fits in 32 bits |
| HttpAnimeParser.LengthSeconds | Shoko.Server/Providers/AniDB/HTTP/HttpAnimeParser.cs:423 | minutes become seconds without wrapping for every minute count from -35791394 to 35791394, exactly the counts whose `minutes * 60` fits in 32 bits |
| HttpAnimeParser.ParseEpisodes | Shoko.Server/Providers/AniDB/HTTP/HttpAnimeParser.cs:382-406 | the loop keeps every episode that parses, in order |
| HttpAnimeParser.ParsedEpisodesAppend | Shoko.Server/Providers/AniDB/HTTP/HttpAnimeParser.cs:382-406 | an episode that throws drops only itself |
| HttpAnimeParser.UnescapeXml | Shoko.Server/Providers/AniDB/HTTP/HttpAnimeParser.cs:892-913 | null stays null; anything else is decoded exactly once |
| HttpAnimeParser.UnescapeXmlDeep | Shoko.Server/Providers/AniDB/HTTP/HttpAnimeParser.cs:899-912 | decodes repeatedly, at most five times; stopping early means a further decode changes nothing |
| HttpAnimeParser.DoubleEscapedText | Shoko.Server/Providers/AniDB/HTTP/HttpAnimeParser.cs:892-913 | text escaped twice keeps one level of escaping through `UnescapeXml`, while the repeated decode reaches the plain text |
| AniDbCodes.AnimeTypeRoundTrip | Shoko.Server/Providers/AniDB/HTTP/HttpAnimeParser.cs:86-96 | every anime type is read back from its text |
| AniDbCodes.AnimeTypeIgnoresCase | Shoko.Server/Providers/AniDB/HTTP/HttpAnimeParser.cs:86 | the anime-type table ignores letter case |
| AniDbCodes.RelationRoundTrip | Shoko.Server/Providers/AniDB/HTTP/HttpAnimeParser.cs:766-780 | every relation is read back from its text |
| AniDbCodes.RelationIgnoresCase | Shoko.Server/Providers/AniDB/HTTP/HttpAnimeParser.cs:766-780 | the relation table ignores letter case |
| AniDbCodes.LanguageIgnoresCase | Shoko.Server/Providers/AniDB/HTTP/HttpAnimeParser.cs:304-306 | the language table ignores letter case |
| AniDbCodes.ChineseAliases | Shoko.Server/Providers/AniDB/HTTP/HttpAnimeParser.cs:304-376 | "zh", "zh-yue", "zh-cmn" and "zh-nan" all name Chinese |
| AniDbCodes.GreekAliases | Shoko.Server/Providers/AniDB/HTTP/HttpAnimeParser.cs:304-376 | "el" and "grc" both name Greek |
| AniDbCodes.SpanishAliases | Shoko.Server/Providers/AniDB/HTTP/HttpAnimeParser.cs:304-376 | "es" and "es-419" both name Spanish |
| AniDbCodes.ListedUnknownCode | Shoko.Server/Providers/AniDB/HTTP/HttpAnimeParser.cs:304-376 | the listed code "x-in" maps to Unknown |
| AniDbCodes.UnlistedCodes | Shoko.Server/Providers/AniDB/HTTP/HttpAnimeParser.cs:375 | "x-unk", "x-other" and unlisted codes map to Unknown |
| ModelHelper.ToListResultPaged | Shoko.Server/API/v3/Helpers/ModelHelper.cs:30-50 | the total is the whole list's size; a page size of 0 or less gives the whole list, otherwise the slice of at most `pageSize` items from `pageSize * (page - 1)` (from the start for a page below 1) |
| ModelHelper.ToListResultMapped | Shoko.Server/API/v3/Helpers/ModelHelper.cs:52-76 | the mapped overload maps exactly the page the unmapped overload returns, with the same total |
| ModelHelper.TotalIsWholeList | Shoko.Server/API/v3/Helpers/ModelHelper.cs:20-76 | all three overloads report the size of the whole list |
| ModelHelper.PageSlice | Shoko.Server/API/v3/Helpers/ModelHelper.cs:30-50 | page p (from 1) is the slice between the ends of pages p-1 and p |
| ModelHelper.PagesCover | Shoko.Server/API/v3/Helpers/ModelHelper.cs:30-50 | the first n pages, read in turn, are the first n * pageSize items, with nothing skipped or repeated |
| ModelHelper.AsWrittenWithoutOverflow | Shoko.Server/API/v3/Helpers/ModelHelper.cs:30-50 | where `pageSize * (page - 1)` fits in 32 bits, the source's page is the intended one |
| ModelHelper.OverflowGivesFirstPage | Shoko.Server/API/v3/Helpers/ModelHelper.cs:46-47 | with 2 items a page, page 1073741825 wraps the offset and yields the first page instead of an empty one |
| ModelHelper.ToListResultPagedAsWritten | Shoko.Server/API/v3/Helpers/ModelHelper.cs:30-50 | the total is the whole list's size; a page size of 0 or less gives the whole list; an offset that wraps to 0 or below gives the first page, otherwise the slice from the wrapped offset |
| ModelHelper.ToListResultMappedAsWritten | Shoko.Server/API/v3/Helpers/ModelHelper.cs:52-76 | the mapped overload maps exactly the page the unmapped overload returns as written, with the same total |
| ModelHelper.MappedOverflowGivesFirstPage | Shoko.Server/API/v3/Helpers/ModelHelper.cs:71 | with 2 items a page, page 1073741825 maps the first two items, where the corrected mapped page is empty |
| ModelHelper.GetEpisodeNumberAndTypeFromInput | Shoko.Server/API/v3/Helpers/ModelHelper.cs:78-107 | a plain number has no type; a type letter followed by a number gives that type; an error leaves number 0 and no type; only the empty text throws |
| ModelHelper.PlainNumberRoundTrip | Shoko.Server/API/v3/Helpers/ModelHelper.cs:81-106 | a written number is read back with no type |
| ModelHelper.TypedNumberRoundTrip | Shoko.Server/API/v3/Helpers/ModelHelper.cs:83-106 | a type letter and a number are read back as that type and number |
| ModelHelper.UnknownLetterRejected | Shoko.Server/API/v3/Helpers/ModelHelper.cs:90-103 | any other letter, lower-case ones too, is reported with that letter in the message |
| ModelHelper.ToDataURL | Shoko.Server/API/v3/Helpers/ModelHelper.cs:117-135 | null exactly for a null array or a null or empty content type, with the field's error message; otherwise a URL of the length the prefix and base 64 give |
| ModelHelper.FromDataURL | Shoko.Server/API/v3/Helpers/ModelHelper.cs:137-161 | the content type returned is non-empty and separator-free; a failure carries one of the two field messages |
| ModelHelper.DataUrlRoundTrip | Shoko.Server/API/v3/Helpers/ModelHelper.cs:117-161 | a non-empty array with a separator-free content type is read back as it was written |
| ModelHelper.EmptyArrayBreaksRoundTrip | Shoko.Server/API/v3/Helpers/ModelHelper.cs:117-161 | an empty array's URL has only three pieces and is rejected |
| ModelHelper.ThirdPieceIgnored | Shoko.Server/API/v3/Helpers/ModelHelper.cs:137-161 | whatever stands where "base64" should, the URL decodes the same |
| ModelHelper.GetTotalEpisodesForType | Shoko.Server/API/v3/Helpers/ModelHelper.cs:109-115 | the count never exceeds the number of episodes |
| ModelHelper.GenerateSeriesSizes | Shoko.Server/API/v3/Helpers/ModelHelper.cs:163-337 | the loops compute the counters `SeriesSizesOf` specifies |
| ModelHelper.FilesCountedOnce | Shoko.Server/API/v3/Helpers/ModelHelper.cs:174-220 | each file ID adds to exactly one file-source counter, however many episodes share the file |
| ModelHelper.CountersConsistent | Shoko.Server/API/v3/Helpers/ModelHelper.cs:222-334 | local, watched and missing episodes are among the totals; no episode is both local and missing; only regular episodes and specials are missing; each episode is counted once |
| ModelHelper.HiddenOnlyCountsHidden | Shoko.Server/API/v3/Helpers/ModelHelper.cs:222-226 | a hidden episode adds one to Hidden and nothing to the episode counters |
| ModelHelper.FilesKeepEpisodeCounters | Shoko.Server/API/v3/Helpers/ModelHelper.cs:174-220 | counting files leaves the episode counters alone |
| ModelHelper.TotalsMatchTypeCounts | Shoko.Server/API/v3/Helpers/ModelHelper.cs:109-115 | with no hidden episode, a type's total is what `GetTotalEpisodesForType` counts |
| ModelHelper.GenerateGroupSizes | Shoko.Server/API/v3/Helpers/ModelHelper.cs:339-374 | the series sizes of the episodes, each series counted once under its type, and `SubGroups` as given |
| CommonVotes.ScaleScore | Shoko.Server/API/v2/Modules/Common.cs:1567-1572 | a score of 1 to 10 is multiplied by 100; what is stored is always in 11..1000 |
| CommonVotes.ScaleIdempotent | Shoko.Server/API/v2/Modules/Common.cs:1567-1572 | scaling a scaled score changes nothing |
| CommonVotes.Validate | Shoko.Server/API/v2/Modules/Common.cs:1548-1556 | a request is valid exactly when the id is positive and the score in 1..1000; the id is checked first |
| CommonVotes.Find | Shoko.Server/API/v2/Modules/Common.cs:1564-1565 | the first vote for the entity and type, and none exactly when there is none |
| CommonVotes.EpisodeVote | Shoko.Server/API/v2/Modules/Common.cs:1546-1582 | accepted exactly for a valid request on an existing episode, which then holds the scaled vote with other rows unchanged; otherwise the table is unchanged and the reply names the problem |
| CommonVotes.EpisodeVoteIdempotent | Shoko.Server/API/v2/Modules/Common.cs:1546-1582 | voting twice the same way leaves the table as one vote does |
| CommonVotes.EpisodeVoteKeepsOneRow | Shoko.Server/API/v2/Modules/Common.cs:1566-1580 | a table with one episode vote per episode keeps that property |
| CommonVotes.ConvertToDouble | Shoko.Server/API/v2/Modules/Common.cs:1579 | `Convert.ToDouble` of a number gives that number; of a vote row, which is not `IConvertible`, it raises `InvalidCastException` |
| CommonVotes.StartVoteJob | Shoko.Server/API/v2/Modules/Common.cs:1575-1582 | starting the job never changes the saved table; after an accepted vote the reply stays `Ok` exactly when the job's value converts, and a rejected request's reply is kept |
| CommonVotes.EpisodeVoteAsWritten | Shoko.Server/API/v2/Modules/Common.cs:1546-1582 | the table is the one the vote leaves, and the reply is never `Ok`: a vote that reaches the job is saved and then answered with `InvalidCastException`, a rejected one as before |
| CommonVotes.EpisodeVoteJobStarts | Shoko.Server/API/v2/Modules/Common.cs:2590-2596 | given the stored score as its value, as the series vote gives `score / 100D`, the job starts and the vote's reply and table are unchanged |
| CommonVotes.EpisodeVoteFaultsAfterSave | Shoko.Server/API/v2/Modules/Common.cs:1576-1580 | episode 7 voted 8 on an empty table stores the vote 800, and the source answers with `InvalidCastException` where the corrected vote answers `Ok` |
| CommonVotes.SeriesVoteType | Shoko.Server/API/v2/Modules/Common.cs:2573 | a finished series gets a permanent anime vote, any other a temporary one |
| CommonVotes.FindAnimeVote | Shoko.Server/API/v2/Modules/Common.cs:2575-2577 | the temporary vote, else the permanent one, for the entity; none exactly when it has neither |
| CommonVotes.SerieVoteAsWritten | Shoko.Server/API/v2/Modules/Common.cs:2555-2599 | accepted exactly for a valid request on an existing series; otherwise the table is unchanged |
| CommonVotes.SerieVoteAsWrittenDuplicates | Shoko.Server/API/v2/Modules/Common.cs:2575-2587 | two equal votes on a series whose AniDB id differs from its id leave two anime votes for one anime |
| CommonVotes.SerieVote | Shoko.Server/API/v2/Modules/Common.cs:2555-2599 | as written, but the lookup uses the AniDB id the vote is stored under; the vote is then in the table, which grows by at most one |
| CommonVotes.SerieVoteAgreesWhenIdsMatch | Shoko.Server/API/v2/Modules/Common.cs:2575-2595 | where the series id equals its AniDB id, the source and the corrected vote agree |
| CommonVotes.SerieVoteKeepsOneRow | Shoko.Server/API/v2/Modules/Common.cs:2575-2595 | the corrected vote keeps one anime vote per anime |
| CommonVotes.SerieVoteFound | Shoko.Server/API/v2/Modules/Common.cs:2575-2595 | after an accepted vote, the lookup finds the new vote |
| CommonVotes.SerieVoteIdempotent | Shoko.Server/API/v2/Modules/Common.cs:2555-2599 | voting twice the same way leaves the table as one vote does |
| Common.GetFlags | Shoko.Server/API/v2/Modules/Common.cs:2461-2473 | Titles unless tagSearch is 1, Tags unless it is 0, Fuzzy exactly when asked |
| Common.FlagsSearchSomething | Shoko.Server/API/v2/Modules/Common.cs:2461-2473 | titles or tags are always searched, and fuzziness changes only the Fuzzy flag |
| Common.Unsorted | Shoko.Server/API/v2/Modules/Common.cs:960-986 | the files from position `offset` on, at most `limit` (at least one) when `limit` is not 0; a negative or too large offset gives nothing |
| Common.GetUnsort | Shoko.Server/API/v2/Modules/Common.cs:960-986 | the loop with the offset counter returns the page `Unsorted` specifies |
| Common.UnsortedPagesTile | Shoko.Server/API/v2/Modules/Common.cs:960-986 | two consecutive pages make the page of twice the size |
| Common.WatchedWindow | Shoko.Server/API/v2/Modules/Common.cs:1405-1432 | the positions visited stay in the list; at most `limit` of them for a positive limit unless the offset is `int.MinValue`, where every position is visited; exactly `offset` to `offset + limit - 1` when they fit |
| Common.ListWatchedEpisodes | Shoko.Server/API/v2/Modules/Common.cs:1396-1434 | the episodes generated from the visited positions, in order; at most `limit` of them for a positive limit, except at offset `int.MinValue`, where the 32-bit break test never fires |
| Common.WatchedPastLimit | Shoko.Server/API/v2/Modules/Common.cs:1419-1422 | the 32-bit test `index - offset >= limit` is the plain comparison while the difference fits, and never holds at offset `int.MinValue` for a positive limit |
| Common.WatchedFromWindow | Shoko.Server/API/v2/Modules/Common.cs:1405-1432 | every episode returned comes from a position inside the window |
| Common.WatchedPagesTile | Shoko.Server/API/v2/Modules/Common.cs:1405-1432 | two consecutive pages make the page of twice the size |
| Common.Appearance | Shoko.Server/API/v2/Modules/Common.cs:3107-3108 | a role's type is parsed with spaces turned into underscores; a null role has none |
| Common.CompareOrdinalNullable | Shoko.Server/API/v2/Modules/Common.cs:3130 | null first, then ordinal order; 0 exactly for equal strings |
| Common.CompareRoleByImportance | Shoko.Server/API/v2/Modules/Common.cs:3105-3131 | negative exactly when the first role is listed before the second: parsable roles first, by type, then by character; two unparsable roles are equal, an unparsable one comes last |
| Common.RoleCompareAntisymmetric | Shoko.Server/API/v2/Modules/Common.cs:3105-3131 | swapping the roles negates the result |
| Common.RoleCompareReflexive | Shoko.Server/API/v2/Modules/Common.cs:3105-3131 | a role compares equal to itself |
| Common.ListedBeforeTransitive | Shoko.Server/API/v2/Modules/Common.cs:3105-3131 | the order the comparator induces is transitive |
| CommonFolders.GetSeriesInfoByFolder | Shoko.Server/API/v2/Modules/Common.cs:2123-2190 | one entry per series, each with its files' count, bytes and folders (no duplicate folder); the folder's totals are the sums of the entries; entries are sorted by ordinal name |
| CommonFolders.RecordPlace | Shoko.Server/API/v2/Modules/Common.cs:2150-2181 | the inner loop adds each distinct series of one file to the statistics and the totals |
| CommonFolders.SortByName | Shoko.Server/API/v2/Modules/Common.cs:2107-2115 | the entries sorted by ordinal name, as a permutation |
| CommonFolders.SortedSummarises | Shoko.Server/API/v2/Modules/Common.cs:2186-2187 | sorting keeps every entry, the distinct ids and the totals |
| CommonFolders.Starred | Shoko.Server/API/v2/Modules/Common.cs:2230-2233 | the name with as many '*' appended as it takes to be new |
| CommonFolders.GetSeriesInfoByFolderForUser | Shoko.Server/API/v2/Modules/Common.cs:2200-2248 | one entry per distinct name, in file order, at most `limit` (100 for 0, at least one) of them |
| CommonFolders.ListedNamesDistinct | Shoko.Server/API/v2/Modules/Common.cs:2200-2248 | no two listed entries share a name |
| CommonFolders.ListingBounded | Shoko.Server/API/v2/Modules/Common.cs:2241-2244 | at most `limit` entries, and a negative limit still lets the first one through |
| CommonFolders.RepeatWithSameSizeDropped | Shoko.Server/API/v2/Modules/Common.cs:2219-2228 | a repeated name with the same size adds nothing |
| CommonFolders.RepeatWithOtherSizeStarred | Shoko.Server/API/v2/Modules/Common.cs:2228-2237 | a repeated name with another size is listed once more, under the name with '*' appended until it is new |
| CommonFolders.NewNameListed | Shoko.Server/API/v2/Modules/Common.cs:2219-2225 | a new name is listed as it is |
| Filters.MissingTraktLink | Shoko.Server/Filters/Info/MissingTraktLinkExpression.cs:14-17 | true exactly for what has no Trakt link |
| Filters.ExpressionEquals | Shoko.Server/Filters/Info/MissingTraktLinkExpression.cs:24-42 | false for null, true for the same instance, false for another run-time type, otherwise the base equality |
| Filters.OperatorEquals | Shoko.Server/Filters/Info/MissingTraktLinkExpression.cs:49-52 | the same instance or two nulls are equal, a null and a non-null never, otherwise `Equals` decides |
| Filters.NotEqualsNegates | Shoko.Server/Filters/Info/MissingTraktLinkExpression.cs:54-57 | `!=` is always the negation of `==`; the operator is defined that way, so this records the definition rather than a derived property |
| Filters.SameTypeHashesEqually | Shoko.Server/Filters/Info/MissingTraktLinkExpression.cs:44-47 | all instances of one run-time type hash equally |
| Filters.EqualExpressionsHashEqually | Shoko.Server/Filters/Info/MissingTraktLinkExpression.cs:24-57 | instances that are equal hash equally |
| Filters.OperatorEqualsSymmetric | Shoko.Server/Filters/Info/MissingTraktLinkExpression.cs:24-52 | `==` is symmetric when the base equality is |
| Filters.AirDateKey | Shoko.Server/Filters/SortingSelectors/AirDateSortingSelector.cs:12-15 | the air date when there is one, the default value otherwise |
| Filters.AirDateKeyReadsOnlyAirDate | Shoko.Server/Filters/SortingSelectors/AirDateSortingSelector.cs:14 | the key reads nothing of the filterable but its air date |
| Filters.MissingAirDateSortsAsDefault | Shoko.Server/Filters/SortingSelectors/AirDateSortingSelector.cs:10-14 | no air date sorts exactly like an air date on the default value |
| Filters.FiltersIndependentOfTimeAndUser | Shoko.Server/Filters/SortingSelectors/AirDateSortingSelector.cs:8-9 | neither filter member depends on the time of evaluation or the user (`MissingTraktLinkExpression.cs` lines 10-11 likewise); both are the constant `false` in the source, so this records the definition rather than a derived property |

## Left out

- Queue processors: the worker loops, `CommandRequestRepository.GetQueueIndex` and the processor singletons are not part of this model. The queue index is an input, and waking a lane is a recorded event.
- Serialisation: `ToXML`, `ToJson` and `XmlDocument.LoadXml` are library code. The payload is an opaque string, and whether it loads is an input.
- XML navigation: `XmlNode` access in the parser (`TryGetProperty`, `TryGetAttribute`) is not modelled. The parser's decoders take the texts those calls return. `TryGetProperty` in the command base class is modelled on a tree of named nodes.
- `CommandRequests.TryGetProperty`: the `catch` that turns any exception into "" is not modelled, because the modelled navigation cannot throw.
- `HttpAnimeParser.ResponseAnime.ParseDates`: the conversion through Tokyo time is taken to leave a date unchanged, because time-zone rules are platform data.
- `HttpAnimeParser.ParseAnime`: the model checks the title before it builds the record. The source builds the record first. A null result discards the record either way, so the order cannot be observed.
- Ratings, titles, staff and characters (`ParseRatings`, `ParseTitle`, `ParseStaff`, `ParseCharacter`): these are outside the decoders modelled here. `ParseRatings` uses culture-dependent decimal parsing and rounding. The title-language table (`GetLanguageFromXmlAttribute`) is modelled.
- `DateTime.TryParse` of a tag's or episode's update time depends on the culture. It is an input.
- `HttpUtility.HtmlDecode`, `Path.GetDirectoryName`, `Enum.TryParse`, `string.GetHashCode`, a series' preferred title, `Serie.GenerateFromVideoLocal`, `Episode.GenerateFromAnimeEpisode` and the `RawFile` constructor are all library or API code. Each is a function parameter.
- Repository queries (`RepoFactory`), `HttpContext`, `ActionResult` construction and the scheduler are controller plumbing. Only the vote table and the conversion of the job's vote value are modelled. The job's value is the scaled integer score; its `/ 100D` floating-point form is not modelled, and neither is what the job does once started. `StartJobNow` is not part of this model; it is taken to run the job's setup before it returns, so an exception there reaches the caller.
- `Common.CompareRoleByImportance`: returns the sign of the character-name comparison, not `string.Compare`'s own value; callers use only the sign.
- `Common.ListWatchedEpisodes`: requires at most `int.MaxValue` watched entries, the most a .NET list holds, so the 32-bit `index` counter never wraps.
- `Common.GetUnsort`: the offset counter is not wrapped at 32 bits. Wrapping would matter only after 2^31 unsorted files.
- `CommonFolders.SortByName`: `List.Sort` is unstable, so entries with equal names may come out in another order. The model sorts by insertion and promises only sortedness and the same entries.
- `ModelHelper.GenerateSeriesSizes`: the source reads the air date (`GetAirDateAsDate`) before it checks for a missing AniDB episode. That extension method is not part of this model, and the model takes it to accept a missing episode.
- `HttpAnimeParser.ParseEpisode`: the rating (culture-dependent decimal parsing) and the episode titles are not modelled.
- Case mapping: `Runtime.LowerChar` and `Runtime.UpperChar` map ASCII letters only. `ToLowerInvariant` and culture `ToUpper` also map non-ASCII letters, for example 'ſ' to 'S' under `ToUpper` and the Kelvin sign to 'k' under `ToLowerInvariant`. The Unicode case tables are platform data. The members below promise case-insensitivity for ASCII letters only.
- FirstNamed: the name match ignores ASCII letter case only; names that differ in a non-ASCII letter which `ToLowerInvariant` folds are not matched by the model.
- NamesMatchLoosely: "differ only in letter case" means ASCII letter case; keys that differ in a non-ASCII letter that `ToLowerInvariant` folds are not covered.
- TypeOfFirstChar: upper-cases ASCII letters only. For "ſ5", .NET `ToUpper` gives 'S' and the source returns a special, while the model returns a regular episode.
- AnimeTypeIgnoresCase: holds for ASCII letter case only; a non-ASCII letter that `ToLowerInvariant` folds into one of the table's words is not recognised by the model.
- RelationIgnoresCase: holds for ASCII letter case only, for the same reason.
- LanguageIgnoresCase: holds for ASCII letter case only, for the same reason.
- Code units: a Dafny `char` is a Unicode scalar value, while a .NET string is indexed by UTF-16 code unit. A character outside the Basic Multilingual Plane is one character here and two units in the source.
- GetEpisodeNumberAndTypeFromInput: for input such as "😀5", the source's `input[0]` and `Substring(1)` split the surrogate pair and fail to parse the number ("Unable to parse" message), while the model reads one unknown letter ("Unknown episode type" message).
- Sizes and counters: sums of file sizes and counters are unbounded integers. A 64-bit overflow is not modelled.
- Date and time values: `DateTime` values are modelled as calendar dates or tick counts, and only date components are compared.
- The other sorting selectors, API setup and repositories (`APIExtensions`, `SVR_AniDB_Episode`, `IgnoreAnimeRepository`) are not part of this model.

## Findings

| source | as written | input that shows it | evidently intended | confidence | as-written member | corrected member |
|---|---|---|---|---|---|---|
| Shoko.Server/Providers/AniDB/HTTP/HttpAnimeParser.cs:899-912 | every pass decodes the original `xml`, so the second pass matches the first and the text is decoded once | "&amp;lt;" comes back as "&lt;" | decode the previous result again until it stops changing, at most five times, as the comment says | high, not executed | HttpAnimeParser.UnescapeXml, HttpAnimeParser.DoubleEscapedText | HttpAnimeParser.UnescapeXmlDeep |
| Shoko.Server/API/v3/Helpers/ModelHelper.cs:46-47 | the offset `pageSize * (page - 1)` is computed in 32-bit arithmetic and wraps around | page 1073741825 with page size 2 gives offset -2147483648, so the first page comes back instead of an empty one | the page that starts at `pageSize * (page - 1)`, empty past the end of the list | medium, not executed | ModelHelper.OverflowGivesFirstPage | ModelHelper.ToListResultPaged |
| Shoko.Server/API/v3/Helpers/ModelHelper.cs:71 | the mapped overload computes the same 32-bit offset `pageSize * (page - 1)`, which wraps around | page 1073741825 with page size 2 maps the first two items instead of none | the mapped page that starts at `pageSize * (page - 1)`, empty past the end of the list | medium, not executed | ModelHelper.MappedOverflowGivesFirstPage | ModelHelper.ToListResultMapped |
| Shoko.Server/API/v2/Modules/Common.cs:1579 | the episode vote job is given `Convert.ToDouble(thisVote)`, the vote row itself, which is not `IConvertible`, so `InvalidCastException` escapes after the vote is saved | episode 7 voted 8: the vote 800 is stored and the request fails instead of answering `Ok` | pass the score, as the series vote passes `score / 100D` (line 2595) | medium, not executed | CommonVotes.EpisodeVoteFaultsAfterSave | CommonVotes.EpisodeVote |
| Shoko.Server/API/v2/Modules/Common.cs:2575-2578 | the existing vote is looked up under the series id, but a new vote is stored under the series' AniDB id | series 5 with AniDB id 1234, voted 8 twice, leaves two anime votes for anime 1234 | look the vote up under the AniDB id it is stored under, so a series keeps one vote | high, not executed | CommonVotes.SerieVoteAsWrittenDuplicates | CommonVotes.SerieVoteIdempotent |
