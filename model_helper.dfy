/**
 * The helpers of the v3 API models: paging a list while keeping its full
 * size, reading an episode identifier such as "12" or "S3", `data:` URLs
 * (section 3 of RFC 2397, with base 64 as section 4 of RFC 4648 defines it),
 * and the per-type episode and file counts of a series or a group.
 */
module ModelHelper {
  import opened Wrappers
  import opened Runtime
  import opened EpisodeTypes
  import opened Base64

  // ---------------------------------------------------------------- paging

  /** `ListResult<T>`: one page of a list, with the size of the whole list. */
  datatype ListResult<T> = ListResult(total: int, list: seq<T>)

  /** `Enumerable.Skip`: a count of zero or less skips nothing. */
  function Skip<T>(s: seq<T>, n: int): seq<T> {
    if n <= 0 then s else if n >= |s| then [] else s[n..]
  }

  /** `Enumerable.Take`: a count of zero or less takes nothing. */
  function Take<T>(s: seq<T>, n: int): seq<T> {
    if n <= 0 then [] else if n >= |s| then s else s[..n]
  }

  /** `ToListResult()`: the whole list as a single page. */
  function ToListResult<T>(items: seq<T>): ListResult<T> {
    ListResult(|items|, items)
  }

  /** Where page `page` starts, counted without overflow: pages are numbered from 1. */
  function PageStart(page: int, pageSize: int): nat {
    Max(0, pageSize * (page - 1))
  }

  /**
   * The offset as the source computes it, `pageSize * (page - 1)` in 32-bit
   * arithmetic (wrapping the product once is the same as wrapping each step).
   */
  function OffsetAsWritten(page: int32, pageSize: int32): int32 {
    Wrap32(pageSize * (page - 1))
  }

  /**
   * `ToListResult(page, pageSize)` as written, its offset wrapping around:
   * an offset that wraps to zero or below skips nothing, so the first page
   * comes back.
   */
  function ToListResultPagedAsWritten<T>(items: seq<T>, page: int32, pageSize: int32): (r: ListResult<T>)
    ensures r.total == |items|
    ensures pageSize <= 0 ==> r.list == items
    ensures pageSize > 0 && OffsetAsWritten(page, pageSize) <= 0 ==> r.list == items[..Min(pageSize, |items|)]
    ensures pageSize > 0 && OffsetAsWritten(page, pageSize) > 0 ==>
              var start := OffsetAsWritten(page, pageSize);
              r.list == items[Min(start, |items|)..Min(start + pageSize, |items|)]
  {
    if pageSize <= 0 then ListResult(|items|, items)
    else ListResult(|items|, Take(Skip(items, OffsetAsWritten(page, pageSize)), pageSize))
  }

  /** `ToListResult(mapper, page, pageSize)` as written: the same wrapped offset, each item mapped. */
  function ToListResultMappedAsWritten<T, U>(items: seq<T>, mapper: T -> U, page: int32, pageSize: int32): (r: ListResult<U>)
    ensures r.total == |items|
    ensures r.list == Map(mapper, ToListResultPagedAsWritten(items, page, pageSize).list)
  {
    if pageSize <= 0 then ListResult(|items|, Map(mapper, items))
    else ListResult(|items|, Map(mapper, Take(Skip(items, OffsetAsWritten(page, pageSize)), pageSize)))
  }

  /**
   * `ToListResult(page, pageSize)` with the offset it evidently means: the
   * whole list when the page size is not positive, otherwise the page of at
   * most `pageSize` items that starts at `pageSize * (page - 1)` (at the
   * first item for a page number below 1). The total is always the size of
   * the whole list.
   */
  function ToListResultPaged<T>(items: seq<T>, page: int32, pageSize: int32): (r: ListResult<T>)
    ensures r.total == |items|
    ensures pageSize <= 0 ==> r.list == items
    ensures pageSize > 0 ==>
              r.list == items[Min(PageStart(page, pageSize), |items|)..Min(PageStart(page, pageSize) + pageSize, |items|)]
  {
    if pageSize <= 0 then ListResult(|items|, items)
    else ListResult(|items|, Take(Skip(items, pageSize * (page - 1)), pageSize))
  }

  /** `ToListResult(mapper, page, pageSize)`: the same page, each item mapped. */
  function ToListResultMapped<T, U>(items: seq<T>, mapper: T -> U, page: int32, pageSize: int32): (r: ListResult<U>)
    ensures r.total == |items|
    ensures r.list == Map(mapper, ToListResultPaged(items, page, pageSize).list)
  {
    if pageSize <= 0 then ListResult(|items|, Map(mapper, items))
    else ListResult(|items|, Map(mapper, Take(Skip(items, pageSize * (page - 1)), pageSize)))
  }

  /** Every overload reports the size of the whole list, whatever the page. */
  lemma TotalIsWholeList<T, U>(items: seq<T>, mapper: T -> U, page: int32, pageSize: int32)
    ensures ToListResult(items).total == ToListResultPaged(items, page, pageSize).total
            == ToListResultMapped(items, mapper, page, pageSize).total == |items|
  {
  }

  /** Pages 1 to `count`, one after the other. */
  function PagesUpTo<T>(items: seq<T>, pageSize: int32, count: nat): seq<T>
    requires count <= Int32Max
  {
    if count == 0 then [] else PagesUpTo(items, pageSize, count - 1) + ToListResultPaged(items, count, pageSize).list
  }

  /** Page `page`, from 1 on, is the slice between the ends of the pages before it and of itself. */
  lemma PageSlice<T>(items: seq<T>, page: int32, pageSize: int32, start: nat, end: nat)
    requires page >= 1 && pageSize > 0
    requires start == (page - 1) * pageSize && end == start + pageSize
    ensures ToListResultPaged(items, page, pageSize).list == items[Min(start, |items|)..Min(end, |items|)]
  {
    assert PageStart(page, pageSize) == start by {
      assert pageSize * (page - 1) == (page - 1) * pageSize;
    }
  }

  /**
   * The first `count` pages, read one after the other, are the first
   * `count * pageSize` items of the list (or all of it): no item is skipped
   * or repeated.
   */
  lemma {:induction false} PagesCover<T>(items: seq<T>, pageSize: int32, count: nat, covered: nat)
    requires pageSize > 0 && count <= Int32Max && covered == count * pageSize
    ensures PagesUpTo(items, pageSize, count) == items[..Min(covered, |items|)]
  {
    if count > 0 {
      var start := PreviousPagesEnd(count, pageSize, covered);
      PagesCover(items, pageSize, count - 1, start);
      PageSlice(items, count, pageSize, start, covered);
      NextPage(items, pageSize, count, start, covered);
    }
  }

  /** The first `count - 1` pages end one page before the first `count` do. */
  lemma PreviousPagesEnd(count: nat, pageSize: int32, covered: nat) returns (start: nat)
    requires count > 0 && pageSize > 0 && covered == count * pageSize
    ensures start == (count - 1) * pageSize && start + pageSize == covered
  {
    start := (count - 1) * pageSize;
  }

  /** Appending the slice that follows a prefix gives the longer prefix. */
  lemma NextPage<T>(items: seq<T>, pageSize: int32, count: nat, start: nat, covered: nat)
    requires 0 < count <= Int32Max && start <= covered
    requires PagesUpTo(items, pageSize, count - 1) == items[..Min(start, |items|)]
    requires ToListResultPaged(items, count, pageSize).list == items[Min(start, |items|)..Min(covered, |items|)]
    ensures PagesUpTo(items, pageSize, count) == items[..Min(covered, |items|)]
  {
    var a, b := Min(start, |items|), Min(covered, |items|);
    assert PagesUpTo(items, pageSize, count) == PagesUpTo(items, pageSize, count - 1) + ToListResultPaged(items, count, pageSize).list;
    PrefixThenSlice(items, a, b);
  }

  lemma PrefixThenSlice<T>(items: seq<T>, a: nat, b: nat)
    requires a <= b <= |items|
    ensures items[..a] + items[a..b] == items[..b]
  {
  }

  /** Where `pageSize * (page - 1)` fits in 32 bits, the source's page is the intended one. */
  lemma AsWrittenWithoutOverflow<T>(items: seq<T>, page: int32, pageSize: int32)
    requires Int32Min <= pageSize * (page - 1) <= Int32Max
    ensures ToListResultPagedAsWritten(items, page, pageSize) == ToListResultPaged(items, page, pageSize)
  {
  }

  /**
   * The wrap-around: with two items to a page, page 1073741825 starts at
   * 2147483648, past the end of any list; the source computes the offset
   * -2147483648 instead, skips nothing, and returns the first page.
   */
  lemma OverflowGivesFirstPage<T>(items: seq<T>)
    requires 2 <= |items| <= Int32Max
    ensures ToListResultPagedAsWritten(items, 1073741825, 2).list == items[..2]
    ensures ToListResultPaged(items, 1073741825, 2).list == []
  {
    assert OffsetAsWritten(1073741825, 2) == Int32Min;
  }

  /** The mapped overload wraps the same way: page 1073741825 of two maps the first two items. */
  lemma MappedOverflowGivesFirstPage<T, U>(items: seq<T>, mapper: T -> U)
    requires 2 <= |items| <= Int32Max
    ensures ToListResultMappedAsWritten(items, mapper, 1073741825, 2).list == [mapper(items[0]), mapper(items[1])]
    ensures ToListResultMapped(items, mapper, 1073741825, 2).list == []
  {
    OverflowGivesFirstPage(items);
  }

  // ---------------------------------------------------------------- episode identifiers

  /** The `(int, EpisodeType?, string)` tuple of `GetEpisodeNumberAndTypeFromInput`. */
  datatype EpisodeInput = EpisodeInput(number: int32, episodeType: Option<EpisodeType>, error: Option<string>)

  const ParseIntError: string := "Unable to parse an int from `{VariableName}`"

  /** The message for a prefix that names no episode type; `{{` in the interpolated source text is a literal `{`. */
  function UnknownTypeError(c: char): string {
    "Unknown episode type '" + [c] + "' number in `{VariableName}`."
  }

  /**
   * `GetEpisodeNumberAndTypeFromInput`: a plain number has no type; otherwise
   * the first character must be one of the upper-case letters E, C, S, T, P,
   * O and the rest a number. The empty text does not parse as a number and
   * has no first character: the source throws `IndexOutOfRangeException`.
   */
  function GetEpisodeNumberAndTypeFromInput(input: string): (r: Result<EpisodeInput, string>)
    ensures r.Fail? <==> input == []
    ensures ParseInt32(input).Some? ==> r == Ok(EpisodeInput(ParseInt32(input).value, None, None))
    ensures r.Ok? && r.value.error.None? && r.value.episodeType.Some? ==>
              input[0] == Letter(r.value.episodeType.value) && ParseInt32(input[1..]) == Some(r.value.number)
    ensures r.Ok? && r.value.error.Some? ==> r.value.number == 0 && r.value.episodeType.None?
  {
    match ParseInt32(input)
    case Some(n) => Ok(EpisodeInput(n, None, None))
    case None =>
      if input == [] then Fail("IndexOutOfRangeException")
      else
        match ParseInt32(input[1..])
        case None => Ok(EpisodeInput(0, None, Some(ParseIntError)))
        case Some(n) =>
          match TypeOfLetter(input[0])
          case None => Ok(EpisodeInput(0, None, Some(UnknownTypeError(input[0]))))
          case Some(t) => Ok(EpisodeInput(n, Some(t), None))
  }

  /** A number as `ToString` writes it is read back with no type. */
  lemma PlainNumberRoundTrip(n: int32)
    ensures GetEpisodeNumberAndTypeFromInput(FormatInt(n)) == Ok(EpisodeInput(n, None, None))
  {
    ParseFormatRoundTrip(n);
  }

  /** A type letter followed by a number is read back as that type and number. */
  lemma TypedNumberRoundTrip(t: EpisodeType, n: int32)
    ensures GetEpisodeNumberAndTypeFromInput([Letter(t)] + FormatInt(n)) == Ok(EpisodeInput(n, Some(t), None))
  {
    var s := [Letter(t)] + FormatInt(n);
    ParseRejectsLeadingChar(Letter(t), FormatInt(n));
    assert s[1..] == FormatInt(n);
    ParseFormatRoundTrip(n);
    LetterRoundTrip(t);
  }

  /** Any other leading letter (lower-case ones too) is reported with the letter in the message. */
  lemma UnknownLetterRejected(c: char, n: int32)
    requires 'A' <= c <= 'Z' || 'a' <= c <= 'z'
    requires forall t: EpisodeType :: Letter(t) != c
    ensures GetEpisodeNumberAndTypeFromInput([c] + FormatInt(n)) == Ok(EpisodeInput(0, None, Some(UnknownTypeError(c))))
  {
    var s := [c] + FormatInt(n);
    ParseRejectsLeadingChar(c, FormatInt(n));
    assert s[1..] == FormatInt(n);
    ParseFormatRoundTrip(n);
  }

  // ---------------------------------------------------------------- data URLs

  /** The characters `FromDataURL` splits on. */
  const Separators: set<char> := {':', ';', ','}

  /** The default field names the two methods report errors under. */
  const ToDataUrlField: string := "ByteArrayToDataUrl"
  const FromDataUrlField: string := "DataUrlToByteArray"

  /**
   * `ToDataURL`: `data:<content type>;base64,<bytes in base 64>`, or, for a
   * null array or a null or empty content type, null with an error recorded
   * for the field (the `Fail` message).
   */
  function ToDataURL(bytes: Option<seq<byte>>, contentType: Option<string>, fieldName: string): (r: Result<string, string>)
    ensures r.Fail? <==> bytes.None? || contentType.None? || contentType.value == ""
    ensures r.Ok? ==> |r.value| == 13 + |contentType.value| + (|bytes.value| + 2) / 3 * 4
    ensures r.Fail? ==> r.error == "Invalid byte array or content type for field '" + fieldName + "'."
  {
    if bytes.None? || contentType.None? || contentType.value == "" then
      Fail("Invalid byte array or content type for field '" + fieldName + "'.")
    else
      Ok("data:" + contentType.value + ";base64," + Encode(bytes.value))
  }

  /**
   * `FromDataURL`: the text split on ':', ';' and ',' with empty pieces
   * dropped must give exactly four pieces, the first "data"; the second is the
   * content type and the fourth the base 64 data. The third piece is not
   * looked at. On failure, an error is recorded for the field and both parts
   * are null.
   */
  function FromDataURL(dataUrl: string, fieldName: string): (r: Result<(seq<byte>, string), string>)
    ensures r.Ok? ==> r.value.1 != "" && forall c :: c in r.value.1 ==> c !in Separators
    ensures r.Fail? ==> r.error == "Invalid data URL format for field '" + fieldName + "'."
                        || r.error == "Base64 data is not in a correct format for field '" + fieldName + "'."
  {
    var parts := NonEmpty(Split(dataUrl, Separators));
    if |parts| != 4 || parts[0] != "data" then
      Fail("Invalid data URL format for field '" + fieldName + "'.")
    else
      match Decode(parts[3])
      case None => Fail("Base64 data is not in a correct format for field '" + fieldName + "'.")
      case Some(b) => Ok((b, parts[1]))
  }

  /** The data URL of a content type, a third piece and a payload. */
  function DataUrl(contentType: string, encoding: string, payload: string): string {
    "data:" + contentType + ";" + encoding + "," + payload
  }

  /** How a data URL with separator-free pieces splits. */
  lemma {:induction false} DataUrlPieces(contentType: string, encoding: string, payload: string)
    requires forall c :: c in contentType ==> c !in Separators
    requires forall c :: c in encoding ==> c !in Separators
    requires forall c :: c in payload ==> c !in Separators
    ensures Split(DataUrl(contentType, encoding, payload), Separators) == ["data", contentType, encoding, payload]
  {
    var s := DataUrl(contentType, encoding, payload);
    assert s == "data" + [':'] + (contentType + [';'] + (encoding + [','] + payload));
    SplitAfterPiece("data", ':', contentType + [';'] + (encoding + [','] + payload), Separators);
    SplitAfterPiece(contentType, ';', encoding + [','] + payload, Separators);
    SplitAfterPiece(encoding, ',', payload, Separators);
    SplitWhole(payload, Separators);
  }

  /** What `FromDataURL` gives for a payload that stands fourth of four pieces, behind `contentType`. */
  function PayloadRead(contentType: string, payload: string, fieldName: string): Result<(seq<byte>, string), string> {
    match Decode(payload)
    case None => Fail("Base64 data is not in a correct format for field '" + fieldName + "'.")
    case Some(b) => Ok((b, contentType))
  }

  /** A data URL of four separator-free, non-empty pieces is read as its payload and content type. */
  lemma DataUrlReads(contentType: string, encoding: string, payload: string, fieldName: string)
    requires contentType != "" && encoding != "" && payload != ""
    requires forall c :: c in contentType ==> c !in Separators
    requires forall c :: c in encoding ==> c !in Separators
    requires forall c :: c in payload ==> c !in Separators
    ensures FromDataURL(DataUrl(contentType, encoding, payload), fieldName) == PayloadRead(contentType, payload, fieldName)
  {
    var pieces := ["data", contentType, encoding, payload];
    DataUrlPieces(contentType, encoding, payload);
    NonEmptyKeepsAll(pieces);
    assert NonEmpty(Split(DataUrl(contentType, encoding, payload), Separators)) == pieces;
  }

  /** Base 64 text never holds one of the separators. */
  lemma EncodingHasNoSeparator(bytes: seq<byte>)
    ensures forall c :: c in Encode(bytes) ==> c !in Separators
  {
  }

  /**
   * The round trip: a non-empty array with a non-empty content type that
   * holds none of the separators is read back as it was written.
   */
  lemma DataUrlRoundTrip(bytes: seq<byte>, contentType: string, toField: string, fromField: string)
    requires bytes != [] && contentType != ""
    requires forall c :: c in contentType ==> c !in Separators
    ensures ToDataURL(Some(bytes), Some(contentType), toField).Ok?
    ensures FromDataURL(ToDataURL(Some(bytes), Some(contentType), toField).value, fromField) == Ok((bytes, contentType))
  {
    var payload := Encode(bytes);
    EncodingHasNoSeparator(bytes);
    EncodeEmpty(bytes);
    assert ToDataURL(Some(bytes), Some(contentType), toField).value == DataUrl(contentType, "base64", payload);
    Base64WordClean();
    DataUrlReads(contentType, "base64", payload, fromField);
    DecodeEncode(bytes);
  }

  /** An empty array breaks the round trip: its URL ends in the empty piece, so only three pieces are left. */
  lemma EmptyArrayBreaksRoundTrip(contentType: string, toField: string, fromField: string)
    requires contentType != ""
    requires forall c :: c in contentType ==> c !in Separators
    ensures ToDataURL(Some([]), Some(contentType), toField).Ok?
    ensures FromDataURL(ToDataURL(Some([]), Some(contentType), toField).value, fromField).Fail?
  {
    assert ToDataURL(Some([]), Some(contentType), toField).value == DataUrl(contentType, "base64", "");
    Base64WordClean();
    DataUrlPieces(contentType, "base64", "");
    assert ["data", contentType, "base64", ""] == ["data", contentType, "base64"] + [""];
    NonEmptyAppend(["data", contentType, "base64"], [""]);
    NonEmptyKeepsAll(["data", contentType, "base64"]);
    assert NonEmpty([""]) == [];
  }

  /** Whatever stands where "base64" should, the URL decodes the same. */
  lemma ThirdPieceIgnored(contentType: string, encoding: string, payload: string, fieldName: string)
    requires contentType != "" && encoding != "" && payload != ""
    requires forall c :: c in contentType ==> c !in Separators
    requires forall c :: c in encoding ==> c !in Separators
    requires forall c :: c in payload ==> c !in Separators
    ensures FromDataURL(DataUrl(contentType, encoding, payload), fieldName)
            == FromDataURL(DataUrl(contentType, "base64", payload), fieldName)
  {
    DataUrlReads(contentType, encoding, payload, fieldName);
    Base64WordClean();
    DataUrlReads(contentType, "base64", payload, fieldName);
  }

  lemma Base64WordClean()
    ensures forall c :: c in "base64" ==> c !in Separators
  {
  }

  // ---------------------------------------------------------------- episode counts

  /** `FileSource`, as `File.ParseFileSource` reads it from an AniDB file's source text. */
  datatype FileSource = UnknownSource | OtherSource | TV | DVD | BluRay | Web | VHS | VCD | LaserDisc | Camera

  /** A file of an episode: its `VideoLocalID` and the source of its AniDB file (None when it has none). */
  datatype LocalFile = LocalFile(videoLocalId: int, anidbSource: Option<FileSource>)

  /**
   * What the counts read from an AniDB episode: its type (None where the
   * stored number names no member of `EpisodeType`) and its air date in ticks.
   */
  datatype AniDbEpisode = AniDbEpisode(episodeType: Option<EpisodeType>, airDate: Option<int>)

  /**
   * An episode as the counts see it: its AniDB episode (None when there is
   * none), its files, the user's watch count (None without a user record) and
   * whether it is hidden.
   */
  datatype AnimeEpisode = AnimeEpisode(anidb: Option<AniDbEpisode>, files: seq<LocalFile>, watchedCount: Option<int>,
                                       isHidden: bool)

  /** `GetTotalEpisodesForType`: how many episodes have AniDB data of the given type. */
  function GetTotalEpisodesForType(episodes: seq<AnimeEpisode>, episodeType: EpisodeType): (r: nat)
    ensures r <= |episodes|
  {
    if episodes == [] then 0
    else
      var e := episodes[|episodes| - 1];
      GetTotalEpisodesForType(episodes[..|episodes| - 1], episodeType)
      + (if e.anidb.Some? && e.anidb.value.episodeType == Some(episodeType) then 1 else 0)
  }

  /**
   * `SeriesSizes`. Each block of counters is a multiset in which the count of
   * a kind is its multiplicity. Episode counters are keyed by the episode
   * type; the key None is the `Unknown` counter, for an episode without AniDB
   * data.
   */
  datatype SeriesSizes = SeriesSizes(hidden: nat, fileSources: multiset<FileSource>,
                                     total: multiset<Option<EpisodeType>>, local: multiset<Option<EpisodeType>>,
                                     watched: multiset<Option<EpisodeType>>, missing: multiset<Option<EpisodeType>>)

  const NoSizes := SeriesSizes(0, multiset{}, multiset{}, multiset{}, multiset{}, multiset{})

  /** The counters, with the set of file IDs counted so far. */
  datatype Tally = Tally(sizes: SeriesSizes, fileSet: set<int>)

  /** A file is counted under its source the first time its ID is met. */
  function CountFile(t: Tally, file: LocalFile): Tally {
    if file.videoLocalId in t.fileSet then t
    else Tally(t.sizes.(fileSources := t.sizes.fileSources + multiset{file.anidbSource.GetOr(UnknownSource)}),
               t.fileSet + {file.videoLocalId})
  }

  function CountFiles(t: Tally, files: seq<LocalFile>): Tally {
    if files == [] then t else CountFile(CountFiles(t, files[..|files| - 1]), files[|files| - 1])
  }

  /** An episode counted under `key`: in the totals, and where the flags say, as local, missing and watched. */
  function CountKind(s: SeriesSizes, key: Option<EpisodeType>, isLocal: bool, isMissing: bool, isWatched: bool): SeriesSizes {
    s.(total := s.total + multiset{key},
       local := if isLocal then s.local + multiset{key} else s.local,
       missing := if isMissing then s.missing + multiset{key} else s.missing,
       watched := if isWatched then s.watched + multiset{key} else s.watched)
  }

  /**
   * One episode: its files first; then a hidden episode is only counted as
   * hidden, an episode without AniDB data is counted as Unknown, and any
   * other is counted under its type, as missing when it is a regular episode
   * or a special with no file that aired before `now`.
   */
  function CountEpisode(t: Tally, e: AnimeEpisode, now: int): Tally {
    var t1 := CountFiles(t, e.files);
    var isLocal := |e.files| > 0;
    var isWatched := e.watchedCount.GetOr(0) > 0;
    if e.isHidden then t1.(sizes := t1.sizes.(hidden := t1.sizes.hidden + 1))
    else if e.anidb.None? then t1.(sizes := CountKind(t1.sizes, None, isLocal, false, isWatched))
    else
      match e.anidb.value.episodeType
      case None => t1
      case Some(k) =>
        var aired := e.anidb.value.airDate.Some? && e.anidb.value.airDate.value < now;
        var isMissing := (k == Episode || k == Special) && !isLocal && aired;
        t1.(sizes := CountKind(t1.sizes, Some(k), isLocal, isMissing, isWatched))
  }

  function CountEpisodes(episodes: seq<AnimeEpisode>, now: int): Tally {
    if episodes == [] then Tally(NoSizes, {})
    else CountEpisode(CountEpisodes(episodes[..|episodes| - 1], now), episodes[|episodes| - 1], now)
  }

  /** The sizes of a series with these episodes, `now` standing for `DateTime.Now`. */
  function SeriesSizesOf(episodes: seq<AnimeEpisode>, now: int): SeriesSizes {
    CountEpisodes(episodes, now).sizes
  }

  /** `GenerateSeriesSizes`. */
  method GenerateSeriesSizes(episodes: seq<AnimeEpisode>, now: int) returns (sizes: SeriesSizes)
    ensures sizes == SeriesSizesOf(episodes, now)
  {
    sizes := NoSizes;
    var fileSet: set<int> := {};
    for i := 0 to |episodes|
      invariant Tally(sizes, fileSet) == CountEpisodes(episodes[..i], now)
    {
      var episode := episodes[i];
      assert episodes[..i + 1][..i] == episodes[..i];
      var isLocal := |episode.files| > 0;
      var isWatched := episode.watchedCount.GetOr(0) > 0;
      ghost var before := Tally(sizes, fileSet);
      for j := 0 to |episode.files|
        invariant Tally(sizes, fileSet) == CountFiles(before, episode.files[..j])
      {
        var file := episode.files[j];
        assert episode.files[..j + 1][..j] == episode.files[..j];
        if file.videoLocalId !in fileSet {
          fileSet := fileSet + {file.videoLocalId};
          match file.anidbSource
          case None =>
            sizes := sizes.(fileSources := sizes.fileSources + multiset{UnknownSource});
          case Some(source) =>
            sizes := sizes.(fileSources := sizes.fileSources + multiset{source});
        }
      }
      assert episode.files[..|episode.files|] == episode.files;
      if episode.isHidden {
        sizes := sizes.(hidden := sizes.hidden + 1);
      } else if episode.anidb.None? {
        sizes := sizes.(total := sizes.total + multiset{None});
        if isLocal {
          sizes := sizes.(local := sizes.local + multiset{None});
        }
        if isWatched {
          sizes := sizes.(watched := sizes.watched + multiset{None});
        }
      } else {
        var anidb := episode.anidb.value;
        match anidb.episodeType
        case None =>
        case Some(k) =>
          sizes := sizes.(total := sizes.total + multiset{Some(k)});
          if isLocal {
            sizes := sizes.(local := sizes.local + multiset{Some(k)});
          } else if (k == Episode || k == Special) && anidb.airDate.Some? && anidb.airDate.value < now {
            sizes := sizes.(missing := sizes.missing + multiset{Some(k)});
          }
          if isWatched {
            sizes := sizes.(watched := sizes.watched + multiset{Some(k)});
          }
      }
    }
    assert episodes[..|episodes|] == episodes;
  }

  /** The IDs of the files in a list. */
  function FileIds(files: seq<LocalFile>): set<int> {
    set f | f in files :: f.videoLocalId
  }

  /** The IDs of all files of all episodes. */
  function AllFileIds(episodes: seq<AnimeEpisode>): set<int> {
    set e, f | e in episodes && f in e.files :: f.videoLocalId
  }

  /** Counting files touches only the file-source counters, once per new ID. */
  lemma {:induction false} CountFilesOnce(t: Tally, files: seq<LocalFile>)
    requires |t.sizes.fileSources| == |t.fileSet|
    ensures var r := CountFiles(t, files);
            && r.fileSet == t.fileSet + FileIds(files)
            && |r.sizes.fileSources| == |r.fileSet|
            && r.sizes == t.sizes.(fileSources := r.sizes.fileSources)
  {
    if files != [] {
      var init := files[..|files| - 1];
      CountFilesOnce(t, init);
      assert FileIds(files) == FileIds(init) + {files[|files| - 1].videoLocalId};
    } else {
      assert FileIds(files) == {};
    }
  }

  /** An episode's files are counted as a list of files on their own; the rest of the episode leaves them be. */
  lemma EpisodeCountsItsFiles(t: Tally, e: AnimeEpisode, now: int)
    ensures var r, f := CountEpisode(t, e, now), CountFiles(t, e.files);
            r.fileSet == f.fileSet && r.sizes.fileSources == f.sizes.fileSources
  {
  }

  lemma AllFileIdsAppend(episodes: seq<AnimeEpisode>, e: AnimeEpisode)
    ensures AllFileIds(episodes + [e]) == AllFileIds(episodes) + FileIds(e.files)
  {
    var all := episodes + [e];
    forall id | id in AllFileIds(all)
      ensures id in AllFileIds(episodes) + FileIds(e.files)
    {
      var x, f :| x in all && f in x.files && f.videoLocalId == id;
      if x != e {
        assert x in episodes;
      }
    }
  }

  /** Every `VideoLocalID` adds to exactly one file-source counter, however many episodes share the file. */
  lemma {:induction false} FilesCountedOnce(episodes: seq<AnimeEpisode>, now: int)
    ensures CountEpisodes(episodes, now).fileSet == AllFileIds(episodes)
    ensures |SeriesSizesOf(episodes, now).fileSources| == |AllFileIds(episodes)|
  {
    if episodes == [] {
      assert AllFileIds(episodes) == {};
    } else {
      var init, e := episodes[..|episodes| - 1], episodes[|episodes| - 1];
      FilesCountedOnce(init, now);
      var t := CountEpisodes(init, now);
      var r := CountEpisodes(episodes, now);
      assert r == CountEpisode(t, e, now);
      CountFilesOnce(t, e.files);
      EpisodeCountsItsFiles(t, e, now);
      assert r.fileSet == t.fileSet + FileIds(e.files);
      assert episodes == init + [e];
      AllFileIdsAppend(init, e);
    }
  }

  /**
   * The episode counters agree with each other: local, watched and missing
   * episodes are among the totals, an episode is never both local and
   * missing, only regular episodes and specials are ever missing, and each
   * episode is counted at most once, as hidden or in the totals.
   */
  predicate Consistent(s: SeriesSizes, count: nat) {
    && s.local <= s.total && s.watched <= s.total && s.local + s.missing <= s.total
    && (forall k :: k in s.missing ==> k == Some(Episode) || k == Some(Special))
    && s.hidden + |s.total| <= count
  }

  lemma CountKindConsistent(s: SeriesSizes, count: nat, key: Option<EpisodeType>, isLocal: bool, isMissing: bool, isWatched: bool)
    requires Consistent(s, count)
    requires !(isLocal && isMissing) && (isMissing ==> key == Some(Episode) || key == Some(Special))
    ensures Consistent(CountKind(s, key, isLocal, isMissing, isWatched), count + 1)
  {
    var r := CountKind(s, key, isLocal, isMissing, isWatched);
    assert r.local <= r.total && r.watched <= r.total;
    assert r.local + r.missing <= r.total by {
      CountKindDisjoint(s, key, isLocal, isMissing, isWatched);
    }
  }

  lemma CountKindDisjoint(s: SeriesSizes, key: Option<EpisodeType>, isLocal: bool, isMissing: bool, isWatched: bool)
    requires s.local + s.missing <= s.total && !(isLocal && isMissing)
    ensures var r := CountKind(s, key, isLocal, isMissing, isWatched); r.local + r.missing <= r.total
  {
  }

  lemma EpisodeConsistent(t: Tally, count: nat, e: AnimeEpisode, now: int)
    requires Consistent(t.sizes, count)
    ensures Consistent(CountEpisode(t, e, now).sizes, count + 1)
  {
    var t1 := CountFiles(t, e.files);
    FilesKeepEpisodeCounters(t, e.files);
    assert Consistent(t1.sizes, count);
    var isLocal := |e.files| > 0;
    var isWatched := e.watchedCount.GetOr(0) > 0;
    if !e.isHidden && e.anidb.None? {
      CountKindConsistent(t1.sizes, count, None, isLocal, false, isWatched);
    } else if !e.isHidden && e.anidb.value.episodeType.Some? {
      var k := e.anidb.value.episodeType.value;
      var aired := e.anidb.value.airDate.Some? && e.anidb.value.airDate.value < now;
      CountKindConsistent(t1.sizes, count, Some(k), isLocal, (k == Episode || k == Special) && !isLocal && aired, isWatched);
    }
  }

  lemma {:induction false} CountersConsistent(episodes: seq<AnimeEpisode>, now: int)
    ensures Consistent(SeriesSizesOf(episodes, now), |episodes|)
  {
    if episodes != [] {
      var init, e := episodes[..|episodes| - 1], episodes[|episodes| - 1];
      CountersConsistent(init, now);
      EpisodeConsistent(CountEpisodes(init, now), |init|, e, now);
    }
  }

  /** Counting files leaves the episode counters as they are. */
  lemma {:induction false} FilesKeepEpisodeCounters(t: Tally, files: seq<LocalFile>)
    ensures var r := CountFiles(t, files).sizes;
            r.hidden == t.sizes.hidden && r.total == t.sizes.total && r.local == t.sizes.local
            && r.watched == t.sizes.watched && r.missing == t.sizes.missing
  {
    if files != [] {
      FilesKeepEpisodeCounters(t, files[..|files| - 1]);
    }
  }

  /** A hidden episode adds one to `Hidden` and nothing to the episode counters. */
  lemma HiddenOnlyCountsHidden(episodes: seq<AnimeEpisode>, e: AnimeEpisode, now: int)
    requires e.isHidden
    ensures var before, after := SeriesSizesOf(episodes, now), SeriesSizesOf(episodes + [e], now);
            after.hidden == before.hidden + 1
            && after.total == before.total && after.local == before.local
            && after.watched == before.watched && after.missing == before.missing
  {
    assert (episodes + [e])[..|episodes|] == episodes;
    FilesKeepEpisodeCounters(CountEpisodes(episodes, now), e.files);
  }

  /** Where no episode is hidden, the total of a type is what `GetTotalEpisodesForType` counts. */
  lemma {:induction false} TotalsMatchTypeCounts(episodes: seq<AnimeEpisode>, now: int, episodeType: EpisodeType)
    requires forall i :: 0 <= i < |episodes| ==> !episodes[i].isHidden
    ensures SeriesSizesOf(episodes, now).total[Some(episodeType)] == GetTotalEpisodesForType(episodes, episodeType)
  {
    if episodes != [] {
      var init, e := episodes[..|episodes| - 1], episodes[|episodes| - 1];
      TotalsMatchTypeCounts(init, now, episodeType);
      FilesKeepEpisodeCounters(CountEpisodes(init, now), e.files);
    }
  }

  // ---------------------------------------------------------------- group sizes

  /** The v3 `SeriesType`, as `SeriesFactory.GetAniDBSeriesType` gives it for a series' anime. */
  datatype SeriesType = UnknownSeries | OtherSeries | TVSeries | TVSpecialSeries | WebSeries | MovieSeries | OVASeries

  /** `GroupSizes`: the sizes of all the group's episodes, a counter per series type, and the sub-group count. */
  datatype GroupSizes = GroupSizes(episodes: SeriesSizes, seriesTypes: multiset<SeriesType>, subGroups: int)

  /**
   * `GenerateGroupSizes`: the series sizes of the episodes, each series
   * counted once under its type, and `SubGroups` set to the argument.
   */
  method GenerateGroupSizes(series: seq<SeriesType>, episodes: seq<AnimeEpisode>, subGroups: int, now: int)
    returns (sizes: GroupSizes)
    ensures sizes == GroupSizes(SeriesSizesOf(episodes, now), multiset(series), subGroups)
    ensures |sizes.seriesTypes| == |series|
  {
    var seriesSizes := GenerateSeriesSizes(episodes, now);
    sizes := GroupSizes(seriesSizes, multiset{}, 0);
    for i := 0 to |series|
      invariant sizes == GroupSizes(seriesSizes, multiset(series[..i]), 0)
    {
      assert series[..i + 1] == series[..i] + [series[i]];
      sizes := sizes.(seriesTypes := sizes.seriesTypes + multiset{series[i]});
    }
    assert series[..|series|] == series;
    sizes := sizes.(subGroups := subGroups);
  }
}
