/**
 * The v2 API's statistics of an import folder: per series, how many files
 * the folder holds, their total size and the sub-folders they sit in; and
 * the short listing of the series in a folder, one entry per distinct name.
 */
module CommonFolders {
  import opened Wrappers
  import opened Runtime

  // ---------------------------------------------------------------- inputs and results

  /** A video file: its size and the series of its episodes, in episode order. */
  datatype Video = Video(fileSize: int, seriesIds: seq<int>)

  /** A file's place in an import folder; either part may be null. */
  datatype Place = Place(video: Option<Video>, filePath: Option<string>)

  /** `SeriesInfo`: one series of the folder. */
  datatype SeriesInfo = SeriesInfo(name: string, id: int, filesize: int, size: int, paths: seq<string>)

  /** `Info`: the folder's totals and its series. */
  datatype Info = Info(id: int, filesize: int, size: int, series: seq<SeriesInfo>)

  // ---------------------------------------------------------------- what a folder holds

  /** `DistinctBy`: the first occurrence of each id, in order. */
  function Distinct(ids: seq<int>): (r: seq<int>)
    ensures forall x :: x in r <==> x in ids
    ensures forall i, j :: 0 <= i < j < |r| ==> r[i] != r[j]
  {
    if ids == [] then []
    else
      var d := Distinct(ids[..|ids| - 1]);
      if ids[|ids| - 1] in d then d else d + [ids[|ids| - 1]]
  }

  /** A place is counted when it has a video and a non-empty file path. */
  predicate Counted(p: Option<Place>) {
    p.Some? && p.value.video.Some? && p.value.filePath.Some? && p.value.filePath.value != ""
  }

  /** The folder a file is listed under: its directory (empty when there is none) and a slash. */
  function FolderOf(dirOf: string -> Option<string>, filePath: string): (r: string)
    ensures r != [] && r[|r| - 1] == '/'
  {
    dirOf(filePath).GetOr("") + "/"
  }

  /** One series held by one file, with the file's size and folder. */
  datatype Occurrence = Occurrence(seriesId: int, bytes: int, folder: string)

  /** The series a counted place holds, each once. */
  function PlaceOccurrences(dirOf: string -> Option<string>, p: Option<Place>): (r: seq<Occurrence>)
    ensures !Counted(p) ==> r == []
    ensures Counted(p) ==> |r| == |Distinct(p.value.video.value.seriesIds)|
    ensures Counted(p) ==> forall j :: 0 <= j < |r| ==>
              r[j] == Occurrence(Distinct(p.value.video.value.seriesIds)[j], p.value.video.value.fileSize,
                                 FolderOf(dirOf, p.value.filePath.value))
  {
    if !Counted(p) then []
    else
      var v, folder := p.value.video.value, FolderOf(dirOf, p.value.filePath.value);
      Map((sid: int) => Occurrence(sid, v.fileSize, folder), Distinct(v.seriesIds))
  }

  /** Every series of every counted place, place by place. */
  function Occurrences(dirOf: string -> Option<string>, places: seq<Option<Place>>): seq<Occurrence> {
    if places == [] then []
    else Occurrences(dirOf, places[..|places| - 1]) + PlaceOccurrences(dirOf, places[|places| - 1])
  }

  function CountOf(occs: seq<Occurrence>, sid: int): nat {
    if occs == [] then 0
    else CountOf(occs[..|occs| - 1], sid) + (if occs[|occs| - 1].seriesId == sid then 1 else 0)
  }

  function BytesOf(occs: seq<Occurrence>, sid: int): int {
    if occs == [] then 0
    else BytesOf(occs[..|occs| - 1], sid) + (if occs[|occs| - 1].seriesId == sid then occs[|occs| - 1].bytes else 0)
  }

  function FoldersOf(occs: seq<Occurrence>, sid: int): set<string> {
    if occs == [] then {}
    else FoldersOf(occs[..|occs| - 1], sid) + (if occs[|occs| - 1].seriesId == sid then {occs[|occs| - 1].folder} else {})
  }

  function AllBytes(occs: seq<Occurrence>): int {
    if occs == [] then 0 else AllBytes(occs[..|occs| - 1]) + occs[|occs| - 1].bytes
  }

  function SeriesIdsOf(occs: seq<Occurrence>): set<int> {
    set o | o in occs :: o.seriesId
  }

  // ---------------------------------------------------------------- what the statistics say

  predicate NoDuplicates(s: seq<string>) {
    forall i, j :: 0 <= i < j < |s| ==> s[i] != s[j]
  }

  function Elements(s: seq<string>): set<string> {
    set x | x in s
  }

  /** An entry tells the series' title, how many of the files hold it, their bytes and their folders. */
  predicate Describes(s: SeriesInfo, occs: seq<Occurrence>, title: int -> string) {
    s.name == title(s.id) && s.size == CountOf(occs, s.id) && s.size > 0 && s.filesize == BytesOf(occs, s.id) &&
    NoDuplicates(s.paths) && Elements(s.paths) == FoldersOf(occs, s.id)
  }

  predicate DistinctIds(entries: seq<SeriesInfo>) {
    forall a, b :: 0 <= a < b < |entries| ==> entries[a].id != entries[b].id
  }

  function IdsOf(entries: seq<SeriesInfo>): set<int> {
    set e | e in entries :: e.id
  }

  /** The entries describe exactly the series seen so far, one entry each. */
  predicate Summarises(entries: seq<SeriesInfo>, occs: seq<Occurrence>, title: int -> string) {
    DistinctIds(entries) && IdsOf(entries) == SeriesIdsOf(occs) &&
    forall k :: 0 <= k < |entries| ==> Describes(entries[k], occs, title)
  }

  function TotalSize(entries: seq<SeriesInfo>): int {
    if entries == [] then 0 else TotalSize(entries[..|entries| - 1]) + entries[|entries| - 1].size
  }

  function TotalBytes(entries: seq<SeriesInfo>): int {
    if entries == [] then 0 else TotalBytes(entries[..|entries| - 1]) + entries[|entries| - 1].filesize
  }

  // ---------------------------------------------------------------- the dictionary of series

  /** `output.TryGetValue`: the entry for a series id. */
  function IndexOf(entries: seq<SeriesInfo>, sid: int): (r: Option<nat>)
    ensures r.Some? ==> r.value < |entries| && entries[r.value].id == sid
    ensures r.None? ==> sid !in IdsOf(entries)
  {
    if entries == [] then None
    else if entries[|entries| - 1].id == sid then Some(|entries| - 1)
    else IndexOf(entries[..|entries| - 1], sid)
  }

  /** An entry grown by one more file of its series: its bytes, one more file, and its folder when that is new. */
  function Grow(ser: SeriesInfo, o: Occurrence): SeriesInfo {
    ser.(filesize := ser.filesize + o.bytes, size := ser.size + 1,
         paths := if o.folder in ser.paths then ser.paths else ser.paths + [o.folder])
  }

  /** One series of one file: the series' entry grows by the file, or a new entry starts with it. */
  function Record(entries: seq<SeriesInfo>, o: Occurrence, title: int -> string): seq<SeriesInfo> {
    match IndexOf(entries, o.seriesId)
    case Some(k) =>
      entries[k := Grow(entries[k], o)]
    case None => entries + [SeriesInfo(title(o.seriesId), o.seriesId, o.bytes, 1, [o.folder])]
  }

  lemma OccurrencesStep(occs: seq<Occurrence>, o: Occurrence, sid: int)
    ensures CountOf(occs + [o], sid) == CountOf(occs, sid) + (if o.seriesId == sid then 1 else 0)
    ensures BytesOf(occs + [o], sid) == BytesOf(occs, sid) + (if o.seriesId == sid then o.bytes else 0)
    ensures FoldersOf(occs + [o], sid) == FoldersOf(occs, sid) + (if o.seriesId == sid then {o.folder} else {})
    ensures AllBytes(occs + [o]) == AllBytes(occs) + o.bytes
  {
    assert (occs + [o])[..|occs|] == occs;
  }

  lemma {:induction false} NotSeen(occs: seq<Occurrence>, sid: int)
    requires sid !in SeriesIdsOf(occs)
    ensures CountOf(occs, sid) == 0 && BytesOf(occs, sid) == 0 && FoldersOf(occs, sid) == {}
    decreases |occs|
  {
    if occs != [] {
      var init := occs[..|occs| - 1];
      assert occs == init + [occs[|occs| - 1]];
      assert SeriesIdsOf(init) <= SeriesIdsOf(occs);
      NotSeen(init, sid);
    }
  }

  /** An entry that grows by a file of its series keeps describing it. */
  lemma GrownDescribes(ser: SeriesInfo, occs: seq<Occurrence>, o: Occurrence, title: int -> string)
    requires Describes(ser, occs, title) && o.seriesId == ser.id
    ensures Describes(Grow(ser, o), occs + [o], title)
  {
    OccurrencesStep(occs, o, ser.id);
    var paths := if o.folder in ser.paths then ser.paths else ser.paths + [o.folder];
    assert Elements(paths) == Elements(ser.paths) + {o.folder};
  }

  /** An entry of another series is not touched by the file. */
  lemma OtherDescribes(ser: SeriesInfo, occs: seq<Occurrence>, o: Occurrence, title: int -> string)
    requires Describes(ser, occs, title) && o.seriesId != ser.id
    ensures Describes(ser, occs + [o], title)
  {
    OccurrencesStep(occs, o, ser.id);
  }

  /** A new entry describes a series seen for the first time. */
  lemma NewDescribes(occs: seq<Occurrence>, o: Occurrence, title: int -> string)
    requires o.seriesId !in SeriesIdsOf(occs)
    ensures Describes(SeriesInfo(title(o.seriesId), o.seriesId, o.bytes, 1, [o.folder]), occs + [o], title)
  {
    NotSeen(occs, o.seriesId);
    OccurrencesStep(occs, o, o.seriesId);
    assert Elements([o.folder]) == {o.folder};
  }

  lemma RecordGrows(entries: seq<SeriesInfo>, occs: seq<Occurrence>, o: Occurrence, title: int -> string, k: nat)
    requires Summarises(entries, occs, title) && IndexOf(entries, o.seriesId) == Some(k)
    ensures Summarises(Record(entries, o, title), occs + [o], title)
  {
    var after := Record(entries, o, title);
    forall i | 0 <= i < |after| ensures Describes(after[i], occs + [o], title) {
      if i == k {
        GrownDescribes(entries[k], occs, o, title);
      } else {
        OtherDescribes(entries[i], occs, o, title);
      }
    }
    IdsKept(entries, after);
    assert SeriesIdsOf(occs + [o]) == SeriesIdsOf(occs) + {o.seriesId};
  }

  /** Entries changed in place, ids aside, keep their set of ids, and keep them distinct. */
  lemma IdsKept(entries: seq<SeriesInfo>, after: seq<SeriesInfo>)
    requires |after| == |entries| && forall i :: 0 <= i < |after| ==> after[i].id == entries[i].id
    ensures IdsOf(after) == IdsOf(entries)
    ensures DistinctIds(entries) ==> DistinctIds(after)
  {
    forall e | e in after ensures e.id in IdsOf(entries) {
      var i :| 0 <= i < |after| && after[i] == e;
      assert e.id == entries[i].id;
    }
    forall e | e in entries ensures e.id in IdsOf(after) {
      var i :| 0 <= i < |entries| && entries[i] == e;
      assert e.id == after[i].id;
    }
  }

  lemma RecordAdds(entries: seq<SeriesInfo>, occs: seq<Occurrence>, o: Occurrence, title: int -> string)
    requires Summarises(entries, occs, title) && IndexOf(entries, o.seriesId).None?
    ensures Summarises(Record(entries, o, title), occs + [o], title)
  {
    var e := SeriesInfo(title(o.seriesId), o.seriesId, o.bytes, 1, [o.folder]);
    var after := entries + [e];
    forall i | 0 <= i < |after| ensures Describes(after[i], occs + [o], title) {
      if i == |entries| {
        NewDescribes(occs, o, title);
      } else {
        OtherDescribes(entries[i], occs, o, title);
      }
    }
    assert IdsOf(after) == IdsOf(entries) + {o.seriesId};
    assert SeriesIdsOf(occs + [o]) == SeriesIdsOf(occs) + {o.seriesId};
  }

  /** Recording a file's series keeps the entries a summary of everything seen. */
  lemma RecordSummarises(entries: seq<SeriesInfo>, occs: seq<Occurrence>, o: Occurrence, title: int -> string)
    requires Summarises(entries, occs, title)
    ensures Summarises(Record(entries, o, title), occs + [o], title)
  {
    match IndexOf(entries, o.seriesId)
    case Some(k) => RecordGrows(entries, occs, o, title, k);
    case None => RecordAdds(entries, occs, o, title);
  }

  lemma {:induction false} TotalsUpdate(entries: seq<SeriesInfo>, k: nat, e: SeriesInfo)
    requires k < |entries|
    ensures TotalSize(entries[k := e]) == TotalSize(entries) - entries[k].size + e.size
    ensures TotalBytes(entries[k := e]) == TotalBytes(entries) - entries[k].filesize + e.filesize
    decreases |entries|
  {
    var n := |entries| - 1;
    var after := entries[k := e];
    if k < n {
      assert after[..n] == entries[..n][k := e];
      TotalsUpdate(entries[..n], k, e);
    } else {
      assert after[..n] == entries[..n];
    }
  }

  /** Each recorded file adds one to the total size and its bytes to the total file size. */
  lemma RecordTotals(entries: seq<SeriesInfo>, o: Occurrence, title: int -> string)
    ensures TotalSize(Record(entries, o, title)) == TotalSize(entries) + 1
    ensures TotalBytes(Record(entries, o, title)) == TotalBytes(entries) + o.bytes
  {
    match IndexOf(entries, o.seriesId)
    case Some(k) =>
      TotalsUpdate(entries, k, Grow(entries[k], o));
    case None =>
      var after := Record(entries, o, title);
      assert after[..|entries|] == entries;
  }

  // ---------------------------------------------------------------- sorting by name

  /** `List.Sort` with `SeriesInfo.CompareTo`: ordinal order of the names. */
  predicate SortedByName(s: seq<SeriesInfo>) {
    forall i :: 0 < i < |s| ==> !OrdinalLess(s[i].name, s[i - 1].name)
  }

  function InsertByName(x: SeriesInfo, s: seq<SeriesInfo>): (r: seq<SeriesInfo>)
    requires SortedByName(s)
    ensures SortedByName(r)
    ensures multiset(r) == multiset(s) + multiset{x}
    ensures r[0] == x || (s != [] && r[0] == s[0])
  {
    if s == [] || !OrdinalLess(s[0].name, x.name) then [x] + s
    else
      var rest := InsertByName(x, s[1..]);
      assert s == [s[0]] + s[1..];
      OrdinalTotal(s[0].name, x.name);
      [s[0]] + rest
  }

  function SortByName(s: seq<SeriesInfo>): (r: seq<SeriesInfo>)
    ensures SortedByName(r)
    ensures multiset(r) == multiset(s)
  {
    if s == [] then []
    else
      assert s == [s[0]] + s[1..];
      InsertByName(s[0], SortByName(s[1..]))
  }

  /** Names never decrease along the whole sorted list, not only between neighbours. */
  lemma {:induction false} SortedPairwise(s: seq<SeriesInfo>, i: nat, j: nat)
    requires SortedByName(s) && i < j < |s|
    ensures !OrdinalLess(s[j].name, s[i].name)
    decreases j - i
  {
    if i + 1 < j {
      SortedPairwise(s, i + 1, j);
      var a, b, c := s[i].name, s[i + 1].name, s[j].name;
      OrdinalTotal(a, b);
      OrdinalTotal(b, c);
      OrdinalTotal(a, c);
      if a != b && b != c {
        OrdinalTransitive(a, b, c);
      }
    }
  }

  lemma {:induction false} TotalsOfPermutation(a: seq<SeriesInfo>, b: seq<SeriesInfo>)
    requires multiset(a) == multiset(b)
    ensures TotalSize(a) == TotalSize(b) && TotalBytes(a) == TotalBytes(b)
    decreases |a|
  {
    if a != [] {
      var init, x := a[..|a| - 1], a[|a| - 1];
      var k, b' := MatchLast(a, b);
      TotalsOfPermutation(init, b');
      TotalsSplit(b'[..k], x, b'[k..]);
      assert b'[..k] + b'[k..] == b';
    }
  }

  /** The last item of `a` sits somewhere in its permutation `b`; without them the rest are permutations too. */
  lemma MatchLast(a: seq<SeriesInfo>, b: seq<SeriesInfo>) returns (k: nat, rest: seq<SeriesInfo>)
    requires multiset(a) == multiset(b) && a != []
    ensures k <= |rest| && b == rest[..k] + [a[|a| - 1]] + rest[k..]
    ensures multiset(a[..|a| - 1]) == multiset(rest)
  {
    var x := a[|a| - 1];
    LastOut(a);
    assert x in multiset(b);
    k :| 0 <= k < |b| && b[k] == x;
    rest := RemoveAt(b, k);
    CancelOne(multiset(a[..|a| - 1]), multiset(rest), x);
  }

  lemma CancelOne(p: multiset<SeriesInfo>, q: multiset<SeriesInfo>, x: SeriesInfo)
    requires p + multiset{x} == q + multiset{x}
    ensures p == q
  {
    assert p == p + multiset{x} - multiset{x};
  }

  /** `b` without its element at `k`. */
  function RemoveAt(b: seq<SeriesInfo>, k: nat): (r: seq<SeriesInfo>)
    requires k < |b|
    ensures |r| == |b| - 1
    ensures b == r[..k] + [b[k]] + r[k..]
    ensures multiset(b) == multiset(r) + multiset{b[k]}
  {
    var r := b[..k] + b[k + 1..];
    assert b == r[..k] + [b[k]] + r[k..];
    assert r == r[..k] + r[k..];
    r
  }

  lemma LastOut(a: seq<SeriesInfo>)
    requires a != []
    ensures multiset(a) == multiset(a[..|a| - 1]) + multiset{a[|a| - 1]}
  {
    assert a == a[..|a| - 1] + [a[|a| - 1]];
  }

  lemma {:induction false} TotalsSplit(a: seq<SeriesInfo>, x: SeriesInfo, c: seq<SeriesInfo>)
    ensures TotalSize(a + [x] + c) == TotalSize(a + c) + x.size
    ensures TotalBytes(a + [x] + c) == TotalBytes(a + c) + x.filesize
    decreases |c|
  {
    if c == [] {
      assert (a + [x] + c)[..|a|] == a && a + c == a;
    } else {
      var c' := c[..|c| - 1];
      assert (a + [x] + c)[..|a| + |c'| + 1] == a + [x] + c';
      assert (a + c)[..|a| + |c'|] == a + c';
      TotalsSplit(a, x, c');
    }
  }

  lemma OnlyOnce(a: seq<SeriesInfo>, p: nat)
    requires DistinctIds(a) && p < |a|
    ensures multiset(a)[a[p]] == 1
  {
    assert a == a[..p] + [a[p]] + a[p + 1..];
    assert a[p] !in a[..p] && a[p] !in a[p + 1..];
  }

  lemma TwiceCounted(b: seq<SeriesInfo>, i: nat, j: nat)
    requires i < j < |b| && b[i] == b[j]
    ensures multiset(b)[b[i]] >= 2
  {
    assert b == b[..i] + [b[i]] + b[i + 1..j] + [b[j]] + b[j + 1..];
  }

  lemma DistinctIdsOfPermutation(a: seq<SeriesInfo>, b: seq<SeriesInfo>)
    requires multiset(a) == multiset(b) && DistinctIds(a)
    ensures DistinctIds(b)
  {
    forall i, j | 0 <= i < j < |b| ensures b[i].id != b[j].id {
      assert b[i] in multiset(a) && b[j] in multiset(a);
      var p :| 0 <= p < |a| && a[p] == b[i];
      var q :| 0 <= q < |a| && a[q] == b[j];
      if p == q {
        TwiceCounted(b, i, j);
        OnlyOnce(a, p);
        assert false;
      }
    }
  }

  /** Sorting the entries keeps them a summary, with the same totals. */
  lemma SortedSummarises(output: seq<SeriesInfo>, occs: seq<Occurrence>, title: int -> string)
    requires Summarises(output, occs, title)
    ensures var sorted := SortByName(output);
            IdsOf(sorted) == SeriesIdsOf(occs) && DistinctIds(sorted) &&
            (forall s :: s in sorted ==> Describes(s, occs, title)) &&
            TotalSize(sorted) == TotalSize(output) && TotalBytes(sorted) == TotalBytes(output)
  {
    var sorted := SortByName(output);
    TotalsOfPermutation(output, sorted);
    DistinctIdsOfPermutation(output, sorted);
    forall s ensures s in sorted <==> s in output {
      assert s in sorted <==> s in multiset(sorted);
      assert s in output <==> s in multiset(output);
    }
    forall s | s in sorted ensures Describes(s, occs, title) {
      var k :| 0 <= k < |output| && output[k] == s;
    }
  }

  // ---------------------------------------------------------------- statistics of one folder

  /** The entries and the two running totals describe the files seen so far. */
  predicate Tallied(output: seq<SeriesInfo>, seen: seq<Occurrence>, size: int, filesize: int, title: int -> string) {
    Summarises(output, seen, title) &&
    size == |seen| == TotalSize(output) && filesize == AllBytes(seen) == TotalBytes(output)
  }

  lemma RecordTallied(output: seq<SeriesInfo>, seen: seq<Occurrence>, size: int, filesize: int,
                      o: Occurrence, title: int -> string)
    requires Tallied(output, seen, size, filesize, title)
    ensures Tallied(Record(output, o, title), seen + [o], size + 1, filesize + o.bytes, title)
  {
    RecordSummarises(output, seen, o, title);
    RecordTotals(output, o, title);
    OccurrencesStep(seen, o, o.seriesId);
  }

  lemma OccurrencesNext(dirOf: string -> Option<string>, places: seq<Option<Place>>, i: nat)
    requires i < |places|
    ensures Occurrences(dirOf, places[..i + 1]) == Occurrences(dirOf, places[..i]) + PlaceOccurrences(dirOf, places[i])
  {
    assert places[..i + 1][..i] == places[..i];
  }

  /** The inner loop of `GetSeriesInfoByFolder`: each series of one file is added to the statistics. */
  method RecordPlace(output0: seq<SeriesInfo>, size0: int, filesize0: int, vl: Video, path: string,
                     title: int -> string, ghost seen0: seq<Occurrence>)
    returns (output: seq<SeriesInfo>, size: int, filesize: int)
    requires Tallied(output0, seen0, size0, filesize0, title)
    ensures Tallied(output, seen0 + Map((sid: int) => Occurrence(sid, vl.fileSize, path), Distinct(vl.seriesIds)),
                    size, filesize, title)
  {
    output, size, filesize := output0, size0, filesize0;
    var seriesList := Distinct(vl.seriesIds);
    ghost var mine := Map((sid: int) => Occurrence(sid, vl.fileSize, path), seriesList);
    var j := 0;
    assert seen0 + mine[..0] == seen0;
    while j < |seriesList|
      invariant 0 <= j <= |seriesList|
      invariant Tallied(output, seen0 + mine[..j], size, filesize, title)
    {
      var o := Occurrence(seriesList[j], vl.fileSize, path);
      RecordTallied(output, seen0 + mine[..j], size, filesize, o, title);
      assert seen0 + mine[..j + 1] == seen0 + mine[..j] + [o];
      output := Record(output, o, title);
      filesize := filesize + vl.fileSize;
      size := size + 1;
      j := j + 1;
    }
    assert mine[..j] == mine;
  }

  /**
   * `GetSeriesInfoByFolder(id)`: the series the folder's files belong to, each
   * described by the files that hold it, sorted by name, with the folder's
   * totals. `dirOf` is `Path.GetDirectoryName` and `title` a series' preferred title.
   */
  method GetSeriesInfoByFolder(id: int, places: seq<Option<Place>>, dirOf: string -> Option<string>,
                               title: int -> string) returns (info: Info)
    ensures var occs := Occurrences(dirOf, places);
            info.id == id && info.size == |occs| && info.filesize == AllBytes(occs) &&
            IdsOf(info.series) == SeriesIdsOf(occs) && DistinctIds(info.series) &&
            (forall s :: s in info.series ==> Describes(s, occs, title))
    ensures info.size == TotalSize(info.series) && info.filesize == TotalBytes(info.series)
    ensures SortedByName(info.series)
  {
    var filesize, size := 0, 0;
    var output: seq<SeriesInfo> := [];
    var i := 0;
    while i < |places|
      invariant 0 <= i <= |places|
      invariant Tallied(output, Occurrences(dirOf, places[..i]), size, filesize, title)
    {
      OccurrencesNext(dirOf, places, i);
      var place := places[i];
      if Counted(place) {
        var vl := place.value.video.value;
        var path := FolderOf(dirOf, place.value.filePath.value);
        assert PlaceOccurrences(dirOf, place) == Map((sid: int) => Occurrence(sid, vl.fileSize, path), Distinct(vl.seriesIds));
        output, size, filesize := RecordPlace(output, size, filesize, vl, path, title, Occurrences(dirOf, places[..i]));
      } else {
        assert Occurrences(dirOf, places[..i]) + PlaceOccurrences(dirOf, place) == Occurrences(dirOf, places[..i]);
      }
      i := i + 1;
    }
    assert places[..i] == places;
    SortedSummarises(output, Occurrences(dirOf, places), title);
    info := Info(id, filesize, size, SortByName(output));
  }

  // ---------------------------------------------------------------- the listing of a folder's series

  /** What the listing reads of the series generated for a file: its name (possibly null) and file size. */
  datatype Serie = Serie(name: Option<string>, filesize: int)

  /** `ObjectList` of type `SERIE`: a listed name and its size. */
  datatype Listed = Listed(name: string, filesize: int)

  /** The dictionary from listed names to sizes and the list so far. */
  datatype Listing = Listing(sizes: map<string, int>, out: seq<Listed>)

  /** A limit of 0 means the hard-coded 100. */
  function EffectiveLimit(limit: int): (r: int)
    ensures r != 0
    ensures limit != 0 ==> r == limit
  {
    if limit == 0 then 100 else limit
  }

  lemma {:induction false} StrictSubsetSmaller<T>(a: set<T>, b: set<T>)
    requires a < b
    ensures |a| < |b|
    decreases a
  {
    if a != {} {
      var x :| x in a;
      StrictSubsetSmaller(a - {x}, b - {x});
    }
  }

  function NamesFrom(sizes: map<string, int>, name: string): set<string> {
    set k | k in sizes && |k| >= |name|
  }

  /** The name with as many '*' appended as it takes to be new to the dictionary. */
  function Starred(sizes: map<string, int>, name: string): (r: string)
    ensures r !in sizes
    ensures |r| >= |name| && r[..|name|] == name
    ensures forall i :: |name| <= i < |r| ==> r[i] == '*'
    ensures name !in sizes ==> r == name
    decreases |NamesFrom(sizes, name)|
  {
    if name !in sizes then name
    else
      assert |NamesFrom(sizes, name + "*")| < |NamesFrom(sizes, name)| by {
        assert name in NamesFrom(sizes, name) && name !in NamesFrom(sizes, name + "*");
        StrictSubsetSmaller(NamesFrom(sizes, name + "*"), NamesFrom(sizes, name));
      }
      var r := Starred(sizes, name + "*");
      assert r[..|name|] == (name + "*")[..|name|];
      r
  }

  /** One generated series: listed under its name, under a starred name, or not at all. */
  function Step(st: Listing, ser: Serie): (r: Listing)
    ensures |r.out| <= |st.out| + 1
  {
    match ser.name
    case None => st
    case Some(n) =>
      if n !in st.sizes then Listing(st.sizes[n := ser.filesize], st.out + [Listed(n, ser.filesize)])
      else if st.sizes[n] == ser.filesize then st
      else
        var name := Starred(st.sizes, n);
        Listing(st.sizes[name := ser.filesize], st.out + [Listed(name, ser.filesize)])
  }

  /** The listing after the given series, stopping once `limit` entries are listed; the first one is always looked at. */
  function Run(series: seq<Serie>, limit: int): Listing {
    if series == [] then Listing(map[], [])
    else
      var before := series[..|series| - 1];
      var st := Run(before, limit);
      if before != [] && |st.out| >= limit then st else Step(st, series[|series| - 1])
  }

  lemma RunNext(series: seq<Serie>, limit: int, i: nat)
    requires i < |series|
    ensures var st := Run(series[..i], limit);
            Run(series[..i + 1], limit) == if i > 0 && |st.out| >= limit then st else Step(st, series[i])
  {
    assert series[..i + 1][..i] == series[..i];
  }

  /** Once the limit is reached, nothing further is listed. */
  lemma {:induction false} RunStopped(series: seq<Serie>, limit: int, i: nat)
    requires 0 < i <= |series| && |Run(series[..i], limit).out| >= limit
    ensures Run(series, limit) == Run(series[..i], limit)
    decreases |series| - i
  {
    if i < |series| {
      RunNext(series, limit, i);
      RunStopped(series, limit, i + 1);
    } else {
      assert series[..i] == series;
    }
  }

  /**
   * `GetSeriesInfoByFolder(id, uid, limit, tagfilter)`: the series generated
   * for the folder's files, in order, one entry per name. `series` holds what
   * `Serie.GenerateFromVideoLocal` returns for each file.
   */
  method GetSeriesInfoByFolderForUser(series: seq<Serie>, limit: int) returns (allseries: seq<Listed>)
    ensures allseries == Run(series, EffectiveLimit(limit)).out
    ensures forall a, b :: 0 <= a < b < |allseries| ==> allseries[a].name != allseries[b].name
    ensures |allseries| <= Max(EffectiveLimit(limit), 1)
  {
    var lim := limit;
    if lim == 0 {
      lim := 100;
    }
    var tempDict: map<string, int> := map[];
    allseries := [];
    var i := 0;
    while i < |series|
      invariant 0 <= i <= |series|
      invariant Listing(tempDict, allseries) == Run(series[..i], lim)
      invariant i > 0 ==> |allseries| < lim
    {
      RunNext(series, lim, i);
      var ser := series[i];
      var objl := Listed(ser.name.GetOr(""), ser.filesize);
      if ser.name.Some? {
        if ser.name.value !in tempDict {
          tempDict := tempDict[ser.name.value := ser.filesize];
          allseries := allseries + [objl];
        } else if tempDict[ser.name.value] != ser.filesize {
          while objl.name in tempDict
            invariant Starred(tempDict, objl.name) == Starred(tempDict, ser.name.value)
            invariant objl.filesize == ser.filesize
            decreases |NamesFrom(tempDict, objl.name)|
          {
            assert |NamesFrom(tempDict, objl.name + "*")| < |NamesFrom(tempDict, objl.name)| by {
              assert objl.name in NamesFrom(tempDict, objl.name) && objl.name !in NamesFrom(tempDict, objl.name + "*");
              StrictSubsetSmaller(NamesFrom(tempDict, objl.name + "*"), NamesFrom(tempDict, objl.name));
            }
            objl := objl.(name := objl.name + "*");
          }
          tempDict := tempDict[objl.name := ser.filesize];
          allseries := allseries + [objl];
        }
      }
      i := i + 1;
      if |allseries| >= lim {
        RunStopped(series, lim, i);
        ListedNamesDistinct(series, lim);
        ListingBounded(series, lim);
        return;
      }
    }
    assert series[..i] == series;
    ListedNamesDistinct(series, lim);
    ListingBounded(series, lim);
  }

  // ---------------------------------------------------------------- what the listing promises

  /** Every listed name is a key of the dictionary, with the listed size; the keys are the listed names, each once. */
  predicate Consistent(st: Listing) {
    (forall k :: 0 <= k < |st.out| ==> st.out[k].name in st.sizes && st.sizes[st.out[k].name] == st.out[k].filesize) &&
    (forall name :: name in st.sizes ==> exists k :: 0 <= k < |st.out| && st.out[k].name == name) &&
    (forall a, b :: 0 <= a < b < |st.out| ==> st.out[a].name != st.out[b].name)
  }

  lemma AddKeepsConsistent(st: Listing, name: string, filesize: int)
    requires Consistent(st) && name !in st.sizes
    ensures Consistent(Listing(st.sizes[name := filesize], st.out + [Listed(name, filesize)]))
  {
    var after := Listing(st.sizes[name := filesize], st.out + [Listed(name, filesize)]);
    forall key | key in after.sizes ensures exists k :: 0 <= k < |after.out| && after.out[k].name == key {
      if key == name {
        assert after.out[|st.out|].name == key;
      } else {
        var k :| 0 <= k < |st.out| && st.out[k].name == key;
        assert after.out[k].name == key;
      }
    }
  }

  lemma StepKeepsConsistent(st: Listing, ser: Serie)
    requires Consistent(st)
    ensures Consistent(Step(st, ser))
  {
    if ser.name.Some? {
      var n := ser.name.value;
      if n !in st.sizes {
        AddKeepsConsistent(st, n, ser.filesize);
      } else if st.sizes[n] != ser.filesize {
        AddKeepsConsistent(st, Starred(st.sizes, n), ser.filesize);
      }
    }
  }

  lemma {:induction false} RunConsistent(series: seq<Serie>, limit: int)
    ensures Consistent(Run(series, limit))
    decreases |series|
  {
    if series != [] {
      RunConsistent(series[..|series| - 1], limit);
      StepKeepsConsistent(Run(series[..|series| - 1], limit), series[|series| - 1]);
    }
  }

  /** No two listed entries share a name. */
  lemma ListedNamesDistinct(series: seq<Serie>, limit: int)
    ensures var out := Run(series, limit).out;
            forall a, b :: 0 <= a < b < |out| ==> out[a].name != out[b].name
  {
    RunConsistent(series, limit);
  }

  /** At most `limit` entries are listed, and a negative limit still lets the first file's series through. */
  lemma {:induction false} ListingBounded(series: seq<Serie>, limit: int)
    ensures |Run(series, limit).out| <= Max(limit, 1)
    decreases |series|
  {
    if series != [] {
      ListingBounded(series[..|series| - 1], limit);
    }
  }

  /** A series named like an entry already listed, with the same size, adds nothing. */
  lemma RepeatWithSameSizeDropped(series: seq<Serie>, limit: int, n: string, filesize: int)
    requires series != [] && |Run(series, limit).out| < limit
    requires Listed(n, filesize) in Run(series, limit).out
    ensures Run(series + [Serie(Some(n), filesize)], limit) == Run(series, limit)
  {
    RunConsistent(series, limit);
    assert (series + [Serie(Some(n), filesize)])[..|series|] == series;
  }

  /** A series named like an entry already listed, with another size, is listed under the name with stars appended until it is new. */
  lemma RepeatWithOtherSizeStarred(series: seq<Serie>, limit: int, n: string, filesize: int, k: nat)
    requires series != [] && |Run(series, limit).out| < limit
    requires k < |Run(series, limit).out| && Run(series, limit).out[k].name == n
    requires Run(series, limit).out[k].filesize != filesize
    ensures var before := Run(series, limit).out;
            var after := Run(series + [Serie(Some(n), filesize)], limit).out;
            var name := after[|after| - 1].name;
            |after| == |before| + 1 && after[..|before|] == before && after[|before|].filesize == filesize &&
            |name| > |n| && name[..|n|] == n && (forall i :: |n| <= i < |name| ==> name[i] == '*') &&
            (forall j :: 0 <= j < |before| ==> before[j].name != name)
  {
    RunConsistent(series, limit);
    var st := Run(series, limit);
    assert (series + [Serie(Some(n), filesize)])[..|series|] == series;
    var name := Starred(st.sizes, n);
    assert (st.out + [Listed(name, filesize)])[..|st.out|] == st.out;
  }

  /** A series with a name not listed yet is listed under that name. */
  lemma NewNameListed(series: seq<Serie>, limit: int, n: string, filesize: int)
    requires |Run(series, limit).out| < limit || series == []
    requires forall j :: 0 <= j < |Run(series, limit).out| ==> Run(series, limit).out[j].name != n
    ensures Run(series + [Serie(Some(n), filesize)], limit).out == Run(series, limit).out + [Listed(n, filesize)]
  {
    RunConsistent(series, limit);
    assert (series + [Serie(Some(n), filesize)])[..|series|] == series;
  }
}
