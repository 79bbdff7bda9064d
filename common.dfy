/**
 * Query helpers of the v2 API controller: the search flags a tag-search
 * mode selects, the paging of the files without an episode and of the
 * watched episodes, and the order in which a character's roles are listed.
 */
module Common {
  import opened Wrappers
  import opened Runtime

  // ---------------------------------------------------------------- search flags

  datatype SearchFlag = Titles | Tags | Fuzzy

  /**
   * `GetFlags`: tag-search mode 0 searches titles, 1 searches tags, any
   * other value both; `fuzzy` adds fuzzy matching.
   */
  function GetFlags(tagSearch: int, fuzzy: bool): (r: set<SearchFlag>)
    ensures Fuzzy in r <==> fuzzy
    ensures Titles in r <==> tagSearch != 1
    ensures Tags in r <==> tagSearch != 0
  {
    var searched := if tagSearch == 0 then {Titles} else if tagSearch == 1 then {Tags} else {Titles, Tags};
    if fuzzy then searched + {Fuzzy} else searched
  }

  /** Every mode searches something: titles, tags or both. */
  lemma FlagsSearchSomething(tagSearch: int, fuzzy: bool)
    ensures GetFlags(tagSearch, fuzzy) - {Fuzzy} != {}
    ensures GetFlags(tagSearch, fuzzy) - {Fuzzy} == GetFlags(tagSearch, false)
  {
    var r := GetFlags(tagSearch, fuzzy);
    if tagSearch == 1 {
      assert Tags in r - {Fuzzy};
    } else {
      assert Titles in r - {Fuzzy};
    }
  }

  // ---------------------------------------------------------------- files without an episode

  /** Where the page of unsorted files ends: `limit` 0 means no limit, a negative one still lets one file through. */
  function UnsortEnd(n: nat, offset: nat, limit: int): (e: nat)
    requires offset <= n
    ensures offset <= e <= n
    ensures limit != 0 ==> e - offset <= Max(limit, 1)
  {
    if limit == 0 then n else Min(offset + Max(limit, 1), n)
  }

  /**
   * The page `GetUnsort` returns: the files from position `offset` on, at most
   * `limit` of them when `limit` is not 0. A negative offset is never counted
   * down to zero, so it gives an empty page.
   */
  function Unsorted<V, F>(vids: seq<V>, makeRaw: V -> F, offset: int, limit: int): (r: seq<F>)
    ensures offset < 0 || offset >= |vids| ==> r == []
    ensures limit != 0 ==> |r| <= Max(limit, 1)
    ensures forall k :: 0 <= k < |r| ==> 0 <= offset && offset + k < |vids| && r[k] == makeRaw(vids[offset + k])
  {
    if offset < 0 || offset >= |vids| then [] else Map(makeRaw, vids[offset..UnsortEnd(|vids|, offset, limit)])
  }

  /** `GetUnsort`: skips `offset` files, then collects until `limit` (when not 0) is reached. */
  method GetUnsort<V, F>(vids: seq<V>, makeRaw: V -> F, offset: int, limit: int) returns (lst: seq<F>)
    ensures lst == Unsorted(vids, makeRaw, offset, limit)
  {
    lst := [];
    var off := offset;
    var i := 0;
    while i < |vids|
      invariant 0 <= i <= |vids|
      invariant offset < 0 ==> off < 0 && lst == []
      invariant offset >= 0 ==> off == Max(offset - i, 0) && lst == Map(makeRaw, vids[Min(offset, i)..i])
      invariant limit != 0 ==> |lst| < Max(limit, 1)
    {
      if off == 0 {
        assert offset <= i && vids[offset..i + 1] == vids[offset..i] + [vids[i]];
        MapAppend(makeRaw, vids[offset..i], [vids[i]]);
        lst := lst + [makeRaw(vids[i])];
        if limit != 0 && |lst| >= limit {
          return;
        }
      } else {
        off := off - 1;
      }
      i := i + 1;
    }
  }

  /** Two consecutive pages of the same size are the page of twice that size. */
  lemma UnsortedPagesTile<V, F>(vids: seq<V>, makeRaw: V -> F, offset: nat, limit: nat)
    requires limit > 0
    ensures Unsorted(vids, makeRaw, offset, limit) + Unsorted(vids, makeRaw, offset + limit, limit)
            == Unsorted(vids, makeRaw, offset, 2 * limit)
  {
    var n := |vids|;
    if offset + limit < n {
      var e := Min(offset + 2 * limit, n);
      assert UnsortEnd(n, offset, limit) == offset + limit;
      assert UnsortEnd(n, offset + limit, limit) == e == UnsortEnd(n, offset, 2 * limit);
      assert vids[offset..e] == vids[offset..offset + limit] + vids[offset + limit..e];
      MapAppend(makeRaw, vids[offset..offset + limit], vids[offset + limit..e]);
    } else if offset < n {
      assert UnsortEnd(n, offset, limit) == n == UnsortEnd(n, offset, 2 * limit);
    }
  }

  // ---------------------------------------------------------------- watched episodes

  /**
   * The positions `ListWatchedEpisodes` turns into episodes: from `offset`
   * (when positive) up to `offset + limit` (when `limit` is positive). The
   * break test `index - offset >= limit` is 32-bit arithmetic: at offset
   * `int.MinValue` the difference always wraps below zero, so the loop never
   * breaks and every position is visited.
   */
  function WatchedWindow(n: nat, limit: int32, offset: int32): (w: (nat, nat))
    ensures w.0 <= w.1 <= n
    ensures limit > 0 && offset != Int32Min ==> w.1 - w.0 <= limit
    ensures limit <= 0 ==> w.1 == n
    ensures offset == Int32Min ==> w == (0, n)
    ensures offset >= 0 && limit > 0 && offset + limit <= n ==> w == (offset, offset + limit)
  {
    var hi := if limit > 0 && offset != Int32Min then Min(n, Max(offset + limit, 0)) else n;
    (Min(Max(offset, 0), hi), hi)
  }

  /**
   * The break test of the loop, `index - offset >= limit` in 32-bit
   * arithmetic. Before the window's end it is the unbounded comparison,
   * and at offset `int.MinValue` it never holds.
   */
  function WatchedPastLimit(index: int32, limit: int32, offset: int32): (b: bool)
    ensures 0 <= index && 0 < limit && offset == Int32Min ==> !b
    ensures offset != Int32Min && index - offset <= Int32Max && 0 <= index ==> (b <==> index - offset >= limit)
  {
    if 0 <= index && offset == Int32Min then
      WrapAbove(index - offset);
      Wrap32(index - offset) >= limit
    else
      Wrap32(index - offset) >= limit
  }

  /** One more watched episode, generated or skipped. */
  lemma CollectedExtend<A, E>(generate: A -> Option<E>, s: seq<A>, lo: nat, hi: nat)
    requires lo <= hi < |s|
    ensures Collected(generate, s[lo..hi + 1])
            == Collected(generate, s[lo..hi]) + (if generate(s[hi]).Some? then [generate(s[hi]).value] else [])
  {
    assert s[lo..hi + 1][..hi - lo] == s[lo..hi];
  }

  /**
   * `ListWatchedEpisodes`: the episodes generated for the watched entries in
   * the window, in order, leaving out the entries that generate nothing.
   */
  method ListWatchedEpisodes<A, E>(watched: seq<A>, generate: A -> Option<E>, limit: int32, offset: int32)
    returns (eps: seq<E>)
    requires |watched| <= Int32Max
    ensures var w := WatchedWindow(|watched|, limit, offset); eps == Collected(generate, watched[w.0..w.1])
    ensures limit > 0 && offset != Int32Min ==> |eps| <= limit
  {
    eps := [];
    var index := 0;
    while index < |watched|
      invariant 0 <= index <= |watched|
      invariant limit > 0 && offset != Int32Min ==> index <= Max(offset + limit, 0)
      invariant eps == Collected(generate, watched[Min(Max(offset, 0), index)..index])
    {
      var go := offset <= 0 || index >= offset;
      if limit > 0 && WatchedPastLimit(index, limit, offset) {
        assert WatchedWindow(|watched|, limit, offset) == (Min(Max(offset, 0), index), index);
        break;
      }
      WatchedStep(watched, generate, offset, index, eps);
      if go {
        var ep := generate(watched[index]);
        if ep.Some? {
          eps := eps + [ep.value];
        }
      }
      index := index + 1;
    }
    if index == |watched| {
      assert WatchedWindow(|watched|, limit, offset) == (Min(Max(offset, 0), index), index);
    }
  }

  /** One more position of the loop: inside the window it adds what it generates, before the window nothing. */
  lemma WatchedStep<A, E>(watched: seq<A>, generate: A -> Option<E>, offset: int, index: nat, eps: seq<E>)
    requires index < |watched| && eps == Collected(generate, watched[Min(Max(offset, 0), index)..index])
    ensures var next := Collected(generate, watched[Min(Max(offset, 0), index + 1)..index + 1]);
            if offset <= 0 || index >= offset then
              next == eps + (if generate(watched[index]).Some? then [generate(watched[index]).value] else [])
            else next == eps
  {
    if offset <= 0 || index >= offset {
      CollectedExtend(generate, watched, Max(offset, 0), index);
    } else {
      assert watched[index + 1..index + 1] == [] && watched[index..index] == [];
    }
  }

  /** Each returned episode was generated from a watched entry inside the window. */
  lemma WatchedFromWindow<A, E>(watched: seq<A>, generate: A -> Option<E>, limit: int32, offset: int32)
    ensures var w := WatchedWindow(|watched|, limit, offset);
            var eps := Collected(generate, watched[w.0..w.1]);
            forall i :: 0 <= i < |eps| ==> exists j :: w.0 <= j < w.1 && generate(watched[j]) == Some(eps[i])
  {
    var w := WatchedWindow(|watched|, limit, offset);
    var window := watched[w.0..w.1];
    var p := (e: E) => exists j :: w.0 <= j < w.1 && generate(watched[j]) == Some(e);
    forall j | 0 <= j < |window| && generate(window[j]).Some?
      ensures p(generate(window[j]).value)
    {
      assert generate(watched[w.0 + j]) == Some(generate(window[j]).value);
    }
    CollectedSatisfy(generate, window, p);
  }

  /** Two consecutive pages of `limit` entries are the page of `2 * limit` entries. */
  lemma WatchedPagesTile<A, E>(watched: seq<A>, generate: A -> Option<E>, limit: int32, offset: int32)
    requires limit > 0 && offset >= 0 && offset + 2 * limit <= |watched| <= Int32Max
    ensures var a := WatchedWindow(|watched|, limit, offset);
            var b := WatchedWindow(|watched|, limit, offset + limit);
            var c := WatchedWindow(|watched|, 2 * limit, offset);
            Collected(generate, watched[a.0..a.1]) + Collected(generate, watched[b.0..b.1])
            == Collected(generate, watched[c.0..c.1])
  {
    var m, e := offset + limit, offset + 2 * limit;
    assert watched[offset..e] == watched[offset..m] + watched[m..e];
    CollectedAppend(generate, watched[offset..m], watched[m..e]);
  }

  // ---------------------------------------------------------------- role order

  /** A role of a character in a series: the appearance type as text and the character's name, either possibly null. */
  datatype Role = Role(role: Option<string>, character: Option<string>)

  /**
   * The appearance type of a role: `Enum.TryParse` of the text with its
   * spaces turned into underscores. `parse` is that enum parser.
   */
  function Appearance(parse: string -> Option<int>, r: Role): (a: Option<int>)
    ensures r.role.None? ==> a.None?
    ensures r.role.Some? ==> a == parse(ReplaceChar(r.role.value, ' ', '_'))
  {
    match r.role
    case None => None
    case Some(t) => parse(ReplaceChar(t, ' ', '_'))
  }

  /** `string.Compare(a, b, StringComparison.Ordinal)`, by sign: null sorts before every string. */
  function CompareOrdinalNullable(a: Option<string>, b: Option<string>): (r: int)
    ensures r == -1 || r == 0 || r == 1
    ensures r == 0 <==> a == b
    ensures r < 0 <==> NullableLess(a, b)
    ensures r > 0 <==> NullableLess(b, a)
  {
    match (a, b)
    case (None, None) => 0
    case (None, Some(_)) => -1
    case (Some(_), None) => 1
    case (Some(x), Some(y)) => OrdinalCompare(x, y)
  }

  predicate NullableLess(a: Option<string>, b: Option<string>) {
    (a.None? && b.Some?) || (a.Some? && b.Some? && OrdinalLess(a.value, b.value))
  }

  /**
   * The order the roles are listed in: roles whose type parses first, by the
   * type's value, then by character name; the unparsable ones last, in no
   * particular order among themselves.
   */
  predicate ListedBefore(parse: string -> Option<int>, r1: Role, r2: Role) {
    var a1, a2 := Appearance(parse, r1), Appearance(parse, r2);
    a1.Some? &&
    (a2.None? || a1.value < a2.value || (a1.value == a2.value && NullableLess(r1.character, r2.character)))
  }

  /** `CompareRoleByImportance`. */
  function CompareRoleByImportance(parse: string -> Option<int>, r1: Role, r2: Role): (c: int)
    ensures c == -1 || c == 0 || c == 1
    ensures c < 0 <==> ListedBefore(parse, r1, r2)
    ensures c > 0 <==> ListedBefore(parse, r2, r1)
    ensures Appearance(parse, r1).None? && Appearance(parse, r2).None? ==> c == 0
    ensures Appearance(parse, r1).None? && Appearance(parse, r2).Some? ==> c == 1
  {
    var a1, a2 := Appearance(parse, r1), Appearance(parse, r2);
    if a1.None? && a2.None? then 0
    else if a1.None? then 1
    else if a2.None? then -1
    else if a1.value < a2.value then -1
    else if a1.value > a2.value then 1
    else CompareOrdinalNullable(r1.character, r2.character)
  }

  /** Swapping the roles swaps the answer. */
  lemma RoleCompareAntisymmetric(parse: string -> Option<int>, r1: Role, r2: Role)
    ensures CompareRoleByImportance(parse, r1, r2) == -CompareRoleByImportance(parse, r2, r1)
  {
    if Appearance(parse, r1).Some? && Appearance(parse, r2).Some? {
      var c1, c2 := r1.character, r2.character;
      if c1.Some? && c2.Some? {
        OrdinalTotal(c1.value, c2.value);
      }
    }
  }

  /** A role compares equal to itself. */
  lemma RoleCompareReflexive(parse: string -> Option<int>, r: Role)
    ensures CompareRoleByImportance(parse, r, r) == 0
  {
    RoleCompareAntisymmetric(parse, r, r);
  }

  lemma NullableTransitive(a: Option<string>, b: Option<string>, c: Option<string>)
    requires NullableLess(a, b) && NullableLess(b, c)
    ensures NullableLess(a, c)
  {
    if a.Some? {
      OrdinalTransitive(a.value, b.value, c.value);
    }
  }

  /** The listing order is transitive, so sorting by it is well defined. */
  lemma ListedBeforeTransitive(parse: string -> Option<int>, r1: Role, r2: Role, r3: Role)
    requires ListedBefore(parse, r1, r2) && ListedBefore(parse, r2, r3)
    ensures ListedBefore(parse, r1, r3)
  {
    var a1, a2, a3 := Appearance(parse, r1), Appearance(parse, r2), Appearance(parse, r3);
    if a3.Some? && a1.value == a2.value == a3.value {
      NullableTransitive(r1.character, r2.character, r3.character);
    }
  }
}
