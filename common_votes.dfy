/**
 * The v2 API's votes on an episode or a series. A vote is validated, its
 * score is brought to the 100-1000 scale, and it is stored as a row of the
 * AniDB vote table, replacing the row the table already holds for the same
 * entity and vote type.
 */
module CommonVotes {
  import opened Wrappers
  import opened Runtime

  /** `AniDBVoteType`. */
  datatype VoteType = Anime | AnimeTemp | Episode

  /** A row of the AniDB vote table. */
  datatype Vote = Vote(entityId: int, voteType: VoteType, value: int)

  /**
   * The reply of a vote request: `Ok()`, `BadRequest(message)`, or an
   * exception that escapes the action (the server then answers with an error).
   */
  datatype Reply = Accepted | BadRequest(message: string) | Faulted(exception: string)

  /** A series as the series vote reads it. */
  datatype Series = Series(aniDbId: int, finishedAiring: bool)

  const IdWrong := "'id' value is wrong"
  const ScoreWrong := "'score' value is wrong"

  // ---------------------------------------------------------------- score

  /** A score is accepted on the 1-10 scale or the 100-1000 scale, and anything in 1..1000 passes. */
  predicate ValidScore(score: int) {
    0 < score <= 1000
  }

  /** A 1-10 score is multiplied by 100; what is stored is always in 11..1000. */
  function ScaleScore(score: int): (r: int)
    requires ValidScore(score)
    ensures 11 <= r <= 1000
    ensures score > 10 ==> r == score
    ensures score <= 10 ==> r / 100 == score && r % 100 == 0
  {
    if score <= 10 then score * 100 else score
  }

  /** A scaled score is scaled no further. */
  lemma ScaleIdempotent(score: int)
    requires ValidScore(score)
    ensures ScaleScore(ScaleScore(score)) == ScaleScore(score)
  {
  }

  /** A score of 1-10 stores the same value as its 100-1000 form. */
  lemma ScaleAgreesWithHundreds(score: int)
    requires 1 <= score <= 10
    ensures ScaleScore(score) == ScaleScore(score * 100)
  {
  }

  /** The checks every vote makes before anything else: the id, then the score. */
  function Validate(id: int, score: int): (r: Option<string>)
    ensures r.None? <==> id > 0 && ValidScore(score)
    ensures id <= 0 ==> r == Some(IdWrong)
    ensures id > 0 && !ValidScore(score) ==> r == Some(ScoreWrong)
  {
    if id <= 0 then Some(IdWrong)
    else if !ValidScore(score) then Some(ScoreWrong)
    else None
  }

  // ---------------------------------------------------------------- the vote table

  /** `GetByEntityAndType`: the position of the first row for this entity and vote type. */
  function Find(rows: seq<Vote>, entityId: int, t: VoteType): (r: Option<nat>)
    ensures r.Some? ==> r.value < |rows| && rows[r.value].entityId == entityId && rows[r.value].voteType == t
    ensures r.Some? ==> forall j :: 0 <= j < r.value ==> !(rows[j].entityId == entityId && rows[j].voteType == t)
    ensures r.None? ==> forall j :: 0 <= j < |rows| ==> !(rows[j].entityId == entityId && rows[j].voteType == t)
    decreases |rows|
  {
    if rows == [] then None
    else if rows[0].entityId == entityId && rows[0].voteType == t then Some(0)
    else match Find(rows[1..], entityId, t)
      case None => None
      case Some(j) => Some(j + 1)
  }

  /** `Save`: an existing row is written back in place, a new one is appended. */
  function Save(rows: seq<Vote>, at: Option<nat>, v: Vote): (r: seq<Vote>)
    requires at.Some? ==> at.value < |rows|
    ensures at.Some? ==> r == rows[at.value := v]
    ensures at.None? ==> r == rows + [v]
  {
    if at.Some? then rows[at.value := v] else rows + [v]
  }

  /** At most one row per entity among the rows whose type satisfies `kind`. */
  predicate OneRowPerEntity(rows: seq<Vote>, kind: VoteType -> bool) {
    forall i, j :: 0 <= i < j < |rows| && kind(rows[i].voteType) && kind(rows[j].voteType) ==>
      rows[i].entityId != rows[j].entityId
  }

  function IsEpisodeVote(t: VoteType): bool { t == Episode }
  function IsAnimeVote(t: VoteType): bool { t == Anime || t == AnimeTemp }

  // ---------------------------------------------------------------- episode vote

  /**
   * `EpisodeVote`: the reply and the vote table afterwards. `episodes` are
   * the ids of the episodes that exist.
   */
  function EpisodeVote(rows: seq<Vote>, episodes: set<int>, id: int, score: int): (r: (Reply, seq<Vote>))
    ensures r.0 == Accepted <==> id > 0 && ValidScore(score) && id in episodes
    ensures r.0 != Accepted ==> r.1 == rows
    ensures id > 0 && ValidScore(score) && id !in episodes ==>
              r.0 == BadRequest("Episode with id " + FormatInt(id) + " was not found")
    ensures r.0 == Accepted ==>
              var k := Find(r.1, id, Episode);
              k.Some? && r.1[k.value] == Vote(id, Episode, ScaleScore(score)) && |rows| <= |r.1| <= |rows| + 1 &&
              forall j :: 0 <= j < |rows| && j != k.value ==> r.1[j] == rows[j]
  {
    match Validate(id, score)
    case Some(message) => (BadRequest(message), rows)
    case None =>
      if id !in episodes then (BadRequest("Episode with id " + FormatInt(id) + " was not found"), rows)
      else
        var at := Find(rows, id, Episode);
        var after := Save(rows, at, Vote(id, Episode, ScaleScore(score)));
        assert Find(after, id, Episode) == if at.Some? then at else Some(|rows|) by {
          if at.Some? {
            FindAfterWrite(rows, at.value, Vote(id, Episode, ScaleScore(score)));
          } else {
            FindAppended(rows, Vote(id, Episode, ScaleScore(score)));
          }
        }
        (Accepted, after)
  }

  lemma {:induction false} FindAppended(rows: seq<Vote>, v: Vote)
    requires Find(rows, v.entityId, v.voteType).None?
    ensures Find(rows + [v], v.entityId, v.voteType) == Some(|rows|)
    decreases |rows|
  {
    if rows != [] {
      assert (rows + [v])[1..] == rows[1..] + [v];
      FindAppended(rows[1..], v);
    }
  }

  /** Rewriting the row `Find` returned keeps it the first match. */
  lemma FindAfterWrite(rows: seq<Vote>, at: nat, v: Vote)
    requires Find(rows, v.entityId, v.voteType) == Some(at)
    ensures Find(rows[at := v], v.entityId, v.voteType) == Some(at)
  {
    var after := rows[at := v];
    var r := Find(after, v.entityId, v.voteType);
    assert after[at] == v;
  }

  /** Voting the same score on the same episode twice leaves the table as one vote does. */
  lemma EpisodeVoteIdempotent(rows: seq<Vote>, episodes: set<int>, id: int, score: int)
    ensures var once := EpisodeVote(rows, episodes, id, score).1;
            EpisodeVote(once, episodes, id, score) == (EpisodeVote(rows, episodes, id, score).0, once)
  {
    if Validate(id, score).None? && id in episodes {
      var v := Vote(id, Episode, ScaleScore(score));
      var at := Find(rows, id, Episode);
      var once := Save(rows, at, v);
      if at.Some? {
        FindAfterWrite(rows, at.value, v);
      } else {
        FindAppended(rows, v);
      }
      assert once[Find(once, id, Episode).value := v] == once;
    }
  }

  /** An episode vote never adds a second row for an episode. */
  lemma EpisodeVoteKeepsOneRow(rows: seq<Vote>, episodes: set<int>, id: int, score: int)
    requires OneRowPerEntity(rows, IsEpisodeVote)
    ensures OneRowPerEntity(EpisodeVote(rows, episodes, id, score).1, IsEpisodeVote)
  {
    if Validate(id, score).None? && id in episodes {
      var v := Vote(id, Episode, ScaleScore(score));
      var at := Find(rows, id, Episode);
      if at.None? {
        SaveNewKeepsOneRow(rows, v, IsEpisodeVote);
      } else {
        SaveInPlaceKeepsOneRow(rows, at.value, v, IsEpisodeVote);
      }
    }
  }

  lemma SaveNewKeepsOneRow(rows: seq<Vote>, v: Vote, kind: VoteType -> bool)
    requires OneRowPerEntity(rows, kind)
    requires forall j :: 0 <= j < |rows| && kind(rows[j].voteType) ==> rows[j].entityId != v.entityId
    ensures OneRowPerEntity(rows + [v], kind)
  {
    var after := rows + [v];
    forall i, j | 0 <= i < j < |after| && kind(after[i].voteType) && kind(after[j].voteType)
      ensures after[i].entityId != after[j].entityId
    {
      if j == |rows| {
        assert after[i] == rows[i];
      } else {
        assert after[i] == rows[i] && after[j] == rows[j];
      }
    }
  }

  lemma SaveInPlaceKeepsOneRow(rows: seq<Vote>, at: nat, v: Vote, kind: VoteType -> bool)
    requires OneRowPerEntity(rows, kind)
    requires at < |rows| && rows[at].entityId == v.entityId && kind(rows[at].voteType) && kind(v.voteType)
    ensures OneRowPerEntity(rows[at := v], kind)
  {
    var after := rows[at := v];
    forall i, j | 0 <= i < j < |after| && kind(after[i].voteType) && kind(after[j].voteType)
      ensures after[i].entityId != after[j].entityId
    {
      if i != at && j != at {
        assert after[i] == rows[i] && after[j] == rows[j];
      } else if i == at {
        assert after[j] == rows[j];
      } else {
        assert after[i] == rows[i];
      }
    }
  }

  // ---------------------------------------------------------------- the episode vote job

  /** What `Convert.ToDouble(object)` is given: a number, or a vote row, which is not `IConvertible`. */
  datatype Boxed = BoxedNumber(value: int) | BoxedVote(vote: Vote)

  const InvalidCast := "InvalidCastException"

  /**
   * `Convert.ToDouble(object)`: a number converts to itself; an object that
   * is not `IConvertible` raises `InvalidCastException`.
   */
  function ConvertToDouble(x: Boxed): (r: Result<int, string>)
    ensures r.Ok? <==> x.BoxedNumber?
    ensures r.Ok? ==> r.value == x.value
    ensures r.Fail? ==> r.error == InvalidCast
  {
    match x
    case BoxedNumber(n) => Ok(n)
    case BoxedVote(_) => Fail(InvalidCast)
  }

  /**
   * Starting the vote job after an accepted vote: the job's value is
   * converted first, and a failed conversion escapes the action after the
   * vote has been saved.
   */
  function StartVoteJob(outcome: (Reply, seq<Vote>), value: Boxed): (r: (Reply, seq<Vote>))
    ensures r.1 == outcome.1
    ensures outcome.0 != Accepted ==> r.0 == outcome.0
    ensures outcome.0 == Accepted ==> (r.0 == Accepted <==> value.BoxedNumber?)
  {
    if outcome.0 != Accepted then outcome
    else match ConvertToDouble(value)
      case Ok(_) => outcome
      case Fail(e) => (Faulted(e), outcome.1)
  }

  /**
   * `EpisodeVote` as written: the job is given `Convert.ToDouble(thisVote)`,
   * the vote row itself, so every vote that gets as far as the job is saved
   * and then answered with an `InvalidCastException`; the rejected requests
   * are answered as before.
   */
  function EpisodeVoteAsWritten(rows: seq<Vote>, episodes: set<int>, id: int, score: int): (r: (Reply, seq<Vote>))
    ensures r.1 == EpisodeVote(rows, episodes, id, score).1
    ensures r.0 != Accepted
    ensures EpisodeVote(rows, episodes, id, score).0 == Accepted ==> r.0 == Faulted(InvalidCast)
    ensures EpisodeVote(rows, episodes, id, score).0 != Accepted ==> r.0 == EpisodeVote(rows, episodes, id, score).0
  {
    var saved := EpisodeVote(rows, episodes, id, score);
    var thisVote := if saved.0 == Accepted then Vote(id, Episode, ScaleScore(score)) else Vote(id, Episode, 0);
    StartVoteJob(saved, BoxedVote(thisVote))
  }

  /**
   * The intended job value is the stored score, a number, as the series vote
   * passes `score / 100D`: the job then starts and the vote is accepted, so
   * `EpisodeVote` is the corrected endpoint.
   */
  lemma EpisodeVoteJobStarts(rows: seq<Vote>, episodes: set<int>, id: int, score: int)
    requires ValidScore(score)
    ensures var saved := EpisodeVote(rows, episodes, id, score);
            StartVoteJob(saved, BoxedNumber(ScaleScore(score))) == saved
  {
  }

  /** Episode 7 voted 8 on an empty table: the vote is stored, and the source still answers with an error. */
  lemma EpisodeVoteFaultsAfterSave()
    ensures EpisodeVoteAsWritten([], {7}, 7, 8) == (Faulted(InvalidCast), [Vote(7, Episode, 800)])
    ensures EpisodeVote([], {7}, 7, 8) == (Accepted, [Vote(7, Episode, 800)])
  {
    assert Validate(7, 8) == None && ScaleScore(8) == 800;
    assert Find([], 7, Episode) == None;
    assert Save([], None, Vote(7, Episode, 800)) == [Vote(7, Episode, 800)];
    assert EpisodeVote([], {7}, 7, 8) == (Accepted, [Vote(7, Episode, 800)]);
    var r := EpisodeVoteAsWritten([], {7}, 7, 8);
    assert r.0 == Faulted(InvalidCast) && r.1 == [Vote(7, Episode, 800)];
  }

  // ---------------------------------------------------------------- series vote

  /** The vote type of a series: a permanent vote once it has finished airing, a temporary one before. */
  function SeriesVoteType(s: Series): (t: VoteType)
    ensures IsAnimeVote(t)
    ensures t == Anime <==> s.finishedAiring
  {
    if s.finishedAiring then Anime else AnimeTemp
  }

  /** The row a series vote overwrites: a temporary vote for the entity first, else a permanent one. */
  function FindAnimeVote(rows: seq<Vote>, entityId: int): (r: Option<nat>)
    ensures r.Some? ==> r.value < |rows| && rows[r.value].entityId == entityId && IsAnimeVote(rows[r.value].voteType)
    ensures r.None? ==> forall j :: 0 <= j < |rows| ==> !(rows[j].entityId == entityId && IsAnimeVote(rows[j].voteType))
  {
    var temp := Find(rows, entityId, AnimeTemp);
    if temp.Some? then temp else Find(rows, entityId, Anime)
  }

  /**
   * `SerieVote` as written: it looks for the existing vote under the series'
   * own id, but a new vote is stored under the series' AniDB id.
   */
  function SerieVoteAsWritten(rows: seq<Vote>, series: map<int, Series>, id: int, score: int): (r: (Reply, seq<Vote>))
    ensures r.0 == Accepted <==> id > 0 && ValidScore(score) && id in series
    ensures r.0 != Accepted ==> r.1 == rows
    ensures id > 0 && ValidScore(score) && id !in series ==>
              r.0 == BadRequest("Series with id " + FormatInt(id) + " was not found")
  {
    match Validate(id, score)
    case Some(message) => (BadRequest(message), rows)
    case None =>
      if id !in series then (BadRequest("Series with id " + FormatInt(id) + " was not found"), rows)
      else
        var s := series[id];
        var at := FindAnimeVote(rows, id);
        var v := if at.Some? then rows[at.value].(value := ScaleScore(score), voteType := SeriesVoteType(s))
                 else Vote(s.aniDbId, SeriesVoteType(s), ScaleScore(score));
        (Accepted, Save(rows, at, v))
  }

  /**
   * A series whose id differs from its AniDB id: voting twice on it stores two
   * rows for the same anime, the second vote not finding the first.
   */
  lemma SerieVoteAsWrittenDuplicates()
    ensures var series := map[5 := Series(1234, true)];
            var once := SerieVoteAsWritten([], series, 5, 8).1;
            var twice := SerieVoteAsWritten(once, series, 5, 8).1;
            OneRowPerEntity(once, IsAnimeVote) &&
            twice == [Vote(1234, Anime, 800), Vote(1234, Anime, 800)] &&
            !OneRowPerEntity(twice, IsAnimeVote)
  {
    var series := map[5 := Series(1234, true)];
    var once := SerieVoteAsWritten([], series, 5, 8).1;
    assert once == [Vote(1234, Anime, 800)];
    assert Find(once, 5, AnimeTemp) == None;
    assert Find(once, 5, Anime) == None;
    var twice := SerieVoteAsWritten(once, series, 5, 8).1;
    assert twice[0].entityId == twice[1].entityId;
  }

  /** `SerieVote` with the existing vote looked up under the AniDB id, as the new vote is stored. */
  function SerieVote(rows: seq<Vote>, series: map<int, Series>, id: int, score: int): (r: (Reply, seq<Vote>))
    ensures r.0 == Accepted <==> id > 0 && ValidScore(score) && id in series
    ensures r.0 != Accepted ==> r.1 == rows
    ensures id > 0 && ValidScore(score) && id !in series ==>
              r.0 == BadRequest("Series with id " + FormatInt(id) + " was not found")
    ensures r.0 == Accepted ==>
              var v := Vote(series[id].aniDbId, SeriesVoteType(series[id]), ScaleScore(score));
              v in r.1 && |rows| <= |r.1| <= |rows| + 1 &&
              forall j :: 0 <= j < |rows| ==>
                r.1[j] == rows[j] || (r.1[j] == v && rows[j].entityId == v.entityId && IsAnimeVote(rows[j].voteType))
  {
    match Validate(id, score)
    case Some(message) => (BadRequest(message), rows)
    case None =>
      if id !in series then (BadRequest("Series with id " + FormatInt(id) + " was not found"), rows)
      else
        var s := series[id];
        var at := FindAnimeVote(rows, s.aniDbId);
        var v := Vote(s.aniDbId, SeriesVoteType(s), ScaleScore(score));
        var after := Save(rows, at, v);
        assert v == after[if at.Some? then at.value else |rows|];
        (Accepted, after)
  }

  /** Where the series' id and its AniDB id agree, the lookup as written finds the right row. */
  lemma SerieVoteAgreesWhenIdsMatch(rows: seq<Vote>, series: map<int, Series>, id: int, score: int)
    requires id in series && series[id].aniDbId == id
    ensures SerieVoteAsWritten(rows, series, id, score) == SerieVote(rows, series, id, score)
  {
  }

  /** With one anime vote per entity, a series vote keeps it so. */
  lemma SerieVoteKeepsOneRow(rows: seq<Vote>, series: map<int, Series>, id: int, score: int)
    requires OneRowPerEntity(rows, IsAnimeVote)
    ensures OneRowPerEntity(SerieVote(rows, series, id, score).1, IsAnimeVote)
  {
    if Validate(id, score).None? && id in series {
      var s := series[id];
      var v := Vote(s.aniDbId, SeriesVoteType(s), ScaleScore(score));
      var at := FindAnimeVote(rows, s.aniDbId);
      if at.None? {
        SaveNewKeepsOneRow(rows, v, IsAnimeVote);
      } else {
        SaveInPlaceKeepsOneRow(rows, at.value, v, IsAnimeVote);
      }
    }
  }

  /** With one anime vote per entity, the lookup finds that one vote. */
  lemma FindOnlyAnimeVote(rows: seq<Vote>, k: nat)
    requires OneRowPerEntity(rows, IsAnimeVote)
    requires k < |rows| && IsAnimeVote(rows[k].voteType)
    ensures FindAnimeVote(rows, rows[k].entityId) == Some(k)
  {
  }

  /** With one anime vote per entity, the series vote is what the lookup then finds. */
  lemma SerieVoteFound(rows: seq<Vote>, series: map<int, Series>, id: int, score: int)
    requires OneRowPerEntity(rows, IsAnimeVote)
    requires SerieVote(rows, series, id, score).0 == Accepted
    ensures var after := SerieVote(rows, series, id, score).1;
            var k := FindAnimeVote(after, series[id].aniDbId);
            k.Some? && after[k.value] == Vote(series[id].aniDbId, SeriesVoteType(series[id]), ScaleScore(score))
  {
    var s := series[id];
    var v := Vote(s.aniDbId, SeriesVoteType(s), ScaleScore(score));
    var at := FindAnimeVote(rows, s.aniDbId);
    var after := SerieVote(rows, series, id, score).1;
    var p := if at.Some? then at.value else |rows|;
    assert after[p] == v;
    SerieVoteKeepsOneRow(rows, series, id, score);
    FindOnlyAnimeVote(after, p);
  }

  /** With one anime vote per entity, voting twice leaves the table as one vote does. */
  lemma SerieVoteIdempotent(rows: seq<Vote>, series: map<int, Series>, id: int, score: int)
    requires OneRowPerEntity(rows, IsAnimeVote)
    ensures var once := SerieVote(rows, series, id, score).1;
            SerieVote(once, series, id, score) == (SerieVote(rows, series, id, score).0, once)
  {
    if Validate(id, score).None? && id in series {
      SerieVoteFound(rows, series, id, score);
      var once := SerieVote(rows, series, id, score).1;
      var k := FindAnimeVote(once, series[id].aniDbId);
      assert once[k.value := once[k.value]] == once;
    }
  }
}
