/** `EpisodeType` and the one-letter prefixes AniDB and the API use for it. */
module EpisodeTypes {
  import opened Wrappers

  datatype EpisodeType = Episode | Credits | Special | Trailer | Parody | Other

  /** The prefix letter of each type: E, C, S, T, P and O. */
  function Letter(t: EpisodeType): char {
    match t
    case Episode => 'E'
    case Credits => 'C'
    case Special => 'S'
    case Trailer => 'T'
    case Parody => 'P'
    case Other => 'O'
  }

  /** The type an upper-case prefix letter names, if any. */
  function TypeOfLetter(c: char): (r: Option<EpisodeType>)
    ensures r.Some? ==> Letter(r.value) == c
    ensures r.None? <==> forall t: EpisodeType :: Letter(t) != c
  {
    if c == 'E' then Some(Episode)
    else if c == 'C' then Some(Credits)
    else if c == 'S' then Some(Special)
    else if c == 'T' then Some(Trailer)
    else if c == 'P' then Some(Parody)
    else if c == 'O' then Some(Other)
    else None
  }

  /** Every type is named by its own letter, so the two tables are inverse. */
  lemma LetterRoundTrip(t: EpisodeType)
    ensures TypeOfLetter(Letter(t)) == Some(t)
  {
  }
}
