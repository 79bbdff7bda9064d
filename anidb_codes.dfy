/**
 * The code tables the AniDB HTTP anime parser applies to text it reads: the
 * anime type, the relation between two anime, and the language of a title.
 * Each is looked up after `ToLowerInvariant`, and each is total: text it does
 * not list falls to a catch-all value.
 */
module AniDbCodes {
  import opened Runtime

  // ---------------------------------------------------------------- anime type

  datatype AnimeType = Movie | OVA | TVSeries | TVSpecial | Web | MusicVideo | OtherType | UnknownType

  /** The `<type>` switch of `ParseAnime`. */
  function AnimeTypeFromText(text: string): AnimeType {
    AnimeTypeOfLower(Lower(text))
  }

  /** The switch itself, on the lower-cased text. */
  function AnimeTypeOfLower(code: string): AnimeType {
    match code
    case "movie" => Movie
    case "ova" => OVA
    case "tv series" => TVSeries
    case "tv special" => TVSpecial
    case "web" => Web
    case "music video" => MusicVideo
    case "other" => OtherType
    case _ => UnknownType
  }

  /** The text AniDB writes for each type; UnknownType has none of its own. */
  function AnimeTypeText(t: AnimeType): string {
    match t
    case Movie => "Movie"
    case OVA => "OVA"
    case TVSeries => "TV Series"
    case TVSpecial => "TV Special"
    case Web => "Web"
    case MusicVideo => "Music Video"
    case OtherType => "Other"
    case UnknownType => "unknown"
  }

  /** Every type is read back from its text, whatever its letter case. */
  lemma AnimeTypeRoundTrip(t: AnimeType)
    ensures AnimeTypeFromText(AnimeTypeText(t)) == t
  {
    match t
    case Movie | OVA | TVSeries | TVSpecial => BroadcastTypeRoundTrip(t);
    case Web | MusicVideo | OtherType | UnknownType => OtherTypeRoundTrip(t);
  }

  lemma BroadcastTypeRoundTrip(t: AnimeType)
    requires t.Movie? || t.OVA? || t.TVSeries? || t.TVSpecial?
    ensures AnimeTypeFromText(AnimeTypeText(t)) == t
  {
    assert Lower(AnimeTypeText(t)) == AnimeTypeLower(t);
  }

  lemma OtherTypeRoundTrip(t: AnimeType)
    requires t.Web? || t.MusicVideo? || t.OtherType? || t.UnknownType?
    ensures AnimeTypeFromText(AnimeTypeText(t)) == t
  {
    assert Lower(AnimeTypeText(t)) == AnimeTypeLower(t);
  }

  function AnimeTypeLower(t: AnimeType): string {
    match t
    case Movie => "movie"
    case OVA => "ova"
    case TVSeries => "tv series"
    case TVSpecial => "tv special"
    case Web => "web"
    case MusicVideo => "music video"
    case OtherType => "other"
    case UnknownType => "unknown"
  }

  // ---------------------------------------------------------------- relations

  datatype RelationType =
    | Prequel | Sequel | MainStory | SideStory | FullStory | Summary | OtherRelation
    | AlternativeSetting | AlternativeVersion | SameSetting | SharedCharacters

  /** The relation switch of `ParseRelations`. */
  function RelationFromText(text: string): RelationType {
    RelationOfLower(Lower(text))
  }

  /** The switch itself, on the lower-cased text. */
  function RelationOfLower(code: string): RelationType {
    match code
    case "prequel" => Prequel
    case "sequel" => Sequel
    case "parent story" => MainStory
    case "side story" => SideStory
    case "full story" => FullStory
    case "summary" => Summary
    case "other" => OtherRelation
    case "alternative setting" => AlternativeSetting
    case "alternative version" => AlternativeVersion
    case "same setting" => SameSetting
    case "character" => SharedCharacters
    case _ => OtherRelation
  }

  /** The text AniDB writes for each relation. */
  function RelationText(r: RelationType): string {
    match r
    case Prequel => "prequel"
    case Sequel => "sequel"
    case MainStory => "parent story"
    case SideStory => "side story"
    case FullStory => "full story"
    case Summary => "summary"
    case OtherRelation => "other"
    case AlternativeSetting => "alternative setting"
    case AlternativeVersion => "alternative version"
    case SameSetting => "same setting"
    case SharedCharacters => "character"
  }

  /** Every relation is read back from its text. */
  lemma RelationRoundTrip(r: RelationType)
    ensures RelationFromText(RelationText(r)) == r
  {
    match r
    case Prequel | Sequel | MainStory | SideStory | FullStory | Summary => StoryRelationRoundTrip(r);
    case OtherRelation | AlternativeSetting | AlternativeVersion | SameSetting | SharedCharacters => SettingRelationRoundTrip(r);
  }

  lemma StoryRelationRoundTrip(r: RelationType)
    requires r.Prequel? || r.Sequel? || r.MainStory? || r.SideStory? || r.FullStory? || r.Summary?
    ensures RelationFromText(RelationText(r)) == r
  {
    match r
    case Prequel => LowerOfLowerCase("prequel");
    case Sequel => LowerOfLowerCase("sequel");
    case MainStory => LowerOfLowerCase("parent story");
    case SideStory => LowerOfLowerCase("side story");
    case FullStory => LowerOfLowerCase("full story");
    case Summary => LowerOfLowerCase("summary");
  }

  lemma SettingRelationRoundTrip(r: RelationType)
    requires r.OtherRelation? || r.AlternativeSetting? || r.AlternativeVersion? || r.SameSetting? || r.SharedCharacters?
    ensures RelationFromText(RelationText(r)) == r
  {
    match r
    case OtherRelation => LowerOfLowerCase("other");
    case AlternativeSetting => LowerOfLowerCase("alternative setting");
    case AlternativeVersion => LowerOfLowerCase("alternative version");
    case SameSetting => LowerOfLowerCase("same setting");
    case SharedCharacters => LowerOfLowerCase("character");
  }

  // ---------------------------------------------------------------- languages

  /** `TitleLanguage`, as far as AniDB's language codes reach. */
  datatype TitleLanguage =
    | Unknown
    | Japanese
    | Romaji
    | English
    | Afrikaans
    | Albanian
    | Arabic
    | Basque
    | Bengali
    | Bulgarian
    | Bosnian
    | MyanmarBurmese
    | Catalan
    | Pinyin
    | Chinese
    | ChineseTraditional
    | ChineseSimplified
    | Croatian
    | Czech
    | Danish
    | Dutch
    | Esperanto
    | Estonian
    | Filipino
    | Finnish
    | French
    | Galician
    | Georgian
    | German
    | Greek
    | HaitianCreole
    | Hebrew
    | Hindi
    | Hungarian
    | Icelandic
    | Indonesian
    | Italian
    | Javanese
    | Korean
    | KoreanTranscription
    | Latin
    | Latvian
    | Lithuanian
    | Malaysian
    | Mongolian
    | Nepali
    | Norwegian
    | Persian
    | Polish
    | Portuguese
    | BrazilianPortuguese
    | Romanian
    | Russian
    | Serbian
    | Sinhala
    | Slovak
    | Slovenian
    | Spanish
    | Swedish
    | Tamil
    | Tatar
    | Telugu
    | Thai
    | ThaiTranscription
    | Turkish
    | Ukrainian
    | Urdu
    | Vietnamese

  /**
   * `GetLanguageFromXmlAttribute`: the language an AniDB `xml:lang` code
   * names, compared after `ToLowerInvariant`; "x-in", "x-unk", "x-other"
   * and every unlisted code give Unknown.
   */
  function LanguageFromCode(lang: string): TitleLanguage {
    LanguageOfLowerCode(Lower(lang))
  }

  /** The switch itself, on an already lower-cased code. */
  function LanguageOfLowerCode(code: string): TitleLanguage {
    match code
    case "ja" => Japanese
    case "x-jat" => Romaji
    case "en" => English
    case "af" => Afrikaans
    case "al" => Albanian
    case "ar" => Arabic
    case "es-pv" => Basque
    case "bd" => Bengali
    case "bg" => Bulgarian
    case "bs" => Bosnian
    case "bur" => MyanmarBurmese
    case "es-ca" => Catalan
    case "x-zht" => Pinyin
    case "zh" => Chinese
    case "zh-yue" => Chinese
    case "zh-cmn" => Chinese
    case "zh-nan" => Chinese
    case "zh-hant" => ChineseTraditional
    case "zh-hans" => ChineseSimplified
    case "hr" => Croatian
    case "cs" => Czech
    case "da" => Danish
    case "nl" => Dutch
    case "eo" => Esperanto
    case "et" => Estonian
    case "tl" => Filipino
    case "fi" => Finnish
    case "fr" => French
    case "es-ga" => Galician
    case "ka" => Georgian
    case "de" => German
    case "el" => Greek
    case "grc" => Greek
    case "ht" => HaitianCreole
    case "he" => Hebrew
    case "hi" => Hindi
    case "hu" => Hungarian
    case "is" => Icelandic
    case "id" => Indonesian
    case "x-in" => Unknown
    case "it" => Italian
    case "jv" => Javanese
    case "ko" => Korean
    case "x-kot" => KoreanTranscription
    case "la" => Latin
    case "lv" => Latvian
    case "lt" => Lithuanian
    case "my" => Malaysian
    case "mn" => Mongolian
    case "ne" => Nepali
    case "no" => Norwegian
    case "fa" => Persian
    case "pl" => Polish
    case "pt" => Portuguese
    case "pt-br" => BrazilianPortuguese
    case "ro" => Romanian
    case "ru" => Russian
    case "sr" => Serbian
    case "si" => Sinhala
    case "sk" => Slovak
    case "sl" => Slovenian
    case "es" => Spanish
    case "es-419" => Spanish
    case "sv" => Swedish
    case "ta" => Tamil
    case "tt" => Tatar
    case "te" => Telugu
    case "th" => Thai
    case "x-tht" => ThaiTranscription
    case "tr" => Turkish
    case "uk" => Ukrainian
    case "ur" => Urdu
    case "vi" => Vietnamese
    case _ => Unknown
  }

  /** "zh", "zh-yue", "zh-cmn" and "zh-nan" all name Chinese. */
  lemma ChineseAliases()
    ensures LanguageFromCode("zh") == LanguageFromCode("zh-yue") == LanguageFromCode("zh-cmn")
            == LanguageFromCode("zh-nan") == Chinese
  {
    LowerOfLowerCase("zh");
    LowerOfLowerCase("zh-yue");
    LowerOfLowerCase("zh-cmn");
    LowerOfLowerCase("zh-nan");
  }

  /** "el" and "grc" both name Greek. */
  lemma GreekAliases()
    ensures LanguageFromCode("el") == LanguageFromCode("grc") == Greek
  {
    LowerOfLowerCase("el");
    LowerOfLowerCase("grc");
  }

  /** "es" and "es-419" both name Spanish. */
  lemma SpanishAliases()
    ensures LanguageFromCode("es") == LanguageFromCode("es-419") == Spanish
  {
    LowerOfLowerCase("es");
    LowerOfLowerCase("es-419");
  }

  /** "x-in" is listed, but names no language. */
  lemma ListedUnknownCode()
    ensures LanguageFromCode("x-in") == Unknown
  {
    LowerOfLowerCase("x-in");
  }

  /** "x-unk", "x-other" and the empty code fall through the table to Unknown. */
  lemma UnlistedCodes()
    ensures LanguageFromCode("x-unk") == LanguageFromCode("x-other") == LanguageFromCode("") == Unknown
  {
    UnknownCode();
    assert LanguageFromCode("x-other") == Unknown by {
      LowerOfLowerCase("x-other");
    }
  }

  lemma UnknownCode()
    ensures LanguageFromCode("x-unk") == Unknown
  {
    LowerOfLowerCase("x-unk");
  }

  /** The language table ignores letter case: it only sees the lower-cased code. */
  lemma LanguageIgnoresCase(s: string)
    ensures LanguageFromCode(s) == LanguageFromCode(Lower(s))
  {
    LowerIdempotent(s);
  }

  /** So does the relation table. */
  lemma RelationIgnoresCase(s: string)
    ensures RelationFromText(s) == RelationFromText(Lower(s))
  {
    LowerIdempotent(s);
  }

  /** And the anime-type table. */
  lemma AnimeTypeIgnoresCase(s: string)
    ensures AnimeTypeFromText(s) == AnimeTypeFromText(Lower(s))
  {
    LowerIdempotent(s);
  }

  lemma LowerOfLowerCase(s: string)
    requires forall i :: 0 <= i < |s| ==> !IsUpper(s[i])
    ensures Lower(s) == s
  {
  }
}
