/**
 * `TvDbService`: turning a file's base name into a title (a movie with its year, a series
 * episode with its season, number and name, or an unrecognised name), looking up
 * TheTVDB ids, episode names and movie details, and the bearer token it logs in for.
 *
 * The web service is a `Catalog`: one total function per endpoint, from what the request
 * asks to what its JSON body deserialises to. The token is the one field the service
 * updates.
 */
module TvDb {
  import opened Common
  import opened Text
  import opened Patterns

  // ---------------------------------------------------------------------------
  // What the endpoints answer.

  /** One entry of the `data` list of `/search`: its `tvdb_id` and `id`, either possibly absent. */
  datatype SearchHit = SearchHit(tvdbId: Option<string>, id: Option<string>)

  /**
   * `/search`: an unsuccessful status, a `null` body, a body whose `data` is `null`, or the
   * `data` list.
   */
  datatype SearchReply = SearchFailed | SearchNull | SearchNoData | SearchData(hits: seq<SearchHit>)

  /** The three searches the service sends. */
  datatype SearchQuery =
    | AnyType(text: string)                 // /search?query=text
    | SeriesType(text: string)              // /search?query=text&type=series
    | WithYear(text: string, year: string)  // /search?query=text&year=year

  datatype Episode = Episode(seasonNumber: int, number: int, name: Option<string>)

  /**
   * `/series/{id}/extended`: an unsuccessful status, or the episodes of the body. A `null`
   * body, `data` or `episodes` is the empty list: the service treats them alike.
   */
  datatype ExtendedReply = ExtendedFailed | ExtendedBody(episodes: seq<Episode>)

  datatype MovieData = MovieData(name: Option<string>, year: Option<string>)

  /** `/movies/{id}`: a `null` body, or a body whose `data` may be absent. */
  datatype MovieReply = MovieNull | MovieBody(data: Option<MovieData>)

  datatype Catalog = Catalog(
    search: SearchQuery -> SearchReply,
    extended: string -> ExtendedReply,
    movie: int -> MovieReply)

  /** The login endpoint: refused, or a token. */
  datatype LoginReply = LoginRefused | LoginGranted(token: string)

  /** The kind `ConstructTitle` reports: `"movie"`, `"series"` or `"unknown"`. */
  datatype MediaType = Movie | Series | Unknown

  datatype Title = Title(name: string, kind: MediaType)

  /** The `type` argument of `GetTvdbIdAsync`. */
  datatype LookupType = SeriesLookup | MovieLookup

  /** `(tvDbId, isSeries)`; the id may be `null`. */
  datatype IdLookup = IdLookup(id: Option<string>, isSeries: bool)

  const AuthFailure: string := "Failed to authenticate."

  /** What `Any()` or `First()` throws on a `null` `data` list. */
  const NullSource: string := "Value cannot be null. (Parameter 'source')"

  /** A string interpolated into a C# `$"..."`: `null` prints as nothing. */
  function OrEmpty(s: Option<string>): string {
    if s.Some? then s.value else ""
  }

  // ---------------------------------------------------------------------------
  // GetTvdbIdAsync

  /** `query.Split(' ')[0]`: the text before the first space. */
  function FirstWord(query: string): (w: string)
    ensures |w| <= |query| && w == query[..|w|] && ' ' !in w
    ensures |w| < |query| ==> query[|w|] == ' '
  {
    if query == [] || query[0] == ' ' then "" else [query[0]] + FirstWord(query[1..])
  }

  lemma {:induction false} FirstWordIsFirstPiece(query: string)
    ensures FirstWord(query) == Split(query, ' ')[0]
  {
    if query != [] && query[0] != ' ' {
      FirstWordIsFirstPiece(query[1..]);
    }
  }

  /**
   * The second, series-only search, sent when the first one found nothing: it throws on an
   * empty or `null` data list, and otherwise reports a series exactly when it has an id.
   */
  function RetrySeries(cat: Catalog, query: string): (r: Result<IdLookup>)
    ensures var reply := cat.search(SeriesType(FirstWord(query)));
      r.Err? <==> reply == SearchData([]) || reply.SearchNoData?
    ensures r.Ok? ==> (r.value.isSeries <==> r.value.id.Some?)
  {
    match cat.search(SeriesType(FirstWord(query)))
    case SearchFailed => Ok(IdLookup(None, false))
    case SearchNull => Ok(IdLookup(None, false))
    case SearchNoData => Err(NullSource)
    case SearchData(hits) =>
      if |hits| == 0 then Err("Sequence contains no elements")
      else if hits[0].id.None? then Ok(IdLookup(None, false))
      else Ok(IdLookup(Some(ReplaceAll(hits[0].id.value, "series-", "")), true))
  }

  /**
   * `GetTvdbIdAsync(query, "series")` once the token is there. It reports a series exactly
   * when it has an id, and it throws only on a `null` data list, a first hit without an id,
   * or a retry that throws.
   */
  function LookupSeriesId(cat: Catalog, query: string): (r: Result<IdLookup>)
    ensures r.Ok? ==> (r.value.isSeries <==> r.value.id.Some?)
    ensures var reply := cat.search(AnyType(Trim(query)));
      r.Err? <==> || reply.SearchNoData?
                  || (reply.SearchData? && |reply.hits| > 0 && reply.hits[0].id.None?)
                  || (reply == SearchData([]) && RetrySeries(cat, query).Err?)
  {
    match cat.search(AnyType(Trim(query)))
    case SearchFailed => Ok(IdLookup(None, false))
    case SearchNull => Ok(IdLookup(None, false))
    case SearchNoData => Err(NullSource)
    case SearchData(hits) =>
      if |hits| == 0 then RetrySeries(cat, query)
      else
        var first := hits[0];
        if first.id.None? then Err("Object reference not set to an instance of an object")
        else if Contains(first.id.value, "series") then
          Ok(IdLookup(Some(ReplaceAll(first.id.value, "series-", "")), true))
        else Ok(IdLookup(if first.tvdbId.Some? then first.tvdbId else first.id, true))
  }

  /** The search a movie lookup sends. */
  function MovieQuery(query: string): (q: SearchQuery)
    ensures q.WithYear? && |q.year| in {0, 4} && AllDigits(q.year)
  {
    var y := FindParenYear(query, 0);
    if y.Some? then
      var i := y.value;
      WithYear(Trim(ReplaceAll(query, query[i..i + 6], "")), query[i + 1..i + 5])
    else WithYear(Trim(query), "")
  }

  /**
   * The year inside the leftmost `(dddd)` goes to the `year` parameter and that
   * parenthesised text is removed from the name; without one the year is empty and the
   * name is the trimmed query.
   */
  lemma MovieQueryYear(query: string, i: nat)
    requires ParenYearAt(query, i) && forall j :: 0 <= j < i ==> !ParenYearAt(query, j)
    ensures MovieQuery(query) == WithYear(Trim(ReplaceAll(query, query[i..i + 6], "")), query[i + 1..i + 5])
  {
    var y := FindParenYear(query, 0);
    assert y.Some? && !(y.value < i) && !(y.value > i);
  }

  lemma MovieQueryNoYear(query: string)
    requires forall j :: 0 <= j ==> !ParenYearAt(query, j)
    ensures MovieQuery(query) == WithYear(Trim(query), "")
  {
  }

  /**
   * `GetTvdbIdAsync(query, "movie")` once the token is there: never a series; it throws
   * exactly on a `null` data list or a first hit without an id, and finds an id exactly when
   * there is a first hit.
   */
  function LookupMovieId(cat: Catalog, query: string): (r: Result<IdLookup>)
    ensures r.Ok? ==> !r.value.isSeries
    ensures var reply := cat.search(MovieQuery(query));
      && (r.Err? <==> reply.SearchNoData? || (reply.SearchData? && |reply.hits| > 0 && reply.hits[0].id.None?))
      && (r.Ok? && r.value.id.Some? <==> reply.SearchData? && |reply.hits| > 0 && reply.hits[0].id.Some?)
  {
    match cat.search(MovieQuery(query))
    case SearchData(hits) =>
      if |hits| == 0 then Ok(IdLookup(None, false))
      else if hits[0].id.None? then Err("Object reference not set to an instance of an object")
      else Ok(IdLookup(Some(ReplaceAll(hits[0].id.value, "movie-", "")), false))
    case SearchNoData => Err(NullSource)
    case _ => Ok(IdLookup(None, false))
  }

  /** `GetTvdbIdAsync`: it first makes sure of the token, which fails when the login is refused. */
  function IdFor(cat: Catalog, query: string, kind: LookupType, authorized: bool): (r: Result<IdLookup>)
    ensures !authorized ==> r == Err(AuthFailure)
    ensures r.Ok? ==> (r.value.isSeries <==> kind == SeriesLookup && r.value.id.Some?)
  {
    if !authorized then Err(AuthFailure)
    else if kind == SeriesLookup then LookupSeriesId(cat, query)
    else LookupMovieId(cat, query)
  }

  /**
   * The series lookup reads only the first hit of its first search, and it searches again,
   * for the first word as a series, exactly when that search succeeded with no hits; a
   * failed search or a `null` body finds nothing, and a `null` data list throws.
   */
  lemma SeriesLookupCases(cat: Catalog, query: string)
    ensures var reply := cat.search(AnyType(Trim(query)));
      && (reply == SearchData([]) ==> LookupSeriesId(cat, query) == RetrySeries(cat, query))
      && (reply.SearchData? && |reply.hits| > 0 ==>
            LookupSeriesId(cat, query) == LookupSeriesId(cat.(search := q => SearchData(reply.hits[..1])), query))
      && (reply.SearchFailed? || reply.SearchNull? ==> LookupSeriesId(cat, query) == Ok(IdLookup(None, false)))
      && (reply.SearchNoData? ==> LookupSeriesId(cat, query).Err?)
  {
  }

  // ---------------------------------------------------------------------------
  // GetEpisodeNameAsync

  predicate IsEpisode(e: Episode, season: int, number: int) {
    e.seasonNumber == season && e.number == number
  }

  /** `FirstOrDefault(e => e.SeasonNumber == season && e.Number == number)`, as an index. */
  function FindEpisodeIndex(eps: seq<Episode>, season: int, number: int): (r: Option<nat>)
    ensures r.Some? ==> r.value < |eps| && IsEpisode(eps[r.value], season, number)
    ensures r.Some? ==> forall j :: 0 <= j < r.value ==> !IsEpisode(eps[j], season, number)
    ensures r.None? <==> forall j :: 0 <= j < |eps| ==> !IsEpisode(eps[j], season, number)
  {
    if eps == [] then None
    else if IsEpisode(eps[0], season, number) then Some(0)
    else
      var r := FindEpisodeIndex(eps[1..], season, number);
      if r.Some? then Some(r.value + 1) else None
  }

  /**
   * `GetEpisodeNameAsync` once the token is there: the name of the first episode with that
   * season and number, or `null`. A `null` series id asks for the path `series//extended`.
   */
  function EpisodeName(cat: Catalog, seriesId: Option<string>, season: int, number: int): (r: Option<string>)
    ensures r.Some? ==> var reply := cat.extended(OrEmpty(seriesId));
      reply.ExtendedBody? && exists e :: e in reply.episodes && IsEpisode(e, season, number) && e.name == r
    ensures var reply := cat.extended(OrEmpty(seriesId));
      var i := if reply.ExtendedBody? then FindEpisodeIndex(reply.episodes, season, number) else None;
      i.Some? ==> r == reply.episodes[i.value].name
  {
    match cat.extended(OrEmpty(seriesId))
    case ExtendedFailed => None
    case ExtendedBody(eps) =>
      var i := FindEpisodeIndex(eps, season, number);
      if i.Some? then eps[i.value].name else None
  }

  /**
   * A name comes from the first matching episode, there is none without a matching episode,
   * and a successful answer with a matching episode gives the first such episode's name.
   */
  lemma EpisodeNameSource(cat: Catalog, seriesId: Option<string>, season: int, number: int)
    ensures var reply := cat.extended(OrEmpty(seriesId));
      var n := EpisodeName(cat, seriesId, season, number);
      && (n.Some? ==> reply.ExtendedBody? && exists i :: (0 <= i < |reply.episodes|
            && IsEpisode(reply.episodes[i], season, number) && reply.episodes[i].name == n
            && forall j :: 0 <= j < i ==> !IsEpisode(reply.episodes[j], season, number)))
      && ((reply.ExtendedBody? && forall j :: 0 <= j < |reply.episodes| ==>
             !IsEpisode(reply.episodes[j], season, number)) ==> n.None?)
    ensures var reply := cat.extended(OrEmpty(seriesId));
      forall i :: (reply.ExtendedBody? && 0 <= i < |reply.episodes| && IsEpisode(reply.episodes[i], season, number)
                   && (forall j :: 0 <= j < i ==> !IsEpisode(reply.episodes[j], season, number)))
        ==> EpisodeName(cat, seriesId, season, number) == reply.episodes[i].name
  {
    var reply := cat.extended(OrEmpty(seriesId));
    var n := EpisodeName(cat, seriesId, season, number);
    if n.Some? {
      var i := FindEpisodeIndex(reply.episodes, season, number).value;
      assert IsEpisode(reply.episodes[i], season, number) && reply.episodes[i].name == n;
    }
  }

  // ---------------------------------------------------------------------------
  // ConstructTitle

  /** The episode part of a series title: `S`, the padded season, `E`, the padded episode. */
  function EpisodeLabel(seriesName: string, season: string, episode: string): string {
    seriesName + " S" + season + "E" + episode
  }

  /** `finalName`: the episode's name when it differs from the title in the file name, else that title. */
  function FinalName(episodeTitle: string, episodeName: Option<string>): Option<string> {
    if Some(episodeTitle) != episodeName then episodeName else Some(episodeTitle)
  }

  /** Whichever branch is taken, it is the looked-up episode name. */
  lemma FinalNameIsEpisodeName(episodeTitle: string, episodeName: Option<string>)
    ensures FinalName(episodeTitle, episodeName) == episodeName
  {
  }

  /** The heading of a series title: the series name, then `S`, the season and `E`, the episode, each padded to two digits. */
  function SeriesHeading(seriesName: string, season: string, episode: string): string {
    EpisodeLabel(seriesName, PadLeft(season, 2, '0'), PadLeft(episode, 2, '0'))
  }

  /**
   * The heading is the series name, then `S`, two digits, `E`, two digits, the digits
   * having the values of the matched season and episode.
   */
  lemma SeriesHeadingShape(seriesName: string, season: string, episode: string)
    requires IsDigitGroup(season) && IsDigitGroup(episode)
    ensures var h := SeriesHeading(seriesName, season, episode); var k := |seriesName|;
      && |h| == k + 7 && h[..k] == seriesName
      && h[k..k + 2] == " S" && h[k + 4] == 'E'
      && AllDigits(h[k + 2..k + 4]) && DigitsValue(h[k + 2..k + 4]) == DigitsValue(season)
      && AllDigits(h[k + 5..k + 7]) && DigitsValue(h[k + 5..k + 7]) == DigitsValue(episode)
  {
    PadTwoDigits(season);
    PadTwoDigits(episode);
    HeadingShape(seriesName, PadLeft(season, 2, '0'), PadLeft(episode, 2, '0'), SeriesHeading(seriesName, season, episode));
  }

  /** `int.Parse` of a group padded to two digits: the group's own value. */
  function PaddedValue(group: string): (v: nat)
    requires IsDigitGroup(group)
    ensures v == DigitsValue(group)
  {
    PadTwoDigits(group);
    DigitsValue(PadLeft(group, 2, '0'))
  }

  /** The heading, then ` ` and the episode name unless the title in the file name is blank. */
  function NameWithEpisode(heading: string, episodeTitle: string, episodeName: Option<string>): string {
    var rest := if IsNullOrWhiteSpace(episodeTitle) then ""
                else " " + OrEmpty(FinalName(episodeTitle, episodeName));
    heading + rest
  }

  /**
   * The name is the heading alone when the title in the file name is blank, and otherwise
   * the heading, a space and the looked-up episode name (nothing for a `null` name); either
   * way it starts with the heading.
   */
  lemma NameStartsWithHeading(heading: string, episodeTitle: string, episodeName: Option<string>)
    ensures IsNullOrWhiteSpace(episodeTitle) ==> NameWithEpisode(heading, episodeTitle, episodeName) == heading
    ensures !IsNullOrWhiteSpace(episodeTitle) ==>
      NameWithEpisode(heading, episodeTitle, episodeName) == heading + " " + OrEmpty(episodeName)
    ensures var name := NameWithEpisode(heading, episodeTitle, episodeName);
      |heading| <= |name| && name[..|heading|] == heading
  {
    var name := NameWithEpisode(heading, episodeTitle, episodeName);
    FinalNameIsEpisodeName(episodeTitle, episodeName);
    assert name[..|heading|] == heading;
  }

  /**
   * The title of episode `episode` of season `season` of a series: `before` is the text
   * before the pattern and names the series once trimmed, `after` the text after it. The
   * series id and the episode's name are looked up.
   */
  function EpisodeTitle(cat: Catalog, before: string, after: string, season: string, episode: string): (r: Result<Title>)
    requires IsDigitGroup(season) && IsDigitGroup(episode)
    ensures r.Ok? ==> r.value.kind == Series
  {
    var seriesName := Trim(before);
    var lookup := LookupSeriesId(cat, seriesName);
    if lookup.Err? then Err(lookup.reason)
    else
      var episodeName := EpisodeName(cat, lookup.value.id, PaddedValue(season), PaddedValue(episode));
      Ok(Title(NameWithEpisode(SeriesHeading(seriesName, season, episode), Trim(after), episodeName), Series))
  }

  /**
   * A series title fails only when the id lookup does. Otherwise its name is the heading
   * when the text after the pattern is blank, and else the heading, a space and the name of
   * the episode with the matched season and number in the series found; either way it
   * starts with the heading.
   */
  lemma EpisodeTitleShape(cat: Catalog, before: string, after: string, season: string, episode: string)
    requires IsDigitGroup(season) && IsDigitGroup(episode)
    ensures var r := EpisodeTitle(cat, before, after, season, episode);
      var h := SeriesHeading(Trim(before), season, episode);
      && (r.Err? <==> LookupSeriesId(cat, Trim(before)).Err?)
      && (r.Ok? ==> |h| <= |r.value.name| && r.value.name[..|h|] == h)
    ensures var r := EpisodeTitle(cat, before, after, season, episode);
      var h := SeriesHeading(Trim(before), season, episode);
      var n := if r.Ok? then EpisodeName(cat, LookupSeriesId(cat, Trim(before)).value.id,
                                         DigitsValue(season), DigitsValue(episode)) else None;
      r.Ok? ==> r.value.name == (if IsNullOrWhiteSpace(Trim(after)) then h else h + " " + OrEmpty(n))
  {
    var r := EpisodeTitle(cat, before, after, season, episode);
    if r.Ok? {
      var seriesName := Trim(before);
      var lookup := LookupSeriesId(cat, seriesName);
      var episodeName := EpisodeName(cat, lookup.value.id, PaddedValue(season), PaddedValue(episode));
      NameStartsWithHeading(SeriesHeading(seriesName, season, episode), Trim(after), episodeName);
    }
  }

  /**
   * `ConstructTitle(incomingName)`: a standalone four-digit number makes a movie named by
   * the text before it; otherwise the first season/episode pattern that matches makes a
   * series episode; otherwise the trimmed name is returned as unknown. Only the series
   * branch calls the web service.
   */
  function TitleFor(cat: Catalog, s: string, authorized: bool): (r: Result<Title>)
    ensures FindStandaloneYear(s, 0).Some? ==> r.Ok? && r.value.kind == Movie
    ensures r.Err? ==> FindStandaloneYear(s, 0).None? && FirstPatternMatch(EpisodePatterns, s).Some?
    ensures r.Ok? && r.value.kind == Unknown ==> r.value.name == Trim(s)
  {
    var y := FindStandaloneYear(s, 0);
    if y.Some? then Ok(MovieTitle(s, y.value))
    else PatternTitle(cat, s, authorized, FirstPatternMatch(EpisodePatterns, s))
  }

  /** The movie named by the text before the year at `i`, dots made spaces, then the year in parentheses. */
  function MovieTitle(s: string, i: nat): Title
    requires i + 4 <= |s|
  {
    Title(ReplaceAll(Trim(s[..i]), ".", " ") + " (" + s[i..i + 4] + ")", Movie)
  }

  /** The title once the first matching episode pattern, if any, is known. */
  function PatternTitle(cat: Catalog, s: string, authorized: bool, found: Option<EpisodeMatch>): Result<Title>
    requires found.Some? ==> WellFormed(s, found.value.index, found.value)
  {
    if found.None? then Ok(Title(Trim(s), Unknown))
    else if !authorized then Err(AuthFailure)
    else
      var m := found.value;
      EpisodeTitle(cat, s[..m.index], s[m.index + m.length..], m.season, m.episode)
  }

  /** With neither a year nor an earlier pattern, the title is decided by the match `m`. */
  lemma {:induction false} TitleForSeries(cat: Catalog, s: string, authorized: bool, m: EpisodeMatch)
    requires FindStandaloneYear(s, 0).None? && FirstPatternMatch(EpisodePatterns, s) == Some(m)
    ensures WellFormed(s, m.index, m)
    ensures TitleFor(cat, s, authorized) == PatternTitle(cat, s, authorized, Some(m))
  {
  }

  /** A match makes an episode title, looked up only with a token to be had. */
  lemma {:induction false} PatternTitleOfMatch(cat: Catalog, s: string, authorized: bool, m: EpisodeMatch)
    requires WellFormed(s, m.index, m)
    ensures PatternTitle(cat, s, authorized, Some(m)) ==
      if authorized then EpisodeTitle(cat, s[..m.index], s[m.index + m.length..], m.season, m.episode)
      else Err(AuthFailure)
  {
  }

  /** A year anywhere decides for a movie, before any episode pattern is looked at. */
  lemma MovieIffYear(cat: Catalog, s: string, authorized: bool)
    ensures var r := TitleFor(cat, s, authorized);
      (r.Ok? && r.value.kind == Movie) <==> exists i :: 0 <= i && StandaloneYearAt(s, i)
  {
    var y := FindStandaloneYear(s, 0);
    if y.Some? {
      assert StandaloneYearAt(s, y.value);
    }
  }

  /**
   * A movie title is the text before the leftmost standalone year, trimmed and without
   * dots, then that year in parentheses.
   */
  lemma MovieTitleShape(cat: Catalog, s: string, authorized: bool, i: nat)
    requires StandaloneYearAt(s, i) && forall j :: 0 <= j < i ==> !StandaloneYearAt(s, j)
    ensures var r := TitleFor(cat, s, authorized);
      && r == Ok(Title(ReplaceAll(Trim(s[..i]), ".", " ") + " (" + s[i..i + 4] + ")", Movie))
      && '.' !in ReplaceAll(Trim(s[..i]), ".", " ")
      && AllDigits(s[i..i + 4])
  {
    ReplaceCharRemovesIt(Trim(s[..i]), '.', " ");
  }

  /** The name is returned as it came, trimmed, exactly when there is neither a year nor an episode pattern. */
  lemma UnknownIffNoPattern(cat: Catalog, s: string, authorized: bool)
    ensures var r := TitleFor(cat, s, authorized);
      (r.Ok? && r.value.kind == Unknown) <==>
        (forall i :: 0 <= i ==> !StandaloneYearAt(s, i))
        && (forall k :: 0 <= k < |EpisodePatterns| ==> FindEpisode(EpisodePatterns[k], s, 0).None?)
    ensures var r := TitleFor(cat, s, authorized);
      r.Ok? && r.value.kind == Unknown ==> r.value.name == Trim(s)
  {
    FirstPatternMatchIsFirst(EpisodePatterns, s);
  }

  /** Without a token to be had, only the series branch fails, and it always does. */
  lemma UnauthorizedOnlySeriesFails(cat: Catalog, s: string)
    ensures TitleFor(cat, s, false).Err? <==>
      FindStandaloneYear(s, 0).None? && FirstPatternMatch(EpisodePatterns, s).Some?
  {
  }

  /** The heading puts `S` and `E` around the two-digit season after the series name. */
  lemma HeadingShape(seriesName: string, season: string, episode: string, h: string)
    requires |season| == 2 && |episode| == 2 && h == EpisodeLabel(seriesName, season, episode)
    ensures var k := |seriesName|;
      && |h| == k + 7 && h[..k] == seriesName
      && h[k..k + 2] == " S" && h[k + 2..k + 4] == season
      && h[k + 4] == 'E' && h[k + 5..k + 7] == episode
  {
  }

  lemma HeadingIsTag(name: string, h: string, k: nat)
    requires |h| == k + 7 <= |name| && name[..|h|] == h
    requires h[k..k + 2] == " S" && h[k + 4] == 'E'
    requires AllDigits(h[k + 2..k + 4]) && AllDigits(h[k + 5..k + 7])
    ensures HasCanonicalTag(name)
  {
    assert name[k + 2..k + 4] == h[k + 2..k + 4];
    assert name[k + 5..k + 7] == h[k + 5..k + 7];
    assert name[k + 1] == h[k..k + 2][1];
    assert CanonicalTagAt(name, k + 1);
  }

  /**
   * Every series title contains a match of `s\d{2}e\d{2}` (ignoring case), so the
   * proposal step always finds a series title already formatted.
   */
  lemma {:induction false} SeriesTitleHasTag(cat: Catalog, s: string, authorized: bool)
    requires TitleFor(cat, s, authorized).Ok? && TitleFor(cat, s, authorized).value.kind == Series
    ensures HasCanonicalTag(TitleFor(cat, s, authorized).value.name)
  {
    var m := FirstPatternMatch(EpisodePatterns, s).value;
    TitleForSeries(cat, s, authorized, m);
    PatternTitleOfMatch(cat, s, authorized, m);
    EpisodeTitleHasTag(cat, s[..m.index], s[m.index + m.length..], m.season, m.episode);
  }

  lemma EpisodeTitleHasTag(cat: Catalog, before: string, after: string, season: string, episode: string)
    requires IsDigitGroup(season) && IsDigitGroup(episode)
    requires EpisodeTitle(cat, before, after, season, episode).Ok?
    ensures HasCanonicalTag(EpisodeTitle(cat, before, after, season, episode).value.name)
  {
    var r := EpisodeTitle(cat, before, after, season, episode);
    var h := SeriesHeading(Trim(before), season, episode);
    EpisodeTitleShape(cat, before, after, season, episode);
    SeriesHeadingShape(Trim(before), season, episode);
    HeadingIsTag(r.value.name, h, |Trim(before)|);
  }

  // ---------------------------------------------------------------------------
  // The service and its token.

  /**
   * The token once `EnsureTokenAsync` has run: a held token is kept, and without one the
   * login's token is stored when it is granted.
   */
  function LoggedIn(token: string, login: LoginReply): (t: string)
    ensures t != "" <==> token != "" || (login.LoginGranted? && login.token != "")
    ensures token != "" ==> t == token
  {
    if token == "" && login.LoginGranted? then login.token else token
  }

  /** Making sure of the token a second time changes nothing. */
  lemma LoggedInTwice(token: string, login: LoginReply)
    ensures LoggedIn(LoggedIn(token, login), login) == LoggedIn(token, login)
  {
  }

  class TvDbService {
    const catalog: Catalog
    const login: LoginReply
    /** The bearer token; the empty string stands for both `null` and empty. */
    var token: string

    constructor(catalog: Catalog, login: LoginReply)
      ensures this.catalog == catalog && this.login == login && token == ""
    {
      this.catalog := catalog;
      this.login := login;
      token := "";
    }

    /** A call that first makes sure of the token gets past that step. */
    predicate Authorized()
      reads this
    {
      token != "" || login.LoginGranted?
    }

    /** `GetTvDbToken`: log in, keep and return the token, or fail. */
    method GetTvDbToken() returns (r: Result<string>)
      modifies this
      ensures login.LoginGranted? ==> r == Ok(login.token) && token == login.token
      ensures login.LoginRefused? ==> r == Err(AuthFailure) && token == old(token)
    {
      if login.LoginGranted? {
        token := login.token;
        r := Ok(token);
      } else {
        r := Err(AuthFailure);
      }
    }

    /** `EnsureTokenAsync`: log in only when there is no token yet. */
    method EnsureToken() returns (ok: bool)
      modifies this
      ensures ok == old(Authorized())
      ensures Authorized() == old(Authorized())
      ensures old(token) != "" ==> token == old(token)
      ensures old(token) == "" && login.LoginGranted? ==> token == login.token
      ensures login.LoginRefused? ==> token == old(token)
      ensures token == LoggedIn(old(token), login)
    {
      if token == "" {
        var r := GetTvDbToken();
        ok := r.Ok?;
      } else {
        ok := true;
      }
    }

    /** `GetTvdbIdAsync`. */
    method GetTvdbId(query: string, kind: LookupType) returns (r: Result<IdLookup>)
      modifies this
      ensures r == IdFor(catalog, query, kind, old(Authorized()))
      ensures Authorized() == old(Authorized())
      ensures token == LoggedIn(old(token), login)
    {
      var ok := EnsureToken();
      if !ok {
        return Err(AuthFailure);
      }
      r := if kind == SeriesLookup then LookupSeriesId(catalog, query) else LookupMovieId(catalog, query);
    }

    /** `GetEpisodeNameAsync`. */
    method GetEpisodeName(seriesId: Option<string>, season: int, number: int) returns (r: Result<Option<string>>)
      modifies this
      ensures r == (if old(Authorized()) then Ok(EpisodeName(catalog, seriesId, season, number)) else Err(AuthFailure))
      ensures Authorized() == old(Authorized())
      ensures token == LoggedIn(old(token), login)
    {
      var ok := EnsureToken();
      if !ok {
        return Err(AuthFailure);
      }
      r := Ok(EpisodeName(catalog, seriesId, season, number));
    }

    /** `GetMovieDetailsAsync`: a `null` body throws. */
    method GetMovieDetails(id: int) returns (r: Result<Option<MovieData>>)
      modifies this
      ensures !old(Authorized()) ==> r == Err(AuthFailure)
      ensures old(Authorized()) ==> r == (match catalog.movie(id)
                                          case MovieNull => Err("The search result returned no data for movies.")
                                          case MovieBody(data) => Ok(data))
      ensures Authorized() == old(Authorized())
      ensures token == LoggedIn(old(token), login)
    {
      var ok := EnsureToken();
      if !ok {
        return Err(AuthFailure);
      }
      match catalog.movie(id)
      case MovieNull => r := Err("The search result returned no data for movies.");
      case MovieBody(data) => r := Ok(data);
    }

    /** `ConstructTitle`. */
    method ConstructTitle(incomingName: string) returns (r: Result<Title>)
      modifies this
      ensures r == TitleFor(catalog, incomingName, old(Authorized()))
      ensures Authorized() == old(Authorized())
      ensures token == if FindStandaloneYear(incomingName, 0).None? && FirstPatternMatch(EpisodePatterns, incomingName).Some?
                       then LoggedIn(old(token), login) else old(token)
    {
      ghost var authorized := Authorized();
      var y := FindStandaloneYear(incomingName, 0);
      if y.Some? {
        var i := y.value;
        var movieName := ReplaceAll(Trim(incomingName[..i]), ".", " ");
        return Ok(Title(movieName + " (" + incomingName[i..i + 4] + ")", Movie));
      }
      var found := FirstPatternMatch(EpisodePatterns, incomingName);
      if found.None? {
        return Ok(Title(Trim(incomingName), Unknown));
      }
      var m := found.value;
      TitleForSeries(catalog, incomingName, authorized, m);
      PatternTitleOfMatch(catalog, incomingName, authorized, m);
      r := ConstructEpisodeTitle(incomingName[..m.index], incomingName[m.index + m.length..], m.season, m.episode);
    }

    /** The episode branch of `ConstructTitle`, once the pattern has split the name into the text before and after it. */
    method ConstructEpisodeTitle(before: string, after: string, season: string, episode: string)
      returns (r: Result<Title>)
      requires IsDigitGroup(season) && IsDigitGroup(episode)
      modifies this
      ensures r == (if old(Authorized()) then EpisodeTitle(catalog, before, after, season, episode)
                    else Err(AuthFailure))
      ensures Authorized() == old(Authorized())
      ensures token == LoggedIn(old(token), login)
    {
      var seriesName := Trim(before);
      var episodeTitle := Trim(after);
      var lookup := GetTvdbId(seriesName, SeriesLookup);
      if lookup.Err? {
        return Err(lookup.reason);
      }
      var episodeName := GetEpisodeName(lookup.value.id, PaddedValue(season), PaddedValue(episode));
      // The id lookup got past `EnsureTokenAsync`, so the token is held and this one does too.
      assert episodeName.Ok?;
      r := Ok(Title(NameWithEpisode(SeriesHeading(seriesName, season, episode), episodeTitle, episodeName.value), Series));
    }
  }
}
