/** `MediaManager.parse_filename` (main.py:69-138) as a function of the filename stem and the
    rule set, stage by stage; the imperative method in module `Manager` is proved equal to it.
    Python exceptions raised while reading a match are the `Failure` results. */
module Decomposition {
  import opened Wrappers
  import opened Text
  import opened Numbers
  import opened Patterns
  import opened FixedPatterns

  /** The `info` dict while it is being filled (`None` = not set yet). */
  datatype Draft = Draft(
    group: Option<string>, title: Option<string>, season: Option<string>, episode: Option<string>,
    resolution: Option<string>, videoCodec: Option<string>, audioCodec: Option<string>,
    subtitle: Option<string>, remarks: seq<string>)

  const EmptyDraft := Draft(None, None, None, None, None, None, None, None, [])

  /** `bangumi_eps`: the record's `total_episodes`, or `'??'` when the record has none. */
  datatype EpisodeHint = Total(count: int) | UnknownCount

  /** The dict `parse_filename` returns, with the `bangumi_eps` entry the reconciliation adds. */
  datatype MediaInfo = MediaInfo(
    group: Option<string>, title: string, season: string, episode: Option<string>,
    resolution: Option<string>, videoCodec: Option<string>, audioCodec: Option<string>,
    subtitle: Option<string>, remarks: Option<string>, bangumiEps: Option<EpisodeHint>)

  const UnknownTitle := "Unknown Title"

  /** The technical categories in the order they are tried (main.py:92). */
  const TechOrder: seq<RuleName> := [Resolution, Source, VideoCodec, AudioCodec, Subtitle, Group]

  /** The categories that fill a single field; `Source` appends to the remarks instead. */
  predicate IsTagField(c: RuleName) {
    c == Resolution || c == VideoCodec || c == AudioCodec || c == Subtitle || c == Group
  }

  function TagField(d: Draft, c: RuleName): Option<string>
    requires IsTagField(c)
  {
    match c
    case Resolution => d.resolution
    case VideoCodec => d.videoCodec
    case AudioCodec => d.audioCodec
    case Subtitle => d.subtitle
    case Group => d.group
  }

  function SetTagField(d: Draft, c: RuleName, v: string): Draft
    requires IsTagField(c)
  {
    match c
    case Resolution => d.(resolution := Some(v))
    case VideoCodec => d.(videoCodec := Some(v))
    case AudioCodec => d.(audioCodec := Some(v))
    case Subtitle => d.(subtitle := Some(v))
    case Group => d.(group := Some(v))
  }

  // ---------------------------------------------------------------------------------------
  // Stage 1: the `[<title> Season <n>]` bracket (main.py:84-89).

  function TitleSeasonStage(stem: string): (Draft, string) {
    match SearchTitleSeason(stem)
    case None => (EmptyDraft, stem)
    case Some((_, ts)) =>
      (EmptyDraft.(title := Some(Strip(ts.title)), season := Some(Strip(ts.season))),
       RemoveFirst(stem, ts.whole))
  }

  // ---------------------------------------------------------------------------------------
  // Stage 2: technical tags in brackets (main.py:92-113).

  datatype Claim = Claim(rule: RuleName, value: string)

  /** The rule `name` is configured and finds a match in `content`. */
  predicate Matches(P: PatternSet, name: RuleName, content: string) {
    name in P && P[name](content).Some?
  }

  /** The inner loop: the first category of `cats` whose rule matches the bracket body
      claims it, with the value read from the match. */
  function Classify(content: string, P: PatternSet, cats: seq<RuleName>): Result<Option<Claim>, ParseError>
    decreases |cats|
  {
    if cats == [] then Success(None)
    else if Matches(P, cats[0], content) then
      var v :- TagValue(P[cats[0]](content).value);
      Success(Some(Claim(cats[0], v)))
    else Classify(content, P, cats[1..])
  }

  /** A source tag is appended to the remarks; any other tag fills its field only when the
      field is still empty. */
  function ApplyClaim(d: Draft, c: Claim): Draft {
    if c.rule == Source then d.(remarks := d.remarks + [c.value])
    else if IsTagField(c.rule) && TagField(d, c.rule).None? then SetTagField(d, c.rule, c.value)
    else d
  }

  /** The outer loop over the brackets found in the stage-1 residue: a claimed bracket is cut
      out of the working copy `temp` (its first occurrence); an unclaimed one stays. */
  function ClaimBrackets(d: Draft, temp: string, bs: seq<Bracket>, P: PatternSet): Result<(Draft, string), ParseError>
    decreases |bs|
  {
    if bs == [] then Success((d, temp))
    else
      var c :- Classify(bs[0].content, P, TechOrder);
      if c.None? then ClaimBrackets(d, temp, bs[1..], P)
      else ClaimBrackets(ApplyClaim(d, c.value), RemoveFirst(temp, bs[0].whole), bs[1..], P)
  }

  // ---------------------------------------------------------------------------------------
  // Stage 3: season and episode from the residue (main.py:116-126).

  /** `str(int(m.group(1)))`. */
  function SeasonFromMatch(m: RegexMatch): (r: Result<Option<string>, ParseError>)
    ensures r.Success? <==> GroupInt(m, 1).Success?
    ensures r.Success? ==> r.value.Some? && ParseInt(r.value.value) == Some(GroupInt(m, 1).value)
  {
    var n :- GroupInt(m, 1);
    ShowRoundTrip(n);
    Success(Some(Show(n)))
  }

  function EpisodeStage(d: Draft, work: string, P: PatternSet): Result<(Draft, string), ParseError> {
    if d.episode.Some? then Success((d, work))
    else match SearchOrEmpty(P, SeasonEpisode, work)
      case Some(m) =>
        var season :- if d.season.None? then SeasonFromMatch(m) else Success(d.season);
        var ep :- GroupInt(m, 2);
        Success((d.(season := season, episode := Some(Pad2(ep))), RemoveFirst(work, m.whole)))
      case None =>
        match SearchOrEmpty(P, Episode, work)
        case Some(m) =>
          var ep :- GroupInt(m, 1);
          Success((d.(episode := Some(Pad2(ep))), RemoveFirst(work, m.whole)))
        case None => Success((d, work))
  }

  // ---------------------------------------------------------------------------------------
  // Stages 4 and 5: title fallback and defaults (main.py:129-136).

  /** Brackets cut out, stripped, separator runs collapsed to one space, stripped again; an
      empty result is the sentinel. */
  function FallbackTitle(work: string): string {
    var t := Strip(CollapseSeps(Strip(RemoveBrackets(work))));
    if t == [] then UnknownTitle else t
  }

  function Finish(d: Draft): MediaInfo
    requires d.title.Some?
  {
    var joined := Join(d.remarks);
    MediaInfo(d.group, d.title.value, d.season.GetOr("1"), d.episode, d.resolution,
              d.videoCodec, d.audioCodec, d.subtitle, if joined == "" then None else Some(joined), None)
  }

  function Decompose(stem: string, P: PatternSet): Result<MediaInfo, ParseError> {
    var s1 := TitleSeasonStage(stem);
    var s2 :- ClaimBrackets(s1.0, s1.1, FindBrackets(s1.1), P);
    var s3 :- EpisodeStage(s2.0, s2.1, P);
    var d := if s3.0.title.None? then s3.0.(title := Some(FallbackTitle(s3.1))) else s3.0;
    Success(Finish(d))
  }
}
