/** What `parse_filename` promises, proved about `Decomposition.Decompose`: first category wins,
    set-once tag fields, source tags appended in bracket order, precedence of the season
    bracket, the episode format, the title fallback and the defaults. */
module DecomposeFacts {
  import opened Wrappers
  import opened Text
  import opened Numbers
  import opened Patterns
  import opened FixedPatterns
  import opened Decomposition

  // ---------------------------------------------------------------------------------------
  // Stage 2, inner loop: the first matching category claims the bracket.

  /** When the category at index `k` is the first whose rule matches, it claims the bracket
      and the value is read from its match. */
  lemma {:induction false} ClassifyFirstMatch(content: string, P: PatternSet, cats: seq<RuleName>, k: nat)
    requires k < |cats| && Matches(P, cats[k], content)
    requires forall j :: 0 <= j < k ==> !Matches(P, cats[j], content)
    ensures Classify(content, P, cats) ==
      match TagValue(P[cats[k]](content).value)
      case Failure(e) => Failure(e)
      case Success(v) => Success(Some(Claim(cats[k], v)))
    decreases k
  {
    if k > 0 {
      assert !Matches(P, cats[0], content);
      assert forall j :: 0 <= j < k - 1 ==> cats[1..][j] == cats[j + 1];
      ClassifyFirstMatch(content, P, cats[1..], k - 1);
    }
  }

  /** A bracket stays unclaimed exactly when no category's rule matches its body. */
  lemma {:induction false} ClassifyNone(content: string, P: PatternSet, cats: seq<RuleName>)
    ensures Classify(content, P, cats) == Success(None) <==>
      forall j :: 0 <= j < |cats| ==> !Matches(P, cats[j], content)
    decreases |cats|
  {
    if cats != [] {
      ClassifyNone(content, P, cats[1..]);
      assert forall j :: 1 <= j < |cats| ==> cats[j] == cats[1..][j - 1];
    }
  }

  // ---------------------------------------------------------------------------------------
  // Stage 2, outer loop: a reference description of what the brackets contribute.

  /** The claims made by the brackets, in bracket order (unclaimed brackets contribute
      nothing); fails with the first error raised while reading a match. */
  function ClaimsOf(bs: seq<Bracket>, P: PatternSet): Result<seq<(Bracket, Claim)>, ParseError>
    decreases |bs|
  {
    if bs == [] then Success([])
    else
      var c :- Classify(bs[0].content, P, TechOrder);
      var rest :- ClaimsOf(bs[1..], P);
      Success(if c.None? then rest else [(bs[0], c.value)] + rest)
  }

  /** The value of the first claim of category `c`. */
  function FirstValue(cs: seq<(Bracket, Claim)>, c: RuleName): Option<string> {
    if cs == [] then None
    else if cs[0].1.rule == c then Some(cs[0].1.value)
    else FirstValue(cs[1..], c)
  }

  /** The values of the source claims, in order. */
  function SourceValues(cs: seq<(Bracket, Claim)>): seq<string> {
    if cs == [] then []
    else (if cs[0].1.rule == Source then [cs[0].1.value] else []) + SourceValues(cs[1..])
  }

  /** The working copy after cutting out, one first occurrence each, the claimed brackets. */
  function RemoveEach(t: string, cs: seq<(Bracket, Claim)>): string
    decreases |cs|
  {
    if cs == [] then t else RemoveEach(RemoveFirst(t, cs[0].0.whole), cs[1..])
  }

  /** The state after stage 2 is the one the claims `cs` describe: sources appended in order,
      each empty tag field filled by the first claim of its category and a filled one kept,
      title, season and episode untouched, and only claimed brackets cut out. */
  ghost predicate ClaimedAsDescribed(d: Draft, t: string, cs: seq<(Bracket, Claim)>, d': Draft, t': string) {
    && d'.remarks == d.remarks + SourceValues(cs)
    && TagKept(d, cs, d', Resolution) && TagKept(d, cs, d', VideoCodec) && TagKept(d, cs, d', AudioCodec)
    && TagKept(d, cs, d', Subtitle) && TagKept(d, cs, d', Group)
    && d'.title == d.title && d'.season == d.season && d'.episode == d.episode
    && t' == RemoveEach(t, cs)
  }

  /** A filled tag field is kept; an empty one takes the first value `cs` has for it. */
  ghost predicate TagKept(d: Draft, cs: seq<(Bracket, Claim)>, d': Draft, c: RuleName)
    requires IsTagField(c)
  {
    TagField(d', c) == if TagField(d, c).Some? then TagField(d, c) else FirstValue(cs, c)
  }

  lemma ApplyClaimTag(d: Draft, cl: Claim, c: RuleName)
    requires IsTagField(c)
    ensures TagField(ApplyClaim(d, cl), c) ==
      if TagField(d, c).Some? then TagField(d, c) else if cl.rule == c then Some(cl.value) else None
  {
  }

  lemma TagKeptCons(d: Draft, b: Bracket, cl: Claim, rest: seq<(Bracket, Claim)>, d': Draft, c: RuleName)
    requires IsTagField(c) && TagKept(ApplyClaim(d, cl), rest, d', c)
    ensures TagKept(d, [(b, cl)] + rest, d', c)
  {
    var cs := [(b, cl)] + rest;
    assert cs[0] == (b, cl) && cs[1..] == rest;
    ApplyClaimTag(d, cl, c);
  }

  lemma ApplyClaimEffect(d: Draft, cl: Claim)
    ensures ApplyClaim(d, cl).remarks == d.remarks + (if cl.rule == Source then [cl.value] else [])
    ensures ApplyClaim(d, cl).title == d.title && ApplyClaim(d, cl).season == d.season
    ensures ApplyClaim(d, cl).episode == d.episode
  {
  }

  /** One step of both loops: the first bracket's classification decides. */
  lemma ClaimStep(d: Draft, t: string, bs: seq<Bracket>, P: PatternSet)
    requires bs != [] && Classify(bs[0].content, P, TechOrder).Success?
    ensures var c := Classify(bs[0].content, P, TechOrder).value;
      && (c.None? ==> ClaimBrackets(d, t, bs, P) == ClaimBrackets(d, t, bs[1..], P))
      && (c.Some? ==>
            ClaimBrackets(d, t, bs, P) ==
            ClaimBrackets(ApplyClaim(d, c.value), RemoveFirst(t, bs[0].whole), bs[1..], P))
      && (ClaimsOf(bs, P).Failure? <==> ClaimsOf(bs[1..], P).Failure?)
      && (ClaimsOf(bs, P).Failure? ==> ClaimsOf(bs, P).error == ClaimsOf(bs[1..], P).error)
      && (ClaimsOf(bs, P).Success? ==>
            ClaimsOf(bs, P).value ==
            if c.None? then ClaimsOf(bs[1..], P).value else [(bs[0], c.value)] + ClaimsOf(bs[1..], P).value)
  {
  }

  /** Stage 2 fails exactly when reading some bracket's match fails, with that error. */
  lemma {:induction false} ClaimBracketsFailure(d: Draft, t: string, bs: seq<Bracket>, P: PatternSet)
    ensures ClaimBrackets(d, t, bs, P).Failure? <==> ClaimsOf(bs, P).Failure?
    ensures ClaimBrackets(d, t, bs, P).Failure? ==> ClaimBrackets(d, t, bs, P).error == ClaimsOf(bs, P).error
    decreases |bs|
  {
    if bs != [] {
      var c := Classify(bs[0].content, P, TechOrder);
      if c.Success? {
        ClaimStep(d, t, bs, P);
        if c.value.None? {
          ClaimBracketsFailure(d, t, bs[1..], P);
        } else {
          ClaimBracketsFailure(ApplyClaim(d, c.value.value), RemoveFirst(t, bs[0].whole), bs[1..], P);
        }
      }
    }
  }

  lemma RemarksCons(before: seq<string>, cl: Claim, cs: seq<(Bracket, Claim)>, rest: seq<(Bracket, Claim)>, after: seq<string>)
    requires cs != [] && cs[0].1 == cl && cs[1..] == rest
    requires after == before + (if cl.rule == Source then [cl.value] else []) + SourceValues(rest)
    ensures after == before + SourceValues(cs)
  {
    var v := if cl.rule == Source then [cl.value] else [];
    calc {
      before + SourceValues(cs);
      { assert SourceValues(cs) == v + SourceValues(rest); }
      before + (v + SourceValues(rest));
      before + v + SourceValues(rest);
    }
  }

  /** Prepending a claim to a described state: the step `ApplyClaim` followed by the rest. */
  lemma DescribedCons(d: Draft, t: string, b: Bracket, cl: Claim, rest: seq<(Bracket, Claim)>, d': Draft, t': string)
    requires ClaimedAsDescribed(ApplyClaim(d, cl), RemoveFirst(t, b.whole), rest, d', t')
    ensures ClaimedAsDescribed(d, t, [(b, cl)] + rest, d', t')
  {
    var cs := [(b, cl)] + rest;
    assert cs[0] == (b, cl) && cs[1..] == rest;
    ApplyClaimEffect(d, cl);
    RemarksCons(d.remarks, cl, cs, rest, d'.remarks);
    assert t' == RemoveEach(t, cs);
    TagKeptCons(d, b, cl, rest, d', Resolution);
    TagKeptCons(d, b, cl, rest, d', VideoCodec);
    TagKeptCons(d, b, cl, rest, d', AudioCodec);
    TagKeptCons(d, b, cl, rest, d', Subtitle);
    TagKeptCons(d, b, cl, rest, d', Group);
  }

  /** A successful stage 2 leaves the state the claims describe. */
  lemma {:induction false} ClaimBracketsSpec(d: Draft, t: string, bs: seq<Bracket>, P: PatternSet)
    requires ClaimBrackets(d, t, bs, P).Success?
    ensures ClaimsOf(bs, P).Success?
    ensures ClaimedAsDescribed(d, t, ClaimsOf(bs, P).value, ClaimBrackets(d, t, bs, P).value.0, ClaimBrackets(d, t, bs, P).value.1)
    decreases |bs|
  {
    ClaimBracketsFailure(d, t, bs, P);
    if bs != [] {
      var c := Classify(bs[0].content, P, TechOrder);
      ClaimStep(d, t, bs, P);
      if c.value.None? {
        ClaimBracketsSpec(d, t, bs[1..], P);
      } else {
        var r := ClaimBrackets(d, t, bs, P).value;
        ClaimBracketsSpec(ApplyClaim(d, c.value.value), RemoveFirst(t, bs[0].whole), bs[1..], P);
        DescribedCons(d, t, bs[0], c.value.value, ClaimsOf(bs[1..], P).value, r.0, r.1);
      }
    }
  }

  // ---------------------------------------------------------------------------------------
  // Stage 3.

  /** The season-episode rule is tried first and the episode rule only when it finds nothing;
      a season already set is never replaced, the episode rule never sets one, and nothing
      but the season and the episode changes. */
  lemma EpisodeStageSeason(d: Draft, w: string, P: PatternSet)
    requires EpisodeStage(d, w, P).Success?
    ensures var d' := EpisodeStage(d, w, P).value.0;
      && (d.season.Some? ==> d'.season == d.season)
      && (SearchOrEmpty(P, SeasonEpisode, w).None? ==> d'.season == d.season)
      && (d.episode.Some? ==> EpisodeStage(d, w, P).value == (d, w))
      && d' == d.(season := d'.season, episode := d'.episode)
  {
  }

  /** A season that stage 3 sets is `str(int(group(1)))` of the season-episode match, so it
      reads back as that integer. */
  lemma EpisodeStageSeasonReads(d: Draft, w: string, P: PatternSet)
    requires EpisodeStage(d, w, P).Success? && d.season.None?
    ensures EpisodeStage(d, w, P).value.0.season.Some? ==>
      ParseInt(EpisodeStage(d, w, P).value.0.season.value).Some?
    ensures d.episode.None? && SearchOrEmpty(P, SeasonEpisode, w).Some? ==>
      var n := GroupInt(SearchOrEmpty(P, SeasonEpisode, w).value, 1);
      && n.Success?
      && EpisodeStage(d, w, P).value.0.season == Some(Show(n.value))
      && ParseInt(Show(n.value)) == Some(n.value)
  {
    if d.episode.None? {
      var m := SearchOrEmpty(P, SeasonEpisode, w);
      if m.Some? {
        ShowRoundTrip(GroupInt(m.value, 1).value);
      }
    }
  }

  /** Where stage 3 takes the episode from: group 2 of the season-episode match, otherwise
      group 1 of the episode match; the rendered episode reads back as the captured integer
      and has at least two digits when that integer is not negative. The working text loses
      the first occurrence of the text that matched, and the episode rule leaves the season
      alone. */
  lemma EpisodeStageEpisode(d: Draft, w: string, P: PatternSet)
    requires d.episode.None?
    ensures match SearchOrEmpty(P, SeasonEpisode, w)
      case Some(m) =>
        && (EpisodeStage(d, w, P).Success? <==> (d.season.Some? || GroupInt(m, 1).Success?) && GroupInt(m, 2).Success?)
        && (EpisodeStage(d, w, P).Success? ==> EpisodeRendered(EpisodeStage(d, w, P).value.0.episode, GroupInt(m, 2).value))
        && (EpisodeStage(d, w, P).Success? ==> EpisodeStage(d, w, P).value.1 == RemoveFirst(w, m.whole))
      case None =>
        match SearchOrEmpty(P, Episode, w)
        case Some(m) =>
          && (EpisodeStage(d, w, P).Success? <==> GroupInt(m, 1).Success?)
          && (EpisodeStage(d, w, P).Success? ==> EpisodeRendered(EpisodeStage(d, w, P).value.0.episode, GroupInt(m, 1).value))
          && (EpisodeStage(d, w, P).Success? ==>
                EpisodeStage(d, w, P).value.1 == RemoveFirst(w, m.whole)
                && EpisodeStage(d, w, P).value.0.season == d.season)
        case None => EpisodeStage(d, w, P) == Success((d, w))
  {
    match SearchOrEmpty(P, SeasonEpisode, w)
    case Some(m) =>
      if EpisodeStage(d, w, P).Success? {
        Pad2Spec(GroupInt(m, 2).value);
      }
    case None =>
      match SearchOrEmpty(P, Episode, w)
      case Some(m) =>
        if EpisodeStage(d, w, P).Success? {
          Pad2Spec(GroupInt(m, 1).value);
        }
      case None =>
  }

  /** The episode field holds `n` in the episode format. */
  ghost predicate EpisodeRendered(episode: Option<string>, n: int) {
    && episode == Some(Pad2(n))
    && ParseInt(episode.value) == Some(n)
    && (n >= 0 ==> |episode.value| >= 2 && AllDigits(episode.value))
  }

  // ---------------------------------------------------------------------------------------
  // Stage 4.

  predicate IsAsciiLetter(c: char) {
    'a' <= c <= 'z' || 'A' <= c <= 'Z'
  }

  /** Letters around one inner space: trimmed, no separator run, no bracket opener. */
  lemma LettersAroundSpace(u: string, sp: nat)
    requires 0 < sp < |u| - 1 && u[sp] == ' '
    requires forall k :: 0 <= k < |u| && k != sp ==> IsAsciiLetter(u[k])
    ensures IsTrimmed(u) && NoAdjacent(u, IsSep)
    ensures All(u, c => IsSep(c) ==> c == ' ') && All(u, c => !IsOpener(c))
  {
    assert forall c :: IsAsciiLetter(c) ==> !IsSep(c) && !IsOpener(c);
  }

  lemma UnknownTitleLetters()
    ensures |UnknownTitle| == 13 && UnknownTitle[7] == ' '
    ensures forall k :: 0 <= k < |UnknownTitle| && k != 7 ==> IsAsciiLetter(UnknownTitle[k])
  {
  }

  /** The sentinel itself has the shape of a fallback title. */
  lemma UnknownTitleShape()
    ensures IsTrimmed(UnknownTitle) && NoAdjacent(UnknownTitle, IsSep)
    ensures All(UnknownTitle, c => IsSep(c) ==> c == ' ') && FindBrackets(UnknownTitle) == []
  {
    UnknownTitleLetters();
    LettersAroundSpace(UnknownTitle, 7);
    NoOpenerNoBrackets(UnknownTitle);
  }

  /** The fallback title is never empty, has no whitespace at either end, no run of
      separators, and no separator other than a plain space. */
  lemma FallbackTitleSpec(work: string)
    ensures FallbackTitle(work) != ""
    ensures IsTrimmed(FallbackTitle(work))
    ensures NoAdjacent(FallbackTitle(work), IsSep)
    ensures All(FallbackTitle(work), c => IsSep(c) ==> c == ' ')
  {
    var c := CollapseSeps(Strip(RemoveBrackets(work)));
    if Strip(c) == [] {
      UnknownTitleShape();
    } else {
      StripNoAdjacent(c, IsSep);
      CollapseSepsAll(Strip(RemoveBrackets(work)), x => true);
      StripAll(c, x => IsSep(x) ==> x == ' ');
    }
  }

  /** The fallback title keeps every non-separator character of the text with its brackets
      cut out, in order; when there is none, it is the sentinel. */
  lemma FallbackTitleKeeps(work: string)
    ensures Filter(RemoveBrackets(work), NotSep) != [] ==>
      Filter(FallbackTitle(work), NotSep) == Filter(RemoveBrackets(work), NotSep)
    ensures Filter(RemoveBrackets(work), NotSep) == [] ==> FallbackTitle(work) == UnknownTitle
  {
    var a := RemoveBrackets(work);
    var b := Strip(a);
    var c := CollapseSeps(b);
    var t := Strip(c);
    StripFilter(a, NotSep);
    CollapseSepsKeeps(b);
    StripFilter(c, NotSep);
    if t != [] {
      CollapseSepsAll(b, x => true);
      StripAll(c, x => IsSep(x) ==> x == ' ');
      TrimmedKeepsFirst(t);
    }
  }

  /** A trimmed non-empty text whose only separator is the space starts with a kept
      character. */
  lemma TrimmedKeepsFirst(t: string)
    requires t != [] && IsTrimmed(t) && All(t, x => IsSep(x) ==> x == ' ')
    ensures Filter(t, NotSep) != []
  {
    assert NotSep(t[0]);
    FilterCons(t[0], t[1..], NotSep);
    assert [t[0]] + t[1..] == t;
  }

  /** When the residue has no newline, no bracket is left in the fallback title. */
  lemma FallbackTitleBracketFree(work: string)
    requires '\n' !in work
    ensures FindBrackets(FallbackTitle(work)) == []
  {
    var a := RemoveBrackets(work);
    var b := Strip(a);
    var c := CollapseSeps(b);
    if Strip(c) == [] {
      UnknownTitleShape();
    } else {
      var noNl := x => x != '\n';
      RemoveBracketsAll(work, noNl);
      StripAll(a, noNl);
      RemoveBracketsLeavesNone(work);
      BracketFreeStrip(a);
      assert '\n' !in b by {
        assert All(b, noNl);
      }
      CollapseSepsBracketFree(b);
      BracketFreeStrip(c);
    }
  }

  // ---------------------------------------------------------------------------------------
  // The whole decomposition.

  /** Stage 1 cuts the title-and-season bracket out of the working text exactly once, at the
      place where the search found it: the text before the `[` and after the `]` is kept. */
  lemma TitleSeasonStageSpec(stem: string)
    ensures SearchTitleSeason(stem).None? ==> TitleSeasonStage(stem) == (EmptyDraft, stem)
    ensures SearchTitleSeason(stem).Some? ==>
      var (i, ts) := SearchTitleSeason(stem).value;
      && TitleSeasonStage(stem).0 == EmptyDraft.(title := Some(Strip(ts.title)), season := Some(ts.season))
      && i + |ts.whole| <= |stem|
      && TitleSeasonStage(stem).1 == stem[..i] + stem[i + |ts.whole|..]
      && |TitleSeasonStage(stem).1| == |stem| - |ts.whole|
  {
    if SearchTitleSeason(stem).Some? {
      var (i, ts) := SearchTitleSeason(stem).value;
      DigitsParse(ts.season);
      TitleSeasonStageCut(stem);
    }
  }

  lemma TitleSeasonStageCut(stem: string)
    requires SearchTitleSeason(stem).Some?
    ensures var (i, ts) := SearchTitleSeason(stem).value;
      && i + |ts.whole| <= |stem|
      && TitleSeasonStage(stem).1 == stem[..i] + stem[i + |ts.whole|..]
  {
    SearchTitleSeasonFirstOccurrence(stem);
  }

  /** Stage 1 sets nothing but the title and the season. */
  lemma TitleSeasonStageBlank(stem: string)
    ensures var d := TitleSeasonStage(stem).0;
      d == EmptyDraft.(title := d.title, season := d.season)
  {
  }

  /** The stage-2 state of a decomposition, as the claims describe it. */
  lemma StageTwo(stem: string, P: PatternSet)
    requires Decompose(stem, P).Success?
    ensures var s1 := TitleSeasonStage(stem);
      && ClaimsOf(FindBrackets(s1.1), P).Success?
      && ClaimBrackets(s1.0, s1.1, FindBrackets(s1.1), P).Success?
      && ClaimedAsDescribed(s1.0, s1.1, ClaimsOf(FindBrackets(s1.1), P).value,
                            ClaimBrackets(s1.0, s1.1, FindBrackets(s1.1), P).value.0,
                            ClaimBrackets(s1.0, s1.1, FindBrackets(s1.1), P).value.1)
  {
    var s1 := TitleSeasonStage(stem);
    ClaimBracketsSpec(s1.0, s1.1, FindBrackets(s1.1), P);
  }

  /** The title and season after stage 3: stage 3 never touches the title, and it keeps a
      season that is already set. */
  lemma AfterStageThree(stem: string, P: PatternSet)
    requires Decompose(stem, P).Success?
    ensures var s1 := TitleSeasonStage(stem);
      var s2 := ClaimBrackets(s1.0, s1.1, FindBrackets(s1.1), P).value;
      var s3 := EpisodeStage(s2.0, s2.1, P).value;
      var info := Decompose(stem, P).value;
      && s3.0.title == s1.0.title
      && (s1.0.season.Some? ==> s3.0.season == s1.0.season)
      && info.title == (if s1.0.title.Some? then s1.0.title.value else FallbackTitle(s3.1))
      && info.season == s3.0.season.GetOr("1")
      && info.bangumiEps.None?
  {
    StageTwo(stem, P);
    var s1 := TitleSeasonStage(stem);
    var s2 := ClaimBrackets(s1.0, s1.1, FindBrackets(s1.1), P).value;
    EpisodeStageSeason(s2.0, s2.1, P);
  }

  /** When any `[<title> Season <n>]` bracket matches, the leftmost match (with the shortest
      title) decides the title and the season: stage 3 does not replace the season and
      stage 4 does not replace the title. */
  lemma SeasonBracketWins(stem: string, P: PatternSet, i: nat, k: nat)
    requires MatchAt(stem, i, k) && Decompose(stem, P).Success?
    ensures SearchTitleSeason(stem).Some?
    ensures var (j, ts) := SearchTitleSeason(stem).value;
      && j <= i && LeastMatch(stem, 0, j, |ts.title|)
      && Decompose(stem, P).value.title == Strip(stem[j + 1..j + 1 + |ts.title|])
      && Decompose(stem, P).value.season == ts.season
  {
    SearchTitleSeasonSpec(stem);
    TitleSeasonStageSpec(stem);
    AfterStageThree(stem, P);
  }

  /** Without a season bracket the title is a well-formed fallback title; so the title is
      empty only when a season bracket had a blank title. */
  lemma DecomposeTitle(stem: string, P: PatternSet)
    requires Decompose(stem, P).Success?
    ensures Decompose(stem, P).value.title == "" ==> SearchTitleSeason(stem).Some?
    ensures SearchTitleSeason(stem).None? ==>
      var t := Decompose(stem, P).value.title;
      t != "" && IsTrimmed(t) && NoAdjacent(t, IsSep) && All(t, c => IsSep(c) ==> c == ' ')
  {
    AfterStageThree(stem, P);
    var s1 := TitleSeasonStage(stem);
    var s2 := ClaimBrackets(s1.0, s1.1, FindBrackets(s1.1), P).value;
    var s3 := EpisodeStage(s2.0, s2.1, P).value;
    FallbackTitleSpec(s3.1);
  }

  /** The season always reads as an integer: it is the digits of the season bracket, the
      rendering of an integer read by the season-episode rule, or the default "1"; and no
      `bangumi_eps` is set yet. */
  lemma DecomposeSeason(stem: string, P: PatternSet)
    requires Decompose(stem, P).Success?
    ensures ParseInt(Decompose(stem, P).value.season).Some?
    ensures Decompose(stem, P).value.bangumiEps.None?
  {
    AfterStageThree(stem, P);
    StageThreeSeasonReads(stem, P);
    ShowRoundTrip(1);
  }

  lemma StageThreeSeasonReads(stem: string, P: PatternSet)
    requires Decompose(stem, P).Success?
    ensures var s1 := TitleSeasonStage(stem);
      var s2 := ClaimBrackets(s1.0, s1.1, FindBrackets(s1.1), P).value;
      var s3 := EpisodeStage(s2.0, s2.1, P).value;
      s3.0.season.Some? ==> ParseInt(s3.0.season.value).Some?
  {
    AfterStageThree(stem, P);
    StageTwo(stem, P);
    var s1 := TitleSeasonStage(stem);
    var s2 := ClaimBrackets(s1.0, s1.1, FindBrackets(s1.1), P).value;
    if s1.0.season.Some? {
      TitleSeasonStageSpec(stem);
      DigitsParse(SearchTitleSeason(stem).value.1.season);
    } else {
      EpisodeStageSeasonReads(s2.0, s2.1, P);
    }
  }

  /** The claims the brackets left after stage 1 make, in a decomposition that succeeds. */
  ghost function StemClaims(stem: string, P: PatternSet): seq<(Bracket, Claim)>
    requires Decompose(stem, P).Success?
  {
    StageTwo(stem, P);
    ClaimsOf(FindBrackets(TitleSeasonStage(stem).1), P).value
  }

  /** The tag fields and remarks of the result are those stage 2 left. */
  lemma TagsAfterStageTwo(stem: string, P: PatternSet)
    requires Decompose(stem, P).Success?
    ensures var s1 := TitleSeasonStage(stem);
      var d := ClaimBrackets(s1.0, s1.1, FindBrackets(s1.1), P).value.0;
      var info := Decompose(stem, P).value;
      && info.remarks == (if Join(d.remarks) == "" then None else Some(Join(d.remarks)))
      && info.resolution == d.resolution && info.videoCodec == d.videoCodec
      && info.audioCodec == d.audioCodec && info.subtitle == d.subtitle && info.group == d.group
  {
    var s1 := TitleSeasonStage(stem);
    var s2 := ClaimBrackets(s1.0, s1.1, FindBrackets(s1.1), P).value;
    EpisodeStageSeason(s2.0, s2.1, P);
  }

  /** The remarks are the source tags in bracket order joined with ", ", absent exactly when
      there are none (or a single empty one). */
  lemma DecomposeRemarks(stem: string, P: PatternSet)
    requires Decompose(stem, P).Success?
    ensures var srcs := SourceValues(StemClaims(stem, P));
      && (Decompose(stem, P).value.remarks.None? <==> srcs == [] || srcs == [""])
      && (Decompose(stem, P).value.remarks.Some? ==> Decompose(stem, P).value.remarks.value == Join(srcs))
  {
    TitleSeasonStageBlank(stem);
    StageTwo(stem, P);
    TagsAfterStageTwo(stem, P);
    var s1 := TitleSeasonStage(stem);
    var d := ClaimBrackets(s1.0, s1.1, FindBrackets(s1.1), P).value.0;
    var srcs := SourceValues(StemClaims(stem, P));
    assert s1.0.remarks == [];
    assert d.remarks == srcs by {
      assert d.remarks == [] + srcs;
    }
    JoinEmpty(srcs);
  }

  /** Every single-valued tag is the value of the first bracket its category claimed. */
  lemma DecomposeTags(stem: string, P: PatternSet)
    requires Decompose(stem, P).Success?
    ensures var cs := StemClaims(stem, P);
      var info := Decompose(stem, P).value;
      && info.resolution == FirstValue(cs, Resolution)
      && info.videoCodec == FirstValue(cs, VideoCodec)
      && info.audioCodec == FirstValue(cs, AudioCodec)
      && info.subtitle == FirstValue(cs, Subtitle)
      && info.group == FirstValue(cs, Group)
  {
    TitleSeasonStageBlank(stem);
    StageTwo(stem, P);
    TagsAfterStageTwo(stem, P);
    var s1 := TitleSeasonStage(stem);
    var d := ClaimBrackets(s1.0, s1.1, FindBrackets(s1.1), P).value.0;
    var cs := StemClaims(stem, P);
    assert TagField(d, Resolution) == FirstValue(cs, Resolution);
    assert TagField(d, VideoCodec) == FirstValue(cs, VideoCodec);
    assert TagField(d, AudioCodec) == FirstValue(cs, AudioCodec);
    assert TagField(d, Subtitle) == FirstValue(cs, Subtitle);
    assert TagField(d, Group) == FirstValue(cs, Group);
  }

  /** Without a `season_episode` rule the code searches with the empty pattern, which always
      matches and has no groups, so reading its group raises: no stem decomposes. */
  lemma MissingSeasonEpisodeRuleFails(stem: string, P: PatternSet)
    requires SeasonEpisode !in P
    ensures Decompose(stem, P).Failure?
  {
    var s1 := TitleSeasonStage(stem);
    var r := ClaimBrackets(s1.0, s1.1, FindBrackets(s1.1), P);
    if r.Success? {
      ClaimBracketsSpec(s1.0, s1.1, FindBrackets(s1.1), P);
      assert r.value.0.episode.None?;
    }
  }
}
