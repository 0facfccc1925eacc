/** The reconciliation of a decomposed name with the catalogue record (main.py:216-236): the
    lookup query (main.py:146), the Chinese season numerals (main.py:46), the season
    correction from a `第X季` marker in the catalogue title, and the cleaned catalogue title. */
module Reconcile {
  import opened Wrappers
  import opened Text
  import opened Numbers
  import opened Decomposition

  /** The catalogue record the reconciliation reads: `name_cn` and `total_episodes` when the
      record has those keys, and how many other keys it has (they only matter for whether the
      dict is empty). */
  datatype Record = Record(nameCn: Option<string>, totalEpisodes: Option<int>, otherKeys: nat)

  /** A dict is truthy when it has at least one key. */
  predicate Truthy(r: Record) {
    r.nameCn.Some? || r.totalEpisodes.Some? || r.otherKeys > 0
  }

  // ---------------------------------------------------------------------------------------
  // The lookup query.

  /** `f"{title} Season {season}" if season and season != '1' else title`. */
  function Query(title: string, season: Option<string>): string {
    if season.Some? && season.value != "" && season.value != "1" then title + " Season " + season.value
    else title
  }

  /** The bare title is the query exactly for an absent, empty or first season; otherwise the
      query is the title followed by ` Season ` and the season. */
  lemma QuerySpec(title: string, season: Option<string>)
    ensures Query(title, season) == title <==> season.None? || season.value == "" || season.value == "1"
    ensures Query(title, season) != title ==>
      Query(title, season)[..|title|] == title && Query(title, season)[|title|..] == " Season " + season.value
  {
    if season.Some? && season.value != "" && season.value != "1" {
      assert |Query(title, season)| > |title|;
    }
  }

  // ---------------------------------------------------------------------------------------
  // Chinese season numerals.

  /** The keys of `cn_num_map`, in order of their values. */
  const CnNumerals: string := "一二三四五六七八九十"

  predicate IsCnNumeral(c: char) {
    || c == '一' || c == '二' || c == '三' || c == '四' || c == '五'
    || c == '六' || c == '七' || c == '八' || c == '九' || c == '十'
  }

  /** `cn_num_map[c]`. */
  function CnValue(c: char): (n: nat)
    requires IsCnNumeral(c)
    ensures 1 <= n <= 10 && CnNumerals[n - 1] == c
  {
    if c == '一' then 1 else if c == '二' then 2 else if c == '三' then 3
    else if c == '四' then 4 else if c == '五' then 5 else if c == '六' then 6
    else if c == '七' then 7 else if c == '八' then 8 else if c == '九' then 9
    else 10
  }

  /** The map sends the numerals one to ten, in order, to 1 through 10. */
  lemma CnValueInverse(n: nat)
    requires 1 <= n <= 10
    ensures IsCnNumeral(CnNumerals[n - 1]) && CnValue(CnNumerals[n - 1]) == n
  {
  }

  // ---------------------------------------------------------------------------------------
  // The season marker `第X季`.

  predicate MarkerAt(s: string, i: nat) {
    i + 3 <= |s| && s[i] == '第' && IsCnNumeral(s[i + 1]) && s[i + 2] == '季'
  }

  /** `re.search(r'第([一二三四五六七八九十])季', s)`, scanning from `from`: the start of the
      leftmost marker. */
  function FindMarker(s: string, from: nat): (r: Option<nat>)
    ensures r.Some? ==> from <= r.value && MarkerAt(s, r.value)
    ensures forall i :: from <= i && (r.None? || i < r.value) ==> !MarkerAt(s, i)
    decreases |s| - from
  {
    if from + 3 > |s| then None
    else if MarkerAt(s, from) then Some(from)
    else FindMarker(s, from + 1)
  }

  /** The season the marker gives, when the parsed season is the default `'1'`; any other
      season is kept. */
  function CorrectedSeason(season: string, apiTitle: string): string {
    if season == "1" then
      match FindMarker(apiTitle, 0)
      case Some(i) => Show(CnValue(apiTitle[i + 1]))
      case None => season
    else season
  }

  /** The season changes only from `'1'`, only when the catalogue title has a marker, and then
      to `str` of the value of the leftmost marker's numeral, between 1 and 10: plain digits
      without a leading zero. */
  lemma CorrectedSeasonSpec(season: string, apiTitle: string)
    ensures season != "1" ==> CorrectedSeason(season, apiTitle) == season
    ensures (forall i :: !MarkerAt(apiTitle, i)) ==> CorrectedSeason(season, apiTitle) == season
    ensures season == "1" && FindMarker(apiTitle, 0).Some? ==>
      var i := FindMarker(apiTitle, 0).value;
      && (forall j: nat :: j < i ==> !MarkerAt(apiTitle, j))
      && CorrectedSeason(season, apiTitle) == Show(CnValue(apiTitle[i + 1]))
      && AllDigits(CorrectedSeason(season, apiTitle)) && CorrectedSeason(season, apiTitle)[0] != '0'
      && ParseInt(CorrectedSeason(season, apiTitle)) == Some(CnValue(apiTitle[i + 1]) as int)
      && 1 <= CnValue(apiTitle[i + 1]) <= 10
  {
    if season == "1" && FindMarker(apiTitle, 0).Some? {
      var i := FindMarker(apiTitle, 0).value;
      ShowRoundTrip(CnValue(apiTitle[i + 1]));
    }
  }

  /** `re.sub(r'\s*第[一二三四五六七八九十]季', '', s)`: scanning left to right, a marker together
      with the whitespace run just before it is cut out; the scan resumes after the cut and
      does not look at the text again. */
  function StripSeasonMarkers(s: string): (r: string)
    ensures |r| <= |s|
    decreases |s|
  {
    if s == [] then []
    else
      var n := SpacesBefore(s);
      if MarkerAt(s, n) then StripSeasonMarkers(s[n + 3..])
      else [s[0]] + StripSeasonMarkers(s[1..])
  }

  /** A text without a marker is left as it is. */
  lemma {:induction false} StripSeasonMarkersNone(s: string)
    requires forall i :: !MarkerAt(s, i)
    ensures StripSeasonMarkers(s) == s
    decreases |s|
  {
    if s != [] {
      assert forall i: nat :: MarkerAt(s[1..], i) ==> MarkerAt(s, i + 1);
      StripSeasonMarkersNone(s[1..]);
    }
  }

  /** A text with a marker always loses something. */
  lemma {:induction false} StripSeasonMarkersShrinks(s: string, j: nat)
    requires MarkerAt(s, j)
    ensures |StripSeasonMarkers(s)| < |s|
    decreases |s|
  {
    var n := SpacesBefore(s);
    if !MarkerAt(s, n) {
      assert !IsSpace('第');
      assert j > 0;
      assert MarkerAt(s[1..], j - 1);
      StripSeasonMarkersShrinks(s[1..], j - 1);
    }
  }

  /** So the substitution is the identity exactly when the marker search finds nothing. */
  lemma StripSeasonMarkersIdentity(s: string)
    ensures StripSeasonMarkers(s) == s <==> FindMarker(s, 0).None?
  {
    if FindMarker(s, 0).None? {
      StripSeasonMarkersNone(s);
    } else {
      StripSeasonMarkersShrinks(s, FindMarker(s, 0).value);
    }
  }

  lemma StripSeasonMarkersKeep(s: string)
    requires s != [] && !IsSpace(s[0]) && !MarkerAt(s, 0)
    ensures StripSeasonMarkers(s) == [s[0]] + StripSeasonMarkers(s[1..])
  {
  }

  lemma StripSeasonMarkersCut(s: string)
    requires MarkerAt(s, 0)
    ensures StripSeasonMarkers(s) == StripSeasonMarkers(s[3..])
  {
    assert !IsSpace(s[0]);
  }

  /** The substitution is a single pass: cutting a marker can join the text around it into a
      new marker, which stays. */
  lemma StripSeasonMarkersSinglePass()
    ensures StripSeasonMarkers("第第一季二季") == "第二季"
    ensures MarkerAt("第二季", 0)
  {
    assert !IsSpace('第') && !IsSpace('二') && !IsSpace('季');
    var tail := StripSeasonMarkers("季");
    StripSeasonMarkersKeep("季");
    assert tail == "季" by {
      assert StripSeasonMarkers("季"[1..]) == [];
    }
    StripSeasonMarkersKeep("二季");
    assert "二季"[1..] == "季";
    var s := "第第一季二季";
    StripSeasonMarkersCut(s[1..]);
    assert s[1..][3..] == "二季";
    StripSeasonMarkersKeep(s);
  }

  /** Where the whitespace run that ends at index `m` starts. */
  function RunStart(s: string, m: nat): (p: nat)
    requires m <= |s|
    ensures p <= m && (p == 0 || !IsSpace(s[p - 1]))
    ensures forall k :: p <= k < m ==> IsSpace(s[k])
    decreases m
  {
    if m > 0 && IsSpace(s[m - 1]) then RunStart(s, m - 1) else m
  }

  /** The leftmost marker is cut out together with the whole whitespace run before it, and
      the text before that run is kept as it is; the rest is scanned on from after the
      marker. */
  lemma StripSeasonMarkersLeftmost(s: string)
    requires FindMarker(s, 0).Some?
    ensures var m := FindMarker(s, 0).value; var p := RunStart(s, m);
      StripSeasonMarkers(s) == s[..p] + StripSeasonMarkers(s[m + 3..])
  {
    var m := FindMarker(s, 0).value;
    StripSeasonMarkersCutAt(s, RunStart(s, m), m);
  }

  /** The cut of a marker at `m`, with no marker before it, whose whitespace run starts at
      `p`. */
  lemma {:induction false} StripSeasonMarkersCutAt(s: string, p: nat, m: nat)
    requires p <= m && MarkerAt(s, m) && (p == 0 || !IsSpace(s[p - 1]))
    requires forall k :: p <= k < m ==> IsSpace(s[k])
    requires forall i: nat :: i < m ==> !MarkerAt(s, i)
    ensures StripSeasonMarkers(s) == s[..p] + StripSeasonMarkers(s[m + 3..])
    decreases p
  {
    if p == 0 {
      StripSeasonMarkersCutFirst(s, m);
    } else {
      StripSeasonMarkersKeepAt(s, SpacesBefore(s));
      CutAtShift(s, p, m);
      StripSeasonMarkersCutAt(s[1..], p - 1, m - 1);
      KeepThenCut(StripSeasonMarkers(s), s[0], StripSeasonMarkers(s[1..]), s[1..][..p - 1],
        StripSeasonMarkers(s[m + 3..]), s[..p]);
    }
  }

  lemma KeepThenCut(x: string, c: char, y: string, u: string, z: string, v: string)
    requires x == [c] + y && y == u + z && [c] + u == v
    ensures x == v + z
  {
    ConcatAssoc([c], u, z);
  }

  /** A marker after a leading whitespace run is cut out together with the run. */
  lemma StripSeasonMarkersCutFirst(s: string, m: nat)
    requires MarkerAt(s, m) && forall k :: 0 <= k < m ==> IsSpace(s[k])
    ensures StripSeasonMarkers(s) == s[..0] + StripSeasonMarkers(s[m + 3..])
  {
    SpacesBeforeIs(s, m);
    assert s[..0] == [];
  }

  /** Where the leading whitespace run does not end in a marker, the first character stays. */
  lemma StripSeasonMarkersKeepAt(s: string, n: nat)
    requires s != [] && n == SpacesBefore(s) && !MarkerAt(s, n)
    ensures StripSeasonMarkers(s) == [s[0]] + StripSeasonMarkers(s[1..])
  {
  }

  /** The facts about a cut at `m` carry over to the text after the first character. */
  lemma CutAtShift(s: string, p: nat, m: nat)
    requires 0 < p <= m && MarkerAt(s, m) && !IsSpace(s[p - 1])
    requires forall k :: p <= k < m ==> IsSpace(s[k])
    requires forall i: nat :: i < m ==> !MarkerAt(s, i)
    ensures var t := s[1..];
      && MarkerAt(t, m - 1) && (p - 1 == 0 || !IsSpace(t[p - 2]))
      && (forall k :: p - 1 <= k < m - 1 ==> IsSpace(t[k]))
      && (forall i: nat :: i < m - 1 ==> !MarkerAt(t, i))
      && t[m + 2..] == s[m + 3..] && [s[0]] + t[..p - 1] == s[..p]
  {
    var t := s[1..];
    forall i: nat | i < m - 1 ensures !MarkerAt(t, i) {
      assert !MarkerAt(s, i + 1);
    }
  }

  /** A character the substitution never removes: not whitespace and not part of a marker. */
  predicate OrdinaryChar(c: char) {
    !IsSpace(c) && c != '第' && c != '季' && !IsCnNumeral(c)
  }

  /** The substitution removes only whitespace and marker characters: every other character
      is kept, in order. */
  lemma {:induction false} StripSeasonMarkersKeepsText(s: string)
    ensures Filter(StripSeasonMarkers(s), OrdinaryChar) == Filter(s, OrdinaryChar)
    decreases |s|
  {
    if s != [] {
      var n := SpacesBefore(s);
      if MarkerAt(s, n) {
        StripSeasonMarkersKeepsText(s[n + 3..]);
        MarkerRunNotOrdinary(s, n);
        FilterOutside(s, n + 3, |s|, OrdinaryChar);
        assert s[n + 3..|s|] == s[n + 3..];
      } else {
        StripSeasonMarkersKeepsText(s[1..]);
        FilterCons(s[0], StripSeasonMarkers(s[1..]), OrdinaryChar);
        FilterCons(s[0], s[1..], OrdinaryChar);
        assert [s[0]] + s[1..] == s;
      }
    }
  }

  /** A whitespace run and the marker after it hold no ordinary character. */
  lemma MarkerRunNotOrdinary(s: string, n: nat)
    requires n == SpacesBefore(s) && MarkerAt(s, n)
    ensures forall k :: 0 <= k < n + 3 ==> !OrdinaryChar(s[k])
  {
  }

  /** The cleaned catalogue title: markers cut out, then stripped. */
  function NormalizedTitle(apiTitle: string): string {
    Strip(StripSeasonMarkers(apiTitle))
  }

  /** The cleaned title has no whitespace at either end, and is the stripped catalogue title
      itself when that has no marker. */
  lemma NormalizedTitleSpec(apiTitle: string)
    ensures IsTrimmed(NormalizedTitle(apiTitle))
    ensures |NormalizedTitle(apiTitle)| <= |apiTitle|
    ensures FindMarker(apiTitle, 0).None? ==> NormalizedTitle(apiTitle) == Strip(apiTitle)
    ensures Filter(NormalizedTitle(apiTitle), OrdinaryChar) == Filter(apiTitle, OrdinaryChar)
    ensures FindMarker(apiTitle, 0).Some? ==>
      var m := FindMarker(apiTitle, 0).value;
      NormalizedTitle(apiTitle)
        == Strip(apiTitle[..RunStart(apiTitle, m)] + StripSeasonMarkers(apiTitle[m + 3..]))
  {
    if FindMarker(apiTitle, 0).Some? {
      StripSeasonMarkersLeftmost(apiTitle);
    }
    StripSeasonMarkersIdentity(apiTitle);
    StripSeasonMarkersKeepsText(apiTitle);
    StripFilter(StripSeasonMarkers(apiTitle), OrdinaryChar);
  }

  /** A default season with the catalogue title `某番 第二季` becomes season 2, and the title
      loses the marker and the space before it. */
  lemma SecondSeasonExample()
    ensures CorrectedSeason("1", "某番 第二季") == "2"
    ensures NormalizedTitle("某番 第二季") == "某番"
  {
    var s := "某番 第二季";
    assert !MarkerAt(s, 0) && !MarkerAt(s, 1) && !MarkerAt(s, 2) && MarkerAt(s, 3);
    assert FindMarker(s, 0) == Some(3);
    assert SpacesBefore(s[1..]) == 0;
    assert SpacesBefore(s[2..]) == 1 && MarkerAt(s[2..], 1);
    assert StripSeasonMarkers(s[2..]) == [] by {
      assert s[2..][4..] == [];
    }
    StripSeasonMarkersKeep(s[1..]);
    assert s[1..][1..] == s[2..];
    StripSeasonMarkersKeep(s);
    assert StripSeasonMarkers(s) == "某番";
    NoSpaceEnds("某番");
  }

  // ---------------------------------------------------------------------------------------
  // The reconciliation itself.

  /** The decomposition is looked up only when its title is neither empty nor the sentinel. */
  predicate Eligible(info: MediaInfo) {
    info.title != "" && info.title != UnknownTitle
  }

  /** The record's `total_episodes`, or `'??'`: the hint is the record's episode count
      exactly when it has one, and `'??'` exactly when it has none. */
  function EpisodeHintOf(rec: Record): (h: EpisodeHint)
    ensures forall n :: h == Total(n) <==> rec.totalEpisodes == Some(n)
    ensures h == UnknownCount <==> rec.totalEpisodes.None?
  {
    if rec.totalEpisodes.Some? then Total(rec.totalEpisodes.value) else UnknownCount
  }

  /** With a non-empty record, the season is corrected, the title replaced by the cleaned
      catalogue title (`name_cn`, or the parsed title when the record has none), and
      `bangumi_eps` set; otherwise nothing changes. */
  function Resolve(info: MediaInfo, details: Option<Record>): MediaInfo {
    if details.Some? && Truthy(details.value) then
      var apiTitle := details.value.nameCn.GetOr(info.title);
      info.(season := CorrectedSeason(info.season, apiTitle), title := NormalizedTitle(apiTitle),
            bangumiEps := Some(EpisodeHintOf(details.value)))
    else info
  }

  /** What the reconciliation changes: only the title, the season and `bangumi_eps`, and only
      for a non-empty record; the new title is clean and the season is corrected as above. */
  lemma ResolveSpec(info: MediaInfo, details: Option<Record>)
    ensures var r := Resolve(info, details);
      && r == info.(title := r.title, season := r.season, bangumiEps := r.bangumiEps)
      && (r.bangumiEps != info.bangumiEps || r.title != info.title || r.season != info.season ==>
            details.Some? && Truthy(details.value))
      && (details.Some? && Truthy(details.value) ==>
            && r.bangumiEps == Some(EpisodeHintOf(details.value))
            && (r.bangumiEps.value == UnknownCount <==> details.value.totalEpisodes.None?)
            && r.title == NormalizedTitle(details.value.nameCn.GetOr(info.title))
            && IsTrimmed(r.title)
            && r.season == CorrectedSeason(info.season, details.value.nameCn.GetOr(info.title)))
  {
    if details.Some? && Truthy(details.value) {
      NormalizedTitleSpec(details.value.nameCn.GetOr(info.title));
    }
  }
}
