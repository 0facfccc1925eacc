/** The user-supplied rule set. Each rule is an abstract search function: given the text it
    is run on (with `re.IGNORECASE`), it returns the leftmost match, if any, as the text of
    group 0 and the values of the numbered groups (`None` for a group that did not take part).
    The regex engine itself is not modelled. */
module Patterns {
  import opened Wrappers
  import opened Text
  import opened Numbers

  /** The rule names of the pattern file. */
  datatype RuleName =
    | SeasonEpisode | Episode
    | Resolution | Source | VideoCodec | AudioCodec | Subtitle | Group

  datatype RegexMatch = RegexMatch(whole: string, groups: seq<Option<string>>)

  type Matcher = string -> Option<RegexMatch>

  /** A rule that is absent or whose pattern is the empty string is simply not in the map. */
  type PatternSet = map<RuleName, Matcher>

  /** The exceptions the decomposer can raise while reading a match. */
  datatype ParseError =
    | NoSuchGroup(index: nat)     // IndexError: the pattern has fewer groups
    | GroupNotText(index: nat)    // TypeError: int(None) on a group that did not take part
    | NotAnInteger(text: string)  // ValueError: int() of a non-numeric group

  /** What `re.search('', text)` returns: an empty match at position 0 with no groups. */
  const EmptyPatternMatch := RegexMatch("", [])

  /** `re.search(patterns.get(name, ''), text)`: an absent rule searches with the empty
      pattern, which always matches. */
  function SearchOrEmpty(P: PatternSet, name: RuleName, text: string): (r: Option<RegexMatch>)
    ensures name !in P ==> r == Some(EmptyPatternMatch)
  {
    if name in P then P[name](text) else Some(EmptyPatternMatch)
  }

  /** `m.group(k)` for `k >= 1`. */
  function GroupOf(m: RegexMatch, k: nat): (r: Result<Option<string>, ParseError>)
    requires k >= 1
    ensures r.Failure? <==> |m.groups| < k
  {
    if k <= |m.groups| then Success(m.groups[k - 1]) else Failure(NoSuchGroup(k))
  }

  /** `int(m.group(k))`. */
  function GroupInt(m: RegexMatch, k: nat): (r: Result<int, ParseError>)
    requires k >= 1
  {
    var g :- GroupOf(m, k);
    if g.None? then Failure(GroupNotText(k))
    else match ParseInt(g.value)
      case None => Failure(NotAnInteger(g.value))
      case Some(n) => Success(n)
  }

  /** `(m.group(1) or m.group(0)).strip()`: the first group unless it is empty or did not
      take part, in which case the whole match. */
  function TagValue(m: RegexMatch): Result<string, ParseError> {
    var g :- GroupOf(m, 1);
    Success(Strip(if g.None? || g.value == "" then m.whole else g.value))
  }

  /** The tag value fails exactly when the rule has no group 1. Otherwise it is a trimmed
      text that keeps, in order, every non-whitespace character of group 1 when that group
      took part and is not empty, and of the whole match when it is not. */
  lemma TagValueSpec(m: RegexMatch)
    ensures TagValue(m).Failure? <==> |m.groups| < 1
    ensures TagValue(m).Success? ==>
      var g := m.groups[0];
      var source := if g.Some? && g.value != "" then g.value else m.whole;
      && IsTrimmed(TagValue(m).value)
      && Filter(TagValue(m).value, NotSpace) == Filter(source, NotSpace)
  {
    if |m.groups| >= 1 {
      var g := m.groups[0];
      StripFilter(if g.Some? && g.value != "" then g.value else m.whole, NotSpace);
    }
  }

  /** A group that reads as an integer is accepted by `GroupInt`, and the two error paths are
      exactly a missing group and a group that did not take part. */
  lemma GroupIntSpec(m: RegexMatch, k: nat)
    requires k >= 1
    ensures GroupInt(m, k) == Failure(NoSuchGroup(k)) <==> |m.groups| < k
    ensures GroupInt(m, k) == Failure(GroupNotText(k)) <==> k <= |m.groups| && m.groups[k - 1].None?
    ensures GroupInt(m, k).Success? <==>
      k <= |m.groups| && m.groups[k - 1].Some? && ParseInt(m.groups[k - 1].value).Some?
    ensures GroupInt(m, k).Success? ==> Some(GroupInt(m, k).value) == ParseInt(m.groups[k - 1].value)
  {
  }
}
