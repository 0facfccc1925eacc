/** The regular expressions written into `parse_filename` itself, modelled concretely:
    the bracket finder `[\[【](.*?)[\]】]` (main.py:95 and, without the group, main.py:130),
    the title-and-season bracket `\[([^\]]*?)\s*[Ss]eason\s*(\d+)\]` (main.py:84) and the
    separator collapse `[\s._-]+` (main.py:131). */
module FixedPatterns {
  import opened Wrappers
  import opened Text
  import opened Numbers

  predicate IsOpener(c: char) {
    c == '[' || c == '【'
  }

  predicate IsCloser(c: char) {
    c == ']' || c == '】'
  }

  /** Index `m` of `s` may sit inside a bracket body: it is neither a closer nor a newline. */
  predicate BodyCharAt(s: string, m: int) {
    0 <= m < |s| && !IsCloser(s[m]) && s[m] != '\n'
  }

  /** Index `m` of `s` holds a closer. */
  predicate CloserAt(s: string, m: int) {
    0 <= m < |s| && IsCloser(s[m])
  }

  /** Where the bracket whose body starts at `s[0]` closes: the first closer, provided no
      newline comes before it (`.` does not match a newline). */
  function CloserIndex(s: string): (r: Option<nat>)
    ensures r.Some? ==> r.value < |s| && IsCloser(s[r.value])
    ensures r.Some? ==> forall k :: 0 <= k < r.value ==> BodyCharAt(s, k)
    ensures r.None? ==> forall k :: CloserAt(s, k) ==> '\n' in s[..k]
  {
    if s == [] then None
    else if IsCloser(s[0]) then Some(0)
    else if s[0] == '\n' then
      assert forall k :: CloserAt(s, k) ==> '\n' in s[..k] by {
        forall k | CloserAt(s, k) ensures '\n' in s[..k] {
          assert s[..k][0] == '\n';
        }
      }
      None
    else match CloserIndex(s[1..])
      case None =>
        assert forall k :: CloserAt(s, k) ==> '\n' in s[..k] by {
          forall k | CloserAt(s, k) ensures '\n' in s[..k] {
            assert CloserAt(s[1..], k - 1);
            var m :| 0 <= m < k - 1 && s[1..][..k - 1][m] == '\n';
            assert s[..k][m + 1] == '\n';
          }
        }
        None
      case Some(j) =>
        assert forall k :: 0 <= k < j + 1 ==> BodyCharAt(s, k) by {
          forall k | 0 < k < j + 1 ensures BodyCharAt(s, k) {
            assert BodyCharAt(s[1..], k - 1);
          }
        }
        Some(j + 1)
  }

  /** One match of the bracket finder: group 0 and group 1. */
  datatype Bracket = Bracket(whole: string, content: string)

  /** A bracket as the finder matches it: an opener, a body with no closer and no newline,
      and a closer. */
  ghost predicate WellFormed(b: Bracket) {
    && |b.whole| == |b.content| + 2
    && IsOpener(b.whole[0]) && IsCloser(b.whole[|b.whole| - 1])
    && b.whole[1..|b.whole| - 1] == b.content
    && forall k :: 0 <= k < |b.content| ==> BodyCharAt(b.content, k)
  }

  /** The bracket that opens at `s[0]` and closes at `s[j + 1]`. */
  lemma BracketAtStart(s: string, j: nat)
    requires s != [] && IsOpener(s[0]) && CloserIndex(s[1..]) == Some(j)
    ensures j + 2 <= |s| && WellFormed(Bracket(s[..j + 2], s[1..j + 1]))
  {
    var u := s[1..];
    var b := Bracket(s[..j + 2], s[1..j + 1]);
    assert |b.whole| == |b.content| + 2;
    assert b.whole[0] == s[0] && b.whole[j + 1] == u[j];
    assert b.whole[1..j + 1] == b.content;
    forall k | 0 <= k < j ensures BodyCharAt(b.content, k) {
      assert b.content[k] == u[k] && BodyCharAt(u, k);
    }
  }

  /** `re.finditer(r'[\[【](.*?)[\]】]', s)`, leftmost first and without overlaps. */
  function FindBrackets(s: string): (bs: seq<Bracket>)
    ensures forall k :: 0 <= k < |bs| ==> WellFormed(bs[k])
    decreases |s|
  {
    if s == [] then []
    else if IsOpener(s[0]) && CloserIndex(s[1..]).Some? then
      var j := CloserIndex(s[1..]).value;
      BracketAtStart(s, j);
      [Bracket(s[..j + 2], s[1..j + 1])] + FindBrackets(s[j + 2..])
    else FindBrackets(s[1..])
  }

  /** `re.sub(r'[\[【].*?[】\]]', '', s)`: every match of the finder is cut out. */
  function RemoveBrackets(s: string): (r: string)
    ensures |r| <= |s|
    decreases |s|
  {
    if s == [] then []
    else if IsOpener(s[0]) && CloserIndex(s[1..]).Some? then
      RemoveBrackets(s[CloserIndex(s[1..]).value + 2..])
    else [s[0]] + RemoveBrackets(s[1..])
  }

  lemma {:induction false} RemoveBracketsKeepsUnclosed(s: string)
    requires CloserIndex(s).None?
    ensures CloserIndex(RemoveBrackets(s)).None?
    decreases |s|
  {
    if s != [] && s[0] != '\n' {
      assert CloserIndex(s[1..]).None?;
      RemoveBracketsKeepsUnclosed(s[1..]);
      var t := RemoveBrackets(s[1..]);
      assert RemoveBrackets(s) == [s[0]] + t;
      assert ([s[0]] + t)[1..] == t;
    }
  }

  /** The bracket-stripped residue holds no bracket the finder could match: cutting out a
      bracket never joins an unclosed opener to a later closer. */
  lemma {:induction false} RemoveBracketsLeavesNone(s: string)
    ensures FindBrackets(RemoveBrackets(s)) == []
    decreases |s|
  {
    if s == [] {
    } else if IsOpener(s[0]) && CloserIndex(s[1..]).Some? {
      RemoveBracketsLeavesNone(s[CloserIndex(s[1..]).value + 2..]);
    } else {
      var t := RemoveBrackets(s[1..]);
      RemoveBracketsLeavesNone(s[1..]);
      assert RemoveBrackets(s) == [s[0]] + t;
      assert ([s[0]] + t)[1..] == t;
      if IsOpener(s[0]) {
        RemoveBracketsKeepsUnclosed(s[1..]);
      }
    }
  }

  /** Cutting brackets out only deletes characters. */
  lemma {:induction false} RemoveBracketsAll(s: string, p: char -> bool)
    requires All(s, p)
    ensures All(RemoveBrackets(s), p)
    decreases |s|
  {
    if s != [] {
      if IsOpener(s[0]) && CloserIndex(s[1..]).Some? {
        RemoveBracketsAll(s[CloserIndex(s[1..]).value + 2..], p);
      } else {
        RemoveBracketsAll(s[1..], p);
      }
    }
  }

  /** The finder's pattern matches from index `i` to index `j`: an opener at `i`, the first
      closer at `j`, and no newline between them. */
  ghost predicate BracketSpan(s: string, i: nat, j: nat) {
    && i < j < |s| && IsOpener(s[i]) && IsCloser(s[j])
    && forall m :: i < m < j ==> BodyCharAt(s, m)
  }

  /** A span from index 0 closes where `CloserIndex` says. */
  lemma CloserIndexAt(s: string, j: nat)
    ensures BracketSpan(s, 0, j) ==> CloserIndex(s[1..]) == Some(j - 1)
  {
    if BracketSpan(s, 0, j) {
      var u := s[1..];
      assert IsCloser(u[j - 1]);
      assert forall m :: 0 <= m < j - 1 ==> u[..j - 1][m] == u[m] == s[m + 1] && BodyCharAt(s, m + 1);
      assert CloserAt(u, j - 1) && !BodyCharAt(u, j - 1);
      assert '\n' !in u[..j - 1];
      var c := CloserIndex(u).value;
      assert CloserAt(u, c) && !BodyCharAt(s, c + 1);
    }
  }

  /** An opener at index 0 with a closing position is a span. */
  lemma SpanAtZero(s: string)
    ensures s != [] && IsOpener(s[0]) && CloserIndex(s[1..]).Some? ==>
      BracketSpan(s, 0, CloserIndex(s[1..]).value + 1)
  {
    if s != [] && IsOpener(s[0]) && CloserIndex(s[1..]).Some? {
      var u := s[1..];
      var c := CloserIndex(u).value;
      assert forall m :: 0 < m < c + 1 ==> s[m] == u[m - 1] && BodyCharAt(u, m - 1);
    }
  }

  /** The spans of `s[1..]` are those of `s` that do not start at index 0, one index on. */
  lemma SpanShift(s: string, i: nat, j: nat)
    requires s != []
    ensures BracketSpan(s[1..], i, j) <==> BracketSpan(s, i + 1, j + 1)
  {
    var u := s[1..];
    assert forall m :: 0 <= m < |u| ==> u[m] == s[m + 1];
    if BracketSpan(u, i, j) {
      forall m | i + 1 < m < j + 1 ensures BodyCharAt(s, m) {
        assert BodyCharAt(u, m - 1);
      }
    }
    if BracketSpan(s, i + 1, j + 1) {
      forall m | i < m < j ensures BodyCharAt(u, m) {
        assert BodyCharAt(s, m + 1);
      }
    }
  }

  /** When no span starts at index 0, the finder and the removal both move one character on. */
  lemma NoSpanAtZero(s: string)
    requires s != [] && forall j: nat :: !BracketSpan(s, 0, j)
    ensures FindBrackets(s) == FindBrackets(s[1..])
    ensures RemoveBrackets(s) == [s[0]] + RemoveBrackets(s[1..])
  {
    SpanAtZero(s);
  }

  /** A span anywhere makes the finder report a bracket. */
  lemma {:induction false} SpanFound(s: string, i: nat, j: nat)
    requires BracketSpan(s, i, j)
    ensures FindBrackets(s) != []
    decreases i
  {
    if i == 0 {
      CloserIndexAt(s, j);
    } else if !(IsOpener(s[0]) && CloserIndex(s[1..]).Some?) {
      SpanShift(s, i - 1, j - 1);
      SpanFound(s[1..], i - 1, j - 1);
    }
  }

  /** Text without any span holds no bracket, and the removal leaves it as it is. */
  lemma {:induction false} NoSpanNoBrackets(s: string)
    requires forall i: nat, j: nat :: !BracketSpan(s, i, j)
    ensures FindBrackets(s) == [] && RemoveBrackets(s) == s
    decreases |s|
  {
    if s != [] {
      forall i: nat, j: nat ensures !BracketSpan(s[1..], i, j) {
        SpanShift(s, i, j);
      }
      NoSpanAtZero(s);
      NoSpanNoBrackets(s[1..]);
    }
  }

  /** The finder reports nothing exactly when the text holds no span, and then the removal
      changes nothing. */
  lemma FindBracketsNone(s: string)
    ensures FindBrackets(s) == [] <==> forall i: nat, j: nat :: !BracketSpan(s, i, j)
    ensures FindBrackets(s) == [] ==> RemoveBrackets(s) == s
  {
    if forall i: nat, j: nat :: !BracketSpan(s, i, j) {
      NoSpanNoBrackets(s);
    } else {
      var i: nat, j: nat :| BracketSpan(s, i, j);
      SpanFound(s, i, j);
    }
  }

  /** Before the leftmost span the finder reports nothing and the removal keeps the text. */
  lemma {:induction false} SkipPrefix(s: string, i: nat)
    requires i <= |s|
    requires forall i': nat, j': nat :: i' < i ==> !BracketSpan(s, i', j')
    ensures FindBrackets(s) == FindBrackets(s[i..])
    ensures RemoveBrackets(s) == s[..i] + RemoveBrackets(s[i..])
    decreases i
  {
    if i > 0 {
      SkipFirst(s, i);
      SkipPrefix(s[1..], i - 1);
      PrefixSlices(s, i);
      ConsAssoc(s[0], s[1..][..i - 1], RemoveBrackets(s[i..]));
    }
  }

  /** With no span starting before `i > 0`, the finder and the removal move one character on,
      and `s[1..]` has no span starting before `i - 1`. */
  lemma SkipFirst(s: string, i: nat)
    requires 0 < i <= |s|
    requires forall i': nat, j': nat :: i' < i ==> !BracketSpan(s, i', j')
    ensures forall i': nat, j': nat :: i' < i - 1 ==> !BracketSpan(s[1..], i', j')
    ensures FindBrackets(s) == FindBrackets(s[1..])
    ensures RemoveBrackets(s) == [s[0]] + RemoveBrackets(s[1..])
  {
    NoSpanAtZero(s);
    forall i': nat, j': nat | i' < i - 1 ensures !BracketSpan(s[1..], i', j') {
      SpanShift(s, i', j');
    }
  }

  lemma PrefixSlices(s: string, i: nat)
    requires 0 < i <= |s|
    ensures s[1..][i - 1..] == s[i..] && [s[0]] + s[1..][..i - 1] == s[..i]
  {
  }

  /** A span from `i` to `j` is a span of `s[i..]` from its first character. */
  lemma SpanSlice(s: string, i: nat, j: nat)
    requires BracketSpan(s, i, j)
    ensures BracketSpan(s[i..], 0, j - i)
  {
    var u := s[i..];
    forall m | 0 < m < j - i ensures BodyCharAt(u, m) {
      assert BodyCharAt(s, i + m);
    }
  }

  /** The leftmost span is the first bracket reported, and the finder goes on after its
      closer. */
  lemma FindBracketsFirst(s: string, i: nat, j: nat)
    requires BracketSpan(s, i, j)
    requires forall i': nat, j': nat :: i' < i ==> !BracketSpan(s, i', j')
    ensures FindBrackets(s) == [Bracket(s[i..j + 1], s[i + 1..j])] + FindBrackets(s[j + 1..])
  {
    SkipPrefix(s, i);
    FirstAt(s, i, j);
  }

  /** The removal keeps the text before the leftmost span and cuts the span out. */
  lemma RemoveBracketsFirst(s: string, i: nat, j: nat)
    requires BracketSpan(s, i, j)
    requires forall i': nat, j': nat :: i' < i ==> !BracketSpan(s, i', j')
    ensures RemoveBrackets(s) == s[..i] + RemoveBrackets(s[j + 1..])
  {
    SkipPrefix(s, i);
    RemovedAt(s, i, j);
  }

  /** Slices of `s[i..]` read back on `s`. */
  lemma SuffixSlices(s: string, i: nat, j: nat)
    requires i < j < |s|
    ensures s[i..][..j - i + 1] == s[i..j + 1] && s[i..][1..j - i] == s[i + 1..j]
    ensures s[i..][j - i + 1..] == s[j + 1..] && s[i..][1..] == s[i + 1..]
  {
  }

  /** The finder, started at the opener of a span, reports that span first. */
  lemma FirstAt(s: string, i: nat, j: nat)
    requires BracketSpan(s, i, j)
    ensures FindBrackets(s[i..]) == [Bracket(s[i..j + 1], s[i + 1..j])] + FindBrackets(s[j + 1..])
  {
    SpanSlice(s, i, j);
    CloserIndexAt(s[i..], j - i);
    SuffixSlices(s, i, j);
  }

  /** The removal, started at the opener of a span, cuts that span out. */
  lemma RemovedAt(s: string, i: nat, j: nat)
    requires BracketSpan(s, i, j)
    ensures RemoveBrackets(s[i..]) == RemoveBrackets(s[j + 1..])
  {
    SpanSlice(s, i, j);
    CloserIndexAt(s[i..], j - i);
    SuffixSlices(s, i, j);
  }

  lemma ConsAssoc(c: char, a: string, r: string)
    ensures [c] + (a + r) == ([c] + a) + r
  {
  }

  /** The removal changes the text exactly when the finder reports a bracket. */
  lemma {:induction false} RemoveBracketsShrinks(s: string)
    ensures FindBrackets(s) != [] ==> |RemoveBrackets(s)| < |s|
    ensures RemoveBrackets(s) == s <==> FindBrackets(s) == []
    decreases |s|
  {
    FindBracketsNone(s);
    if s != [] {
      if IsOpener(s[0]) && CloserIndex(s[1..]).Some? {
      } else {
        RemoveBracketsShrinks(s[1..]);
        assert RemoveBrackets(s) == [s[0]] + RemoveBrackets(s[1..]);
      }
    }
  }

  /** Text without an opener holds no bracket. */
  lemma {:induction false} NoOpenerNoBrackets(s: string)
    requires All(s, c => !IsOpener(c))
    ensures FindBrackets(s) == []
    decreases |s|
  {
    if s != [] {
      NoOpenerNoBrackets(s[1..]);
    }
  }

  /** A string without closers has no closing position. */
  lemma NoCloserNoIndex(s: string)
    requires All(s, c => !IsCloser(c))
    ensures CloserIndex(s).None?
  {
  }

  /** Every suffix of a bracket-free string is bracket-free. */
  lemma {:induction false} BracketFreeSuffix(s: string, k: nat)
    requires FindBrackets(s) == [] && k <= |s|
    ensures FindBrackets(s[k..]) == []
    decreases k
  {
    if k > 0 {
      assert FindBrackets(s[1..]) == [];
      BracketFreeSuffix(s[1..], k - 1);
      assert s[1..][k - 1..] == s[k..];
    }
  }

  lemma {:induction false} CloserIndexPrefix(s: string, k: nat)
    requires k <= |s| && CloserIndex(s[..k]).Some?
    ensures CloserIndex(s) == CloserIndex(s[..k])
    decreases k
  {
    if !IsCloser(s[0]) && s[0] != '\n' {
      assert s[..k][1..] == s[1..][..k - 1];
      CloserIndexPrefix(s[1..], k - 1);
    }
  }

  lemma {:induction false} BracketFreePrefix(s: string, k: nat)
    requires FindBrackets(s) == [] && k <= |s|
    ensures FindBrackets(s[..k]) == []
    decreases k
  {
    if k > 0 {
      assert s[..k][1..] == s[1..][..k - 1];
      if IsOpener(s[0]) && CloserIndex(s[..k][1..]).Some? {
        CloserIndexPrefix(s[1..], k - 1);
        assert false;
      }
      BracketFreePrefix(s[1..], k - 1);
    }
  }

  /** Stripping a bracket-free string leaves it bracket-free. */
  lemma BracketFreeStrip(s: string)
    requires FindBrackets(s) == []
    ensures FindBrackets(Strip(s)) == []
  {
    var i := SpacesBefore(s);
    BracketFreeSuffix(s, i);
    BracketFreePrefix(s[i..], |Strip(s)|);
    assert s[i..][..|Strip(s)|] == Strip(s);
  }

  // ---------------------------------------------------------------------------------------
  // The separator collapse of the title fallback.

  /** The separators `[\s._-]`. */
  predicate IsSep(c: char) {
    IsSpace(c) || c == '.' || c == '_' || c == '-'
  }

  /** The number of separators `s` starts with. */
  function SepsBefore(s: string): (n: nat)
    ensures n <= |s|
    ensures forall k :: 0 <= k < n ==> IsSep(s[k])
    ensures n < |s| ==> !IsSep(s[n])
  {
    if s != [] && IsSep(s[0]) then 1 + SepsBefore(s[1..]) else 0
  }

  /** `re.sub(r'[\s._-]+', ' ', s)`: every maximal run of separators becomes one space. */
  function CollapseSeps(s: string): (r: string)
    ensures |r| <= |s|
    ensures r == [] <==> s == []
    ensures r != [] ==> (IsSep(r[0]) <==> IsSep(s[0]))
    ensures NoAdjacent(r, IsSep)
  {
    if s == [] then []
    else if IsSep(s[0]) then " " + CollapseSeps(s[SepsBefore(s)..])
    else [s[0]] + CollapseSeps(s[1..])
  }

  predicate NotSep(c: char) {
    !IsSep(c)
  }

  /** Collapsing keeps every character that is not a separator, in order. */
  lemma {:induction false} CollapseSepsKeeps(s: string)
    ensures Filter(CollapseSeps(s), NotSep) == Filter(s, NotSep)
    decreases |s|
  {
    if s != [] {
      var n := SepsBefore(s);
      if IsSep(s[0]) {
        CollapseSepsKeeps(s[n..]);
        FilterCons(' ', CollapseSeps(s[n..]), NotSep);
        FilterOutside(s, n, |s|, NotSep);
        assert s[n..|s|] == s[n..];
      } else {
        CollapseSepsKeeps(s[1..]);
        FilterCons(s[0], CollapseSeps(s[1..]), NotSep);
        FilterCons(s[0], s[1..], NotSep);
        assert [s[0]] + s[1..] == s;
      }
    }
  }

  /** A separator run of length `n` followed by a non-separator, or by the end, is what
      `SepsBefore` counts. */
  lemma SepsBeforeIs(s: string, n: nat)
    requires n <= |s| && (n < |s| ==> !IsSep(s[n]))
    requires forall k :: 0 <= k < n ==> IsSep(s[k])
    ensures SepsBefore(s) == n
  {
  }

  /** The leading separator run of text that does not end in a separator stays inside it. */
  lemma SepsBeforePrefix(a: string, r: string)
    requires a != [] && !IsSep(a[|a| - 1])
    ensures SepsBefore(a + r) == SepsBefore(a) < |a|
  {
    var n := SepsBefore(a);
    forall k | 0 <= k < n ensures IsSep((a + r)[k]) {
      assert (a + r)[k] == a[k];
    }
    assert (a + r)[n] == a[n];
    SepsBeforeIs(a + r, n);
  }

  lemma CollapseSepsCutStep(a: string, r: string)
    requires a != [] && IsSep(a[0]) && SepsBefore(a + r) == SepsBefore(a)
    ensures CollapseSeps(a) == " " + CollapseSeps(a[SepsBefore(a)..])
    ensures CollapseSeps(a + r) == " " + CollapseSeps(a[SepsBefore(a)..] + r)
  {
    assert (a + r)[0] == a[0] && (a + r)[SepsBefore(a)..] == a[SepsBefore(a)..] + r;
  }

  lemma CollapseSepsKeepStep(a: string, r: string)
    requires a != [] && !IsSep(a[0])
    ensures CollapseSeps(a) == [a[0]] + CollapseSeps(a[1..])
    ensures CollapseSeps(a + r) == [a[0]] + CollapseSeps(a[1..] + r)
  {
    assert (a + r)[0] == a[0] && (a + r)[1..] == a[1..] + r;
  }

  /** One step of `CollapseSeps` on text that does not end in a separator, taken alike with
      and without the text that follows it: the leading run (or single character) gives the
      same output `head` in both. */
  lemma CollapseSepsHead(a: string, r: string) returns (head: string, m: nat)
    requires a != [] && !IsSep(a[|a| - 1])
    ensures 0 < m <= |a|
    ensures CollapseSeps(a) == head + CollapseSeps(a[m..])
    ensures CollapseSeps(a + r) == head + CollapseSeps(a[m..] + r)
  {
    SepsBeforePrefix(a, r);
    if IsSep(a[0]) {
      head, m := " ", SepsBefore(a);
      CollapseSepsCutStep(a, r);
    } else {
      head, m := [a[0]], 1;
      CollapseSepsKeepStep(a, r);
    }
  }

  /** Text that ends in a non-separator collapses on its own: what follows it cannot join
      one of its runs. */
  lemma {:induction false} CollapseSepsSplit(a: string, r: string)
    requires a == [] || !IsSep(a[|a| - 1])
    ensures CollapseSeps(a + r) == CollapseSeps(a) + CollapseSeps(r)
    decreases |a|
  {
    if a == [] {
      assert a + r == r;
    } else {
      var head, m := CollapseSepsHead(a, r);
      assert a[m..] == [] || a[m..][|a[m..]| - 1] == a[|a| - 1];
      CollapseSepsSplit(a[m..], r);
      ConcatAssoc(head, CollapseSeps(a[m..]), CollapseSeps(r));
    }
  }

  /** A maximal separator run becomes one space. */
  lemma CollapseSepsRun(w: string, b: string)
    requires w != [] && forall k :: 0 <= k < |w| ==> IsSep(w[k])
    requires b == [] || !IsSep(b[0])
    ensures CollapseSeps(w + b) == " " + CollapseSeps(b)
  {
    SepsBeforeIs(w + b, |w|);
    assert (w + b)[0] == w[0] && (w + b)[|w|..] == b;
  }

  /** So, between text that does not end in a separator and text that does not start with
      one, a run of separators of any length is replaced by exactly one space. */
  lemma CollapseSepsRunToSpace(a: string, w: string, b: string)
    requires a == [] || !IsSep(a[|a| - 1])
    requires w != [] && forall k :: 0 <= k < |w| ==> IsSep(w[k])
    requires b == [] || !IsSep(b[0])
    ensures CollapseSeps(a + w + b) == CollapseSeps(a) + " " + CollapseSeps(b)
  {
    ConcatAssoc(a, w, b);
    CollapseSepsSplit(a, w + b);
    CollapseSepsRun(w, b);
    ConcatAssoc(CollapseSeps(a), " ", CollapseSeps(b));
  }

  /** Collapsing only ever writes a space: every separator left is a plain space, and a
      property of every character that a space also has survives. */
  lemma {:induction false} CollapseSepsAll(s: string, p: char -> bool)
    requires p(' ') && All(s, p)
    ensures All(CollapseSeps(s), p)
    ensures All(CollapseSeps(s), c => IsSep(c) ==> c == ' ')
  {
    if s != [] {
      if IsSep(s[0]) {
        CollapseSepsAll(s[SepsBefore(s)..], p);
      } else {
        CollapseSepsAll(s[1..], p);
      }
    }
  }

  /** In a bracket-free text without newlines, an opener is followed by no closer at all. */
  lemma NoCloserAfterOpener(s: string)
    requires s != [] && IsOpener(s[0]) && FindBrackets(s) == [] && '\n' !in s
    ensures All(s[1..], c => !IsCloser(c))
  {
    var u := s[1..];
    assert CloserIndex(u).None?;
    forall k | 0 <= k < |u| ensures !IsCloser(u[k]) {
      assert '\n' !in u[..k] by {
        assert forall j :: 0 <= j < k ==> u[..k][j] == s[j + 1];
      }
    }
  }

  /** Putting a character in front of a bracket-free text makes a bracket only when it is an
      opener and a closer follows. */
  lemma BracketFreeCons(c: char, t: string)
    requires FindBrackets(t) == []
    requires IsOpener(c) ==> All(t, c => !IsCloser(c))
    ensures FindBrackets([c] + t) == []
  {
    assert ([c] + t)[1..] == t;
    if IsOpener(c) {
      NoCloserNoIndex(t);
    }
  }

  /** Without newlines, collapsing separators cannot create a bracket. */
  lemma {:induction false} CollapseSepsBracketFree(s: string)
    requires FindBrackets(s) == [] && '\n' !in s
    ensures FindBrackets(CollapseSeps(s)) == []
    decreases |s|
  {
    if s != [] {
      if IsSep(s[0]) {
        var n := SepsBefore(s);
        BracketFreeSuffix(s, n);
        assert '\n' !in s[n..];
        CollapseSepsBracketFree(s[n..]);
        BracketFreeCons(' ', CollapseSeps(s[n..]));
      } else {
        assert FindBrackets(s[1..]) == [];
        assert '\n' !in s[1..];
        CollapseSepsBracketFree(s[1..]);
        if IsOpener(s[0]) {
          NoCloserAfterOpener(s);
          CollapseSepsAll(s[1..], c => !IsCloser(c));
        }
        BracketFreeCons(s[0], CollapseSeps(s[1..]));
      }
    }
  }

  // ---------------------------------------------------------------------------------------
  // The title-and-season bracket.

  /** One match: group 0, group 1 (the raw title) and group 2 (the season digits). */
  datatype TitleSeason = TitleSeason(whole: string, title: string, season: string)

  /** `c` is the ASCII letter `lower` in either case. */
  predicate LetterIs(c: char, lower: char, upper: char) {
    c == lower || c == upper
  }

  /** The word "season" in any ASCII letter case starts at index `p`. */
  predicate SeasonWordAt(s: string, p: nat) {
    && p + 6 <= |s|
    && LetterIs(s[p], 's', 'S') && LetterIs(s[p + 1], 'e', 'E') && LetterIs(s[p + 2], 'a', 'A')
    && LetterIs(s[p + 3], 's', 'S') && LetterIs(s[p + 4], 'o', 'O') && LetterIs(s[p + 5], 'n', 'N')
  }

  /** Index `m` of `s` holds whitespace. */
  predicate SpaceAt(s: string, m: int) {
    0 <= m < |s| && IsSpace(s[m])
  }

  /** Index `m` of `s` holds an ASCII digit. */
  predicate DigitAt(s: string, m: int) {
    0 <= m < |s| && IsDigit(s[m])
  }

  /** The index of the first non-whitespace character at or after `i`. */
  function SpacesFrom(s: string, i: nat): (r: nat)
    requires i <= |s|
    ensures i <= r <= |s|
    ensures forall m :: i <= m < r ==> SpaceAt(s, m)
    ensures !SpaceAt(s, r)
    decreases |s| - i
  {
    if i < |s| && IsSpace(s[i]) then SpacesFrom(s, i + 1) else i
  }

  /** The index of the first non-digit at or after `i`. */
  function DigitsFrom(s: string, i: nat): (r: nat)
    requires i <= |s|
    ensures i <= r <= |s|
    ensures forall m :: i <= m < r ==> DigitAt(s, m)
    ensures !DigitAt(s, r)
    decreases |s| - i
  {
    if i < |s| && IsDigit(s[i]) then DigitsFrom(s, i + 1) else i
  }

  /** `\s*[Ss]eason\s*(\d+)\]` at index `p`; both runs are maximal because neither the word
      nor a digit is whitespace and `]` is not a digit. Yields where the digits start and
      where the closing `]` stands. */
  function SeasonTailAt(s: string, p: nat): (r: Option<(nat, nat)>)
    requires p <= |s|
    ensures r.Some? ==> p < r.value.0 < r.value.1 < |s| && s[r.value.1] == ']'
    ensures r.Some? ==> forall m :: r.value.0 <= m < r.value.1 ==> DigitAt(s, m)
  {
    var a := SpacesFrom(s, p);
    if SeasonWordAt(s, a) then
      var b := SpacesFrom(s, a + 6);
      var e := DigitsFrom(s, b);
      if b < e < |s| && s[e] == ']' then Some((b, e)) else None
    else None
  }

  /** The tail `\s*[Ss]eason\s*(\d+)\]` matched from index `p`: spaces in `[p, a)`, the word
      at `a`, spaces in `[a + 6, b)`, digits in `[b, e)` and the closing `]` at `e`. */
  ghost predicate TailMatch(s: string, p: nat, a: nat, b: nat, e: nat) {
    && p <= a && a + 6 <= b && b < e < |s|
    && (forall m :: p <= m < a ==> SpaceAt(s, m))
    && SeasonWordAt(s, a)
    && (forall m :: a + 6 <= m < b ==> SpaceAt(s, m))
    && (forall m :: b <= m < e ==> DigitAt(s, m))
    && s[e] == ']'
  }

  /** The tail matches at `p` exactly when `SeasonTailAt` finds it, and it yields the span of
      the digits and the `]`; the match is unique. */
  lemma SeasonTailAtSpec(s: string, p: nat)
    requires p <= |s|
    ensures forall a: nat, b: nat, e: nat :: TailMatch(s, p, a, b, e) ==> SeasonTailAt(s, p) == Some((b, e))
    ensures SeasonTailAt(s, p).Some? ==>
      var (b, e) := SeasonTailAt(s, p).value;
      TailMatch(s, p, SpacesFrom(s, p), b, e)
  {
    forall a: nat, b: nat, e: nat | TailMatch(s, p, a, b, e)
      ensures SeasonTailAt(s, p) == Some((b, e))
    {
      TailMatchFound(s, p, a, b, e);
    }
  }

  lemma TailMatchFound(s: string, p: nat, a: nat, b: nat, e: nat)
    requires TailMatch(s, p, a, b, e)
    ensures SeasonTailAt(s, p) == Some((b, e))
  {
    SpacesFromIs(s, p, a);
    assert DigitAt(s, b);
    SpacesFromIs(s, a + 6, b);
    DigitsFromIs(s, b, e);
  }

  /** A run of whitespace from `i` to `j`, ended by another character, is skipped whole. */
  lemma SpacesFromIs(s: string, i: nat, j: nat)
    requires i <= j < |s| && !SpaceAt(s, j)
    requires forall m :: i <= m < j ==> SpaceAt(s, m)
    ensures SpacesFrom(s, i) == j
  {
  }

  /** A run of digits from `i` to `j`, ended by another character, is skipped whole. */
  lemma DigitsFromIs(s: string, i: nat, j: nat)
    requires i <= j < |s| && !DigitAt(s, j)
    requires forall m :: i <= m < j ==> DigitAt(s, m)
    ensures DigitsFrom(s, i) == j
  {
  }

  /** Index `m` of `s` holds `]`, which the title group `[^\]]` cannot take. */
  predicate SquareCloseAt(s: string, m: int) {
    0 <= m < |s| && s[m] == ']'
  }

  /** A title-and-season match starts at index `i` with a title of length `k`: `[` at `i`,
      no `]` in the title, and the tail matching right after it. */
  predicate MatchAt(s: string, i: nat, k: nat) {
    && i + 1 + k <= |s| && s[i] == '['
    && (forall m :: i + 1 <= m < i + 1 + k ==> !SquareCloseAt(s, m))
    && SeasonTailAt(s, i + 1 + k).Some?
  }

  /** The lazy group 1 `[^\]]*?` of a match whose `[` is at index `i`: the shortest title
      length, at least `k`, after which the tail matches. */
  function TitleLengthFrom(s: string, i: nat, k: nat): (r: Option<nat>)
    requires i + 1 + k <= |s| && s[i] == '['
    requires forall m :: i + 1 <= m < i + 1 + k ==> !SquareCloseAt(s, m)
    ensures r.Some? ==> k <= r.value && i + 1 + r.value <= |s|
    decreases |s| - k
  {
    if SeasonTailAt(s, i + 1 + k).Some? then Some(k)
    else if i + 1 + k < |s| && !SquareCloseAt(s, i + 1 + k) then TitleLengthFrom(s, i, k + 1)
    else None
  }

  /** `ts` is a title-and-season match that starts at index `i` of `s`. */
  predicate FoundAt(s: string, i: nat, ts: TitleSeason) {
    && OccursAt(s, ts.whole, i)
    && 2 <= |ts.whole| && ts.whole[0] == '[' && ts.whole[|ts.whole| - 1] == ']'
    && ts.season != [] && AllDigits(ts.season)
  }

  /** The groups of the match at index `i` with a title of length `k`: the text from `[` to
      `]`, the title, and the digits before `]`. */
  function MatchOf(s: string, i: nat, k: nat): (ts: TitleSeason)
    requires MatchAt(s, i, k)
    ensures FoundAt(s, i, ts) && |ts.title| == k
    ensures ts.title == s[i + 1..i + 1 + k]
    ensures var (b, e) := SeasonTailAt(s, i + 1 + k).value;
      ts.whole == s[i..e + 1] && ts.season == s[b..e]
  {
    var (b, e) := SeasonTailAt(s, i + 1 + k).value;
    assert forall m :: 0 <= m < e - b ==> s[b..e][m] == s[b + m] && DigitAt(s, b + m);
    TitleSeason(s[i..e + 1], s[i + 1..i + 1 + k], s[b..e])
  }

  /** The lazy title group finds nothing exactly when no title length from `k` on matches;
      otherwise it finds the shortest one. */
  lemma {:induction false} TitleLengthFromSpec(s: string, i: nat, k: nat)
    requires i + 1 + k <= |s| && s[i] == '['
    requires forall m :: i + 1 <= m < i + 1 + k ==> !SquareCloseAt(s, m)
    ensures TitleLengthFrom(s, i, k).Some? ==> MatchAt(s, i, TitleLengthFrom(s, i, k).value)
    ensures TitleLengthFrom(s, i, k).None? <==> forall k': nat :: k <= k' ==> !MatchAt(s, i, k')
    ensures TitleLengthFrom(s, i, k).Some? ==>
      forall k': nat :: k <= k' < TitleLengthFrom(s, i, k).value ==> !MatchAt(s, i, k')
    decreases |s| - k
  {
    if SeasonTailAt(s, i + 1 + k).Some? {
      TitleLengthFromHere(s, i, k);
    } else {
      if i + 1 + k < |s| && !SquareCloseAt(s, i + 1 + k) {
        TitleLengthFromSpec(s, i, k + 1);
        TitleLengthFromStep(s, i, k);
      } else {
        TitleLengthFromStop(s, i, k);
      }
    }
  }

  /** The title group stops at the first length after which the tail matches. */
  lemma TitleLengthFromHere(s: string, i: nat, k: nat)
    requires i + 1 + k <= |s| && s[i] == '['
    requires forall m :: i + 1 <= m < i + 1 + k ==> !SquareCloseAt(s, m)
    requires SeasonTailAt(s, i + 1 + k).Some?
    ensures TitleLengthFrom(s, i, k) == Some(k) && MatchAt(s, i, k)
  {
  }

  /** No match at `k` extends the title lengths without a match from `k + 1` down to `k`. */
  lemma NoMatchBelow(s: string, i: nat, k: nat, n: nat)
    requires !MatchAt(s, i, k)
    requires forall k': nat :: k + 1 <= k' < n ==> !MatchAt(s, i, k')
    ensures forall k': nat :: k <= k' < n ==> !MatchAt(s, i, k')
  {
  }

  /** The title group grows past a length at which the tail does not match. */
  lemma TitleLengthFromStep(s: string, i: nat, k: nat)
    requires i + 1 + k < |s| && s[i] == '['
    requires forall m :: i + 1 <= m < i + 1 + k + 1 ==> !SquareCloseAt(s, m)
    requires SeasonTailAt(s, i + 1 + k).None?
    requires TitleLengthFrom(s, i, k + 1).Some? ==> MatchAt(s, i, TitleLengthFrom(s, i, k + 1).value)
    requires TitleLengthFrom(s, i, k + 1).None? <==> forall k': nat :: k + 1 <= k' ==> !MatchAt(s, i, k')
    requires TitleLengthFrom(s, i, k + 1).Some? ==>
      forall k': nat :: k + 1 <= k' < TitleLengthFrom(s, i, k + 1).value ==> !MatchAt(s, i, k')
    ensures TitleLengthFrom(s, i, k).Some? ==> MatchAt(s, i, TitleLengthFrom(s, i, k).value)
    ensures TitleLengthFrom(s, i, k).None? <==> forall k': nat :: k <= k' ==> !MatchAt(s, i, k')
    ensures TitleLengthFrom(s, i, k).Some? ==>
      forall k': nat :: k <= k' < TitleLengthFrom(s, i, k).value ==> !MatchAt(s, i, k')
  {
    var r := TitleLengthFrom(s, i, k);
    assert r == TitleLengthFrom(s, i, k + 1);
    assert !MatchAt(s, i, k);
    if r.Some? {
      NoMatchBelow(s, i, k, r.value);
    }
  }

  /** The title group cannot grow past a `]` or the end of the text. */
  lemma TitleLengthFromStop(s: string, i: nat, k: nat)
    requires i + 1 + k <= |s| && s[i] == '['
    requires SeasonTailAt(s, i + 1 + k).None?
    requires i + 1 + k == |s| || SquareCloseAt(s, i + 1 + k)
    ensures forall k': nat :: k <= k' ==> !MatchAt(s, i, k')
  {
    forall k': nat | k <= k' ensures !MatchAt(s, i, k') {
      if k < k' && i + 1 + k' <= |s| {
        assert SquareCloseAt(s, i + 1 + k);
      }
    }
  }

  /** `re.search` from index `i` on: the first index holding a match, with the title length
      the lazy group settles on there. */
  function MatchFrom(s: string, i: nat): (r: Option<(nat, nat)>)
    requires i <= |s|
    ensures r.Some? ==> i <= r.value.0 < |s|
    decreases |s| - i
  {
    if i == |s| then None
    else if s[i] == '[' && TitleLengthFrom(s, i, 0).Some? then Some((i, TitleLengthFrom(s, i, 0).value))
    else MatchFrom(s, i + 1)
  }

  /** `re.search(r'\[([^\]]*?)\s*[Ss]eason\s*(\d+)\]', s, re.IGNORECASE)`, with the index
      where the match starts. Only the ASCII `[` opens this bracket. */
  function SearchTitleSeason(s: string): (r: Option<(nat, TitleSeason)>)
    ensures r.Some? ==> FoundAt(s, r.value.0, r.value.1)
  {
    match MatchFrom(s, 0)
    case None => None
    case Some((i, k)) =>
      MatchFromSpec(s, 0);
      Some((i, MatchOf(s, i, k)))
  }

  /** The search from `i` finds nothing exactly when no match starts at or after `i`;
      otherwise it finds the leftmost start and the shortest title there. */
  lemma {:induction false} MatchFromSpec(s: string, i: nat)
    requires i <= |s|
    ensures MatchFrom(s, i).None? <==> forall j: nat, k: nat :: i <= j ==> !MatchAt(s, j, k)
    ensures MatchFrom(s, i).Some? ==> LeastMatch(s, i, MatchFrom(s, i).value.0, MatchFrom(s, i).value.1)
    decreases |s| - i
  {
    if i == |s| {
      assert forall j: nat, k: nat :: i <= j ==> !MatchAt(s, j, k);
    } else if s[i] == '[' && TitleLengthFrom(s, i, 0).Some? {
      MatchFromHere(s, i);
    } else {
      MatchFromSpec(s, i + 1);
      MatchFromStep(s, i);
    }
  }

  /** `(j, k)` is the leftmost match at or after `i`, with the shortest title there. */
  ghost predicate LeastMatch(s: string, i: nat, j: nat, k: nat) {
    && i <= j && MatchAt(s, j, k)
    && (forall j': nat, k': nat :: i <= j' < j ==> !MatchAt(s, j', k'))
    && (forall k': nat :: k' < k ==> !MatchAt(s, j, k'))
  }

  lemma MatchFromHere(s: string, i: nat)
    requires i < |s| && s[i] == '[' && TitleLengthFrom(s, i, 0).Some?
    ensures MatchFrom(s, i) == Some((i, TitleLengthFrom(s, i, 0).value))
    ensures LeastMatch(s, i, i, TitleLengthFrom(s, i, 0).value)
  {
    TitleLengthFromSpec(s, i, 0);
  }

  lemma MatchFromStep(s: string, i: nat)
    requires i < |s| && !(s[i] == '[' && TitleLengthFrom(s, i, 0).Some?)
    requires MatchFrom(s, i + 1).None? <==> forall j: nat, k: nat :: i + 1 <= j ==> !MatchAt(s, j, k)
    requires MatchFrom(s, i + 1).Some? ==>
      LeastMatch(s, i + 1, MatchFrom(s, i + 1).value.0, MatchFrom(s, i + 1).value.1)
    ensures MatchFrom(s, i).None? <==> forall j: nat, k: nat :: i <= j ==> !MatchAt(s, j, k)
    ensures MatchFrom(s, i).Some? ==> LeastMatch(s, i, MatchFrom(s, i).value.0, MatchFrom(s, i).value.1)
  {
    var r := MatchFrom(s, i);
    assert r == MatchFrom(s, i + 1);
    NoMatchAtStart(s, i);
    if r.Some? {
      LeastMatchStep(s, i, r.value.0, r.value.1);
    } else {
      NoMatchStep(s, i);
    }
  }

  /** No match starts at `i` when the search moves past it. */
  lemma NoMatchAtStart(s: string, i: nat)
    requires i < |s| && !(s[i] == '[' && TitleLengthFrom(s, i, 0).Some?)
    ensures forall k: nat :: !MatchAt(s, i, k)
  {
    if s[i] == '[' {
      TitleLengthFromSpec(s, i, 0);
    }
  }

  lemma LeastMatchStep(s: string, i: nat, j: nat, k: nat)
    requires forall k': nat :: !MatchAt(s, i, k')
    requires LeastMatch(s, i + 1, j, k)
    ensures LeastMatch(s, i, j, k)
  {
  }

  lemma NoMatchStep(s: string, i: nat)
    requires forall k: nat :: !MatchAt(s, i, k)
    requires forall j: nat, k: nat :: i + 1 <= j ==> !MatchAt(s, j, k)
    ensures forall j: nat, k: nat :: i <= j ==> !MatchAt(s, j, k)
  {
  }

  /** A character of a copy: where `s[j..j + n]` repeats `s[i..i + n]`, index `m` of the copy
      holds the character at the same offset of the original. */
  lemma CharOfCopy(s: string, i: nat, j: nat, n: nat, m: nat)
    requires i + n <= |s| && j + n <= |s| && s[j..j + n] == s[i..i + n]
    requires j <= m < j + n
    ensures s[m] == s[m - j + i]
  {
    assert s[m] == s[j..j + n][m - j];
  }

  /** A whitespace run inside `s[i..i + n]` is one at the same offsets of a copy of it. */
  lemma SpacesShift(s: string, i: nat, j: nat, n: nat, lo: nat, hi: nat, lo': nat, hi': nat)
    requires i + n <= |s| && j + n <= |s| && s[j..j + n] == s[i..i + n]
    requires i <= lo && hi <= i + n && forall m :: lo <= m < hi ==> SpaceAt(s, m)
    requires lo' == lo - i + j && hi' == hi - i + j
    ensures forall m :: lo' <= m < hi' ==> SpaceAt(s, m)
  {
    forall m | lo' <= m < hi' ensures SpaceAt(s, m) {
      CharOfCopy(s, i, j, n, m);
      assert SpaceAt(s, m - j + i);
    }
  }

  /** A digit run inside `s[i..i + n]` is one at the same offsets of a copy of it. */
  lemma DigitsShift(s: string, i: nat, j: nat, n: nat, lo: nat, hi: nat, lo': nat, hi': nat)
    requires i + n <= |s| && j + n <= |s| && s[j..j + n] == s[i..i + n]
    requires i <= lo && hi <= i + n && forall m :: lo <= m < hi ==> DigitAt(s, m)
    requires lo' == lo - i + j && hi' == hi - i + j
    ensures forall m :: lo' <= m < hi' ==> DigitAt(s, m)
  {
    forall m | lo' <= m < hi' ensures DigitAt(s, m) {
      CharOfCopy(s, i, j, n, m);
      assert DigitAt(s, m - j + i);
    }
  }

  /** The word "season" inside `s[i..i + n]` is one at the same offset of a copy of it. */
  lemma WordShift(s: string, i: nat, j: nat, n: nat, a: nat, a': nat)
    requires i + n <= |s| && j + n <= |s| && s[j..j + n] == s[i..i + n]
    requires i <= a && a + 6 <= i + n && SeasonWordAt(s, a) && a' == a - i + j
    ensures SeasonWordAt(s, a')
  {
    CharOfCopy(s, i, j, n, a');
    CharOfCopy(s, i, j, n, a' + 1);
    CharOfCopy(s, i, j, n, a' + 2);
    CharOfCopy(s, i, j, n, a' + 3);
    CharOfCopy(s, i, j, n, a' + 4);
    CharOfCopy(s, i, j, n, a' + 5);
  }

  /** A tail that lies inside `s[i..i + n]` matches at the same offsets of a copy of it,
      where the search for it then succeeds. */
  lemma TailShift(s: string, i: nat, j: nat, n: nat, p: nat, a: nat, b: nat, e: nat, p': nat)
    requires i + n <= |s| && j + n <= |s| && s[j..j + n] == s[i..i + n]
    requires i <= p && e < i + n && TailMatch(s, p, a, b, e) && p' == p - i + j
    ensures SeasonTailAt(s, p').Some?
  {
    var a', b', e' := a - i + j, b - i + j, e - i + j;
    SpacesShift(s, i, j, n, p, a, p', a');
    WordShift(s, i, j, n, a, a');
    SpacesShift(s, i, j, n, a + 6, b, a' + 6, b');
    DigitsShift(s, i, j, n, b, e, b', e');
    CharOfCopy(s, i, j, n, e');
    assert TailMatch(s, p', a', b', e');
    TailMatchFound(s, p', a', b', e');
  }

  /** Wherever the text of a match occurs again, a match with the same title length starts
      there too: the match is decided by its own characters alone. */
  lemma OccurrenceIsMatch(s: string, i: nat, k: nat, j: nat)
    requires MatchAt(s, i, k) && OccursAt(s, MatchOf(s, i, k).whole, j)
    ensures MatchAt(s, j, k)
  {
    var (b, e) := SeasonTailAt(s, i + 1 + k).value;
    var a := TailOfMatch(s, i, k);
    MatchCopy(s, i, k, j);
    CopyIsMatch(s, i, j, e + 1 - i, k, a, b, e);
  }

  /** A match whose text lies inside `s[i..i + n]` is one at the same offset of a copy. */
  lemma CopyIsMatch(s: string, i: nat, j: nat, n: nat, k: nat, a: nat, b: nat, e: nat)
    requires i + n <= |s| && j + n <= |s| && s[j..j + n] == s[i..i + n]
    requires i < |s| && s[i] == '[' && forall m :: i + 1 <= m < i + 1 + k ==> !SquareCloseAt(s, m)
    requires TailMatch(s, i + 1 + k, a, b, e) && e < i + n
    ensures MatchAt(s, j, k)
  {
    TailShift(s, i, j, n, i + 1 + k, a, b, e, j + 1 + k);
    TitleShift(s, i, j, n, k);
  }

  /** The `[` and a title without `]` inside `s[i..i + n]` are also those of a copy. */
  lemma TitleShift(s: string, i: nat, j: nat, n: nat, k: nat)
    requires i + n <= |s| && j + n <= |s| && s[j..j + n] == s[i..i + n]
    requires 1 + k <= n && s[i] == '[' && forall m :: i + 1 <= m < i + 1 + k ==> !SquareCloseAt(s, m)
    ensures s[j] == '[' && forall m :: j + 1 <= m < j + 1 + k ==> !SquareCloseAt(s, m)
  {
    CharOfCopy(s, i, j, n, j);
    forall m | j + 1 <= m < j + 1 + k ensures !SquareCloseAt(s, m) {
      CharOfCopy(s, i, j, n, m);
      assert !SquareCloseAt(s, m - j + i);
    }
  }

  /** The tail of the match at `i` with title length `k`, with where its word starts. */
  lemma TailOfMatch(s: string, i: nat, k: nat) returns (a: nat)
    requires MatchAt(s, i, k)
    ensures var (b, e) := SeasonTailAt(s, i + 1 + k).value; TailMatch(s, i + 1 + k, a, b, e)
  {
    SeasonTailAtSpec(s, i + 1 + k);
    a := SpacesFrom(s, i + 1 + k);
  }

  /** An occurrence at `j` of the text of the match at `i` is a copy of `s[i..e + 1]`. */
  lemma MatchCopy(s: string, i: nat, k: nat, j: nat)
    requires MatchAt(s, i, k) && OccursAt(s, MatchOf(s, i, k).whole, j)
    ensures var (b, e) := SeasonTailAt(s, i + 1 + k).value;
      j + (e + 1 - i) <= |s| && s[j..j + (e + 1 - i)] == s[i..i + (e + 1 - i)]
  {
  }

  /** The text of the match the search reports first occurs where that match starts, so
      `str.replace(..., 1)` on it cuts out exactly the matched span. */
  lemma SearchTitleSeasonFirstOccurrence(s: string)
    requires SearchTitleSeason(s).Some?
    ensures var (i, ts) := SearchTitleSeason(s).value;
      IndexOf(s, ts.whole, 0) == Some(i)
  {
    var (i, ts) := SearchTitleSeason(s).value;
    SearchTitleSeasonSpec(s);
    var r := IndexOf(s, ts.whole, 0);
    assert r.Some? && r.value <= i;
    if r.value < i {
      OccurrenceIsMatch(s, i, |ts.title|, r.value);
      assert false;
    }
  }

  /** The search finds nothing exactly when no match starts anywhere; otherwise it reports
      the leftmost start and the shortest title there, with the groups read off that match:
      the text between `[` and the tail as the title and the digits before `]` as the
      season. */
  lemma SearchTitleSeasonSpec(s: string)
    ensures SearchTitleSeason(s).None? <==> forall i: nat, k: nat :: !MatchAt(s, i, k)
    ensures SearchTitleSeason(s).Some? ==>
      var (i, ts) := SearchTitleSeason(s).value;
      LeastMatch(s, 0, i, |ts.title|) && ts == MatchOf(s, i, |ts.title|)
  {
    MatchFromSpec(s, 0);
  }
}
