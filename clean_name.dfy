/** `clean_filename` (main.py:31-35): path-illegal characters become `_`, every run of two
    or more whitespace characters becomes one space, and the result is stripped. */
module CleanName {
  import opened Text

  /** The characters `\ / * ? : " < > |` that the program treats as illegal in a path. */
  predicate IsIllegal(c: char) {
    c in "\\/*?:\"<>|"
  }

  /** The first substitution of `clean_filename`: every illegal character becomes `_`. */
  function ReplaceIllegal(s: string): (r: string)
    ensures |r| == |s|
    ensures forall k :: 0 <= k < |r| ==> !IsIllegal(r[k])
    ensures forall k :: 0 <= k < |s| && !IsIllegal(s[k]) ==> r[k] == s[k]
  {
    seq(|s|, k requires 0 <= k < |s| => if IsIllegal(s[k]) then '_' else s[k])
  }

  /** `re.sub(r'\s{2,}', ' ', s)`: a maximal whitespace run of length two or more becomes a
      single space; a lone whitespace character is kept as it is. */
  function CollapseSpaces(s: string): (r: string)
    ensures |r| <= |s|
    ensures r == [] <==> s == []
    ensures r != [] ==> (IsSpace(r[0]) <==> IsSpace(s[0]))
    ensures NoAdjacent(r, IsSpace)
  {
    if s == [] then []
    else
      var n := SpacesBefore(s);
      if n >= 2 then " " + CollapseSpaces(s[n..]) else [s[0]] + CollapseSpaces(s[1..])
  }

  function CleanFilename(filename: string): string {
    Strip(CollapseSpaces(ReplaceIllegal(filename)))
  }

  /** A string with no two neighbouring whitespace characters has nothing to collapse. */
  lemma {:induction false} CollapseSpacesFixed(s: string)
    requires NoAdjacent(s, IsSpace)
    ensures CollapseSpaces(s) == s
  {
    if s != [] {
      assert NoAdjacent(s[1..], IsSpace);
      CollapseSpacesFixed(s[1..]);
    }
  }

  /** Text that ends in a non-whitespace character collapses on its own: what follows it
      cannot join one of its runs. */
  lemma {:induction false} CollapseSpacesSplit(a: string, r: string)
    requires a == [] || !IsSpace(a[|a| - 1])
    ensures CollapseSpaces(a + r) == CollapseSpaces(a) + CollapseSpaces(r)
    decreases |a|
  {
    if a == [] {
      assert a + r == r;
    } else {
      var n := SpacesBefore(a);
      var m := if n >= 2 then n else 1;
      var head := CollapseSpacesHead(a, r);
      LastCharOfSuffix(a, m);
      CollapseSpacesSplit(a[m..], r);
      ConcatAssoc(head, CollapseSpaces(a[m..]), CollapseSpaces(r));
    }
  }

  lemma LastCharOfSuffix(a: string, m: nat)
    requires m <= |a| && a != [] && !IsSpace(a[|a| - 1])
    ensures a[m..] == [] || !IsSpace(a[m..][|a[m..]| - 1])
  {
  }

  /** One step of `CollapseSpaces` on text that does not end in whitespace, taken alike with
      and without the text that follows it: the leading run (or single character) gives the
      same output `head` in both. */
  lemma CollapseSpacesHead(a: string, r: string) returns (head: string)
    requires a != [] && !IsSpace(a[|a| - 1])
    ensures var n := SpacesBefore(a); var m := if n >= 2 then n else 1;
      m <= |a| && CollapseSpaces(a) == head + CollapseSpaces(a[m..])
      && CollapseSpaces(a + r) == head + CollapseSpaces(a[m..] + r)
  {
    SpacesBeforePrefix(a, r);
    if SpacesBefore(a) >= 2 {
      head := " ";
      CollapseSpacesCutStep(a, r);
    } else {
      head := [a[0]];
      CollapseSpacesKeepStep(a, r);
    }
  }

  lemma CollapseSpacesCutStep(a: string, r: string)
    requires a != [] && SpacesBefore(a + r) == SpacesBefore(a) >= 2
    ensures CollapseSpaces(a) == " " + CollapseSpaces(a[SpacesBefore(a)..])
    ensures CollapseSpaces(a + r) == " " + CollapseSpaces(a[SpacesBefore(a)..] + r)
  {
    assert (a + r)[SpacesBefore(a)..] == a[SpacesBefore(a)..] + r;
  }

  lemma CollapseSpacesKeepStep(a: string, r: string)
    requires a != [] && SpacesBefore(a + r) == SpacesBefore(a) < 2
    ensures CollapseSpaces(a) == [a[0]] + CollapseSpaces(a[1..])
    ensures CollapseSpaces(a + r) == [a[0]] + CollapseSpaces(a[1..] + r)
  {
    assert (a + r)[0] == a[0] && (a + r)[1..] == a[1..] + r;
  }

  /** The leading whitespace run of text that does not end in whitespace stays inside it. */
  lemma SpacesBeforePrefix(a: string, r: string)
    requires a != [] && !IsSpace(a[|a| - 1])
    ensures SpacesBefore(a + r) == SpacesBefore(a) < |a|
  {
    var n := SpacesBefore(a);
    forall k | 0 <= k < n ensures IsSpace((a + r)[k]) {
      assert (a + r)[k] == a[k];
    }
    assert (a + r)[n] == a[n];
    SpacesBeforeIs(a + r, n);
  }

  /** A maximal whitespace run of two or more characters becomes one space, and a lone
      whitespace character is kept as it is. */
  lemma CollapseSpacesRun(w: string, b: string)
    requires w != [] && forall k :: 0 <= k < |w| ==> IsSpace(w[k])
    requires b == [] || !IsSpace(b[0])
    ensures |w| >= 2 ==> CollapseSpaces(w + b) == " " + CollapseSpaces(b)
    ensures |w| == 1 ==> CollapseSpaces(w + b) == w + CollapseSpaces(b)
  {
    SpacesBeforeIs(w + b, |w|);
    assert (w + b)[|w|..] == b;
    assert |w| == 1 ==> (w + b)[1..] == b && w == [(w + b)[0]];
  }

  /** So, between text that does not end in whitespace and text that does not start with it,
      a run of two or more whitespace characters is replaced by exactly one space. */
  lemma CollapseSpacesRunToSpace(a: string, w: string, b: string)
    requires a == [] || !IsSpace(a[|a| - 1])
    requires |w| >= 2 && forall k :: 0 <= k < |w| ==> IsSpace(w[k])
    requires b == [] || !IsSpace(b[0])
    ensures CollapseSpaces(a + w + b) == CollapseSpaces(a) + " " + CollapseSpaces(b)
  {
    ConcatAssoc(a, w, b);
    CollapseSpacesSplit(a, w + b);
    CollapseSpacesRun(w, b);
    ConcatAssoc(CollapseSpaces(a), " ", CollapseSpaces(b));
  }

  /** Collapsing only ever writes a space, so a property of every character that a space
      also has survives it. */
  lemma {:induction false} CollapseSpacesAll(s: string, p: char -> bool)
    requires p(' ') && All(s, p)
    ensures All(CollapseSpaces(s), p)
  {
    if s != [] {
      var n := SpacesBefore(s);
      if n >= 2 {
        CollapseSpacesAll(s[n..], p);
      } else {
        CollapseSpacesAll(s[1..], p);
      }
    }
  }

  /** The collapse keeps every character that is not whitespace, in order. */
  lemma {:induction false} CollapseSpacesKeeps(s: string)
    ensures Filter(CollapseSpaces(s), NotSpace) == Filter(s, NotSpace)
    decreases |s|
  {
    if s != [] {
      var n := SpacesBefore(s);
      if n >= 2 {
        CollapseSpacesKeeps(s[n..]);
        FilterCons(' ', CollapseSpaces(s[n..]), NotSpace);
        FilterOutside(s, n, |s|, NotSpace);
        assert s[n..|s|] == s[n..];
      } else {
        CollapseSpacesKeeps(s[1..]);
        FilterCons(s[0], CollapseSpaces(s[1..]), NotSpace);
        FilterCons(s[0], s[1..], NotSpace);
        assert [s[0]] + s[1..] == s;
      }
    }
  }

  /** The cleaned name has none of the illegal characters, no run of two or more whitespace
      characters, no whitespace at either end, and is never longer than the input. */
  lemma CleanFilenameSpec(filename: string)
    ensures All(CleanFilename(filename), c => !IsIllegal(c))
    ensures NoAdjacent(CleanFilename(filename), IsSpace)
    ensures IsTrimmed(CleanFilename(filename))
    ensures |CleanFilename(filename)| <= |filename|
  {
    var legal := c => !IsIllegal(c);
    var a := ReplaceIllegal(filename);
    var b := CollapseSpaces(a);
    assert All(a, legal);
    CollapseSpacesAll(a, legal);
    StripAll(b, legal);
    StripNoAdjacent(b, IsSpace);
  }

  /** Apart from whitespace, the cleaned name is the input with each illegal character
      replaced by `_`: every other character is kept, in order. */
  lemma CleanFilenameKeeps(filename: string)
    ensures Filter(CleanFilename(filename), NotSpace) == Filter(ReplaceIllegal(filename), NotSpace)
  {
    var b := CollapseSpaces(ReplaceIllegal(filename));
    StripFilter(b, NotSpace);
    CollapseSpacesKeeps(ReplaceIllegal(filename));
  }

  /** Cleaning a cleaned name changes nothing. */
  lemma CleanFilenameIdempotent(filename: string)
    ensures CleanFilename(CleanFilename(filename)) == CleanFilename(filename)
  {
    var r := CleanFilename(filename);
    CleanFilenameSpec(filename);
    assert ReplaceIllegal(r) == r by {
      assert All(r, c => !IsIllegal(c));
    }
    CollapseSpacesFixed(r);
    StripFixedPoint(r);
  }
}
