/** Python string primitives the program relies on: the whitespace class shared by
    `str.strip()` and the regex class `\s`, `strip`, `str.replace(x, '', 1)` and
    `', '.join(...)`. */
module Text {
  import opened Wrappers

  /** Python's whitespace (`str.isspace`, and `\s` in a `str` pattern). */
  predicate IsSpace(c: char) {
    || c == ' '
    || ('\t' <= c <= '\r')
    || ('\U{1c}' <= c <= '\U{1f}')
    || c == '\U{85}' || c == '\U{a0}' || c == '\U{1680}'
    || ('\U{2000}' <= c <= '\U{200a}')
    || c == '\U{2028}' || c == '\U{2029}' || c == '\U{202f}' || c == '\U{205f}'
    || c == '\U{3000}'
  }

  /** No two neighbouring characters both satisfy `p`. */
  ghost predicate NoAdjacent(s: string, p: char -> bool) {
    forall k :: 0 <= k < |s| - 1 ==> !(p(s[k]) && p(s[k + 1]))
  }

  /** Neither end of `s` is whitespace. */
  predicate IsTrimmed(s: string) {
    s == [] || (!IsSpace(s[0]) && !IsSpace(s[|s| - 1]))
  }

  /** The number of whitespace characters `s` starts with. */
  function SpacesBefore(s: string): (n: nat)
    ensures n <= |s|
    ensures forall k :: 0 <= k < n ==> IsSpace(s[k])
    ensures n < |s| ==> !IsSpace(s[n])
  {
    if s != [] && IsSpace(s[0]) then 1 + SpacesBefore(s[1..]) else 0
  }

  /** A whitespace run of length `n` followed by a non-whitespace character, or by the end,
      is what `SpacesBefore` counts. */
  lemma SpacesBeforeIs(s: string, n: nat)
    requires n <= |s| && (n < |s| ==> !IsSpace(s[n]))
    requires forall k :: 0 <= k < n ==> IsSpace(s[k])
    ensures SpacesBefore(s) == n
  {
  }

  lemma ConcatAssoc(x: string, y: string, z: string)
    ensures x + (y + z) == (x + y) + z
  {
  }

  /** The number of whitespace characters `s` ends with. */
  function SpacesAfter(s: string): (n: nat)
    ensures n <= |s|
    ensures forall k :: |s| - n <= k < |s| ==> IsSpace(s[k])
    ensures n < |s| ==> !IsSpace(s[|s| - 1 - n])
  {
    if s != [] && IsSpace(s[|s| - 1]) then 1 + SpacesAfter(s[..|s| - 1]) else 0
  }

  /** Python's `s.strip()`: the slice of `s` left after dropping whitespace at both ends. */
  function Strip(s: string): (r: string)
    ensures IsTrimmed(r)
    ensures SpacesBefore(s) + |r| <= |s| && r == s[SpacesBefore(s)..SpacesBefore(s) + |r|]
    ensures forall k :: SpacesBefore(s) + |r| <= k < |s| ==> IsSpace(s[k])
  {
    var i := SpacesBefore(s);
    if i == |s| then [] else s[i..|s| - SpacesAfter(s)]
  }

  /** Stripping changes nothing exactly when neither end is whitespace. */
  lemma StripFixedPoint(s: string)
    ensures Strip(s) == s <==> IsTrimmed(s)
  {
    if IsTrimmed(s) && s != [] {
      assert SpacesBefore(s) == 0 && SpacesAfter(s) == 0;
    }
  }

  /** Every character of `s` satisfies `p`. */
  ghost predicate All(s: string, p: char -> bool) {
    forall k :: 0 <= k < |s| ==> p(s[k])
  }

  /** A property of every character survives stripping. */
  lemma StripAll(s: string, p: char -> bool)
    requires All(s, p)
    ensures All(Strip(s), p)
  {
    var i := SpacesBefore(s);
    var r := Strip(s);
    forall k | 0 <= k < |r| ensures p(r[k]) {
      assert r[k] == s[i + k];
    }
  }

  /** A property of neighbouring characters survives stripping. */
  lemma StripNoAdjacent(s: string, p: char -> bool)
    requires NoAdjacent(s, p)
    ensures NoAdjacent(Strip(s), p)
  {
    var i := SpacesBefore(s);
    var r := Strip(s);
    forall k | 0 <= k < |r| - 1 ensures !(p(r[k]) && p(r[k + 1])) {
      assert r[k] == s[i + k] && r[k + 1] == s[i + k + 1];
    }
  }

  predicate NotSpace(c: char) {
    !IsSpace(c)
  }

  /** The characters of `s` that satisfy `p`, in order. */
  function Filter(s: string, p: char -> bool): (r: string)
    ensures |r| <= |s|
  {
    if s == [] then [] else (if p(s[0]) then [s[0]] else []) + Filter(s[1..], p)
  }

  /** Filtering distributes over concatenation. */
  lemma {:induction false} FilterConcat(a: string, b: string, p: char -> bool)
    ensures Filter(a + b, p) == Filter(a, p) + Filter(b, p)
    decreases |a|
  {
    if a != [] {
      assert (a + b)[0] == a[0] && (a + b)[1..] == a[1..] + b;
      FilterConcat(a[1..], b, p);
    } else {
      assert a + b == b;
    }
  }

  /** A text none of whose characters satisfies `p` filters to nothing. */
  lemma {:induction false} FilterNone(a: string, p: char -> bool)
    requires forall k :: 0 <= k < |a| ==> !p(a[k])
    ensures Filter(a, p) == []
    decreases |a|
  {
    if a != [] {
      FilterNone(a[1..], p);
    }
  }

  /** One character in front: it is kept exactly when it satisfies `p`. */
  lemma FilterCons(c: char, a: string, p: char -> bool)
    ensures Filter([c] + a, p) == (if p(c) then [c] else []) + Filter(a, p)
  {
    assert ([c] + a)[1..] == a;
  }

  /** Stripping only removes whitespace, so it keeps every character that whitespace never
      satisfies, in order. */
  lemma {:induction false} StripFilter(s: string, p: char -> bool)
    requires forall k :: 0 <= k < |s| && IsSpace(s[k]) ==> !p(s[k])
    ensures Filter(Strip(s), p) == Filter(s, p)
  {
    var r := Strip(s);
    var i := SpacesBefore(s);
    var j := i + |r|;
    assert r == s[i..j];
    FilterOutside(s, i, j, p);
    assert Filter(r, p) == Filter(s[i..j], p);
  }

  /** When nothing before `i` or from `j` on satisfies `p`, filtering sees only `s[i..j]`. */
  lemma {:induction false} FilterOutside(s: string, i: nat, j: nat, p: char -> bool)
    requires i <= j <= |s|
    requires forall k :: 0 <= k < i ==> !p(s[k])
    requires forall k :: j <= k < |s| ==> !p(s[k])
    ensures Filter(s[i..j], p) == Filter(s, p)
    decreases |s|
  {
    if s == [] {
    } else if i > 0 {
      FilterOutside(s[1..], i - 1, j - 1, p);
      FilterOutsideFront(s, i, j, p);
    } else if j == 0 {
      FilterNone(s, p);
    } else {
      FilterOutside(s[1..], 0, j - 1, p);
      FilterOutsideHead(s, j, p);
    }
  }

  lemma FilterOutsideFront(s: string, i: nat, j: nat, p: char -> bool)
    requires 0 < i <= j <= |s| && !p(s[0])
    requires Filter(s[1..][i - 1..j - 1], p) == Filter(s[1..], p)
    ensures Filter(s[i..j], p) == Filter(s, p)
  {
    assert s[1..][i - 1..j - 1] == s[i..j];
  }

  lemma FilterOutsideHead(s: string, j: nat, p: char -> bool)
    requires 0 < j <= |s|
    requires Filter(s[1..][0..j - 1], p) == Filter(s[1..], p)
    ensures Filter(s[0..j], p) == Filter(s, p)
  {
    assert s[0..j][0] == s[0] && s[0..j][1..] == s[1..][0..j - 1];
  }

  /** `pat` occurs in `s` starting at index `j`. */
  predicate OccursAt(s: string, pat: string, j: nat) {
    j + |pat| <= |s| && s[j..j + |pat|] == pat
  }

  /** Index of the first occurrence of `pat` in `s` at or after `from` (`str.find`). */
  function IndexOf(s: string, pat: string, from: nat): (r: Option<nat>)
    requires from <= |s|
    ensures r.Some? ==> from <= r.value && OccursAt(s, pat, r.value)
    ensures r.Some? ==> forall j :: from <= j < r.value ==> !OccursAt(s, pat, j)
    ensures r.None? ==> forall j :: from <= j ==> !OccursAt(s, pat, j)
    decreases |s| - from
  {
    if from + |pat| > |s| then None
    else if OccursAt(s, pat, from) then Some(from)
    else IndexOf(s, pat, from + 1)
  }

  /** `s.replace(pat, '', 1)`: the first occurrence of `pat` is cut out; an empty `pat` or a
      missing one leaves `s` as it is. */
  function RemoveFirst(s: string, pat: string): string {
    match IndexOf(s, pat, 0)
    case None => s
    case Some(i) => s[..i] + s[i + |pat|..]
  }

  /** A non-empty pattern is cut out exactly when it occurs, and then the text shrinks by its
      length; an empty one changes nothing. */
  lemma RemoveFirstSpec(s: string, pat: string)
    ensures pat == [] ==> RemoveFirst(s, pat) == s
    ensures pat != [] ==> ((exists j :: OccursAt(s, pat, j)) <==> RemoveFirst(s, pat) != s)
    ensures (exists j :: OccursAt(s, pat, j)) ==> |RemoveFirst(s, pat)| == |s| - |pat|
  {
    if pat == [] {
      assert OccursAt(s, pat, 0);
    }
  }

  /** `', '.join(xs)`. */
  function Join(xs: seq<string>): string {
    if xs == [] then ""
    else if |xs| == 1 then xs[0]
    else xs[0] + ", " + Join(xs[1..])
  }

  /** The joined remarks are empty exactly when there is no remark or a single empty one,
      which is when `', '.join(...) or None` yields `None`. */
  lemma JoinEmpty(xs: seq<string>)
    ensures Join(xs) == "" <==> xs == [] || xs == [""]
  {
    if |xs| >= 2 {
      assert |Join(xs)| >= 2;
    }
  }
}
