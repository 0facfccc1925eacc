/** Python's integer text conversions as the decomposer uses them: `int(text)` on a captured
    group, `str(n)` for a season and `f"{n:02d}"` for an episode. */
module Numbers {
  import opened Wrappers
  import opened Text

  predicate IsDigit(c: char) {
    '0' <= c <= '9'
  }

  predicate AllDigits(s: string) {
    forall k :: 0 <= k < |s| ==> IsDigit(s[k])
  }

  /** The number of digits `s` starts with. */
  function DigitsBefore(s: string): (n: nat)
    ensures n <= |s|
    ensures forall k :: 0 <= k < n ==> IsDigit(s[k])
    ensures n < |s| ==> !IsDigit(s[n])
  {
    if s != [] && IsDigit(s[0]) then 1 + DigitsBefore(s[1..]) else 0
  }

  function DigitChar(d: nat): (c: char)
    requires d < 10
    ensures IsDigit(c) && c as int - '0' as int == d
  {
    ('0' as int + d) as char
  }

  /** The value of a run of decimal digits, most significant first. */
  function Value(ds: string): nat
    requires AllDigits(ds)
  {
    if ds == [] then 0 else Value(ds[..|ds| - 1]) * 10 + (ds[|ds| - 1] as int - '0' as int)
  }

  /** Decimal digits of `n` without leading zeros ("0" for zero). */
  function DigitsOf(n: nat): (r: string)
    ensures |r| >= 1 && AllDigits(r)
    ensures |r| > 1 ==> r[0] != '0'
    ensures n >= 10 ==> |r| >= 2
  {
    if n < 10 then [DigitChar(n)] else DigitsOf(n / 10) + [DigitChar(n % 10)]
  }

  /** `str(n)`. */
  function Show(n: int): string {
    if n < 0 then "-" + DigitsOf(-n) else DigitsOf(n)
  }

  /** `f"{n:02d}"`: zero padding to width two after the sign; a negative number already
      has two characters and is left as `str(n)`. */
  function Pad2(n: int): string {
    if 0 <= n < 10 then "0" + DigitsOf(n) else Show(n)
  }

  /** `int(text)`: surrounding whitespace, an optional sign, then one or more digits. */
  function ParseInt(text: string): Option<int> {
    var t := Strip(text);
    if t == [] then None
    else if t[0] == '-' || t[0] == '+' then
      if |t| > 1 && AllDigits(t[1..]) then Some(if t[0] == '-' then 0 - Value(t[1..]) else Value(t[1..]) as int) else None
    else if AllDigits(t) then Some(Value(t))
    else None
  }

  lemma {:induction false} ValueOfDigits(n: nat)
    ensures Value(DigitsOf(n)) == n
  {
    if n >= 10 {
      var d := DigitsOf(n / 10);
      assert (d + [DigitChar(n % 10)])[..|d|] == d;
      ValueOfDigits(n / 10);
    }
  }

  lemma {:induction false} LeadingZero(ds: string)
    requires AllDigits(ds)
    ensures Value("0" + ds) == Value(ds)
  {
    if ds != [] {
      var init := ds[..|ds| - 1];
      assert ("0" + ds)[..|ds|] == "0" + init;
      LeadingZero(init);
    }
  }

  lemma NoSpaceEnds(s: string)
    requires s != [] && !IsSpace(s[0]) && !IsSpace(s[|s| - 1])
    ensures Strip(s) == s
  {
    StripFixedPoint(s);
  }

  /** A non-empty run of digits reads as its value. */
  lemma DigitsParse(s: string)
    requires s != [] && AllDigits(s)
    ensures Strip(s) == s && ParseInt(s) == Some(Value(s) as int)
  {
    assert IsDigit(s[0]) && IsDigit(s[|s| - 1]);
    NoSpaceEnds(s);
  }

  /** `int(str(n)) == n`. */
  lemma ShowRoundTrip(n: int)
    ensures ParseInt(Show(n)) == Some(n)
  {
    var d := DigitsOf(if n < 0 then -n else n);
    ValueOfDigits(if n < 0 then -n else n);
    NoSpaceEnds(Show(n));
    if n < 0 {
      assert Show(n)[1..] == d;
    }
  }

  /** The episode text is the number zero-padded to at least two digits: for a non-negative
      number it is all digits, at least two of them, has no superfluous leading zero, and
      reads back as the same number; a negative number is written as `str(n)`. */
  lemma Pad2Spec(n: int)
    ensures ParseInt(Pad2(n)) == Some(n)
    ensures n >= 0 ==> |Pad2(n)| >= 2 && AllDigits(Pad2(n)) && Value(Pad2(n)) == n
    ensures n >= 0 && |Pad2(n)| > 2 ==> Pad2(n)[0] != '0'
    ensures n < 0 ==> Pad2(n) == Show(n)
  {
    if 0 <= n < 10 {
      ValueOfDigits(n);
      LeadingZero(DigitsOf(n));
      NoSpaceEnds(Pad2(n));
    } else {
      ShowRoundTrip(n);
      if n >= 0 {
        ValueOfDigits(n);
      }
    }
  }

  /** Examples of the episode format: 5 is "05", 12 stays "12", 123 is "123". */
  lemma Pad2Examples()
    ensures Pad2(5) == "05" && Pad2(12) == "12" && Pad2(123) == "123" && Pad2(-5) == "-5"
  {
  }
}
