/**
 Price-text conversion of the scrape command: every "Save " and every
 mis-decoded pound sign "Â£" is removed, and what is left is read as a
 number the way PHP's `floatval` reads a leading numeric prefix.
 */
module PriceText {

  /** The literal prefix of a discount text. */
  const SaveWord: string := "Save "

  /** The pound sign as it appears after the HTML parser has read UTF-8 as Latin-1 ("Â£"). */
  const MisdecodedPound: string := "\U{C2}\U{A3}"

  predicate IsDigit(c: char) {
    '0' <= c <= '9'
  }

  predicate AllDigits(s: string) {
    forall i :: 0 <= i < |s| ==> IsDigit(s[i])
  }

  function DigitValue(c: char): (d: nat)
    requires IsDigit(c)
    ensures d < 10
  {
    c as int - '0' as int
  }

  function DigitChar(d: nat): (c: char)
    requires d < 10
    ensures IsDigit(c) && DigitValue(c) == d
  {
    ('0' as int + d) as char
  }

  function Pow10(n: nat): (p: nat)
    ensures p >= 1
  {
    if n == 0 then 1 else 10 * Pow10(n - 1)
  }

  /* ---------------- str_replace with an empty replacement ---------------- */

  /** `p` occurs in `s` at index `i`. */
  predicate OccursAt(s: string, p: string, i: nat) {
    i + |p| <= |s| && s[i..i + |p|] == p
  }

  predicate Occurs(s: string, p: string) {
    exists i: nat :: i <= |s| && OccursAt(s, p, i)
  }

  /**
   Removes every occurrence of `p` from `s`, scanning left to right and
   taking non-overlapping matches, as PHP's `str_replace(p, "", s)` does.
   An empty search string leaves the subject unchanged.
   */
  function StripAll(s: string, p: string): (r: string)
    ensures |r| <= |s|
    ensures multiset(r) <= multiset(s)
    decreases |s|
  {
    if |p| == 0 || |s| < |p| then s
    else if s[..|p|] == p then
      assert s == s[..|p|] + s[|p|..];
      StripAll(s[|p|..], p)
    else
      assert s == [s[0]] + s[1..];
      [s[0]] + StripAll(s[1..], p)
  }

  /** Occurrences of `p` past the first character are exactly occurrences in the tail. */
  lemma OccursInTail(s: string, p: string)
    requires |s| > 0 && !OccursAt(s, p, 0)
    ensures Occurs(s, p) <==> Occurs(s[1..], p)
  {
    if Occurs(s, p) {
      var i: nat :| i <= |s| && OccursAt(s, p, i);
      assert i > 0;
      assert s[1..][i - 1..i - 1 + |p|] == s[i..i + |p|];
      assert OccursAt(s[1..], p, i - 1);
    }
    if Occurs(s[1..], p) {
      var j: nat :| j <= |s[1..]| && OccursAt(s[1..], p, j);
      assert s[1..][j..j + |p|] == s[j + 1..j + 1 + |p|];
      assert OccursAt(s, p, j + 1);
    }
  }

  /** Stripping changes nothing exactly when there is nothing to strip. */
  lemma {:induction false} StripAllUnchangedIff(s: string, p: string)
    requires |p| > 0
    ensures StripAll(s, p) == s <==> !Occurs(s, p)
    decreases |s|
  {
    if |s| < |p| {
      assert forall i: nat :: !OccursAt(s, p, i);
    } else if s[..|p|] == p {
      assert OccursAt(s, p, 0);
    } else {
      assert !OccursAt(s, p, 0);
      OccursInTail(s, p);
      StripAllUnchangedIff(s[1..], p);
      assert StripAll(s, p) == [s[0]] + StripAll(s[1..], p);
      if StripAll(s, p) == s {
        assert StripAll(s[1..], p) == StripAll(s, p)[1..];
      }
    }
  }

  /** A text in which the first character of `p` never appears is left alone. */
  lemma StripAllWithoutLead(s: string, p: string)
    requires |p| > 0
    requires forall i :: 0 <= i < |s| ==> s[i] != p[0]
    ensures StripAll(s, p) == s
  {
    StripAllUnchangedIff(s, p);
  }

  /** A leading occurrence is removed and scanning resumes after it. */
  lemma StripAllLeading(p: string, t: string)
    requires |p| > 0
    ensures StripAll(p + t, p) == StripAll(t, p)
  {
    assert (p + t)[..|p|] == p;
    assert (p + t)[|p|..] == t;
  }

  /** No occurrence before the end of `a` in `a + p + b` survives dropping `a`'s first character. */
  lemma NoOccurrenceInTail(a: string, p: string, b: string)
    requires |p| > 0 && |a| > 0
    requires forall i :: 0 <= i < |a| ==> !OccursAt(a + p + b, p, i)
    ensures forall i :: 0 <= i < |a| - 1 ==> !OccursAt(a[1..] + p + b, p, i)
  {
    var s := a + p + b;
    var t := a[1..] + p + b;
    assert t == s[1..];
    forall i | 0 <= i < |a| - 1
      ensures !OccursAt(t, p, i)
    {
      assert !OccursAt(s, p, i + 1);
      assert t[i..i + |p|] == s[i + 1..i + 1 + |p|];
    }
  }

  /** A character of `a` that cannot start `p` starts no occurrence in `a + p + b`. */
  lemma NoLeadBefore(a: string, p: string, b: string)
    requires |p| > 0
    requires forall i :: 0 <= i < |a| ==> a[i] != p[0]
    ensures forall i :: 0 <= i < |a| ==> !OccursAt(a + p + b, p, i)
  {
    var s := a + p + b;
    forall i | 0 <= i < |a|
      ensures !OccursAt(s, p, i)
    {
      assert s[i] == a[i];
    }
  }

  /**
   The general left-to-right step: when the first occurrence of `p` starts
   right after `a`, the text before it is kept, the occurrence is dropped and
   scanning resumes behind it.
   */
  lemma {:induction false} StripAllFirst(a: string, p: string, b: string)
    requires |p| > 0
    requires forall i :: 0 <= i < |a| ==> !OccursAt(a + p + b, p, i)
    ensures StripAll(a + p + b, p) == a + StripAll(b, p)
    decreases |a|
  {
    if |a| == 0 {
      assert a + p + b == p + b;
      StripAllLeading(p, b);
    } else {
      var s := a + p + b;
      var rest := a[1..] + p + b;
      var stripped := StripAll(b, p);
      HeadOfJoin(a, p + b);
      assert s == a + (p + b) && s[0] == a[0] && s[1..] == rest;
      assert !OccursAt(s, p, 0);
      StripAllSkip(s, p);
      NoOccurrenceInTail(a, p, b);
      StripAllFirst(a[1..], p, b);
      HeadOfJoin(a, stripped);
    }
  }

  /** A text that does not start with `p` keeps its first character and is stripped from the second on. */
  lemma StripAllSkip(s: string, p: string)
    requires |p| > 0 && |s| >= |p| && !OccursAt(s, p, 0)
    ensures StripAll(s, p) == [s[0]] + StripAll(s[1..], p)
  {
    assert s[..|p|] != p;
  }

  /** Splitting a non-empty `a` off the front of `a + t`. */
  lemma HeadOfJoin(a: string, t: string)
    requires |a| > 0
    ensures (a + t)[0] == a[0] && (a + t)[1..] == a[1..] + t
    ensures a + t == [a[0]] + (a[1..] + t)
  {
  }

  /** Worked example: a pound sign behind the number is removed too. */
  lemma ExampleTrailingPound()
    ensures StripAll("19.99" + MisdecodedPound, MisdecodedPound) == "19.99"
  {
    var a := "19.99";
    var p := MisdecodedPound;
    assert forall i :: 0 <= i < |a| ==> a[i] != p[0];
    NoLeadBefore(a, p, []);
    StripAllFirst(a, p, []);
    assert a + p + [] == a + p;
    assert StripAll([], p) == [];
    assert a + [] == a;
  }

  /* ---------------- floatval on a leading decimal prefix ---------------- */

  /** Length of the run of digits at the start of `s`. */
  function LeadingDigits(s: string): (n: nat)
    ensures n <= |s|
    ensures forall i :: 0 <= i < n ==> IsDigit(s[i])
    ensures n < |s| ==> !IsDigit(s[n])
  {
    if |s| > 0 && IsDigit(s[0]) then 1 + LeadingDigits(s[1..]) else 0
  }

  /** The natural number a string of decimal digits denotes. */
  function DigitsValue(d: string): (v: nat)
    requires AllDigits(d)
    ensures v < Pow10(|d|)
  {
    if |d| == 0 then 0
    else 10 * DigitsValue(d[..|d| - 1]) + DigitValue(d[|d| - 1])
  }

  lemma FractionBelowOne(v: nat, p: nat)
    requires v < p
    ensures 0.0 <= v as real / p as real < 1.0
  {
  }

  /**
   PHP's `floatval` restricted to unsigned decimals: the leading run of
   digits, optionally followed by "." and a further run of digits, read as a
   number; text with no such prefix reads as 0. Its integral part is the
   value of the leading digit run.
   */
  function ParseLeading(s: string): (r: real)
    ensures var whole := DigitsValue(s[..LeadingDigits(s)]) as real;
            whole <= r < whole + 1.0
    ensures (|s| == 0 || (!IsDigit(s[0]) && s[0] != '.')) ==> r == 0.0
  {
    var k := LeadingDigits(s);
    var whole := DigitsValue(s[..k]) as real;
    if k < |s| && s[k] == '.' then
      var rest := s[k + 1..];
      var f := LeadingDigits(rest);
      var v := DigitsValue(rest[..f]);
      FractionBelowOne(v, Pow10(f));
      whole + v as real / Pow10(f) as real
    else
      whole
  }

  /**
   The scrape command's `extractPrice`: strip "Save ", then "Â£", then read
   the leading number.
   */
  function ExtractPrice(text: string): (r: real)
    ensures r >= 0.0
  {
    ParseLeading(StripAll(StripAll(text, SaveWord), MisdecodedPound))
  }

  /** Text without a single digit has no leading number and reads as 0. */
  lemma ExtractPriceWithoutDigits(text: string)
    requires forall i :: 0 <= i < |text| ==> !IsDigit(text[i])
    ensures ExtractPrice(text) == 0.0
  {
    var s := StripAll(StripAll(text, SaveWord), MisdecodedPound);
    forall i | 0 <= i < |s|
      ensures !IsDigit(s[i])
    {
      assert s[i] in multiset(s);
      assert s[i] in text;
    }
    assert LeadingDigits(s) == 0;
    if |s| > 0 && s[0] == '.' {
      assert LeadingDigits(s[1..]) == 0;
    }
  }

  /* ---------------- rendering, the partner of parsing ---------------- */

  /** Decimal digits of `n`, most significant first, without leading zeros. */
  function DecimalDigits(n: nat): (d: string)
    ensures |d| >= 1 && AllDigits(d)
  {
    if n < 10 then [DigitChar(n)] else DecimalDigits(n / 10) + [DigitChar(n % 10)]
  }

  lemma {:induction false} DecimalDigitsRoundTrip(n: nat)
    ensures DigitsValue(DecimalDigits(n)) == n
  {
    var d := DecimalDigits(n);
    if n >= 10 {
      DecimalDigitsRoundTrip(n / 10);
      assert d[..|d| - 1] == DecimalDigits(n / 10);
    }
  }

  /** A pounds-and-pence amount as a page shows it, e.g. "19.99". */
  function FormatAmount(pounds: nat, pence: nat): (s: string)
    requires pence < 100
  {
    DecimalDigits(pounds) + "." + [DigitChar(pence / 10), DigitChar(pence % 10)]
  }

  function AmountValue(pounds: nat, pence: nat): real {
    pounds as real + pence as real / 100.0
  }

  /** The digit run of `d` ends where `d` ends when the next character is not a digit. */
  lemma {:induction false} LeadingDigitsOfRun(d: string, t: string)
    requires AllDigits(d)
    requires |t| == 0 || !IsDigit(t[0])
    ensures LeadingDigits(d + t) == |d|
    decreases |d|
  {
    if |d| > 0 {
      assert (d + t)[1..] == d[1..] + t;
      LeadingDigitsOfRun(d[1..], t);
    } else {
      assert d + t == t;
    }
  }

  /** Parsing a formatted amount followed by non-numeric text gives the amount back. */
  lemma ParseFormattedAmount(pounds: nat, pence: nat, tail: string)
    requires pence < 100
    requires |tail| == 0 || !IsDigit(tail[0])
    ensures ParseLeading(FormatAmount(pounds, pence) + tail) == AmountValue(pounds, pence)
  {
    var d := DecimalDigits(pounds);
    var cents := [DigitChar(pence / 10), DigitChar(pence % 10)];
    var s := FormatAmount(pounds, pence) + tail;
    assert s == d + ("." + cents + tail);
    LeadingDigitsOfRun(d, "." + cents + tail);
    assert s[..|d|] == d;
    DecimalDigitsRoundTrip(pounds);
    var rest := s[|d| + 1..];
    assert rest == cents + tail;
    LeadingDigitsOfRun(cents, tail);
    assert rest[..2] == cents;
    assert cents[..1] == [DigitChar(pence / 10)];
    assert DigitsValue(cents) == pence;
    assert Pow10(2) == 100;
  }

  /** A digit run followed by neither a digit nor '.' reads as the run's value. */
  lemma ParseWholeNumber(w: string, tail: string)
    requires AllDigits(w)
    requires |tail| == 0 || (!IsDigit(tail[0]) && tail[0] != '.')
    ensures ParseLeading(w + tail) == DigitsValue(w) as real
  {
    var s := w + tail;
    LeadingDigitsOfRun(w, tail);
    assert s[..|w|] == w;
  }

  /** The two groupings of `w + "." + f + tail` the proofs below use. */
  lemma Regroup(w: string, f: string, tail: string)
    ensures w + "." + f + tail == (w + ".") + (f + tail) == w + ("." + f + tail)
  {
  }

  /** Where the two digit runs of `w + "." + f + tail` start and end. */
  lemma DecimalShape(w: string, f: string, tail: string)
    requires AllDigits(w) && AllDigits(f)
    requires |tail| == 0 || !IsDigit(tail[0])
    ensures var s := (w + ".") + (f + tail);
      && LeadingDigits(s) == |w| && s[..|w|] == w
      && |w| < |s| && s[|w|] == '.'
      && s[|w| + 1..] == f + tail
      && LeadingDigits(f + tail) == |f| && (f + tail)[..|f|] == f
  {
    var s := (w + ".") + (f + tail);
    Regroup(w, f, tail);
    LeadingDigitsOfRun(w, "." + f + tail);
    assert s[..|w|] == w;
    assert |w + "."| == |w| + 1;
    assert s[|w| + 1..] == f + tail;
    LeadingDigitsOfRun(f, tail);
    assert (f + tail)[..|f|] == f;
  }

  /**
   A digit run, a point and a second digit run, followed by a non-digit,
   reads as the whole part plus the fraction the second run denotes.
   */
  lemma ParseDecimalNumber(w: string, f: string, tail: string)
    requires AllDigits(w) && AllDigits(f)
    requires |tail| == 0 || !IsDigit(tail[0])
    ensures ParseLeading(w + "." + f + tail)
      == DigitsValue(w) as real + DigitsValue(f) as real / Pow10(|f|) as real
  {
    Regroup(w, f, tail);
    DecimalShape(w, f, tail);
  }

  /** Text made only of digits and points. */
  predicate Numeric(s: string) {
    forall i :: 0 <= i < |s| ==> IsDigit(s[i]) || s[i] == '.'
  }

  lemma FormattedAmountIsNumeric(pounds: nat, pence: nat)
    requires pence < 100
    ensures Numeric(FormatAmount(pounds, pence))
  {
    var d := DecimalDigits(pounds);
    var c := [DigitChar(pence / 10), DigitChar(pence % 10)];
    assert FormatAmount(pounds, pence) == d + ("." + c);
    assert Numeric(d);
    assert Numeric("." + c);
  }

  /** Numeric text cannot hold a "Save " or "Â£", so stripping leaves it alone. */
  lemma NumericIsPlain(s: string)
    requires Numeric(s)
    ensures StripAll(s, SaveWord) == s
    ensures StripAll(s, MisdecodedPound) == s
  {
    StripAllWithoutLead(s, SaveWord);
    StripAllWithoutLead(s, MisdecodedPound);
  }

  /** Behind a pound sign, numeric text is read as it stands. */
  lemma ExtractPoundNumeric(a: string)
    requires Numeric(a)
    ensures ExtractPrice(MisdecodedPound + a) == ParseLeading(a)
  {
    var s := MisdecodedPound + a;
    NumericIsPlain(a);
    assert forall i :: 0 <= i < |s| ==> s[i] != SaveWord[0];
    StripAllWithoutLead(s, SaveWord);
    StripAllLeading(MisdecodedPound, a);
  }

  /** A price span "Â£19.99" reads as 19.99. */
  lemma ExtractPoundPrice(pounds: nat, pence: nat)
    requires pence < 100
    ensures ExtractPrice(MisdecodedPound + FormatAmount(pounds, pence)) == AmountValue(pounds, pence)
  {
    var a := FormatAmount(pounds, pence);
    FormattedAmountIsNumeric(pounds, pence);
    ExtractPoundNumeric(a);
    ParseFormattedAmount(pounds, pence, []);
    assert a + [] == a;
  }

  /** A discount paragraph "Save Â£5.00" reads as 5.00. */
  lemma ExtractSavePrice(pounds: nat, pence: nat)
    requires pence < 100
    ensures ExtractPrice(SaveWord + MisdecodedPound + FormatAmount(pounds, pence)) == AmountValue(pounds, pence)
  {
    var a := FormatAmount(pounds, pence);
    var s := MisdecodedPound + a;
    assert SaveWord + MisdecodedPound + a == SaveWord + s;
    StripAllLeading(SaveWord, s);
    assert StripAll(s, SaveWord) == s by {
      FormattedAmountIsNumeric(pounds, pence);
      assert forall i :: 0 <= i < |s| ==> s[i] != SaveWord[0];
      StripAllWithoutLead(s, SaveWord);
    }
    ExtractPoundPrice(pounds, pence);
  }

  /** Worked example: the price span "Â£19.99" reads as 19.99. */
  lemma ExamplePoundPrice()
    ensures ExtractPrice("\U{C2}\U{A3}19.99") == 19.99
  {
    assert DigitChar(1) == '1' && DigitChar(9) == '9';
    assert DecimalDigits(1) == "1";
    assert DecimalDigits(19) == DecimalDigits(1) + [DigitChar(9)];
    assert FormatAmount(19, 99) == "19" + "." + ['9', '9'];
    assert MisdecodedPound + FormatAmount(19, 99) == "\U{C2}\U{A3}19.99";
    ExtractPoundPrice(19, 99);
  }

  /** Worked example: the discount paragraph "Save Â£5.00" reads as 5.00. */
  lemma ExampleSavePrice()
    ensures ExtractPrice("Save \U{C2}\U{A3}5.00") == 5.0
  {
    assert DigitChar(5) == '5' && DigitChar(0) == '0';
    assert DecimalDigits(5) == "5";
    assert FormatAmount(5, 0) == "5" + "." + ['0', '0'];
    assert SaveWord + MisdecodedPound + FormatAmount(5, 0) == "Save \U{C2}\U{A3}5.00";
    ExtractSavePrice(5, 0);
  }

  /** Worked example: a correctly decoded "£0" has no leading number and reads as 0. */
  lemma ExampleNoLeadingNumber()
    ensures ExtractPrice("\U{A3}0") == 0.0
  {
    var s := "\U{A3}0";
    StripAllWithoutLead(s, SaveWord);
    StripAllWithoutLead(s, MisdecodedPound);
    assert !IsDigit(s[0]) && s[0] != '.';
  }

  /** Worked example: a price span "Â£0" reads as 0. */
  lemma ExamplePoundZero()
    ensures ExtractPrice(MisdecodedPound + "0") == 0.0
  {
    assert Numeric("0");
    ExtractPoundNumeric("0");
    ParseWholeNumber("0", []);
    assert "0" + [] == "0";
    assert DigitsValue("0") == 0 by {
      assert "0"[..0] == [];
    }
  }
}
