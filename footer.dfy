/** `setCurrentYear`: elements with class `current-year` get the current year as
    their text; on the portfolio page the `footer-bottom` element also has the
    year that follows its copyright sign replaced, in its serialized inner HTML.
    The current year is a parameter (the scripts read it from the clock). */
module Footer {
  import opened Strings

  /** The pattern's fixed part as written: the entity reference `&copy;` and a space. */
  const AsWrittenLead := "&copy; "

  /** What the serialized inner HTML actually holds before the year: the
      copyright sign U+00A9 itself and a space. */
  const CorrectedLead := "\U{A9} "

  /** The characters that may follow `&` in serialized HTML: the HTML fragment
      serialization algorithm writes `&` only as the start of `&amp;`, `&nbsp;`,
      `&lt;`, `&gt;` or `&quot;`. */
  const EntityInitials := {'a', 'n', 'l', 'g', 'q'}

  /** Inner HTML as the browser serializes it (outside comments and raw-text elements). */
  predicate Serialized(h: string) {
    forall i :: 0 <= i < |h| && h[i] == '&' ==> i + 1 < |h| && h[i + 1] in EntityInitials
  }

  /** `lead` followed by four decimal digits starts at index `i` of `h`. */
  predicate YearAt(h: string, lead: string, i: nat) {
    i + |lead| + 4 <= |h| && h[i..i + |lead|] == lead && AllDigits(h[i + |lead|..i + |lead| + 4])
  }

  /** The first match at or after `from`: the leftmost match of the non-global regular expression. */
  function FindYear(h: string, lead: string, from: nat): (r: Option<nat>)
    requires from <= |h|
    ensures r.Some? ==> from <= r.value && YearAt(h, lead, r.value)
    ensures r.Some? ==> forall j :: from <= j < r.value ==> !YearAt(h, lead, j)
    ensures r.None? ==> forall j :: from <= j ==> !YearAt(h, lead, j)
    decreases |h| - from
  {
    if from + |lead| + 4 > |h| then None
    else if YearAt(h, lead, from) then Some(from)
    else FindYear(h, lead, from + 1)
  }

  /** `h.replace(/<lead>\d{4}/, lead + year)`: the first match, if any, becomes `lead + year`. */
  function ReplaceYear(h: string, lead: string, year: string): (r: string)
    ensures FindYear(h, lead, 0).None? ==> r == h
    ensures FindYear(h, lead, 0).Some? ==>
              var i := FindYear(h, lead, 0).value;
              |r| == |h| - 4 + |year| && r[..i] == h[..i] && r[i..i + |lead| + |year|] == lead + year
              && r[i + |lead| + |year|..] == h[i + |lead| + 4..]
  {
    match FindYear(h, lead, 0)
    case None => h
    case Some(i) => h[..i] + (lead + year) + h[i + |lead| + 4..]
  }

  /** As written, the pattern never matches serialized inner HTML: the `&` of
      `&copy;` would have to be followed by `c`. So the footer keeps whatever
      year it was written with. */
  lemma AsWrittenNeverMatches(h: string, year: string)
    requires Serialized(h)
    ensures FindYear(h, AsWrittenLead, 0) == None
    ensures ReplaceYear(h, AsWrittenLead, year) == h
  {
    forall j: nat
      ensures !YearAt(h, AsWrittenLead, j)
    {
      if j + |AsWrittenLead| + 4 <= |h| {
        var w := h[j..j + |AsWrittenLead|];
        if h[j] != '&' {
          assert w[0] != AsWrittenLead[0];
        } else {
          assert w[1] == h[j + 1] != AsWrittenLead[1];
        }
      }
    }
  }

  /** A footer reading "© 2024 …" stays at 2024 whatever the year. */
  lemma AsWrittenKeepsOldYear(rest: string, year: int)
    requires Serialized(rest)
    ensures var h := CorrectedLead + "2024" + rest;
      ReplaceYear(h, AsWrittenLead, IntToString(year)) == h
  {
    var h := CorrectedLead + "2024" + rest;
    assert Serialized(h) by {
      forall i | 0 <= i < |h| && h[i] == '&'
        ensures i + 1 < |h| && h[i + 1] in EntityInitials
      {
        assert i >= 6 && h[i] == rest[i - 6];
        assert i + 1 < |h| ==> h[i + 1] == rest[i - 5];
      }
    }
    AsWrittenNeverMatches(h, IntToString(year));
  }

  /** Two texts with the same length that differ only where both hold a digit
      have the same year matches, for a lead without digits. */
  lemma SameMatches(h: string, g: string, lead: string, j: nat)
    requires |h| == |g|
    requires forall p :: 0 <= p < |h| && h[p] != g[p] ==> IsDigit(h[p]) && IsDigit(g[p])
    requires forall p :: 0 <= p < |lead| ==> !IsDigit(lead[p])
    ensures YearAt(h, lead, j) <==> YearAt(g, lead, j)
  {
    if YearAt(h, lead, j) {
      YearCarriesOver(h, g, lead, j);
    }
    if YearAt(g, lead, j) {
      YearCarriesOver(g, h, lead, j);
    }
  }

  lemma YearCarriesOver(h: string, g: string, lead: string, j: nat)
    requires |h| == |g|
    requires forall p :: 0 <= p < |h| && h[p] != g[p] ==> IsDigit(h[p]) && IsDigit(g[p])
    requires forall p :: 0 <= p < |lead| ==> !IsDigit(lead[p])
    requires YearAt(h, lead, j)
    ensures YearAt(g, lead, j)
  {
    var m := j + |lead|;
    forall q | j <= q < m
      ensures g[q] == h[q]
    {
      assert h[j..m][q - j] == h[q];
    }
    assert g[j..m] == h[j..m];
    forall q | m <= q < m + 4
      ensures IsDigit(g[q])
    {
      assert h[m..m + 4][q - m] == h[q];
    }
    var digits := g[m..m + 4];
    forall k | 0 <= k < 4
      ensures IsDigit(digits[k])
    {
      assert digits[k] == g[m + k];
    }
  }

  /** The same first match, from `from` on, for texts that agree up to digits. */
  lemma {:induction false} SameFirstMatch(h: string, g: string, lead: string, from: nat)
    requires |h| == |g| && from <= |h|
    requires forall p :: 0 <= p < |h| && h[p] != g[p] ==> IsDigit(h[p]) && IsDigit(g[p])
    requires forall p :: 0 <= p < |lead| ==> !IsDigit(lead[p])
    ensures FindYear(h, lead, from) == FindYear(g, lead, from)
    decreases |h| - from
  {
    if from + |lead| + 4 <= |h| {
      SameMatches(h, g, lead, from);
      if !YearAt(h, lead, from) {
        SameFirstMatch(h, g, lead, from + 1);
      }
    }
  }

  /** Corrected: the copyright year is updated, and updating again with the same
      four-digit year changes nothing. */
  lemma CorrectedIsIdempotent(h: string, year: string)
    requires |year| == 4 && AllDigits(year)
    ensures ReplaceYear(ReplaceYear(h, CorrectedLead, year), CorrectedLead, year)
            == ReplaceYear(h, CorrectedLead, year)
  {
    var lead := CorrectedLead;
    var g := ReplaceYear(h, lead, year);
    match FindYear(h, lead, 0)
    case None =>
    case Some(i) =>
      assert forall p :: 0 <= p < |lead| ==> !IsDigit(lead[p]);
      forall p | 0 <= p < |h| && h[p] != g[p]
        ensures IsDigit(h[p]) && IsDigit(g[p])
      {
        assert g[i..i + |lead| + 4][p - i] == (lead + year)[p - i];
        assert h[i + |lead|..i + |lead| + 4][p - i - |lead|] == h[p];
      }
      SameFirstMatch(h, g, lead, 0);
      assert g == g[..i] + (lead + year) + g[i + |lead| + 4..];
  }

  /** Corrected: with a copyright sign followed by a year in the footer, the
      footer afterwards shows the sign followed by the current year in that place. */
  lemma CorrectedShowsYear(h: string, year: int)
    requires 1000 <= year <= 9999
    requires FindYear(h, CorrectedLead, 0).Some?
    ensures |IntToString(year)| == 4
    ensures var i := FindYear(h, CorrectedLead, 0).value;
      var r := ReplaceYear(h, CorrectedLead, IntToString(year));
      r[i..i + 6] == CorrectedLead + IntToString(year) && ParseInt(r[i + 2..i + 6]) == Some(year)
  {
    var i := FindYear(h, CorrectedLead, 0).value;
    var r := ReplaceYear(h, CorrectedLead, IntToString(year));
    FourDigitYear(year);
    assert r[i + 2..i + 6] == r[i..i + 6][2..];
    ParseIntOfIntToString(year);
  }

  /** A year from 1000 to 9999 is printed with four digits. */
  lemma FourDigitYear(year: int)
    requires 1000 <= year <= 9999
    ensures |IntToString(year)| == 4 && AllDigits(IntToString(year))
  {
    var s := NatToString(year);
    ValueOfNatToString(year);
    BelowPower(s);
    if |s| <= 3 {
      Power10Monotone(|s|, 3);
    } else {
      AtLeastPower(s);
      if |s| >= 5 {
        Power10Monotone(4, |s| - 1);
      }
    }
  }

  function Power10(n: nat): nat {
    if n == 0 then 1 else 10 * Power10(n - 1)
  }

  lemma {:induction false} Power10Monotone(m: nat, n: nat)
    requires m <= n
    ensures Power10(m) <= Power10(n)
    decreases n
  {
    if m < n {
      Power10Monotone(m, n - 1);
    }
  }

  /** A digit string is below 10 to the power of its length. */
  lemma {:induction false} BelowPower(s: string)
    requires AllDigits(s)
    ensures DigitsValue(s) < Power10(|s|)
    decreases |s|
  {
    if s != [] {
      BelowPower(s[..|s| - 1]);
    }
  }

  /** A digit string with a non-zero first digit is at least 10 to the power of its length less one. */
  lemma {:induction false} AtLeastPower(s: string)
    requires AllDigits(s) && |s| > 0 && s[0] != '0'
    ensures DigitsValue(s) >= Power10(|s| - 1)
    decreases |s|
  {
    if |s| > 1 {
      var p := s[..|s| - 1];
      assert p[0] == s[0];
      AtLeastPower(p);
    } else {
      LeadingNonZeroIsPositive(s);
    }
  }

  /** The text of a `current-year` element: the year in decimal, which reads back as the year. */
  function YearText(year: int): (s: string)
    ensures ParseInt(s) == Some(year)
  {
    ParseIntOfIntToString(year);
    IntToString(year)
  }

  /** An element `setCurrentYear` visits: whether it has class `footer-bottom`
      (portfolio page only), and its content (inner HTML for the footer, text otherwise). */
  datatype YearElement = YearElement(footerBottom: bool, content: string)

  /** The portfolio's `setCurrentYear` over the elements matching
      `.current-year, .footer-bottom`, with `lead` the fixed part of the
      footer's pattern and of its replacement: `AsWrittenLead` is the page as
      written, `CorrectedLead` the evidently intended one. */
  function SetYear(elements: seq<YearElement>, lead: string, year: int): (r: seq<YearElement>)
    ensures |r| == |elements|
    ensures forall k :: 0 <= k < |r| ==> r[k].footerBottom == elements[k].footerBottom
    ensures forall k :: 0 <= k < |r| && !elements[k].footerBottom ==> ParseInt(r[k].content) == Some(year)
    ensures forall k :: 0 <= k < |r| && elements[k].footerBottom ==>
              r[k].content == ReplaceYear(elements[k].content, lead, IntToString(year))
  {
    seq(|elements|, k requires 0 <= k < |elements| =>
      var e := elements[k];
      if e.footerBottom then YearElement(true, ReplaceYear(e.content, lead, IntToString(year)))
      else YearElement(false, YearText(year)))
  }

  /** The page as written: every `current-year` element shows the year, and
      every footer keeps its serialized inner HTML unchanged. */
  lemma PortfolioSetYearAsWritten(elements: seq<YearElement>, year: int)
    requires forall k :: 0 <= k < |elements| && elements[k].footerBottom ==> Serialized(elements[k].content)
    ensures var r := SetYear(elements, AsWrittenLead, year);
      forall k :: 0 <= k < |r| ==>
        if elements[k].footerBottom then r[k] == elements[k] else ParseInt(r[k].content) == Some(year)
  {
    var r := SetYear(elements, AsWrittenLead, year);
    forall k | 0 <= k < |r| && elements[k].footerBottom
      ensures r[k] == elements[k]
    {
      AsWrittenNeverMatches(elements[k].content, IntToString(year));
    }
  }

  /** With the corrected pattern: every `current-year` element shows the year,
      and every footer with a copyright sign followed by a year shows the sign
      followed by the current year in that place. */
  lemma PortfolioSetYearCorrected(elements: seq<YearElement>, year: int)
    requires 1000 <= year <= 9999
    ensures |IntToString(year)| == 4
    ensures var r := SetYear(elements, CorrectedLead, year);
      forall k :: 0 <= k < |r| ==>
        if !elements[k].footerBottom then ParseInt(r[k].content) == Some(year)
        else match FindYear(elements[k].content, CorrectedLead, 0)
          case None => r[k] == elements[k]
          case Some(i) => r[k].content[i..i + 6] == CorrectedLead + IntToString(year)
  {
    FourDigitYear(year);
    var r := SetYear(elements, CorrectedLead, year);
    forall k | 0 <= k < |r| && elements[k].footerBottom && FindYear(elements[k].content, CorrectedLead, 0).Some?
      ensures var i := FindYear(elements[k].content, CorrectedLead, 0).value;
        r[k].content[i..i + 6] == CorrectedLead + IntToString(year)
    {
      CorrectedShowsYear(elements[k].content, year);
    }
  }

  /** The site's `setCurrentYear`: every `current-year` element shows the year. */
  function SiteSetYear(texts: seq<string>, year: int): (r: seq<string>)
    ensures |r| == |texts|
    ensures forall k :: 0 <= k < |r| ==> ParseInt(r[k]) == Some(year)
  {
    var t := YearText(year);
    seq(|texts|, _ => t)
  }
}
