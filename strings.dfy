/** Character classes and number/text conversions that the page scripts rely on:
    JavaScript's `\s` and `\d`, `parseInt`, `Math.round` and the decimal text of an integer. */
module Strings {

  datatype Option<T> = None | Some(value: T)

  /** The characters matched by `\s` in a JavaScript regular expression
      (the ECMAScript WhiteSpace and LineTerminator code points). `parseInt`
      skips exactly these at the start of its argument. */
  predicate IsJsSpace(c: char) {
    || c == ' ' || c == '\t' || c == '\n' || c == '\U{B}' || c == '\U{C}' || c == '\r'
    || c == '\U{A0}' || c == '\U{1680}' || ('\U{2000}' <= c <= '\U{200A}')
    || c == '\U{2028}' || c == '\U{2029}' || c == '\U{202F}' || c == '\U{205F}'
    || c == '\U{3000}' || c == '\U{FEFF}'
  }

  /** `\d` and `[0-9]`: the ASCII decimal digits. */
  predicate IsDigit(c: char) {
    '0' <= c <= '9'
  }

  predicate AllDigits(s: string) {
    forall i :: 0 <= i < |s| ==> IsDigit(s[i])
  }

  /** A digit string as JavaScript prints a non-negative integer: no leading zero unless it is "0". */
  predicate Canonical(d: string) {
    |d| > 0 && AllDigits(d) && (d[0] == '0' ==> |d| == 1)
  }

  function DigitChar(n: nat): (c: char)
    requires n < 10
    ensures IsDigit(c)
  {
    "0123456789"[n]
  }

  function DigitValue(c: char): (n: nat)
    requires IsDigit(c)
    ensures n < 10 && DigitChar(n) == c
  {
    (c as int - '0' as int) as nat
  }

  /** The decimal text JavaScript produces for a non-negative integer. */
  function NatToString(n: nat): (s: string)
    ensures Canonical(s)
    decreases n
  {
    if n < 10 then [DigitChar(n)] else NatToString(n / 10) + [DigitChar(n % 10)]
  }

  /** The decimal text of an integer, with a leading '-' when it is negative. */
  function IntToString(i: int): string {
    if i < 0 then "-" + NatToString(-i) else NatToString(i)
  }

  /** The value of a string of decimal digits. */
  function DigitsValue(d: string): nat
    requires AllDigits(d)
    decreases |d|
  {
    if d == [] then 0 else DigitsValue(d[..|d| - 1]) * 10 + DigitValue(d[|d| - 1])
  }

  /** Reading back the printed text gives the number. */
  lemma {:induction false} ValueOfNatToString(n: nat)
    ensures DigitsValue(NatToString(n)) == n
    decreases n
  {
    var s := NatToString(n);
    if n >= 10 {
      ValueOfNatToString(n / 10);
      assert s[..|s| - 1] == NatToString(n / 10);
    }
  }

  lemma {:induction false} LeadingNonZeroIsPositive(d: string)
    requires |d| > 0 && AllDigits(d) && d[0] != '0'
    ensures DigitsValue(d) > 0
    decreases |d|
  {
    if |d| > 1 {
      LeadingNonZeroIsPositive(d[..|d| - 1]);
    }
  }

  /** Printing the value of a canonical digit string gives that string back. */
  lemma {:induction false} NatToStringOfValue(d: string)
    requires Canonical(d)
    ensures NatToString(DigitsValue(d)) == d
    decreases |d|
  {
    if |d| > 1 {
      var p := d[..|d| - 1];
      var last := DigitValue(d[|d| - 1]);
      LeadingNonZeroIsPositive(p);
      NatToStringOfValue(p);
      var v := DigitsValue(d);
      assert v == DigitsValue(p) * 10 + last;
      DivModTen(DigitsValue(p), last);
      assert NatToString(v) == NatToString(DigitsValue(p)) + [DigitChar(last)];
      assert d == p + [d[|d| - 1]];
    }
  }

  lemma DivModTen(q: nat, r: nat)
    requires r < 10
    ensures (q * 10 + r) / 10 == q && (q * 10 + r) % 10 == r
  {
  }

  /** `Math.round`: the nearest integer, halves rounded up. */
  function Round(x: real): (r: int)
    ensures x - 0.5 < r as real <= x + 0.5
  {
    (x + 0.5).Floor
  }

  /** The value of `d` read as digits of the given radix (10 or 16). */
  function RadixDigit(c: char, radix: nat): Option<nat> {
    if IsDigit(c) then Some(DigitValue(c))
    else if radix == 16 && 'a' <= c <= 'f' then Some((c as int - 'a' as int + 10) as nat)
    else if radix == 16 && 'A' <= c <= 'F' then Some((c as int - 'A' as int + 10) as nat)
    else None
  }

  /** The length of the longest prefix of `s` made of digits of `radix`. */
  function DigitRun(s: string, radix: nat): (k: nat)
    ensures k <= |s|
    ensures forall i :: 0 <= i < k ==> RadixDigit(s[i], radix).Some?
    ensures k < |s| ==> RadixDigit(s[k], radix).None?
    decreases |s|
  {
    if s == [] || RadixDigit(s[0], radix).None? then 0 else 1 + DigitRun(s[1..], radix)
  }

  function RadixValue(s: string, radix: nat): nat
    requires forall i :: 0 <= i < |s| ==> RadixDigit(s[i], radix).Some?
    decreases |s|
  {
    if s == [] then 0
    else RadixValue(s[..|s| - 1], radix) * radix + RadixDigit(s[|s| - 1], radix).value
  }

  function TrimStart(s: string): (t: string)
    ensures |t| <= |s| && t == s[|s| - |t|..]
    ensures t == [] || !IsJsSpace(t[0])
    decreases |s|
  {
    if s != [] && IsJsSpace(s[0]) then TrimStart(s[1..]) else s
  }

  /** JavaScript `parseInt(s)` with no radix argument: skip leading white space,
      read an optional sign, then the digits `ParseUnsigned` reads.
      `None` stands for NaN (no digit at all). */
  function ParseInt(s: string): Option<int> {
    var t := TrimStart(s);
    var negative := t != [] && t[0] == '-';
    var u := if t != [] && (t[0] == '-' || t[0] == '+') then t[1..] else t;
    match ParseUnsigned(u)
    case None => None
    case Some(v) => Some(if negative then -(v as int) else v as int)
  }

  /** The unsigned part of `parseInt`: a `0x`/`0X` prefix selects hexadecimal,
      and the longest run of digits of the radix is read. */
  function ParseUnsigned(u: string): Option<nat> {
    var hex := |u| >= 2 && u[0] == '0' && (u[1] == 'x' || u[1] == 'X');
    var radix := if hex then 16 else 10;
    var body := if hex then u[2..] else u;
    var k := DigitRun(body, radix);
    if k == 0 then None else Some(RadixValue(body[..k], radix))
  }

  lemma {:induction false} DecimalRadixValue(d: string)
    requires AllDigits(d)
    ensures forall i :: 0 <= i < |d| ==> RadixDigit(d[i], 10).Some?
    ensures RadixValue(d, 10) == DigitsValue(d)
    decreases |d|
  {
    if d != [] {
      DecimalRadixValue(d[..|d| - 1]);
    }
  }

  lemma {:induction false} DigitRunOfDigits(d: string)
    requires AllDigits(d)
    ensures DigitRun(d, 10) == |d|
    decreases |d|
  {
    if d != [] {
      DigitRunOfDigits(d[1..]);
    }
  }

  /** On a non-empty string of decimal digits, `parseInt` is the digits' value
      (a leading "0x" cannot occur, since `x` is not a digit). */
  lemma ParseIntOfDigits(d: string)
    requires |d| > 0 && AllDigits(d)
    ensures ParseInt(d) == Some(DigitsValue(d) as int)
  {
    assert !IsJsSpace(d[0]) && d[0] != '-' && d[0] != '+';
    assert TrimStart(d) == d;
    ParseUnsignedOfDigits(d);
  }

  /** The decimal digit run of `d + rest` stops where `d` does when `rest` does not start with a digit. */
  lemma {:induction false} DigitRunOfPrefix(d: string, rest: string)
    requires AllDigits(d) && (rest == [] || !IsDigit(rest[0]))
    ensures DigitRun(d + rest, 10) == |d|
    decreases |d|
  {
    if d != [] {
      assert (d + rest)[1..] == d[1..] + rest;
      DigitRunOfPrefix(d[1..], rest);
    } else {
      assert d + rest == rest;
    }
  }

  /** `parseInt` of digits followed by other text (a `%`, a `+`, a word) is the
      digits' value: it stops at the first character that is not a digit. */
  lemma ParseIntOfDigitsThenText(d: string, rest: string)
    requires |d| > 0 && AllDigits(d)
    requires rest == [] || (!IsDigit(rest[0]) && (d == "0" ==> rest[0] != 'x' && rest[0] != 'X'))
    ensures ParseInt(d + rest) == Some(DigitsValue(d) as int)
  {
    assert (d + rest)[0] == d[0];
    DigitStart(d + rest);
    ParseUnsignedOfDigitsThenText(d, rest);
  }

  /** Text that starts with a digit has no white space or sign for `parseInt` to skip. */
  lemma DigitStart(s: string)
    requires |s| > 0 && IsDigit(s[0])
    ensures ParseInt(s) == match ParseUnsigned(s) case None => None case Some(v) => Some(v as int)
  {
    assert !IsJsSpace(s[0]);
    assert TrimStart(s) == s;
  }

  lemma ParseUnsignedOfDigitsThenText(d: string, rest: string)
    requires |d| > 0 && AllDigits(d)
    requires rest == [] || (!IsDigit(rest[0]) && (d == "0" ==> rest[0] != 'x' && rest[0] != 'X'))
    ensures ParseUnsigned(d + rest) == Some(DigitsValue(d))
  {
    var s := d + rest;
    assert !(|s| >= 2 && s[0] == '0' && (s[1] == 'x' || s[1] == 'X')) by {
      if |s| >= 2 && s[0] == '0' {
        if |d| >= 2 {
          assert s[1] == d[1];
        } else {
          assert d == [s[0]] == "0";
          assert s[1] == rest[0];
        }
      }
    }
    DecimalPrefix(s);
    DigitRunOfPrefix(d, rest);
    assert s[..|d|] == d;
    DecimalRadixValue(d);
  }

  lemma ParseUnsignedOfDigits(d: string)
    requires |d| > 0 && AllDigits(d)
    ensures ParseUnsigned(d) == Some(DigitsValue(d))
  {
    assert |d| >= 2 ==> IsDigit(d[1]);
    DecimalPrefix(d);
    DigitRunOfDigits(d);
    assert d[..|d|] == d;
    DecimalRadixValue(d);
  }

  /** Without a `0x`/`0X` prefix, `parseInt` reads the longest run of decimal digits. */
  lemma DecimalPrefix(u: string)
    requires !(|u| >= 2 && u[0] == '0' && (u[1] == 'x' || u[1] == 'X'))
    ensures var k := DigitRun(u, 10);
      ParseUnsigned(u) == if k == 0 then None else Some(RadixValue(u[..k], 10))
  {
  }

  /** `parseInt` reads back the text of any integer. */
  lemma ParseIntOfIntToString(i: int)
    ensures ParseInt(IntToString(i)) == Some(i)
  {
    if i < 0 {
      var n: nat := -i;
      var d := NatToString(n);
      assert IntToString(i) == "-" + d;
      ValueOfNatToString(n);
      ParseUnsignedOfDigits(d);
      NegativeText(d);
    } else {
      var d := NatToString(i);
      assert IntToString(i) == d;
      ValueOfNatToString(i);
      ParseIntOfDigits(d);
    }
  }

  lemma NegativeText(d: string)
    requires |d| > 0 && AllDigits(d)
    ensures ParseInt("-" + d) == match ParseUnsigned(d) case None => None case Some(v) => Some(-(v as int))
  {
    var s := "-" + d;
    assert !IsJsSpace(s[0]);
    assert TrimStart(s) == s;
    assert s[1..] == d;
  }

  /** The characters of `s` that satisfy / fail `IsDigit`, in order:
      `s.replace(/\D/g, '')` and `s.replace(/[0-9]/g, '')`. */
  function Digits(s: string): (d: string)
    ensures AllDigits(d) && |d| <= |s|
    decreases |s|
  {
    if s == [] then [] else (if IsDigit(s[0]) then [s[0]] else []) + Digits(s[1..])
  }

  function NonDigits(s: string): (r: string)
    ensures forall i :: 0 <= i < |r| ==> !IsDigit(r[i])
    ensures |r| <= |s|
    decreases |s|
  {
    if s == [] then [] else (if IsDigit(s[0]) then [] else [s[0]]) + NonDigits(s[1..])
  }

  /** Splitting loses nothing: every character lands in exactly one of the two parts. */
  lemma {:induction false} SplitSizes(s: string)
    ensures |Digits(s)| + |NonDigits(s)| == |s|
    decreases |s|
  {
    if s != [] {
      SplitSizes(s[1..]);
    }
  }

  /** Text written as a run of digits followed by a digit-free suffix splits back into those two parts. */
  lemma {:induction false} SplitOfDigitsThenSuffix(d: string, suffix: string)
    requires AllDigits(d)
    requires forall i :: 0 <= i < |suffix| ==> !IsDigit(suffix[i])
    ensures Digits(d + suffix) == d && NonDigits(d + suffix) == suffix
    decreases |d| + |suffix|
  {
    var s := d + suffix;
    if d != [] {
      assert s[1..] == d[1..] + suffix;
      SplitOfDigitsThenSuffix(d[1..], suffix);
    } else if suffix != [] {
      assert s[1..] == [] + suffix[1..];
      SplitOfDigitsThenSuffix([], suffix[1..]);
    }
  }

  /** The split works piece by piece: splitting a concatenation concatenates the splits. */
  lemma {:induction false} SplitConcat(a: string, b: string)
    ensures Digits(a + b) == Digits(a) + Digits(b)
    ensures NonDigits(a + b) == NonDigits(a) + NonDigits(b)
    decreases |a|
  {
    if a != [] {
      assert (a + b)[1..] == a[1..] + b;
      SplitConcat(a[1..], b);
    } else {
      assert a + b == b;
    }
  }

  lemma SingleNonDigit(c: char)
    requires !IsDigit(c)
    ensures Digits([c]) == [] && NonDigits([c]) == [c]
  {
    assert [c][1..] == [];
  }
}
