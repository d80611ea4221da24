/** The e-mail shape check both contact forms use: the regular expression
    `^[^\s@]+@[^\s@]+\.[^\s@]+$`, and what it means in plain terms. */
module EmailPattern {
  import opened Strings

  /** A character of the class `[^\s@]`. */
  predicate Plain(c: char) {
    !IsJsSpace(c) && c != '@'
  }

  /** A non-empty run of `[^\s@]`, i.e. `[^\s@]+`. */
  predicate PlainRun(s: string) {
    |s| > 0 && forall i :: 0 <= i < |s| ==> Plain(s[i])
  }

  /** `emailRegex.test(s)`: the whole of `s` splits as `A@B.C` with `A`, `B`, `C`
      runs of `[^\s@]+`. The regex is anchored at both ends and has no flags, so a
      test is exactly the existence of such a split, with `at` the position of
      the `@` and `dot` the position of the `.` matched by `\.`. */
  predicate RegexTest(s: string) {
    exists at, dot | 0 <= at < dot < |s| ::
      s[at] == '@' && s[dot] == '.'
      && PlainRun(s[..at]) && PlainRun(s[at + 1..dot]) && PlainRun(s[dot + 1..])
  }

  predicate NoSpace(s: string) {
    forall i :: 0 <= i < |s| ==> !IsJsSpace(s[i])
  }

  /** `s` holds exactly one `@`, and it is at position `at`. */
  predicate OnlyAt(s: string, at: int) {
    0 <= at < |s| && s[at] == '@' && forall i :: 0 <= i < |s| && i != at ==> s[i] != '@'
  }

  /** The domain holds a `.` that is neither its first nor its last character. */
  predicate InnerDot(domain: string) {
    exists k :: 0 < k < |domain| - 1 && domain[k] == '.'
  }

  /** What the regex accepts, in plain terms: no white space, exactly one `@`,
      something before it, and after it a `.` that is neither first nor last. */
  predicate WellFormedAddress(s: string) {
    NoSpace(s) && exists at | 0 < at < |s| :: OnlyAt(s, at) && InnerDot(s[at + 1..])
  }

  lemma PlainRunSlice(s: string, lo: int, hi: int)
    requires 0 <= lo < hi <= |s|
    requires NoSpace(s) && forall i :: lo <= i < hi ==> s[i] != '@'
    ensures PlainRun(s[lo..hi])
  {
    forall i | 0 <= i < hi - lo ensures Plain(s[lo..hi][i]) {
      assert s[lo..hi][i] == s[lo + i];
    }
  }

  /** A split the regex finds puts the only `@` at `at` and an inner dot in the domain. */
  lemma SplitIsWellFormed(s: string, at: int, dot: int)
    requires 0 <= at < dot < |s| && s[at] == '@' && s[dot] == '.'
    requires PlainRun(s[..at]) && PlainRun(s[at + 1..dot]) && PlainRun(s[dot + 1..])
    ensures 0 < at && NoSpace(s) && OnlyAt(s, at) && InnerDot(s[at + 1..])
  {
    forall i | 0 <= i < |s| && i != at ensures Plain(s[i]) {
      if i < at {
        assert s[i] == s[..at][i];
      } else if i < dot {
        assert s[i] == s[at + 1..dot][i - at - 1];
      } else if i > dot {
        assert s[i] == s[dot + 1..][i - dot - 1];
      }
    }
    var domain := s[at + 1..];
    assert domain[dot - at - 1] == '.';
  }

  /** Conversely, the only `@` and an inner dot of the domain give the regex its split. */
  lemma WellFormedIsSplit(s: string, at: int, k: int)
    requires 0 < at && NoSpace(s) && OnlyAt(s, at)
    requires 0 < k < |s[at + 1..]| - 1 && s[at + 1..][k] == '.'
    ensures RegexTest(s)
  {
    var dot := at + 1 + k;
    assert s[dot] == '.';
    PlainRunSlice(s, 0, at);
    PlainRunSlice(s, at + 1, dot);
    PlainRunSlice(s, dot + 1, |s|);
    assert s[0..at] == s[..at];
    assert s[dot + 1..|s|] == s[dot + 1..];
  }

  /** The regex accepts a string exactly when it is a well-formed address. */
  lemma RegexTestIsWellFormed(s: string)
    ensures RegexTest(s) <==> WellFormedAddress(s)
  {
    if RegexTest(s) {
      var at, dot :| 0 <= at < dot < |s| && s[at] == '@' && s[dot] == '.'
        && PlainRun(s[..at]) && PlainRun(s[at + 1..dot]) && PlainRun(s[dot + 1..]);
      SplitIsWellFormed(s, at, dot);
    }
    if WellFormedAddress(s) {
      var at :| 0 < at < |s| && OnlyAt(s, at) && InnerDot(s[at + 1..]);
      var k :| 0 < k < |s[at + 1..]| - 1 && s[at + 1..][k] == '.';
      WellFormedIsSplit(s, at, k);
    }
  }

  /** Two example addresses: the first passes, the second does not. */
  lemma Examples()
    ensures RegexTest("ana@example.com")
    ensures !RegexTest("not-an-email")
  {
    var s := "ana@example.com";
    assert OnlyAt(s, 3) && s[4..][7] == '.';
    WellFormedIsSplit(s, 3, 7);
  }
}
