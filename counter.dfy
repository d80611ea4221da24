/** The animated counters. A counter starts at `start` and, on every tick of an
    interval, adds a fixed increment to its current value; when the value
    reaches the target it is clamped to the target and the interval stops.
    After every tick the element shows the rounded value followed by a suffix.
    The portfolio page (assets/js/script.js) runs `animateCounter` for its stat
    cards and skill bars; the site page (script.js) runs its own loop for the
    skill percentages. Values are exact reals, so the tick count is the one
    exact arithmetic gives. */
module Counter {
  import opened Strings

  /** The portfolio's interval, in milliseconds: the increment is chosen so the
      counter would take `duration` milliseconds in steps of this length. */
  const Tick: real := 16.0

  const StatDuration: real := 2000.0
  const SkillDuration: real := 1500.0

  /** The site's skill counter takes this many steps. */
  const SiteSteps: real := 50.0

  /** The counter's value after `k` ticks, before the clamp. */
  function Step(start: real, increment: real, k: nat): real {
    start + k as real * increment
  }

  /** `shown` is the sequence of values a counter displays, tick by tick: on
      tick `k` (from 1) the value `start + k * increment`, rounded, for as long
      as that is below `end`; on the first tick where it is not, `end` rounded,
      and no tick after that. */
  predicate IsRun(start: real, end: real, increment: real, shown: seq<int>) {
    && |shown| >= 1
    && Step(start, increment, |shown|) >= end
    && shown[|shown| - 1] == Round(end)
    && forall i :: 0 <= i < |shown| - 1 ==> Climbing(start, end, increment, shown, i)
  }

  /** Tick `i + 1` is still below the target and shows its value rounded. */
  predicate Climbing(start: real, end: real, increment: real, shown: seq<int>, i: nat)
    requires i < |shown|
  {
    Step(start, increment, i + 1) < end && shown[i] == Round(Step(start, increment, i + 1))
  }

  /** One tick of a run before the last. */
  lemma TickOf(start: real, end: real, increment: real, shown: seq<int>, i: nat)
    requires IsRun(start, end, increment, shown) && i < |shown| - 1
    ensures Step(start, increment, i + 1) < end && shown[i] == Round(Step(start, increment, i + 1))
  {
    assert Climbing(start, end, increment, shown, i);
  }

  /** The counter stops: either it climbs, or its first step already reaches the target. */
  predicate Settles(start: real, end: real, increment: real) {
    increment > 0.0 || start + increment >= end
  }

  /** The ticks left before a climbing counter at `current` reaches `end`. */
  function Remaining(current: real, end: real, increment: real): nat {
    if increment > 0.0 && current < end then ((end - current) / increment).Floor as nat + 1 else 0
  }

  lemma OneTickLess(current: real, end: real, increment: real)
    requires increment > 0.0 && current + increment < end
    ensures Remaining(current + increment, end, increment) < Remaining(current, end, increment)
  {
    DivShift(end - current, increment);
    assert end - (current + increment) == (end - current) - increment;
  }

  lemma DivShift(x: real, y: real)
    requires y > 0.0
    ensures (x - y) / y == x / y - 1.0
  {
    assert y / y == 1.0;
    assert (x - y) / y == x / y - y / y;
  }

  /** The tick loop of `animateCounter` and of the site's skill counter. */
  method RunCounter(start: real, end: real, increment: real) returns (shown: seq<int>)
    requires Settles(start, end, increment)
    ensures IsRun(start, end, increment, shown)
  {
    var current := start;
    var done := false;
    shown := [];
    while !done
      invariant !done ==> current == Step(start, increment, |shown|)
      invariant !done ==> forall i :: 0 <= i < |shown| ==> Climbing(start, end, increment, shown, i)
      invariant !done && increment <= 0.0 ==> shown == []
      invariant done ==> IsRun(start, end, increment, shown)
      decreases if done then 0 else 1 + Remaining(current, end, increment)
    {
      StepNext(start, increment, |shown|);
      current := current + increment;
      if current >= end {
        current := end;
        done := true;
      } else {
        OneTickLess(current - increment, end, increment);
      }
      KeepClimbing(start, end, increment, shown, Round(current));
      shown := shown + [Round(current)];
    }
  }

  lemma StepNext(start: real, increment: real, n: nat)
    ensures Step(start, increment, n + 1) == Step(start, increment, n) + increment
  {
  }

  /** Appending a tick keeps the earlier ticks as they were. */
  lemma KeepClimbing(start: real, end: real, increment: real, shown: seq<int>, v: int)
    requires forall i :: 0 <= i < |shown| ==> Climbing(start, end, increment, shown, i)
    ensures forall i :: 0 <= i < |shown| ==> Climbing(start, end, increment, shown + [v], i)
  {
    forall i | 0 <= i < |shown|
      ensures Climbing(start, end, increment, shown + [v], i)
    {
      assert Climbing(start, end, increment, shown, i);
      assert (shown + [v])[i] == shown[i];
    }
  }

  /** A run is determined by its start, target and increment: the tick on
      which the target is reached is the first one where the value is not below it. */
  lemma RunIsUnique(start: real, end: real, increment: real, a: seq<int>, b: seq<int>)
    requires IsRun(start, end, increment, a) && IsRun(start, end, increment, b)
    ensures a == b
  {
    if |a| < |b| {
      TickOf(start, end, increment, b, |a| - 1);
    } else if |b| < |a| {
      TickOf(start, end, increment, a, |b| - 1);
    } else {
      forall i | 0 <= i < |a|
        ensures a[i] == b[i]
      {
        if i < |a| - 1 {
          TickOf(start, end, increment, a, i);
          TickOf(start, end, increment, b, i);
        }
      }
    }
  }

  /** The clamp: no tick shows more than the rounded target, and the last one shows it exactly. */
  lemma RunNeverPassesTarget(start: real, end: real, increment: real, shown: seq<int>)
    requires IsRun(start, end, increment, shown)
    ensures forall i :: 0 <= i < |shown| ==> shown[i] <= Round(end)
    ensures shown[|shown| - 1] == Round(end)
  {
    forall i | 0 <= i < |shown| - 1
      ensures shown[i] <= Round(end)
    {
      TickOf(start, end, increment, shown, i);
      RoundMonotone(Step(start, increment, i + 1), end);
    }
  }

  lemma StepMonotone(start: real, increment: real, j: nat, k: nat)
    requires increment >= 0.0 && j <= k
    ensures Step(start, increment, j) <= Step(start, increment, k)
  {
    assert Step(start, increment, k) - Step(start, increment, j) == (k - j) as real * increment;
  }

  /** A climbing counter never goes back down, and never shows less than the rounded start. */
  lemma RunClimbs(start: real, end: real, increment: real, shown: seq<int>)
    requires IsRun(start, end, increment, shown) && increment > 0.0 && start <= end
    ensures forall i, j :: 0 <= i <= j < |shown| ==> shown[i] <= shown[j]
    ensures forall i :: 0 <= i < |shown| ==> Round(start) <= shown[i]
  {
    forall i, j | 0 <= i <= j < |shown|
      ensures shown[i] <= shown[j]
    {
      if i < |shown| - 1 {
        TickOf(start, end, increment, shown, i);
        if j < |shown| - 1 {
          TickOf(start, end, increment, shown, j);
          StepMonotone(start, increment, i + 1, j + 1);
          RoundMonotone(Step(start, increment, i + 1), Step(start, increment, j + 1));
        } else {
          RoundMonotone(Step(start, increment, i + 1), end);
        }
      }
    }
    forall i | 0 <= i < |shown|
      ensures Round(start) <= shown[i]
    {
      if i < |shown| - 1 {
        TickOf(start, end, increment, shown, i);
        StepMonotone(start, increment, 0, i + 1);
        RoundMonotone(start, Step(start, increment, i + 1));
      } else {
        RoundMonotone(start, end);
      }
    }
  }

  /** A counter whose target is not above its start shows the target on the first tick and stops. */
  lemma RunAtOrBelowStart(start: real, end: real, increment: real, shown: seq<int>)
    requires IsRun(start, end, increment, shown) && Settles(start, end, increment) && end <= start
    ensures shown == [Round(end)]
  {
    if |shown| > 1 {
      TickOf(start, end, increment, shown, 0);
    }
  }

  lemma RoundMonotone(x: real, y: real)
    requires x <= y
    ensures Round(x) <= Round(y)
  {
  }

  lemma RoundOfInt(v: int)
    ensures Round(v as real) == v
  {
  }

  /** A portfolio counter settles whenever its duration is at least one tick:
      climbing, the increment is positive; otherwise one step of at most the
      whole distance already reaches the target. */
  lemma LongDurationSettles(start: real, end: real, duration: real)
    requires duration >= Tick
    ensures Settles(start, end, Increment(start, end, duration))
  {
    var steps := duration / Tick;
    assert steps >= 1.0;
    var increment := (end - start) / steps;
    if end <= start {
      assert increment * steps == end - start;
      assert increment >= end - start;
    }
  }

  /** The texts a counter shows: each value followed by the suffix. */
  function Texts(shown: seq<int>, suffix: string): (r: seq<string>)
    ensures |r| == |shown|
    ensures forall i :: 0 <= i < |shown| ==> r[i] == IntToString(shown[i]) + suffix
  {
    seq(|shown|, i requires 0 <= i < |shown| => IntToString(shown[i]) + suffix)
  }

  /** The step of `animateCounter`: the distance split into `duration / 16` ticks. */
  function Increment(start: real, end: real, duration: real): real
    requires duration >= Tick
  {
    (end - start) / (duration / Tick)
  }

  /** `animateCounter(element, start, end, duration, suffix)`. */
  method AnimateCounter(start: real, end: real, duration: real, suffix: string) returns (shown: seq<int>, texts: seq<string>)
    requires duration >= Tick
    ensures IsRun(start, end, Increment(start, end, duration), shown)
    ensures texts == Texts(shown, suffix)
    ensures texts[|texts| - 1] == IntToString(Round(end)) + suffix
  {
    var increment := Increment(start, end, duration);
    LongDurationSettles(start, end, duration);
    shown := RunCounter(start, end, increment);
    texts := Texts(shown, suffix);
  }

  /** What a counter element shows: the target and the values and texts of its
      ticks when it settles, or the one text it shows on every tick when its
      target is NaN (no value compares as reaching NaN, so the interval never stops). */
  datatype Display =
    | Settled(target: int, values: seq<int>, texts: seq<string>)
    | Stuck(text: string)

  /** The target of a stat card: `parseInt` of the text's digits, NaN (`None`) when it has none. */
  function StatTarget(text: string): (r: Option<int>)
    ensures r == if Digits(text) == [] then None else Some(DigitsValue(Digits(text)) as int)
  {
    var digits := Digits(text);
    if digits == [] then ParseInt(digits)
    else ParseIntOfDigits(digits); ParseInt(digits)
  }

  /** The text a stat card ends on, when it settles. */
  function StatFinal(text: string): Option<string> {
    match StatTarget(text)
    case None => None
    case Some(v) => Some(IntToString(v) + NonDigits(text))
  }

  /** `animateStatCard`: counts from 0 to the number formed by the text's digits,
      over 2000 ms, followed by the text with its digits removed. */
  method AnimateStatCard(text: string) returns (d: Display)
    ensures d.Stuck? <==> Digits(text) == []
    ensures d.Stuck? ==> d.text == "NaN" + NonDigits(text)
    ensures d.Settled? ==>
              && Some(d.target) == StatTarget(text)
              && IsRun(0.0, d.target as real, Increment(0.0, d.target as real, StatDuration), d.values)
              && d.texts == Texts(d.values, NonDigits(text))
              && Some(d.texts[|d.texts| - 1]) == StatFinal(text)
  {
    var suffix := NonDigits(text);
    match StatTarget(text)
    case None =>
      d := Stuck("NaN" + suffix);
    case Some(v) =>
      var values, texts := AnimateCounter(0.0, v as real, StatDuration, suffix);
      RoundOfInt(v);
      d := Settled(v, values, texts);
  }

  /** A stat written as a number followed by a digit-free suffix ("120+",
      "5 ans") ends exactly as it was written. */
  lemma StatCardRoundTrip(digits: string, suffix: string)
    requires Canonical(digits)
    requires forall i :: 0 <= i < |suffix| ==> !IsDigit(suffix[i])
    ensures StatFinal(digits + suffix) == Some(digits + suffix)
  {
    SplitOfDigitsThenSuffix(digits, suffix);
    NatToStringOfValue(digits);
  }

  /** Digits are gathered from the whole text, so a separator inside the number
      moves behind it: "1,200+" ends as "1200,+". */
  lemma StatCardSeparatorMoves(a: string, sep: char, b: string, suffix: string)
    requires Canonical(a + b) && !IsDigit(sep)
    requires forall i :: 0 <= i < |suffix| ==> !IsDigit(suffix[i])
    ensures StatFinal(a + ([sep] + (b + suffix))) == Some((a + b) + ([sep] + suffix))
  {
    var text := a + ([sep] + (b + suffix));
    assert AllDigits(a) && AllDigits(b) by {
      assert forall i :: 0 <= i < |a| ==> a[i] == (a + b)[i];
      assert forall i :: 0 <= i < |b| ==> b[i] == (a + b)[|a| + i];
    }
    var tail := b + suffix;
    var rest := [sep] + tail;
    SplitOfDigitsThenSuffix(b, suffix);
    SingleNonDigit(sep);
    SplitConcat([sep], tail);
    SplitOfDigitsThenSuffix(a, []);
    assert a + [] == a;
    SplitConcat(a, rest);
    assert Digits(text) == a + b && NonDigits(text) == [sep] + suffix;
    NatToStringOfValue(a + b);
  }

  /** `animateSkillBar`: counts from 0 to `parseInt` of the percent text, over
      1500 ms, with no suffix. */
  method AnimateSkillBar(text: string) returns (d: Display)
    ensures d.Stuck? <==> ParseInt(text).None?
    ensures d.Stuck? ==> d.text == "NaN"
    ensures d.Settled? ==>
              && ParseInt(text) == Some(d.target)
              && IsRun(0.0, d.target as real, Increment(0.0, d.target as real, SkillDuration), d.values)
              && d.texts == Texts(d.values, "")
              && d.texts[|d.texts| - 1] == IntToString(d.target)
  {
    match ParseInt(text)
    case None =>
      d := Stuck("NaN");
    case Some(v) =>
      var values, texts := AnimateCounter(0.0, v as real, SkillDuration, "");
      RoundOfInt(v);
      d := Settled(v, values, texts);
  }

  /** A skill percent written as "85%" ends as "85": `parseInt` stops at the
      percent sign and the portfolio's counter adds no suffix. */
  lemma SkillBarEndsBare(digits: string, rest: string)
    requires Canonical(digits)
    requires rest == [] || (!IsDigit(rest[0]) && (digits == "0" ==> rest[0] != 'x' && rest[0] != 'X'))
    ensures ParseInt(digits + rest) == Some(DigitsValue(digits) as int)
    ensures IntToString(DigitsValue(digits) as int) == digits
  {
    ParseIntOfDigitsThenText(digits, rest);
    NatToStringOfValue(digits);
  }

  /** The site's counter settles for every target: positive, it climbs;
      otherwise a fiftieth of it is already at or above it. */
  lemma SiteCounterSettles(target: int)
    ensures Settles(0.0, target as real, target as real / SiteSteps)
  {
  }

  /** The site's skill counter (script.js): counts from 0 to `parseInt` of the
      percent text in steps of a fiftieth of it, followed by "%". */
  method SiteSkillCounter(text: string) returns (d: Display)
    ensures d.Stuck? <==> ParseInt(text).None?
    ensures d.Stuck? ==> d.text == "NaN%"
    ensures d.Settled? ==>
              && ParseInt(text) == Some(d.target)
              && IsRun(0.0, d.target as real, d.target as real / SiteSteps, d.values)
              && d.texts == Texts(d.values, "%")
              && d.texts[|d.texts| - 1] == IntToString(d.target) + "%"
  {
    match ParseInt(text)
    case None =>
      d := Stuck("NaN%");
    case Some(v) =>
      SiteCounterSettles(v);
      var values := RunCounter(0.0, v as real, v as real / SiteSteps);
      RoundOfInt(v);
      assert values[|values| - 1] == v;
      var texts := Texts(values, "%");
      assert texts[|texts| - 1] == IntToString(v) + "%";
      d := Settled(v, values, texts);
  }

  /** A positive target takes exactly fifty ticks on the site's counter. */
  lemma SiteCounterFiftyTicks(target: int, shown: seq<int>)
    requires target > 0
    requires IsRun(0.0, target as real, target as real / SiteSteps, shown)
    ensures |shown| == 50
  {
    var increment := target as real / SiteSteps;
    if |shown| > 50 {
      TickOf(0.0, target as real, increment, shown, 49);
    }
  }

  /** A percent text such as "85%" ends as it began on the site page. */
  lemma SiteSkillRoundTrip(digits: string)
    requires Canonical(digits)
    ensures ParseInt(digits + "%").Some?
    ensures IntToString(ParseInt(digits + "%").value) + "%" == digits + "%"
  {
    var v := DigitsValue(digits) as int;
    ParseIntOfDigitsThenText(digits, "%");
    assert ParseInt(digits + "%").value == v;
    NatToStringOfValue(digits);
    assert IntToString(v) == digits;
  }
}
