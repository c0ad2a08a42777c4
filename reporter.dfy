/** The reporter: `convert_time` renders a duration in milliseconds as days,
    hours, minutes and seconds, and `get_badge` maps a lifetime total to one
    of seven milestone tiers. Rust's `/` and `%` on `i64` truncate toward
    zero; `Quot` and `Rem` model them, so negative durations (the tool does
    not clamp a clock that went backwards) are rendered as Rust renders them. */
module Reporter {
  import opened Text

  const SecondMs: int := 1000
  const MinuteMs: int := 60 * SecondMs
  const HourMs: int := 60 * MinuteMs
  const DayMs: int := 24 * HourMs
  /** Badge thresholds are counted in 30-day months. */
  const MonthMs: int := 30 * DayMs

  /** Rust's integer `/`: the quotient truncated toward zero. */
  function Quot(a: int, b: int): int
    requires b > 0
  {
    if a >= 0 then a / b else -((-a) / b)
  }

  /** Rust's integer `%`: the remainder takes the sign of the dividend. */
  function Rem(a: int, b: int): int
    requires b > 0
  {
    a - b * Quot(a, b)
  }

  lemma QuotRem(a: int, b: int)
    requires b > 0
    ensures a == b * Quot(a, b) + Rem(a, b)
    ensures a >= 0 ==> Quot(a, b) >= 0 && 0 <= Rem(a, b) < b
    ensures a < 0 ==> Quot(a, b) <= 0 && -b < Rem(a, b) <= 0
  {
    if a >= 0 {
      DivFacts(a, b);
      assert Rem(a, b) == a % b;
    } else {
      DivFacts(-a, b);
      assert Rem(a, b) == -((-a) % b);
    }
  }

  lemma DivFacts(n: int, b: int)
    requires n >= 0 && b > 0
    ensures n == b * (n / b) + n % b && n / b >= 0 && 0 <= n % b < b
  {
  }

  datatype Duration = Duration(days: int, hours: int, minutes: int, seconds: int)

  /** The four divisions of `convert_time`; the milliseconds below one
      second are dropped. */
  function Decompose(time: int): Duration {
    var days := Quot(time, DayMs);
    var r1 := Rem(time, DayMs);
    var hours := Quot(r1, HourMs);
    var r2 := Rem(r1, HourMs);
    var minutes := Quot(r2, MinuteMs);
    var r3 := Rem(r2, MinuteMs);
    Duration(days, hours, minutes, Quot(r3, SecondMs))
  }

  /** The decomposition of a non-negative duration: every unit below days
      is within its range, and the parts add up to the input less its
      milliseconds below one second. */
  lemma DecomposeExact(time: int)
    requires time >= 0
    ensures var d := Decompose(time);
      d.days >= 0 && 0 <= d.hours < 24 && 0 <= d.minutes < 60 && 0 <= d.seconds < 60
    ensures var d := Decompose(time);
      d.days * DayMs + d.hours * HourMs + d.minutes * MinuteMs + d.seconds * SecondMs
        + time % SecondMs == time
  {
    var r1 := Rem(time, DayMs);
    var r2 := Rem(r1, HourMs);
    var r3 := Rem(r2, MinuteMs);
    QuotRem(time, DayMs);
    QuotRem(r1, HourMs);
    QuotRem(r2, MinuteMs);
    QuotRem(r3, SecondMs);
    Mod1000(time, Quot(time, DayMs) * 86400 + Quot(r1, HourMs) * 3600 + Quot(r2, MinuteMs) * 60, r3);
  }

  /** time = 1000 * q + r3 with r3 in [0, 60000) gives time % 1000 == r3 % 1000. */
  lemma Mod1000(time: int, q: int, r3: int)
    requires time == 1000 * q + r3 && 0 <= r3
    ensures time % 1000 == r3 % 1000
  {
  }

  /** Conversely, any in-range breakdown of a non-negative duration is the
      one `Decompose` finds: the decomposition is unique. */
  lemma DecomposeOf(time: int, d: Duration, ms: int)
    requires d.days >= 0 && 0 <= d.hours < 24 && 0 <= d.minutes < 60 && 0 <= d.seconds < 60
    requires 0 <= ms < 1000
    requires time == d.days * DayMs + d.hours * HourMs + d.minutes * MinuteMs + d.seconds * SecondMs + ms
    ensures Decompose(time) == d
  {
    var r1 := d.hours * HourMs + d.minutes * MinuteMs + d.seconds * SecondMs + ms;
    DivUnique(time, DayMs, d.days, r1);
    var r2 := d.minutes * MinuteMs + d.seconds * SecondMs + ms;
    DivUnique(r1, HourMs, d.hours, r2);
    var r3 := d.seconds * SecondMs + ms;
    DivUnique(r2, MinuteMs, d.minutes, r3);
    DivUnique(r3, SecondMs, d.seconds, ms);
  }

  lemma DivUnique(n: int, b: int, q: int, r: int)
    requires b > 0 && n == b * q + r && 0 <= r < b
    ensures n / b == q && n % b == r
  {
    var q0 := n / b;
    assert b * (q - q0) == n % b - r;
    if q > q0 {
      MulAtLeast(b, q - q0);
    } else if q < q0 {
      MulAtLeast(b, q0 - q);
    }
  }

  lemma MulAtLeast(b: int, k: int)
    requires b > 0 && k >= 1
    ensures b * k >= b
  {
  }

  /** Truncating division makes a negative duration decompose into the
      negated parts of its absolute value. */
  lemma DecomposeNegate(t: int)
    requires t > 0
    ensures var d := Decompose(t);
      Decompose(-t) == Duration(-d.days, -d.hours, -d.minutes, -d.seconds)
  {
  }

  /** A negative duration decomposes into non-positive parts: the days,
      hours and minutes are then never shown. */
  lemma DecomposeNegative(time: int)
    requires time < 0
    ensures var d := Decompose(time);
      d.days <= 0 && -24 < d.hours <= 0 && -60 < d.minutes <= 0 && -60 < d.seconds <= 0
  {
    var r1 := Rem(time, DayMs);
    var r2 := Rem(r1, HourMs);
    var r3 := Rem(r2, MinuteMs);
    QuotRem(time, DayMs);
    QuotRem(r1, HourMs);
    QuotRem(r2, MinuteMs);
    QuotRem(r3, SecondMs);
  }

  datatype Unit = Days | Hours | Minutes | Seconds

  function UnitName(u: Unit): string {
    match u
    case Days => "days"
    case Hours => "hours"
    case Minutes => "minutes"
    case Seconds => "seconds"
  }

  /** Position of a unit in the output, largest first. */
  function Rank(u: Unit): nat {
    match u
    case Days => 0
    case Hours => 1
    case Minutes => 2
    case Seconds => 3
  }

  function Amount(d: Duration, u: Unit): int {
    match u
    case Days => d.days
    case Hours => d.hours
    case Minutes => d.minutes
    case Seconds => d.seconds
  }

  datatype Phrase = Phrase(count: int, unit: Unit)

  /** The phrases `convert_time` pushes: days, hours and minutes only when
      positive, then always the seconds. */
  function Phrases(d: Duration): seq<Phrase> {
    (if d.days > 0 then [Phrase(d.days, Days)] else []) +
    (if d.hours > 0 then [Phrase(d.hours, Hours)] else []) +
    (if d.minutes > 0 then [Phrase(d.minutes, Minutes)] else []) +
    [Phrase(d.seconds, Seconds)]
  }

  /** The shape of the output: the seconds phrase is always present and
      last; a larger unit appears exactly when its amount is positive; the
      units come largest first, each with its own amount. */
  lemma PhrasesShape(d: Duration)
    ensures var ps := Phrases(d);
      1 <= |ps| <= 4 && ps[|ps| - 1] == Phrase(d.seconds, Seconds)
    ensures var ps := Phrases(d);
      forall u :: u != Seconds ==> (u in UnitsOf(ps) <==> Amount(d, u) > 0)
    ensures var ps := Phrases(d);
      forall k :: 0 <= k < |ps| ==> ps[k].count == Amount(d, ps[k].unit)
    ensures var ps := Phrases(d);
      forall j, k :: 0 <= j < k < |ps| ==> Rank(ps[j].unit) < Rank(ps[k].unit)
  {
    var ps := Phrases(d);
    forall u | u != Seconds
      ensures u in UnitsOf(ps) <==> Amount(d, u) > 0
    {
      if Amount(d, u) > 0 {
        var k := if u == Days then 0
          else if u == Hours then (if d.days > 0 then 1 else 0)
          else (if d.days > 0 then 1 else 0) + (if d.hours > 0 then 1 else 0);
        assert ps[k].unit == u;
      }
    }
  }

  /** The units a list of phrases mentions. */
  function UnitsOf(ps: seq<Phrase>): set<Unit> {
    set k | 0 <= k < |ps| :: ps[k].unit
  }

  /** `format!("{} days", n)` and its siblings. */
  function Render(p: Phrase): string {
    ToDecimal(p.count) + " " + UnitName(p.unit)
  }

  function RenderAll(ps: seq<Phrase>): (texts: seq<string>)
    ensures |texts| == |ps| && forall k :: 0 <= k < |ps| ==> texts[k] == Render(ps[k])
  {
    if ps == [] then [] else [Render(ps[0])] + RenderAll(ps[1..])
  }

  /** `Vec::join(" ")`. */
  function Join(parts: seq<string>): string {
    if parts == [] then ""
    else if |parts| == 1 then parts[0]
    else parts[0] + " " + Join(parts[1..])
  }

  /** The text `convert_time` returns for a duration. */
  function DurationText(time: int): string {
    Join(RenderAll(Phrases(Decompose(time))))
  }

  /** `convert_time`, step by step as the source computes it: `ms` is
      reduced in place and the phrases are pushed onto a vector. */
  method ConvertTime(time: int) returns (text: string)
    ensures text == DurationText(time)
  {
    var ms := time;
    var days := Quot(ms, DayMs);
    ms := Rem(ms, DayMs);
    var hours := Quot(ms, HourMs);
    ms := Rem(ms, HourMs);
    var minutes := Quot(ms, MinuteMs);
    ms := Rem(ms, MinuteMs);
    var seconds := Quot(ms, SecondMs);

    var parts: seq<Phrase> := [];
    if days > 0 { parts := parts + [Phrase(days, Days)]; }
    if hours > 0 { parts := parts + [Phrase(hours, Hours)]; }
    if minutes > 0 { parts := parts + [Phrase(minutes, Minutes)]; }
    parts := parts + [Phrase(seconds, Seconds)];
    assert parts == Phrases(Decompose(time));

    text := Join(RenderAll(parts));
  }

  /** A negative duration renders as its seconds phrase alone. */
  lemma NegativeDurationText(time: int)
    requires time < 0
    ensures DurationText(time) == ToDecimal(Decompose(time).seconds) + " seconds"
  {
    DecomposeNegative(time);
    var d := Decompose(time);
    assert Phrases(d) == [Phrase(d.seconds, Seconds)];
  }

  /** Renderings of zero, one second, and one of each unit stacked up to a
      day and a second, and a negative duration (minus 61 seconds) whose
      minute is dropped because only positive larger units are shown. */
  lemma DurationTextExamples()
    ensures DurationText(0) == "0 seconds"
    ensures DurationText(1000) == "1 seconds"
    ensures DurationText(61000) == "1 minutes 1 seconds"
    ensures DurationText(3661000) == "1 hours 1 minutes 1 seconds"
    ensures DurationText(90061000) == "1 days 1 hours 1 minutes 1 seconds"
    ensures DurationText(-61000) == "-1 seconds"
  {
    ExamplePhrases();
    ExampleRenderings();
    ExampleJoins();
    HourExampleJoin();
    DayExampleJoin();
  }

  lemma ExamplePhrases()
    ensures Phrases(Decompose(0)) == [Phrase(0, Seconds)]
    ensures Phrases(Decompose(1000)) == [Phrase(1, Seconds)]
    ensures Phrases(Decompose(61000)) == [Phrase(1, Minutes), Phrase(1, Seconds)]
    ensures Phrases(Decompose(3661000)) == [Phrase(1, Hours), Phrase(1, Minutes), Phrase(1, Seconds)]
    ensures Phrases(Decompose(90061000)) == [Phrase(1, Days), Phrase(1, Hours), Phrase(1, Minutes), Phrase(1, Seconds)]
    ensures Phrases(Decompose(-61000)) == [Phrase(-1, Seconds)]
  {
    DecomposeOf(0, Duration(0, 0, 0, 0), 0);
    DecomposeOf(1000, Duration(0, 0, 0, 1), 0);
    DecomposeOf(61000, Duration(0, 0, 1, 1), 0);
    DecomposeOf(3661000, Duration(0, 1, 1, 1), 0);
    DecomposeOf(90061000, Duration(1, 1, 1, 1), 0);
    DecomposeNegate(61000);
  }

  lemma ExampleRenderings()
    ensures RenderAll([Phrase(0, Seconds)]) == ["0 seconds"]
    ensures RenderAll([Phrase(1, Seconds)]) == ["1 seconds"]
    ensures RenderAll([Phrase(1, Minutes), Phrase(1, Seconds)]) == ["1 minutes", "1 seconds"]
    ensures RenderAll([Phrase(1, Hours), Phrase(1, Minutes), Phrase(1, Seconds)]) == ["1 hours", "1 minutes", "1 seconds"]
    ensures RenderAll([Phrase(1, Days), Phrase(1, Hours), Phrase(1, Minutes), Phrase(1, Seconds)]) == ["1 days", "1 hours", "1 minutes", "1 seconds"]
    ensures RenderAll([Phrase(-1, Seconds)]) == ["-1 seconds"]
  {
    OneUnitRendering();
  }

  lemma ExampleJoins()
    ensures Join(["0 seconds"]) == "0 seconds"
    ensures Join(["1 seconds"]) == "1 seconds"
    ensures Join(["1 minutes", "1 seconds"]) == "1 minutes 1 seconds"
    ensures Join(["-1 seconds"]) == "-1 seconds"
  {
  }

  lemma HourExampleJoin()
    ensures Join(["1 hours", "1 minutes", "1 seconds"]) == "1 hours 1 minutes 1 seconds"
  {
  }

  lemma DayExampleJoin()
    ensures Join(["1 days", "1 hours", "1 minutes", "1 seconds"]) == "1 days 1 hours 1 minutes 1 seconds"
  {
  }

  lemma OneUnitRendering()
    ensures Render(Phrase(0, Seconds)) == "0 seconds"
    ensures Render(Phrase(1, Seconds)) == "1 seconds"
    ensures Render(Phrase(1, Minutes)) == "1 minutes"
    ensures Render(Phrase(1, Hours)) == "1 hours"
    ensures Render(Phrase(1, Days)) == "1 days"
    ensures Render(Phrase(-1, Seconds)) == "-1 seconds"
  {
    assert ToDecimal(0) == "0" && ToDecimal(1) == "1" && ToDecimal(-1) == "-1";
  }

  /** Upper bound of tier `k`, exclusive: 3, 6, 12, 18, 24 and 36 months. */
  function TierBound(k: nat): int
    requires k < 6
  {
    [3, 6, 12, 18, 24, 36][k] * MonthMs
  }

  /** `get_badge`, with the seven badges numbered 0 to 6. */
  function Badge(time: int): (tier: nat)
    ensures tier < 7
    ensures forall k :: 0 <= k < 6 ==> (tier <= k <==> time < TierBound(k))
  {
    if time < 3 * 30 * 24 * 60 * 60 * 1000 then 0
    else if time < 6 * 30 * 24 * 60 * 60 * 1000 then 1
    else if time < 12 * 30 * 24 * 60 * 60 * 1000 then 2
    else if time < 18 * 30 * 24 * 60 * 60 * 1000 then 3
    else if time < 24 * 30 * 24 * 60 * 60 * 1000 then 4
    else if time < 36 * 30 * 24 * 60 * 60 * 1000 then 5
    else 6
  }

  /** A larger total never earns a lower badge. */
  lemma {:induction false} BadgeMonotone(t1: int, t2: int)
    requires t1 <= t2
    ensures Badge(t1) <= Badge(t2)
  {
    var b := Badge(t2);
    if b < 6 {
      assert t2 < TierBound(b);
    }
  }

  /** Each tier is a right-open band: exactly at a bound, the next tier. */
  lemma BadgeAtBound(k: nat)
    requires k < 6
    ensures Badge(TierBound(k)) == k + 1
    ensures Badge(TierBound(k) - 1) == k
  {
  }

  lemma BadgeExamples()
    ensures Badge(0) == 0
    ensures Badge(7776000000) == 1
    ensures Badge(40 * MonthMs) == 6
  {
  }
}
