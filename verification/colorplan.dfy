/** The time-of-day resolver (`prep_hour`): which colours the strips show,
    how long each pixel holds, and how much of the strip carries the
    secondary colour, as a function of hour, minute and second. */
module ColorPlan {
  import opened Colors
  import opened Options

  /** A period of the day: from hour `start` on, show `color` over `secondary`. */
  datatype HourPeriod = HourPeriod(start: int, color: Color, secondary: Color)

  /** The period table, in day order: morning, work, break, lunch,
      afternoon, sunset, dinner, bed, sleep. */
  const HourPeriods: seq<HourPeriod> := [
    HourPeriod(7, BLUE, OFF),
    HourPeriod(9, MINT, OFF),
    HourPeriod(11, PINK, OFF),
    HourPeriod(12, GREEN, OFF),
    HourPeriod(13, YELLOW, OFF),
    HourPeriod(16, RED, OFF),
    HourPeriod(18, ORANGE, OFF),
    HourPeriod(19, PURPLE, OFF),
    HourPeriod(21, OFF, OFF)
  ]

  /** The calendar colour per weekday, Sunday first. */
  const DayPeriods: seq<Color> := [WHITE_RGB, BLUE, CYAN, YELLOW, PINK, CYAN, RED]

  /** What the resolver hands to the animators. */
  datatype Plan = Plan(primary: Color, secondary: Color, duration: real, fill: real)

  /** The fallback when no window holds the hour: everything off. */
  const Unresolved := Plan(OFF, OFF, 1.0, 1.0)

  /** The period paired with period `k`: the next one, the last wrapping to the first. */
  function Next(t: seq<HourPeriod>, k: nat): HourPeriod
    requires k < |t|
  {
    t[(k + 1) % |t|]
  }

  /** The hour lies in the window that starts at period `k` and ends where the next one begins. */
  predicate InWindow(t: seq<HourPeriod>, k: nat, hour: int)
    requires k < |t|
  {
    t[k].start <= hour < Next(t, k).start
  }

  /** The first window, from index `k` on, that holds `hour`. */
  function FindWindowFrom(t: seq<HourPeriod>, hour: int, k: nat): (w: Option<nat>)
    requires k <= |t|
    ensures w.Some? ==> k <= w.value < |t| && InWindow(t, w.value, hour)
    ensures w.Some? ==> forall j :: k <= j < w.value ==> !InWindow(t, j, hour)
    ensures w.None? <==> forall j :: k <= j < |t| ==> !InWindow(t, j, hour)
    decreases |t| - k
  {
    if k == |t| then None
    else if InWindow(t, k, hour) then Some(k)
    else FindWindowFrom(t, hour, k + 1)
  }

  /** The window `prep_hour` settles on: the first pair that holds the hour. */
  function FindWindow(t: seq<HourPeriod>, hour: int): Option<nat> {
    FindWindowFrom(t, hour, 0)
  }

  /** Quarter-hour pulse: the first three seconds of minutes 15, 30 and 45. */
  predicate IsPulse(minute: int, second: int) {
    minute in {15, 30, 45} && 0 <= second < 3
  }

  /** Final handoff: the last ten seconds of the hour. */
  predicate IsHandoff(minute: int, second: int) {
    minute == 59 && 50 <= second <= 59
  }

  /** `prep_hour` against the period table `t`; `rd` is the value
      `random_duration()` would return. The branches are tried in order:
      quarter-hour pulse, final handoff, ramp over minutes 55-59 (both only
      in the hour before the next period starts), steady state. */
  function Resolve(t: seq<HourPeriod>, hour: int, minute: int, second: int, rd: real): (p: Plan)
    requires |t| > 0
    ensures FindWindow(t, hour).None? ==> p == Unresolved
    ensures FindWindow(t, hour).Some? ==>
      var cur, nxt := t[FindWindow(t, hour).value], Next(t, FindWindow(t, hour).value);
      && (IsPulse(minute, second) ==> p == Plan(cur.color, cur.secondary, rd, 0.75))
      && (!IsPulse(minute, second) && hour == nxt.start - 1 && IsHandoff(minute, second) ==>
            p == Plan(nxt.color, cur.color, 0.01, 0.5))
      && (!IsPulse(minute, second) && hour == nxt.start - 1 && !IsHandoff(minute, second) && minute >= 55 ==>
            p == Plan(cur.color, nxt.color, rd, (minute - 55) as real / 5.0))
      && (!IsPulse(minute, second) && (hour != nxt.start - 1 || (!IsHandoff(minute, second) && minute < 55)) ==>
            p == Plan(cur.color, cur.secondary, rd, 0.25))
    ensures minute <= 59 ==> 0.0 <= p.fill <= 1.0
  {
    match FindWindow(t, hour)
    case None => Unresolved
    case Some(k) =>
      var cur, nxt := t[k], Next(t, k);
      if IsPulse(minute, second) then Plan(cur.color, cur.secondary, rd, 0.75)
      else if nxt.start - 1 == hour && IsHandoff(minute, second) then Plan(nxt.color, cur.color, 0.01, 0.5)
      else if nxt.start - 1 == hour && minute >= 55 then Plan(cur.color, nxt.color, rd, (minute - 55) as real / 5.0)
      else Plan(cur.color, cur.secondary, rd, 0.25)
  }

  /** `prep_hour` itself, on the program's period table. */
  function PrepHour(hour: int, minute: int, second: int, rd: real): (p: Plan)
    ensures !(7 <= hour < 21) ==> p == Unresolved
    ensures 7 <= hour < 21 ==> !(p.primary == OFF && p.secondary == OFF)
    ensures minute <= 59 ==> 0.0 <= p.fill <= 1.0
  {
    HourPeriodsIncreasing();
    WindowsPartition(HourPeriods, hour);
    var w := FindWindow(HourPeriods, hour);
    if w.Some? then
      assert Next(HourPeriods, 8) == HourPeriods[0];
      assert !InWindow(HourPeriods, 8, hour);
      NotOffBeforeSleep(w.value);
      Resolve(HourPeriods, hour, minute, second, rd)
    else Resolve(HourPeriods, hour, minute, second, rd)
  }

  /** Period starts strictly increase along the table. */
  ghost predicate Increasing(t: seq<HourPeriod>) {
    forall i, j :: 0 <= i < j < |t| ==> t[i].start < t[j].start
  }

  /** In an increasing table the windows are disjoint: once a window holds
      the hour, no later window does. */
  lemma LaterWindowsMiss(t: seq<HourPeriod>, hour: int, j: nat, k: nat)
    requires Increasing(t) && j < k < |t|
    requires InWindow(t, j, hour)
    ensures !InWindow(t, k, hour)
  {
    assert Next(t, j) == t[j + 1];
    assert j + 1 == k || t[j + 1].start < t[k].start;
  }

  /** A window of an increasing table lies between the first and the last
      start; in particular the wrapped pair (last, first) holds no hour. */
  lemma WindowInside(t: seq<HourPeriod>, hour: int, k: nat)
    requires Increasing(t) && k < |t|
    ensures InWindow(t, k, hour) ==> t[0].start <= hour < t[|t| - 1].start
  {
    if k == |t| - 1 {
      assert Next(t, k) == t[0];
    } else {
      assert Next(t, k) == t[k + 1];
      assert k + 1 == |t| - 1 || t[k + 1].start < t[|t| - 1].start;
    }
    assert k == 0 || t[0].start < t[k].start;
  }

  /** In an increasing table some window holds `hour` exactly when the hour
      lies between the first and the last start: the wrapped pair
      (last, first) is empty. */
  lemma {:induction false} WindowCovers(t: seq<HourPeriod>, hour: int, k: nat)
    requires Increasing(t) && k < |t|
    requires t[k].start <= hour < t[|t| - 1].start
    ensures exists j :: k <= j < |t| - 1 && InWindow(t, j, hour)
    decreases |t| - k
  {
    if hour < t[k + 1].start {
      assert InWindow(t, k, hour);
    } else {
      WindowCovers(t, hour, k + 1);
    }
  }

  /** The windows of an increasing table partition [first start, last start):
      an hour there falls in exactly one window, any other hour in none. */
  lemma WindowsPartition(t: seq<HourPeriod>, hour: int)
    requires Increasing(t) && |t| > 0
    ensures FindWindow(t, hour).Some? <==> t[0].start <= hour < t[|t| - 1].start
    ensures FindWindow(t, hour).Some? ==>
      forall j :: 0 <= j < |t| && InWindow(t, j, hour) ==> j == FindWindow(t, hour).value
  {
    if t[0].start <= hour < t[|t| - 1].start {
      WindowCovers(t, hour, 0);
    }
    var w := FindWindow(t, hour);
    if w.Some? {
      WindowInside(t, hour, w.value);
      forall j | 0 <= j < |t|
        ensures InWindow(t, j, hour) ==> j == w.value
      {
        if w.value < j {
          LaterWindowsMiss(t, hour, w.value, j);
        }
      }
    }
  }

  /** The program's table is increasing. */
  lemma HourPeriodsIncreasing()
    ensures Increasing(HourPeriods)
  {
    var t := HourPeriods;
    forall i, j | 0 <= i < j < |t| ensures t[i].start < t[j].start {
      assert t[i].start <= t[j].start - (j - i) by {
        StartsAt(i);
        StartsAt(j);
      }
    }
  }

  /** Each start of the program's table, with the margin that makes it increasing. */
  lemma StartsAt(i: int)
    requires 0 <= i < |HourPeriods|
    ensures HourPeriods[i].start - i == [7, 8, 9, 9, 9, 11, 12, 12, 13][i]
  {
  }

  /** On the program's table every hour in [7, 21) lies in exactly one
      window; hours 0-6 and 21-23 lie in none and resolve to all off. */
  lemma HoursCovered(hour: int, minute: int, second: int, rd: real)
    ensures FindWindow(HourPeriods, hour).Some? <==> 7 <= hour < 21
    ensures FindWindow(HourPeriods, hour).Some? ==>
      forall j :: 0 <= j < |HourPeriods| && InWindow(HourPeriods, j, hour) ==> j == FindWindow(HourPeriods, hour).value
    ensures !(7 <= hour < 21) ==> PrepHour(hour, minute, second, rd) == Unresolved
  {
    HourPeriodsIncreasing();
    WindowsPartition(HourPeriods, hour);
  }

  /** The strips go dark exactly at night: the plan has both colours off
      if and only if the hour is outside [7, 21). */
  lemma DarkExactlyAtNight(hour: int, minute: int, second: int, rd: real)
    ensures var p := PrepHour(hour, minute, second, rd);
      p.primary == OFF && p.secondary == OFF <==> !(7 <= hour < 21)
  {
    HoursCovered(hour, minute, second, rd);
    var w := FindWindow(HourPeriods, hour);
    if w.Some? {
      var k := w.value;
      assert Next(HourPeriods, 8) == HourPeriods[0];
      assert !InWindow(HourPeriods, 8, hour);
      assert k < 8;
      assert HourPeriods[k].color != OFF by { NotOffBeforeSleep(k); }
    }
  }

  /** Every period but the last (sleep) shows a colour. */
  lemma NotOffBeforeSleep(k: nat)
    requires k < 8
    ensures HourPeriods[k].color != OFF
  {
  }

  /** `prep_hour(8, 10, 1)`: steady state of the morning window. */
  lemma SteadyMorning(rd: real)
    ensures PrepHour(8, 10, 1, rd) == Plan(BLUE, OFF, rd, 0.25)
  {
    assert FindWindow(HourPeriods, 8) == Some(0);
  }

  /** `prep_hour(8, 59, 52)`: the final handoff from morning to work. */
  lemma HandoffToWork(rd: real)
    ensures PrepHour(8, 59, 52, rd) == Plan(MINT, BLUE, 0.01, 0.5)
  {
    assert FindWindow(HourPeriods, 8) == Some(0);
  }
}
