/** One pass of the main loop: read the clock, resolve the plan, classify
    the moment, refresh the random colour cycles, and drive each of the
    three lights (top ring, middle jewel, bottom ring) with the animator its
    role and the moment call for. Every random draw and clock reading of the
    pass is a parameter. */
module Orchestrator {
  import opened Colors
  import opened Options
  import opened Strip
  import opened ColorPlan
  import opened Crossfade
  import opened Band
  import opened Shuffle

  /** An RTC reading: weekday (0 = Sunday, as the calendar table is laid
      out), hour, minute, second. */
  datatype Clock = Clock(wday: int, hour: int, minute: int, second: int)
  {
    /** The ranges the clock reports. */
    predicate Valid() {
      0 <= wday < 7 && 0 <= hour < 24 && 0 <= minute < 60 && 0 <= second < 60
    }
  }

  /** The lights in the order the loop visits them. */
  datatype Role = Top | Middle | Bottom

  const Roles: seq<Role> := [Top, Middle, Bottom]
  /** Pixel counts: 16-pixel rings at top and bottom, the 8-pixel jewel between. */
  const Sizes: seq<nat> := [16, 8, 16]
  /** Channels per pixel: GRB rings, a GRBW jewel. */
  const Bpps: seq<nat> := [3, 4, 3]
  /** The constructor's default fade duration. */
  const FadeDuration: real := 0.5

  /** `is_it_transition`, as written: the hour before the morning starts at
      59:45 or later, or any hour at 59:45 or later. The first half implies
      the second, so the flag does not depend on the hour: it holds exactly
      in the last fifteen seconds of every hour. */
  predicate IsTransition(hour: int, minute: int, second: int): (t: bool)
    ensures t <==> minute >= 59 && second >= 45
  {
    (hour == HourPeriods[0].start - 1 && minute >= 59 && second >= 45) || (minute >= 59 && second >= 45)
  }

  /** `is_it_friday`: weekday 5, which the weekday table (Sunday first)
      paints CYAN. */
  predicate IsFriday(wday: int): (f: bool)
    ensures f <==> wday == 5
    ensures f ==> 0 <= wday < |DayPeriods| && DayPeriods[wday] == CYAN
  {
    wday == 5
  }

  /** How the loop drives the lights this pass, in the order its branches
      are tried: all off, fast crossfade, calm crossfade, per-role default. */
  datatype Mode = Night | Transition | Friday | Normal

  /** The per-light branch the loop takes; the same for all three lights. */
  function Classify(plan: Plan, transition: bool, friday: bool): (m: Mode)
    ensures m == Night <==> plan.primary == OFF && plan.secondary == OFF
    ensures m == Transition <==> !(plan.primary == OFF && plan.secondary == OFF) && transition
    ensures m == Friday <==> !(plan.primary == OFF && plan.secondary == OFF) && !transition && friday
    ensures m == Normal <==> !(plan.primary == OFF && plan.secondary == OFF) && !transition && !friday
  {
    if plan.primary == OFF && plan.secondary == OFF then Night
    else if transition then Transition
    else if friday || transition then Friday
    else Normal
  }

  /** The moment a clock reading stands for, from the clock alone: night
      outside [7, 21); otherwise the last fifteen seconds of an hour, then
      Fridays, then the rest. */
  function Moment(c: Clock): Mode {
    if !(7 <= c.hour < 21) then Night
    else if c.minute >= 59 && c.second >= 45 then Transition
    else if c.wday == 5 then Friday
    else Normal
  }

  /** The loop's classification agrees with the clock-only description,
      whatever `random_duration` returns. */
  lemma ClassifyIsMoment(c: Clock, rd: real)
    ensures Classify(PrepHour(c.hour, c.minute, c.second, rd), IsTransition(c.hour, c.minute, c.second), IsFriday(c.wday)) == Moment(c)
  {
    DarkExactlyAtNight(c.hour, c.minute, c.second, rd);
  }

  /** The cycles after the update at the top of the pass: reshuffled on
      every transition pass and on a Friday pass that finds none, dropped
      when neither holds, kept otherwise. */
  function UpdateCycles(cycles: seq<seq<Color>>, transition: bool, friday: bool, shuffled: seq<seq<Color>>): (r: seq<seq<Color>>)
    ensures transition ==> r == shuffled
    ensures !transition && friday ==> r == if |cycles| == 0 then shuffled else cycles
    ensures !transition && !friday ==> r == []
  {
    if transition || (friday && |cycles| == 0) then shuffled
    else if !friday && !transition then []
    else cycles
  }

  /** Cycles are either absent or one full palette per light, each a
      rearrangement of that light's nine colours. */
  ghost predicate CyclesReady(cycles: seq<seq<Color>>) {
    cycles == [] || (|cycles| == 3 && forall i :: 0 <= i < 3 ==> multiset(cycles[i]) == multiset(Palette(Sizes[i])))
  }

  /** A ready cycle holds the nine colours of its light's palette. */
  lemma ReadyCycleFull(cycles: seq<seq<Color>>, i: nat)
    requires CyclesReady(cycles) && |cycles| == 3 && i < 3
    ensures |cycles[i]| == 9
  {
    assert |cycles[i]| == |multiset(cycles[i])|;
  }

  /** The update keeps the cycles ready, and leaves a full set whenever a
      crossfade will read them. */
  lemma UpdateKeepsReady(cycles: seq<seq<Color>>, transition: bool, friday: bool, shuffled: seq<seq<Color>>)
    requires CyclesReady(cycles) && |shuffled| == 3
    requires forall i :: 0 <= i < 3 ==> multiset(shuffled[i]) == multiset(Palette(Sizes[i]))
    ensures CyclesReady(UpdateCycles(cycles, transition, friday, shuffled))
    ensures transition || friday ==> |UpdateCycles(cycles, transition, friday, shuffled)| == 3
  {
  }

  /** On Fridays outside transitions the palettes are shuffled once: a
      second pass keeps what the first one chose, whatever it draws. */
  lemma FridayShufflesOnce(cycles: seq<seq<Color>>, first: seq<seq<Color>>, second: seq<seq<Color>>)
    requires |first| == 3
    ensures var once := UpdateCycles(cycles, false, true, first);
      UpdateCycles(once, false, true, second) == once
  {
  }

  /** During a transition every pass reshuffles: the cycles are the fresh
      draw, not the ones the previous pass chose. */
  lemma TransitionReshuffles(cycles: seq<seq<Color>>, friday: bool, shuffled: seq<seq<Color>>)
    ensures UpdateCycles(cycles, true, friday, shuffled) == shuffled
  {
  }

  /** What a light is asked to do. */
  datatype Animation =
    | Dark
    | Wipe(colors: seq<Color>, cycleDuration: Option<real>, pauseDuration: Option<real>)
    | ChaseBand(primary: Color, secondary: Color, duration: Option<real>, percentage: real)

  /** The draws and clock readings of one light in one pass: the two
      `random.uniform` durations of a crossfade, the chase direction draw,
      and the monotonic clock at the start and end of its tick. */
  datatype LightDraws = LightDraws(cycle: real, pause: real, direction: real, start: real, end: real)

  /** All draws of one pass: `random_duration()` inside `prep_hour`, the one
      for the bottom chase, the shuffle keys and the per-light draws. */
  datatype Draws = Draws(rd: real, bottomDuration: real, keys: seq<seq<real>>, lights: seq<LightDraws>)
  {
    predicate Valid() {
      |keys| == 3 && (forall i :: 0 <= i < 3 ==> |keys[i]| == |Palette(Sizes[i])|) && |lights| == 3
    }
  }

  /** The cycle of light `i`, or none when the cycles are absent. */
  function CycleOf(cycles: seq<seq<Color>>, i: nat): seq<Color> {
    if i < |cycles| then cycles[i] else []
  }

  /** The animation the loop picks for a light with role `role`. */
  function Animate(mode: Mode, role: Role, plan: Plan, cycle: seq<Color>, wday: int, d: LightDraws, bottomDuration: real): (a: Animation)
    requires 0 <= wday < 7
    ensures a.Dark? <==> mode == Night
    ensures a.Wipe? && (mode == Transition || mode == Friday) ==> a.colors == cycle
    ensures a.Wipe? ==> |a.colors| > 0 || mode != Normal
    ensures mode == Normal ==> (a.Wipe? <==> role == Middle)
    ensures mode == Normal && role == Bottom ==> a == ChaseBand(DayPeriods[wday], OFF, Some(bottomDuration), 0.25)
    ensures mode == Normal && role == Top ==> a == ChaseBand(plan.primary, plan.secondary, Some(plan.duration), plan.fill)
    ensures mode == Normal && role == Middle ==> a == Wipe([OFF, WHITE], None, None)
    ensures mode == Transition || mode == Friday ==> a == Wipe(cycle, Some(d.cycle), Some(d.pause))
  {
    match mode
    case Night => Dark
    case Transition => Wipe(cycle, Some(d.cycle), Some(d.pause))
    case Friday => Wipe(cycle, Some(d.cycle), Some(d.pause))
    case Normal =>
      match role
      case Top => ChaseBand(plan.primary, plan.secondary, Some(plan.duration), plan.fill)
      case Middle => Wipe([OFF, WHITE], None, None)
      case Bottom => ChaseBand(DayPeriods[wday], OFF, Some(bottomDuration), 0.25)
  }

  /** Whether light `s` can run animation `a`: a wipe needs a colour, a
      chase two sections' worth of pixels. */
  predicate Runnable(s: StripState, a: Animation) {
    s.Valid() && (a.Wipe? ==> |ActiveColors(s, a.colors)| > 0) && (a.ChaseBand? ==> 2 <= s.Size())
  }

  /** Run an animation on a light: `turn_off`, `cycle_between`, or `chase`
      with the default randomness 0.5, movement 1 and two sections. */
  function Run(s: StripState, a: Animation, d: LightDraws): (r: TickResult)
    requires Runnable(s, a)
    ensures r.state.Valid() && r.state.Size() == s.Size() && r.state.bpp == s.bpp
    ensures a.Dark? ==> r.refresh && forall j :: 0 <= j < s.Size() ==> r.state.pixels[j] == OFF
    ensures a.Dark? ==> r.state == s.(pixels := r.state.pixels)
    ensures r.state.pauseDuration == s.pauseDuration && r.state.cycleDuration == s.cycleDuration
    ensures a.Wipe? ==> r.state.cycleColors == ActiveColors(s, a.colors)
    ensures a.ChaseBand? ==> r.state.cycleColors == s.cycleColors
    ensures a.Wipe? ==> var f := CallFrame(s, a.colors, a.cycleDuration, a.pauseDuration);
      forall i :: 0 <= i < s.Size() && Lapses(s.countdowns, d.start - s.lastTick, i) ==>
        r.state.pixels[i] == f[i].color && r.state.countdowns[i] == f[i].duration
    ensures a.ChaseBand? ==> var target := ChaseTarget(s, a.secondary, a.percentage, d.direction, 0.5, 1, 2);
      forall i :: 0 <= i < s.Size() && Lapses(s.countdowns, d.start - s.lastTick, i) ==>
        r.state.pixels[i] == (if i in target then a.secondary else a.primary)
        && r.state.countdowns[i] == OrDefault(a.duration, s.cycleDuration)
    ensures !a.Dark? ==> r.state.lastTick == d.end && forall i :: 0 <= i < s.Size() && !Lapses(s.countdowns, d.start - s.lastTick, i) ==>
      r.state.pixels[i] == s.pixels[i] && r.state.countdowns[i] == s.countdowns[i] - (d.start - s.lastTick)
  {
    match a
    case Dark => TurnOff(s)
    case Wipe(colors, c, p) => CycleBetween(s, colors, c, p, d.start, d.end)
    case ChaseBand(primary, secondary, duration, percentage) =>
      Chase(s, primary, secondary, duration, percentage, d.direction, 0.5, 1, 2, d.start, d.end)
  }

  /** The three lights and the random cycles the loop carries between passes. */
  datatype Engine = Engine(strips: seq<StripState>, cycles: seq<seq<Color>>)
  {
    /** Three lights of the configured sizes and channel counts, and cycles ready. */
    ghost predicate Valid() {
      && |strips| == 3
      && (forall i :: 0 <= i < 3 ==> strips[i].Valid() && strips[i].Size() == Sizes[i] && strips[i].bpp == Bpps[i])
      && CyclesReady(cycles)
    }
  }

  /** Start-up: three fresh strips, each turned off, and no cycles. */
  function Startup(now: real): (e: Engine)
    ensures e.Valid() && e.cycles == []
    ensures forall i, j :: 0 <= i < 3 && 0 <= j < Sizes[i] ==> e.strips[i].pixels[j] == OFF
  {
    var strips := seq(3, i requires 0 <= i < 3 => TurnOff(Init(Sizes[i], Bpps[i], FadeDuration, now)).state);
    Engine(strips, [])
  }

  /** What a pass produces: the next engine, which lights pushed their
      buffer, and the mode the pass ran in. */
  datatype PassResult = PassResult(engine: Engine, refreshed: seq<bool>, mode: Mode)

  /** The animation light `i` gets in a pass. */
  function AnimationOf(i: nat, mode: Mode, plan: Plan, cycles: seq<seq<Color>>, c: Clock, d: Draws): Animation
    requires i < 3 && c.Valid() && d.Valid()
  {
    Animate(mode, Roles[i], plan, CycleOf(cycles, i), c.wday, d.lights[i], d.bottomDuration)
  }

  /** Light `i`'s part of a pass. */
  function Drive(e: Engine, i: nat, mode: Mode, plan: Plan, cycles: seq<seq<Color>>, c: Clock, d: Draws): (r: TickResult)
    requires e.Valid() && i < 3 && c.Valid() && d.Valid()
    requires CyclesReady(cycles) && (mode == Transition || mode == Friday ==> |cycles| == 3)
    ensures r.state.Valid() && r.state.Size() == Sizes[i] && r.state.bpp == Bpps[i]
  {
    var a := AnimationOf(i, mode, plan, cycles, c, d);
    CanRun(e, i, mode, plan, cycles, c, d);
    Run(e.strips[i], a, d.lights[i])
  }

  /** Every light can run what the pass asks of it: a crossfade finds a
      full cycle (the loop never indexes past the cycles) and a chase has
      pixels for its two sections. */
  lemma CanRun(e: Engine, i: nat, mode: Mode, plan: Plan, cycles: seq<seq<Color>>, c: Clock, d: Draws)
    requires e.Valid() && i < 3 && c.Valid() && d.Valid()
    requires CyclesReady(cycles) && (mode == Transition || mode == Friday ==> |cycles| == 3)
    ensures Runnable(e.strips[i], AnimationOf(i, mode, plan, cycles, c, d))
  {
    var s := e.strips[i];
    assert s.Valid() && s.Size() == Sizes[i] && Sizes[i] >= 8;
    if mode == Transition || mode == Friday {
      ReadyCycleFull(cycles, i);
      CycleRunnable(s, mode, Roles[i], plan, cycles[i], c.wday, d.lights[i], d.bottomDuration);
    }
  }

  /** A crossfade pass hands each light its own full cycle. */
  lemma CycleRunnable(s: StripState, mode: Mode, role: Role, plan: Plan, cycle: seq<Color>, wday: int, d: LightDraws, bottomDuration: real)
    requires s.Valid() && (mode == Transition || mode == Friday) && |cycle| == 9 && 0 <= wday < 7
    ensures Runnable(s, Animate(mode, role, plan, cycle, wday, d, bottomDuration))
  {
  }

  /** The cycles a pass works with, after the update at its top. */
  function NextCycles(e: Engine, c: Clock, d: Draws): (cycles: seq<seq<Color>>)
    requires e.Valid() && d.Valid()
    ensures CyclesReady(cycles)
    ensures Moment(c) == Transition || Moment(c) == Friday ==> |cycles| == 3
  {
    var transition, friday := IsTransition(c.hour, c.minute, c.second), IsFriday(c.wday);
    var shuffled := RandomColorSort(Sizes, d.keys);
    UpdateKeepsReady(e.cycles, transition, friday, shuffled);
    UpdateCycles(e.cycles, transition, friday, shuffled)
  }

  /** Light `i`'s tick in a pass. */
  function Step(e: Engine, c: Clock, d: Draws, i: nat): (r: TickResult)
    requires e.Valid() && c.Valid() && d.Valid() && i < 3
    ensures r.state.Valid() && r.state.Size() == Sizes[i] && r.state.bpp == Bpps[i]
  {
    Drive(e, i, Moment(c), PrepHour(c.hour, c.minute, c.second, d.rd), NextCycles(e, c, d), c, d)
  }

  /** One pass of the main loop at clock reading `c`. The loop's own
      classification of the pass is `Moment(c)` (ClassifyIsMoment). */
  function Pass(e: Engine, c: Clock, d: Draws): (r: PassResult)
    requires e.Valid() && c.Valid() && d.Valid()
    ensures r.engine.Valid() && |r.refreshed| == 3
    ensures r.mode == Moment(c)
  {
    PassResult(
      Engine(seq(3, i requires 0 <= i < 3 => Step(e, c, d, i).state), NextCycles(e, c, d)),
      seq(3, i requires 0 <= i < 3 => Step(e, c, d, i).refresh),
      Moment(c))
  }

  /** At night every light is turned off and pushed, whatever it showed. */
  lemma PassNight(e: Engine, c: Clock, d: Draws)
    requires e.Valid() && c.Valid() && d.Valid()
    requires !(7 <= c.hour < 21)
    ensures var r := Pass(e, c, d);
      && (forall i :: 0 <= i < 3 ==> r.refreshed[i])
      && (forall i, j :: 0 <= i < 3 && 0 <= j < Sizes[i] ==> r.engine.strips[i].pixels[j] == OFF)
      && (forall i :: 0 <= i < 3 ==> r.engine.strips[i] == e.strips[i].(pixels := r.engine.strips[i].pixels))
  {
    var r := Pass(e, c, d);
    forall i | 0 <= i < 3
      ensures r.refreshed[i] && forall j :: 0 <= j < Sizes[i] ==> r.engine.strips[i].pixels[j] == OFF
      ensures r.engine.strips[i] == e.strips[i].(pixels := r.engine.strips[i].pixels)
    {
      assert r.engine.strips[i] == Step(e, c, d, i).state && r.refreshed[i] == Step(e, c, d, i).refresh;
    }
  }

  /** The cycle colours a light keeps after its tick: the pass's cycle on
      crossfade passes, off and white for the jewel on ordinary passes, its
      old ones otherwise. */
  lemma StepCycleColors(e: Engine, c: Clock, d: Draws, i: nat)
    requires e.Valid() && c.Valid() && d.Valid() && i < 3
    ensures var colors := Step(e, c, d, i).state.cycleColors;
      && (Moment(c) == Transition || Moment(c) == Friday ==> colors == NextCycles(e, c, d)[i])
      && (Moment(c) == Normal && i == 1 ==> colors == [OFF, WHITE])
      && (Moment(c) == Normal && i != 1 ==> colors == e.strips[i].cycleColors)
  {
    var cycles, plan := NextCycles(e, c, d), PrepHour(c.hour, c.minute, c.second, d.rd);
    var s, a := e.strips[i], AnimationOf(i, Moment(c), plan, cycles, c, d);
    CanRun(e, i, Moment(c), plan, cycles, c, d);
    assert Step(e, c, d, i) == Run(s, a, d.lights[i]);
    match Moment(c)
    case Night =>
    case Normal =>
      assert i == 1 ==> a == Wipe([OFF, WHITE], None, None);
      assert i != 1 ==> a.ChaseBand?;
    case Transition =>
      ReadyCycleFull(cycles, i);
      assert a.colors == cycles[i];
    case Friday =>
      ReadyCycleFull(cycles, i);
      assert a.colors == cycles[i];
  }

  /** The cycles after the update, by moment: a fresh shuffle in a
      transition, the existing ones on a Friday that has them, none on an
      ordinary pass. */
  lemma CyclesByMoment(e: Engine, c: Clock, d: Draws)
    requires e.Valid() && c.Valid() && d.Valid()
    ensures Moment(c) == Transition ==> NextCycles(e, c, d) == RandomColorSort(Sizes, d.keys)
    ensures Moment(c) == Friday && e.cycles != [] ==> NextCycles(e, c, d) == e.cycles
    ensures Moment(c) == Normal ==> NextCycles(e, c, d) == []
  {
  }

  /** In the last fifteen seconds of a daytime hour every pass reshuffles,
      and each light crossfades through its own fresh palette. */
  lemma PassTransition(e: Engine, c: Clock, d: Draws)
    requires e.Valid() && c.Valid() && d.Valid()
    requires 7 <= c.hour < 21 && c.minute >= 59 && c.second >= 45
    ensures var r := Pass(e, c, d);
      && r.engine.cycles == RandomColorSort(Sizes, d.keys)
      && (forall i :: 0 <= i < 3 ==> r.engine.strips[i].cycleColors == r.engine.cycles[i])
      && (forall i :: 0 <= i < 3 ==> multiset(r.engine.strips[i].cycleColors) == multiset(Palette(Sizes[i])))
      && (forall i :: 0 <= i < 3 ==>
            |r.engine.cycles[i]| == 9
            && r.engine.strips[i] == CycleBetween(e.strips[i], r.engine.cycles[i], Some(d.lights[i].cycle), Some(d.lights[i].pause),
                                                  d.lights[i].start, d.lights[i].end).state)
  {
    var r := Pass(e, c, d);
    CyclesByMoment(e, c, d);
    forall i | 0 <= i < 3 ensures r.engine.strips[i].cycleColors == r.engine.cycles[i] {
      assert r.engine.strips[i] == Step(e, c, d, i).state;
      StepCycleColors(e, c, d, i);
    }
    forall i | 0 <= i < 3 ensures |r.engine.cycles[i]| == 9 && r.engine.strips[i]
        == CycleBetween(e.strips[i], r.engine.cycles[i], Some(d.lights[i].cycle), Some(d.lights[i].pause), d.lights[i].start, d.lights[i].end).state {
      CrossfadeStep(e, c, d, i);
    }
  }

  /** On a Friday, outside transitions and once palettes exist, a pass keeps
      them and each light crossfades through the one it already had. */
  lemma PassFriday(e: Engine, c: Clock, d: Draws)
    requires e.Valid() && c.Valid() && d.Valid()
    requires Moment(c) == Friday && e.cycles != []
    ensures var r := Pass(e, c, d);
      && r.engine.cycles == e.cycles
      && (forall i :: 0 <= i < 3 ==> r.engine.strips[i].cycleColors == e.cycles[i])
      && (forall i :: 0 <= i < 3 ==>
            |e.cycles[i]| == 9
            && r.engine.strips[i] == CycleBetween(e.strips[i], e.cycles[i], Some(d.lights[i].cycle), Some(d.lights[i].pause),
                                                  d.lights[i].start, d.lights[i].end).state)
  {
    var r := Pass(e, c, d);
    CyclesByMoment(e, c, d);
    forall i | 0 <= i < 3 ensures r.engine.strips[i].cycleColors == e.cycles[i] {
      assert r.engine.strips[i] == Step(e, c, d, i).state;
      StepCycleColors(e, c, d, i);
    }
    forall i | 0 <= i < 3 ensures |e.cycles[i]| == 9 && r.engine.strips[i]
        == CycleBetween(e.strips[i], e.cycles[i], Some(d.lights[i].cycle), Some(d.lights[i].pause), d.lights[i].start, d.lights[i].end).state {
      CrossfadeStep(e, c, d, i);
    }
  }

  /** Light `i`'s part of a pass is its step. */
  lemma StepOfPass(e: Engine, c: Clock, d: Draws, i: nat)
    requires e.Valid() && c.Valid() && d.Valid() && i < 3
    ensures Pass(e, c, d).engine.strips[i] == Step(e, c, d, i).state
    ensures Pass(e, c, d).refreshed[i] == Step(e, c, d, i).refresh
  {
  }

  /** On a crossfade pass (a transition, or a Friday) each light runs
      `cycle_between` with its own nine-colour cycle and the step and pause
      durations drawn for it. */
  lemma CrossfadeStep(e: Engine, c: Clock, d: Draws, i: nat)
    requires e.Valid() && c.Valid() && d.Valid() && i < 3
    requires Moment(c) == Transition || Moment(c) == Friday
    ensures var cycle, ld, r := NextCycles(e, c, d)[i], d.lights[i], Pass(e, c, d);
      && |cycle| == 9
      && r.engine.strips[i] == CycleBetween(e.strips[i], cycle, Some(ld.cycle), Some(ld.pause), ld.start, ld.end).state
      && r.refreshed[i] == CycleBetween(e.strips[i], cycle, Some(ld.cycle), Some(ld.pause), ld.start, ld.end).refresh
  {
    ReadyCycleFull(NextCycles(e, c, d), i);
    CrossfadeRun(e, c, d, i);
    StepOfPass(e, c, d, i);
  }

  /** The step of `CrossfadeStep`: light `i` runs `cycle_between` with its cycle and durations. */
  lemma CrossfadeRun(e: Engine, c: Clock, d: Draws, i: nat)
    requires e.Valid() && c.Valid() && d.Valid() && i < 3
    requires Moment(c) == Transition || Moment(c) == Friday
    requires |NextCycles(e, c, d)[i]| == 9
    ensures var cycle, ld := NextCycles(e, c, d)[i], d.lights[i];
      Step(e, c, d, i) == CycleBetween(e.strips[i], cycle, Some(ld.cycle), Some(ld.pause), ld.start, ld.end)
  {
    var s, ld := e.strips[i], d.lights[i];
    var cycles, plan := NextCycles(e, c, d), PrepHour(c.hour, c.minute, c.second, d.rd);
    var a := AnimationOf(i, Moment(c), plan, cycles, c, d);
    assert a == Wipe(cycles[i], Some(ld.cycle), Some(ld.pause));
    CanRun(e, i, Moment(c), plan, cycles, c, d);
    assert Run(s, a, ld) == CycleBetween(s, cycles[i], Some(ld.cycle), Some(ld.pause), ld.start, ld.end);
  }

  /** On an ordinary daytime pass the jewel runs `cycle_between` over off
      and white with its own default durations. */
  lemma MiddleWipesOffWhite(e: Engine, c: Clock, d: Draws)
    requires e.Valid() && c.Valid() && d.Valid() && Moment(c) == Normal
    ensures var ld, r := d.lights[1], Pass(e, c, d);
      && r.engine.strips[1] == CycleBetween(e.strips[1], [OFF, WHITE], None, None, ld.start, ld.end).state
      && r.refreshed[1] == CycleBetween(e.strips[1], [OFF, WHITE], None, None, ld.start, ld.end).refresh
  {
    var s, ld := e.strips[1], d.lights[1];
    var cycles, plan := NextCycles(e, c, d), PrepHour(c.hour, c.minute, c.second, d.rd);
    var a := AnimationOf(1, Normal, plan, cycles, c, d);
    assert a == Wipe([OFF, WHITE], None, None);
    CanRun(e, 1, Normal, plan, cycles, c, d);
    var wiped := CycleBetween(s, [OFF, WHITE], None, None, ld.start, ld.end);
    assert Run(s, a, ld) == wiped;
    assert Step(e, c, d, 1) == wiped;
    StepOfPass(e, c, d, 1);
  }

  /** On an ordinary daytime pass the palettes are dropped, the jewel
      crossfades between off and white, and the rings keep their cycles. */
  lemma PassNormal(e: Engine, c: Clock, d: Draws)
    requires e.Valid() && c.Valid() && d.Valid()
    requires Moment(c) == Normal
    ensures var r := Pass(e, c, d);
      && r.engine.cycles == []
      && r.engine.strips[1].cycleColors == [OFF, WHITE]
      && r.engine.strips[0].cycleColors == e.strips[0].cycleColors
      && r.engine.strips[2].cycleColors == e.strips[2].cycleColors
  {
    var r := Pass(e, c, d);
    CyclesByMoment(e, c, d);
    assert r.engine.strips[0] == Step(e, c, d, 0).state;
    assert r.engine.strips[1] == Step(e, c, d, 1).state;
    assert r.engine.strips[2] == Step(e, c, d, 2).state;
    StepCycleColors(e, c, d, 0);
    StepCycleColors(e, c, d, 1);
    StepCycleColors(e, c, d, 2);
  }

  /** On an ordinary daytime pass in which every countdown of the bottom
      ring lapses, the ring shows only the weekday's colour and off. */
  lemma BottomShowsWeekday(e: Engine, c: Clock, d: Draws)
    requires e.Valid() && c.Valid() && d.Valid()
    requires Moment(c) == Normal && AllLapse(e.strips[2], d.lights[2].start)
    ensures var bottom := Pass(e, c, d).engine.strips[2];
      forall j :: 0 <= j < 16 ==> bottom.pixels[j] == DayPeriods[c.wday] || bottom.pixels[j] == OFF
  {
    var ld := d.lights[2];
    BottomChasesWeekday(e, c, d);
    ChaseShowsTarget(e.strips[2], DayPeriods[c.wday], OFF, Some(d.bottomDuration), 0.25, ld.direction, 0.5, 1, 2, ld.start, ld.end);
  }

  /** On an ordinary pass the bottom ring chases the weekday's colour over
      dark pixels, a quarter of the ring wide. */
  lemma BottomChasesWeekday(e: Engine, c: Clock, d: Draws)
    requires e.Valid() && c.Valid() && d.Valid() && Moment(c) == Normal
    ensures var ld := d.lights[2];
      var r := Pass(e, c, d);
      && r.engine.strips[2]
        == Chase(e.strips[2], DayPeriods[c.wday], OFF, Some(d.bottomDuration), 0.25, ld.direction, 0.5, 1, 2, ld.start, ld.end).state
      && r.refreshed[2]
        == Chase(e.strips[2], DayPeriods[c.wday], OFF, Some(d.bottomDuration), 0.25, ld.direction, 0.5, 1, 2, ld.start, ld.end).refresh
  {
    var s, ld := e.strips[2], d.lights[2];
    var cycles, plan := NextCycles(e, c, d), PrepHour(c.hour, c.minute, c.second, d.rd);
    var a := AnimationOf(2, Normal, plan, cycles, c, d);
    assert a == ChaseBand(DayPeriods[c.wday], OFF, Some(d.bottomDuration), 0.25);
    CanRun(e, 2, Normal, plan, cycles, c, d);
    var chased := Chase(s, DayPeriods[c.wday], OFF, Some(d.bottomDuration), 0.25, ld.direction, 0.5, 1, 2, ld.start, ld.end);
    assert Run(s, a, ld) == chased;
    assert Step(e, c, d, 2) == chased;
    BottomOfPass(e, c, d);
  }

  /** The bottom ring's part of a pass is its step. */
  lemma BottomOfPass(e: Engine, c: Clock, d: Draws)
    requires e.Valid() && c.Valid() && d.Valid()
    ensures Pass(e, c, d).engine.strips[2] == Step(e, c, d, 2).state
    ensures Pass(e, c, d).refreshed[2] == Step(e, c, d, 2).refresh
  {
  }

  /** On an ordinary daytime pass the top ring chases the hour's plan: its
      primary and secondary colours, its hold time and its fill fraction as
      the band width. */
  lemma TopChasesPlan(e: Engine, c: Clock, d: Draws)
    requires e.Valid() && c.Valid() && d.Valid() && Moment(c) == Normal
    ensures var plan, ld := PrepHour(c.hour, c.minute, c.second, d.rd), d.lights[0];
      var r := Pass(e, c, d);
      && r.engine.strips[0] == Chase(e.strips[0], plan.primary, plan.secondary, Some(plan.duration), plan.fill,
           ld.direction, 0.5, 1, 2, ld.start, ld.end).state
      && r.refreshed[0] == Chase(e.strips[0], plan.primary, plan.secondary, Some(plan.duration), plan.fill,
           ld.direction, 0.5, 1, 2, ld.start, ld.end).refresh
  {
    var s, ld := e.strips[0], d.lights[0];
    var cycles, plan := NextCycles(e, c, d), PrepHour(c.hour, c.minute, c.second, d.rd);
    var a := AnimationOf(0, Normal, plan, cycles, c, d);
    assert a == ChaseBand(plan.primary, plan.secondary, Some(plan.duration), plan.fill);
    CanRun(e, 0, Normal, plan, cycles, c, d);
    var chased := Chase(s, plan.primary, plan.secondary, Some(plan.duration), plan.fill, ld.direction, 0.5, 1, 2, ld.start, ld.end);
    assert Run(s, a, ld) == chased;
    assert Step(e, c, d, 0) == chased;
    TopOfPass(e, c, d);
  }

  /** The top ring's part of a pass is its step. */
  lemma TopOfPass(e: Engine, c: Clock, d: Draws)
    requires e.Valid() && c.Valid() && d.Valid()
    ensures Pass(e, c, d).engine.strips[0] == Step(e, c, d, 0).state
    ensures Pass(e, c, d).refreshed[0] == Step(e, c, d, 0).refresh
  {
  }
}
