/** One LED strip (`NovaStar`): its pixel buffer, the per-pixel countdowns,
    and the tick that commits a next frame pixel by pixel as countdowns
    lapse. The clock is read twice per tick, once before the pixels are
    processed and once after; both readings are parameters here. */
module Strip {
  import opened Colors
  import opened Options

  /** The colour a pixel should take next and how long it then holds. */
  datatype ColorDuration = ColorDuration(color: Color, duration: real)

  /** The strip's state. `bpp`, `pauseDuration` and `cycleDuration` are fixed
      at construction; the rest changes as the strip animates. */
  datatype StripState = StripState(
    bpp: nat,
    pauseDuration: real,
    cycleDuration: real,
    pixels: seq<Color>,
    countdowns: seq<real>,
    lastTick: real,
    cycleIndex: nat,
    cycleColors: seq<Color>)
  {
    /** One countdown per pixel, and at least one pixel. */
    predicate Valid() {
      0 < |pixels| && |countdowns| == |pixels|
    }

    /** The pixel count (`num_pixels`). */
    function Size(): nat {
      |pixels|
    }
  }

  /** The strip after a step, and whether the step pushed the buffer to the hardware (`show()`). */
  datatype TickResult = TickResult(state: StripState, refresh: bool)

  /** The sequence holding `k` copies of `x` (Python's `[x] * k`). */
  function Repeat<T>(k: nat, x: T): (s: seq<T>)
    ensures |s| == k
    ensures forall i :: 0 <= i < k ==> s[i] == x
  {
    seq(k, _ => x)
  }

  /** A new strip of `n` pixels with pixel order of length `bpp`, all off,
      every countdown 1, created at clock reading `now`. */
  function Init(n: nat, bpp: nat, fadeDuration: real, now: real): (s: StripState)
    requires n > 0
    ensures s.Valid() && s.Size() == n && s.bpp == bpp
    ensures forall i :: 0 <= i < n ==> s.pixels[i] == OFF && s.countdowns[i] == 1.0
    ensures s.lastTick == now && s.cycleIndex == 0 && s.cycleColors == []
    ensures s.pauseDuration == 2.0 * fadeDuration
    ensures s.cycleDuration * (n as real) == fadeDuration
  {
    StripState(bpp, fadeDuration * 2.0, fadeDuration / (n as real),
      Repeat(n, OFF), Repeat(n, 1.0), now, 0, [])
  }

  /** `turn_off`: every pixel off, and the buffer is always pushed. */
  function TurnOff(s: StripState): (r: TickResult)
    ensures r.refresh
    ensures |r.state.pixels| == |s.pixels|
    ensures forall i :: 0 <= i < |s.pixels| ==> r.state.pixels[i] == OFF
    ensures r.state.(pixels := s.pixels) == s
  {
    TickResult(s.(pixels := Repeat(|s.pixels|, OFF)), true)
  }

  /** Python's `x or default` on an optional duration: a missing value and
      0.0 are both falsy and fall back to the default. */
  function OrDefault(x: Option<real>, default: real): (d: real)
    ensures x.Some? && x.value != 0.0 ==> d == x.value
    ensures x.None? || x.value == 0.0 ==> d == default
  {
    if x.Some? && x.value != 0.0 then x.value else default
  }

  /** The divisor `len(cycle_colors) or 1`. */
  function Modulus(colors: seq<Color>): (m: nat)
    ensures m > 0
    ensures |colors| > 0 ==> m == |colors|
    ensures |colors| == 0 ==> m == 1
  {
    if |colors| == 0 then 1 else |colors|
  }

  /** The position after `index` in a cycle of `m` colours (`(index + 1) % m`). */
  function NextIndex(index: nat, m: nat): (j: nat)
    requires m > 0
    ensures j < m
    ensures index + 1 < m ==> j == index + 1
    ensures index + 1 == m ==> j == 0
  {
    (index + 1) % m
  }

  /** The countdown of pixel `i` runs out within `delta`. */
  predicate Lapses(countdowns: seq<real>, delta: real, i: nat)
    requires i < |countdowns|
  {
    countdowns[i] - delta <= 0.0
  }

  /** The distinct colours committed by the first `k` pixels whose countdowns lapse. */
  function LapsedColors(countdowns: seq<real>, next: seq<ColorDuration>, delta: real, k: nat): set<Color>
    requires k <= |countdowns| && k <= |next|
  {
    set i | 0 <= i < k && Lapses(countdowns, delta, i) :: next[i].color
  }

  /** What the pixel loop of `tick` has built after the first `k` pixels. */
  datatype Sweep = Sweep(pixels: seq<Color>, countdowns: seq<real>, active: set<Color>, refresh: bool)

  /** The pixel loop of `tick` run over pixels 0 .. k-1: each countdown drops
      by `delta`; a lapsed pixel takes its next colour and hold time, adds
      that colour to the active set, and marks the frame dirty if its colour
      changed. */
  function SweepPrefix(pixels: seq<Color>, countdowns: seq<real>, next: seq<ColorDuration>, delta: real, k: nat): (w: Sweep)
    requires |countdowns| == |pixels| <= |next| && k <= |pixels|
    ensures |w.pixels| == k && |w.countdowns| == k
    ensures forall i :: 0 <= i < k && Lapses(countdowns, delta, i) ==>
      w.pixels[i] == next[i].color && w.countdowns[i] == next[i].duration
    ensures forall i :: 0 <= i < k && !Lapses(countdowns, delta, i) ==>
      w.pixels[i] == pixels[i] && w.countdowns[i] == countdowns[i] - delta
    ensures w.active == LapsedColors(countdowns, next, delta, k)
    ensures w.refresh <==> exists i :: 0 <= i < k && Lapses(countdowns, delta, i) && pixels[i] != next[i].color
  {
    if k == 0 then Sweep([], [], {}, false)
    else
      var w := SweepPrefix(pixels, countdowns, next, delta, k - 1);
      var i := k - 1;
      assert LapsedColors(countdowns, next, delta, k) ==
        LapsedColors(countdowns, next, delta, i) + (if Lapses(countdowns, delta, i) then {next[i].color} else {});
      if Lapses(countdowns, delta, i) then
        Sweep(w.pixels + [next[i].color], w.countdowns + [next[i].duration],
          w.active + {next[i].color}, w.refresh || pixels[i] != next[i].color)
      else
        Sweep(w.pixels + [pixels[i]], w.countdowns + [countdowns[i] - delta], w.active, w.refresh)
  }

  /** `NovaStar.tick`: commit the frame `next` to the pixels whose countdowns
      lapse between the last tick and the clock reading `start`. The cycle
      index advances (modulo the cycle length, or 1) only when something
      changed and every lapsed pixel took the same colour; the last-tick
      time becomes the later reading `end`. A `next` longer than the strip
      is cut short, as `zip` does. */
  function Tick(s: StripState, next: seq<ColorDuration>, start: real, end: real): (r: TickResult)
    requires s.Valid() && |next| >= s.Size()
    ensures r.state.Valid() && r.state.Size() == s.Size()
    ensures r.state == s.(pixels := r.state.pixels, countdowns := r.state.countdowns,
      cycleIndex := r.state.cycleIndex, lastTick := end)
    ensures forall i :: 0 <= i < s.Size() && Lapses(s.countdowns, start - s.lastTick, i) ==>
      r.state.pixels[i] == next[i].color && r.state.countdowns[i] == next[i].duration
    ensures forall i :: 0 <= i < s.Size() && !Lapses(s.countdowns, start - s.lastTick, i) ==>
      r.state.pixels[i] == s.pixels[i] && r.state.countdowns[i] == s.countdowns[i] - (start - s.lastTick)
    ensures r.refresh <==>
      exists i :: 0 <= i < s.Size() && Lapses(s.countdowns, start - s.lastTick, i) && s.pixels[i] != next[i].color
    ensures r.refresh && |LapsedColors(s.countdowns, next, start - s.lastTick, s.Size())| == 1 ==>
      r.state.cycleIndex == NextIndex(s.cycleIndex, Modulus(s.cycleColors))
    ensures !(r.refresh && |LapsedColors(s.countdowns, next, start - s.lastTick, s.Size())| == 1) ==>
      r.state.cycleIndex == s.cycleIndex
  {
    var w := SweepPrefix(s.pixels, s.countdowns, next, start - s.lastTick, s.Size());
    var index := if w.refresh && |w.active| == 1 then NextIndex(s.cycleIndex, Modulus(s.cycleColors)) else s.cycleIndex;
    TickResult(s.(pixels := w.pixels, countdowns := w.countdowns, cycleIndex := index, lastTick := end), w.refresh)
  }

  /** Whether every countdown runs out by the clock reading `start`. */
  ghost predicate AllLapse(s: StripState, start: real)
    requires s.Valid()
  {
    forall i :: 0 <= i < s.Size() ==> s.countdowns[i] <= start - s.lastTick
  }

  /** When no countdown lapses, a tick changes no pixel, pushes nothing and
      keeps the cycle index; only the countdowns and the last-tick time move. */
  lemma TickQuiet(s: StripState, next: seq<ColorDuration>, start: real, end: real)
    requires s.Valid() && |next| >= s.Size()
    requires forall i :: 0 <= i < s.Size() ==> s.countdowns[i] > start - s.lastTick
    ensures var r := Tick(s, next, start, end);
      && !r.refresh
      && r.state.pixels == s.pixels
      && r.state.cycleIndex == s.cycleIndex
      && r.state.lastTick == end
  {
    var r := Tick(s, next, start, end);
    var delta := start - s.lastTick;
    assert forall i :: 0 <= i < s.Size() ==> !Lapses(s.countdowns, delta, i);
    assert r.state.pixels == s.pixels;
  }

  /** The colours of a frame, in pixel order. */
  function FrameColors(next: seq<ColorDuration>): (c: seq<Color>)
    ensures |c| == |next|
    ensures forall i :: 0 <= i < |next| ==> c[i] == next[i].color
  {
    seq(|next|, i requires 0 <= i < |next| => next[i].color)
  }

  /** The distinct colours of a frame. */
  function FrameColorSet(next: seq<ColorDuration>): set<Color> {
    set i | 0 <= i < |next| :: next[i].color
  }

  /** When every countdown lapses, the strip shows exactly the frame's
      colours, every pixel takes its new hold time, and the colours
      committed are all the colours of the frame. */
  lemma TickCommitsAll(s: StripState, next: seq<ColorDuration>, start: real, end: real)
    requires s.Valid() && |next| == s.Size()
    requires forall i :: 0 <= i < s.Size() ==> s.countdowns[i] <= start - s.lastTick
    ensures var r := Tick(s, next, start, end);
      && r.state.pixels == FrameColors(next)
      && (forall i :: 0 <= i < s.Size() ==> r.state.countdowns[i] == next[i].duration)
      && LapsedColors(s.countdowns, next, start - s.lastTick, s.Size()) == FrameColorSet(next)
  {
    var delta := start - s.lastTick;
    assert forall i :: 0 <= i < s.Size() ==> Lapses(s.countdowns, delta, i);
    var r := Tick(s, next, start, end);
    assert r.state.pixels == FrameColors(next);
  }

  /** A tick in which every countdown lapses shows the frame and takes its
      hold times; it pushes the frame if some pixel changes, and it moves
      the cycle index exactly when, in addition, the frame has a single
      colour. */
  lemma TickFullFrame(s: StripState, next: seq<ColorDuration>, start: real, end: real, colors: set<Color>, changed: nat)
    requires s.Valid() && |next| == s.Size()
    requires forall i :: 0 <= i < s.Size() ==> s.countdowns[i] <= start - s.lastTick
    requires FrameColorSet(next) == colors
    requires changed < s.Size() && s.pixels[changed] != next[changed].color
    ensures var r := Tick(s, next, start, end);
      && r.state.pixels == FrameColors(next)
      && (forall i :: 0 <= i < s.Size() ==> r.state.countdowns[i] == next[i].duration)
      && r.refresh
      && r.state.cycleIndex == if |colors| == 1 then NextIndex(s.cycleIndex, Modulus(s.cycleColors)) else s.cycleIndex
  {
    TickCommitsAll(s, next, start, end);
    assert Lapses(s.countdowns, start - s.lastTick, changed);
  }

  /** A tick whose frame repeats the colours already shown changes no
      pixel, pushes nothing and keeps the cycle index, whichever countdowns lapse. */
  lemma TickRepeatsShown(s: StripState, next: seq<ColorDuration>, start: real, end: real)
    requires s.Valid() && |next| >= s.Size()
    requires forall i :: 0 <= i < s.Size() ==> next[i].color == s.pixels[i]
    ensures var r := Tick(s, next, start, end);
      && r.state.pixels == s.pixels
      && !r.refresh
      && r.state.cycleIndex == s.cycleIndex
  {
    var r := Tick(s, next, start, end);
    assert r.state.pixels == s.pixels;
  }

  /** A tick that commits more than one distinct colour, or none, keeps the cycle index. */
  lemma TickKeepsIndex(s: StripState, next: seq<ColorDuration>, start: real, end: real)
    requires s.Valid() && |next| >= s.Size()
    requires |LapsedColors(s.countdowns, next, start - s.lastTick, s.Size())| != 1
    ensures Tick(s, next, start, end).state.cycleIndex == s.cycleIndex
  {
  }

  /** A tick that changes some pixel and commits a single colour moves the
      cycle index to the next position. */
  lemma TickAdvancesIndex(s: StripState, next: seq<ColorDuration>, start: real, end: real, i: nat)
    requires s.Valid() && |next| >= s.Size() && i < s.Size()
    requires Lapses(s.countdowns, start - s.lastTick, i) && s.pixels[i] != next[i].color
    requires |LapsedColors(s.countdowns, next, start - s.lastTick, s.Size())| == 1
    ensures Tick(s, next, start, end).refresh
    ensures Tick(s, next, start, end).state.cycleIndex == NextIndex(s.cycleIndex, Modulus(s.cycleColors))
  {
  }

  /** A tick keeps the cycle index inside the cycle, if it was inside. */
  lemma TickKeepsIndexInCycle(s: StripState, next: seq<ColorDuration>, start: real, end: real)
    requires s.Valid() && |next| >= s.Size()
    requires s.cycleIndex < Modulus(s.cycleColors)
    ensures Tick(s, next, start, end).state.cycleIndex < Modulus(s.cycleColors)
  {
  }
}
