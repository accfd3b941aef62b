/** The crossfade animator (`NovaStar.cycle_between`): a wipe that turns one
    more pixel from the current colour of a cycle to its successor per call,
    then holds the finished colour for a pause. */
module Crossfade {
  import opened Colors
  import opened Options
  import opened Strip

  /** The cycle position a step works on, the colour being replaced and the colour replacing it. */
  datatype WipeColors = WipeColors(index: nat, decrement: Color, increment: Color)

  /** The colours of one wipe step. An index past the end of the cycle
      restarts the cycle at 0; the successor of the last colour is the
      first (both are the `IndexError` paths of the source). */
  function SelectColors(cycleIndex: nat, colors: seq<Color>): (w: WipeColors)
    requires |colors| > 0
    ensures w.index < |colors|
    ensures cycleIndex < |colors| ==> w.index == cycleIndex
    ensures cycleIndex >= |colors| ==> w.index == 0
    ensures w.decrement == colors[w.index]
    ensures w.increment == colors[NextIndex(w.index, |colors|)]
  {
    var index := if cycleIndex < |colors| then cycleIndex else 0;
    var increment := if index + 1 < |colors| then colors[index + 1] else colors[0];
    WipeColors(index, colors[index], increment)
  }

  /** The next frame of a wipe over `n` pixels of which `numOn` already show
      the new colour: while more than one pixel is left, the first
      `numOn + 1` pixels get the new colour and the rest keep the old one,
      all for one step; otherwise the whole strip holds the new colour for
      a pause. */
  function WipeFrame(n: nat, numOn: nat, increment: Color, decrement: Color, step: real, pause: real): (f: seq<ColorDuration>)
    ensures |f| == n
    ensures numOn + 1 < n ==> forall i :: 0 <= i <= numOn ==> f[i] == ColorDuration(increment, step)
    ensures numOn + 1 < n ==> forall i :: numOn < i < n ==> f[i] == ColorDuration(decrement, step)
    ensures numOn + 1 >= n ==> forall i :: 0 <= i < n ==> f[i] == ColorDuration(increment, pause)
  {
    if numOn < n - 1 then
      seq(n, i => if i <= numOn then ColorDuration(increment, step) else ColorDuration(decrement, step))
    else
      Repeat(n, ColorDuration(increment, pause))
  }

  /** The cycle a call works on: the colours passed in, or the cached ones when none are passed. */
  function ActiveColors(s: StripState, colors: seq<Color>): (c: seq<Color>)
    ensures |colors| > 0 ==> c == colors
    ensures |colors| == 0 ==> c == s.cycleColors
    ensures |c| > 0 <==> |colors| > 0 || |s.cycleColors| > 0
  {
    if |colors| > 0 then colors else s.cycleColors
  }

  /** The frame a `cycle_between` call ticks: the wipe frame for the step
      the strip's index selects, with as many pixels already converted as
      show the new colour. Optional durations fall back to the strip's own. */
  function CallFrame(s: StripState, colors: seq<Color>, cycleDuration: Option<real>, pauseDuration: Option<real>): (f: seq<ColorDuration>)
    requires s.Valid() && |ActiveColors(s, colors)| > 0
    ensures |f| == s.Size()
  {
    var w := SelectColors(s.cycleIndex, ActiveColors(s, colors));
    WipeFrame(s.Size(), CountColored(s.pixels, w.increment, s.bpp), w.increment, w.decrement,
      OrDefault(cycleDuration, s.cycleDuration), OrDefault(pauseDuration, s.pauseDuration))
  }

  /** The frame of a call, spelled out. */
  lemma CallFrameIs(s: StripState, colors: seq<Color>, step: Option<real>, pause: Option<real>)
    requires s.Valid() && |ActiveColors(s, colors)| > 0
    ensures var w := SelectColors(s.cycleIndex, ActiveColors(s, colors));
      CallFrame(s, colors, step, pause) == WipeFrame(s.Size(), CountColored(s.pixels, w.increment, s.bpp), w.increment, w.decrement,
        OrDefault(step, s.cycleDuration), OrDefault(pause, s.pauseDuration))
  {
  }

  /** `NovaStar.cycle_between`: cache the cycle, pick the two colours of the
      current step, count the pixels already converted and tick the wipe
      frame. Lapsed pixels take the frame's colour and hold time, the others
      count down; the call pushes exactly when a lapsed pixel changes, and
      moves on from the selected index exactly when it pushes a single colour. */
  function CycleBetween(s: StripState, colors: seq<Color>, cycleDuration: Option<real>, pauseDuration: Option<real>,
                        start: real, end: real): (r: TickResult)
    requires s.Valid() && |ActiveColors(s, colors)| > 0
    ensures r.state.Valid() && r.state.Size() == s.Size()
    ensures r.state.bpp == s.bpp && r.state.pauseDuration == s.pauseDuration && r.state.cycleDuration == s.cycleDuration
    ensures r.state.cycleColors == ActiveColors(s, colors)
    ensures r.state.cycleIndex < |r.state.cycleColors|
    ensures r.state.lastTick == end
    ensures var f := CallFrame(s, colors, cycleDuration, pauseDuration);
      forall i :: 0 <= i < s.Size() && Lapses(s.countdowns, start - s.lastTick, i) ==>
        r.state.pixels[i] == f[i].color && r.state.countdowns[i] == f[i].duration
    ensures forall i :: 0 <= i < s.Size() && !Lapses(s.countdowns, start - s.lastTick, i) ==>
      r.state.pixels[i] == s.pixels[i] && r.state.countdowns[i] == s.countdowns[i] - (start - s.lastTick)
    ensures var f := CallFrame(s, colors, cycleDuration, pauseDuration);
      r.refresh <==> exists i :: 0 <= i < s.Size() && Lapses(s.countdowns, start - s.lastTick, i) && s.pixels[i] != f[i].color
    ensures var f, w := CallFrame(s, colors, cycleDuration, pauseDuration), SelectColors(s.cycleIndex, ActiveColors(s, colors));
      r.refresh && |LapsedColors(s.countdowns, f, start - s.lastTick, s.Size())| == 1 ==>
        r.state.cycleIndex == NextIndex(w.index, |r.state.cycleColors|)
    ensures var f, w := CallFrame(s, colors, cycleDuration, pauseDuration), SelectColors(s.cycleIndex, ActiveColors(s, colors));
      !(r.refresh && |LapsedColors(s.countdowns, f, start - s.lastTick, s.Size())| == 1) ==> r.state.cycleIndex == w.index
  {
    var cycle := ActiveColors(s, colors);
    var w := SelectColors(s.cycleIndex, cycle);
    var frame := CallFrame(s, colors, cycleDuration, pauseDuration);
    var prepared := s.(cycleColors := cycle, cycleIndex := w.index);
    TickKeepsIndexInCycle(prepared, frame, start, end);
    PreparedTick(s, cycle, w.index, frame, start, end);
    Tick(prepared, frame, start, end)
  }

  /** Ticking a frame after caching a cycle and selecting an index: lapsed
      pixels take the frame, the others count down, the tick pushes exactly
      when a lapsed pixel changes, and the index moves on exactly when it
      pushes a single colour. */
  lemma PreparedTick(s: StripState, cycle: seq<Color>, index: nat, f: seq<ColorDuration>, start: real, end: real)
    requires s.Valid() && |f| == s.Size() && index < |cycle|
    ensures var r := Tick(s.(cycleColors := cycle, cycleIndex := index), f, start, end);
      && (forall i :: 0 <= i < s.Size() && Lapses(s.countdowns, start - s.lastTick, i) ==>
            r.state.pixels[i] == f[i].color && r.state.countdowns[i] == f[i].duration)
      && (forall i :: 0 <= i < s.Size() && !Lapses(s.countdowns, start - s.lastTick, i) ==>
            r.state.pixels[i] == s.pixels[i] && r.state.countdowns[i] == s.countdowns[i] - (start - s.lastTick))
      && (r.refresh <==> exists i :: 0 <= i < s.Size() && Lapses(s.countdowns, start - s.lastTick, i) && s.pixels[i] != f[i].color)
      && (r.refresh && |LapsedColors(s.countdowns, f, start - s.lastTick, s.Size())| == 1 ==>
            r.state.cycleIndex == NextIndex(index, |cycle|))
      && (!(r.refresh && |LapsedColors(s.countdowns, f, start - s.lastTick, s.Size())| == 1) ==> r.state.cycleIndex == index)
  {
    var p := s.(cycleColors := cycle, cycleIndex := index);
    assert p.pixels == s.pixels && p.countdowns == s.countdowns && p.lastTick == s.lastTick;
    assert Modulus(p.cycleColors) == |cycle|;
  }

  /** A strip part-way through a wipe: `m` pixels of the new colour, then the old one. */
  function Layout(m: nat, n: nat, increment: Color, decrement: Color): (l: seq<Color>)
    requires m <= n
    ensures |l| == n
    ensures forall i :: 0 <= i < n ==> l[i] == if i < m then increment else decrement
  {
    seq(n, i => if i < m then increment else decrement)
  }

  /** With one pixel left, a wipe layout is the new colour followed by one old pixel. */
  lemma LayoutOneLeft(n: nat, increment: Color, decrement: Color)
    requires n > 0
    ensures Layout(n - 1, n, increment, decrement) == Repeat(n - 1, increment) + [decrement]
  {
    var l, r := Layout(n - 1, n, increment, decrement), Repeat(n - 1, increment) + [decrement];
    assert forall i :: 0 <= i < n ==> l[i] == r[i];
  }

  /** Counting the new colour in a wipe layout finds the converted pixels,
      provided the old colour differs from it on the strip's channels. */
  lemma {:induction false} CountLayout(m: nat, n: nat, increment: Color, decrement: Color, bpp: nat)
    requires m <= n && !SameOn(decrement, increment, bpp)
    ensures CountColored(Layout(m, n, increment, decrement), increment, bpp) == m
    decreases n
  {
    var l := Layout(m, n, increment, decrement);
    if n == m {
      CountAll(l, increment, bpp);
    } else {
      CountLayout(m, n - 1, increment, decrement, bpp);
      assert l[..n - 1] == Layout(m, n - 1, increment, decrement);
      assert l[n - 1] == decrement;
    }
  }

  /** The step frame of a wipe shows the layout with one more pixel
      converted, and uses exactly the two colours. */
  lemma StepFrameShape(n: nat, m: nat, increment: Color, decrement: Color, step: real, pause: real)
    requires m + 1 < n
    ensures var f := WipeFrame(n, m, increment, decrement, step, pause);
      && FrameColors(f) == Layout(m + 1, n, increment, decrement)
      && FrameColorSet(f) == {increment, decrement}
      && (forall i :: 0 <= i < n ==> f[i].duration == step)
  {
    var f := WipeFrame(n, m, increment, decrement, step, pause);
    assert FrameColors(f) == Layout(m + 1, n, increment, decrement);
    assert f[0].color == increment && f[n - 1].color == decrement;
  }

  /** The pause frame of a wipe shows the new colour everywhere. */
  lemma PauseFrameShape(n: nat, m: nat, increment: Color, decrement: Color, step: real, pause: real)
    requires 0 < n <= m + 1
    ensures var f := WipeFrame(n, m, increment, decrement, step, pause);
      && FrameColors(f) == Repeat(n, increment)
      && FrameColorSet(f) == {increment}
      && (forall i :: 0 <= i < n ==> f[i].duration == pause)
  {
    var f := WipeFrame(n, m, increment, decrement, step, pause);
    assert FrameColors(f) == Repeat(n, increment);
    assert f[0].color == increment;
  }

  /** `CycleBetween` is a tick of the wipe frame on the strip with the cycle cached and the index reset. */
  lemma CycleBetweenTicks(s: StripState, colors: seq<Color>, step: Option<real>, pause: Option<real>, start: real, end: real)
    requires s.Valid() && |colors| > 0
    ensures var w := SelectColors(s.cycleIndex, colors);
      CycleBetween(s, colors, step, pause, start, end) ==
      Tick(s.(cycleColors := colors, cycleIndex := w.index),
        WipeFrame(s.Size(), CountColored(s.pixels, w.increment, s.bpp), w.increment, w.decrement,
          OrDefault(step, s.cycleDuration), OrDefault(pause, s.pauseDuration)),
        start, end)
  {
  }

  /** A call that comes before any countdown lapses paints no pixel and
      pushes nothing; it only caches the cycle and resets an index that
      has run past it. */
  lemma WipeQuiet(s: StripState, colors: seq<Color>, step: Option<real>, pause: Option<real>, start: real, end: real)
    requires s.Valid() && |ActiveColors(s, colors)| > 0
    requires forall i :: 0 <= i < s.Size() ==> s.countdowns[i] > start - s.lastTick
    ensures var r := CycleBetween(s, colors, step, pause, start, end);
      && !r.refresh
      && r.state.pixels == s.pixels
      && r.state.cycleColors == ActiveColors(s, colors)
      && r.state.cycleIndex == (if s.cycleIndex < |ActiveColors(s, colors)| then s.cycleIndex else 0)
  {
    var cycle := ActiveColors(s, colors);
    var w := SelectColors(s.cycleIndex, cycle);
    var frame := WipeFrame(s.Size(), CountColored(s.pixels, w.increment, s.bpp), w.increment, w.decrement,
      OrDefault(step, s.cycleDuration), OrDefault(pause, s.pauseDuration));
    TickQuiet(s.(cycleColors := cycle, cycleIndex := w.index), frame, start, end);
  }

  /** A call made once every countdown has run out, from any strip: when
      more than one pixel is left, the first `m + 1` pixels show the new
      colour for a step and the rest the colour being replaced, where `m`
      counts the pixels that already showed the new colour anywhere on the
      strip; otherwise the whole strip shows the new colour for the pause.
      The call pushes exactly when this changes what the strip showed. */
  lemma WipeFromAny(s: StripState, colors: seq<Color>, step: Option<real>, pause: Option<real>, start: real, end: real)
    requires s.Valid() && |ActiveColors(s, colors)| > 0 && AllLapse(s, start)
    ensures var w := SelectColors(s.cycleIndex, ActiveColors(s, colors));
      var m, n := CountColored(s.pixels, w.increment, s.bpp), s.Size();
      var r := CycleBetween(s, colors, step, pause, start, end);
      && (m + 1 < n ==> r.state.pixels == Layout(m + 1, n, w.increment, w.decrement))
      && (m + 1 < n ==> forall i :: 0 <= i < n ==> r.state.countdowns[i] == OrDefault(step, s.cycleDuration))
      && (m + 1 >= n ==> r.state.pixels == Repeat(n, w.increment))
      && (m + 1 >= n ==> forall i :: 0 <= i < n ==> r.state.countdowns[i] == OrDefault(pause, s.pauseDuration))
      && (r.refresh <==> r.state.pixels != s.pixels)
  {
    WipeShowsFrame(s, colors, step, pause, start, end);
    var w := SelectColors(s.cycleIndex, ActiveColors(s, colors));
    if CountColored(s.pixels, w.increment, s.bpp) + 1 < s.Size() {
      WipeStepLayout(s, colors, step, pause, start, end);
      WipeStepHolds(s, colors, step, pause, start, end);
    } else {
      WipeFromAnyPause(s, colors, step, pause, start, end);
    }
  }

  /** The step case of `WipeFromAny`: the layout. */
  lemma WipeStepLayout(s: StripState, colors: seq<Color>, step: Option<real>, pause: Option<real>, start: real, end: real)
    requires s.Valid() && |ActiveColors(s, colors)| > 0 && AllLapse(s, start)
    requires var w := SelectColors(s.cycleIndex, ActiveColors(s, colors));
      CountColored(s.pixels, w.increment, s.bpp) + 1 < s.Size()
    ensures var w := SelectColors(s.cycleIndex, ActiveColors(s, colors));
      CycleBetween(s, colors, step, pause, start, end).state.pixels
        == Layout(CountColored(s.pixels, w.increment, s.bpp) + 1, s.Size(), w.increment, w.decrement)
  {
    WipeShowsFrame(s, colors, step, pause, start, end);
    CallFrameLayout(s, colors, step, pause);
  }

  /** Part-way through a wipe, the frame a call computes is the wipe layout
      with one more pixel converted. */
  lemma CallFrameLayout(s: StripState, colors: seq<Color>, step: Option<real>, pause: Option<real>)
    requires s.Valid() && |ActiveColors(s, colors)| > 0
    requires var w := SelectColors(s.cycleIndex, ActiveColors(s, colors));
      CountColored(s.pixels, w.increment, s.bpp) + 1 < s.Size()
    ensures var w := SelectColors(s.cycleIndex, ActiveColors(s, colors));
      FrameColors(CallFrame(s, colors, step, pause))
        == Layout(CountColored(s.pixels, w.increment, s.bpp) + 1, s.Size(), w.increment, w.decrement)
  {
    var w := SelectColors(s.cycleIndex, ActiveColors(s, colors));
    var m, n := CountColored(s.pixels, w.increment, s.bpp), s.Size();
    CallFrameIs(s, colors, step, pause);
    StepFrameShape(n, m, w.increment, w.decrement, OrDefault(step, s.cycleDuration), OrDefault(pause, s.pauseDuration));
  }

  /** The step case of `WipeFromAny`: the hold times. */
  lemma WipeStepHolds(s: StripState, colors: seq<Color>, step: Option<real>, pause: Option<real>, start: real, end: real)
    requires s.Valid() && |ActiveColors(s, colors)| > 0 && AllLapse(s, start)
    requires var w := SelectColors(s.cycleIndex, ActiveColors(s, colors));
      CountColored(s.pixels, w.increment, s.bpp) + 1 < s.Size()
    ensures forall i :: 0 <= i < s.Size() ==> CycleBetween(s, colors, step, pause, start, end).state.countdowns[i] == OrDefault(step, s.cycleDuration)
  {
    WipeShowsFrame(s, colors, step, pause, start, end);
    CallFrameIs(s, colors, step, pause);
  }

  /** The pause case of `WipeFromAny`. */
  lemma WipeFromAnyPause(s: StripState, colors: seq<Color>, step: Option<real>, pause: Option<real>, start: real, end: real)
    requires s.Valid() && |ActiveColors(s, colors)| > 0 && AllLapse(s, start)
    requires var w := SelectColors(s.cycleIndex, ActiveColors(s, colors));
      CountColored(s.pixels, w.increment, s.bpp) + 1 >= s.Size()
    ensures var w := SelectColors(s.cycleIndex, ActiveColors(s, colors));
      var r := CycleBetween(s, colors, step, pause, start, end);
      && r.state.pixels == Repeat(s.Size(), w.increment)
      && forall i :: 0 <= i < s.Size() ==> r.state.countdowns[i] == OrDefault(pause, s.pauseDuration)
  {
    var w := SelectColors(s.cycleIndex, ActiveColors(s, colors));
    var m, n := CountColored(s.pixels, w.increment, s.bpp), s.Size();
    var r := CycleBetween(s, colors, step, pause, start, end);
    WipeShowsFrame(s, colors, step, pause, start, end);
    CallFrameIs(s, colors, step, pause);
    PauseFrameShown(r.state.pixels, r.state.countdowns, n, m, w.increment, w.decrement, OrDefault(step, s.cycleDuration), OrDefault(pause, s.pauseDuration));
  }

  /** A strip showing a step frame shows the wipe layout with one more
      pixel converted, every pixel held for a step. */
  lemma StepFrameShown(pixels: seq<Color>, countdowns: seq<real>, n: nat, m: nat, increment: Color, decrement: Color,
                       step: real, pause: real)
    requires m + 1 < n && |countdowns| == n
    requires var f := WipeFrame(n, m, increment, decrement, step, pause);
      pixels == FrameColors(f) && forall i :: 0 <= i < n ==> countdowns[i] == f[i].duration
    ensures pixels == Layout(m + 1, n, increment, decrement)
    ensures forall i :: 0 <= i < n ==> countdowns[i] == step
  {
    StepFrameShape(n, m, increment, decrement, step, pause);
  }

  /** A strip showing a pause frame shows the new colour everywhere, held for the pause. */
  lemma PauseFrameShown(pixels: seq<Color>, countdowns: seq<real>, n: nat, m: nat, increment: Color, decrement: Color,
                        step: real, pause: real)
    requires 0 < n <= m + 1 && |countdowns| == n
    requires var f := WipeFrame(n, m, increment, decrement, step, pause);
      pixels == FrameColors(f) && forall i :: 0 <= i < n ==> countdowns[i] == f[i].duration
    ensures pixels == Repeat(n, increment)
    ensures forall i :: 0 <= i < n ==> countdowns[i] == pause
  {
    PauseFrameShape(n, m, increment, decrement, step, pause);
  }

  /** With every countdown run out, a call shows its frame everywhere, and
      pushes exactly when that differs from what the strip showed. */
  lemma WipeShowsFrame(s: StripState, colors: seq<Color>, step: Option<real>, pause: Option<real>, start: real, end: real)
    requires s.Valid() && |ActiveColors(s, colors)| > 0 && AllLapse(s, start)
    ensures var r, f := CycleBetween(s, colors, step, pause, start, end), CallFrame(s, colors, step, pause);
      && (forall i :: 0 <= i < s.Size() ==> r.state.pixels[i] == f[i].color && r.state.countdowns[i] == f[i].duration)
      && r.state.pixels == FrameColors(f)
      && (r.refresh <==> r.state.pixels != s.pixels)
  {
    var r, f := CycleBetween(s, colors, step, pause, start, end), CallFrame(s, colors, step, pause);
    var delta := start - s.lastTick;
    assert forall i :: 0 <= i < s.Size() ==> Lapses(s.countdowns, delta, i);
    if r.state.pixels != s.pixels {
      var i :| 0 <= i < s.Size() && r.state.pixels[i] != s.pixels[i];
      assert s.pixels[i] != f[i].color;
    }
  }

  /** Two different colours make a set of two. */
  lemma TwoColors(a: Color, b: Color)
    requires a != b
    ensures |{a, b}| == 2
  {
  }

  /** One colour makes a set of one. */
  lemma OneColor(a: Color)
    ensures |{a}| == 1
  {
  }

  /** Ticking a step frame onto a strip part-way through a wipe, with every
      countdown lapsed, converts one more pixel, pushes the frame and keeps
      the index. */
  lemma StepTick(p: StripState, m: nat, n: nat, increment: Color, decrement: Color, step: real, pause: real,
                 start: real, end: real)
    requires p.Valid() && p.Size() == n && m + 1 < n && increment != decrement
    requires p.pixels == Layout(m, n, increment, decrement) && AllLapse(p, start)
    ensures var r := Tick(p, WipeFrame(n, m, increment, decrement, step, pause), start, end);
      && r.state.pixels == Layout(m + 1, n, increment, decrement)
      && r.refresh
      && r.state.cycleIndex == p.cycleIndex
      && (forall i :: 0 <= i < n ==> r.state.countdowns[i] == step)
  {
    var frame := WipeFrame(n, m, increment, decrement, step, pause);
    StepFrameShape(n, m, increment, decrement, step, pause);
    TwoColors(increment, decrement);
    assert p.pixels[m] != frame[m].color;
    TickFullFrame(p, frame, start, end, {increment, decrement}, m);
  }

  /** Ticking the pause frame onto a strip with one pixel left, with every
      countdown lapsed, fills the strip, pushes the frame and moves the index on. */
  lemma PauseTick(p: StripState, n: nat, increment: Color, decrement: Color, step: real, pause: real,
                  start: real, end: real)
    requires p.Valid() && p.Size() == n && increment != decrement
    requires p.pixels == Layout(n - 1, n, increment, decrement) && AllLapse(p, start)
    ensures var r := Tick(p, WipeFrame(n, n - 1, increment, decrement, step, pause), start, end);
      && r.state.pixels == Repeat(n, increment)
      && r.refresh
      && r.state.cycleIndex == NextIndex(p.cycleIndex, Modulus(p.cycleColors))
      && (forall i :: 0 <= i < n ==> r.state.countdowns[i] == pause)
  {
    var frame := WipeFrame(n, n - 1, increment, decrement, step, pause);
    PauseFrameShape(n, n - 1, increment, decrement, step, pause);
    OneColor(increment);
    assert p.pixels[n - 1] != frame[n - 1].color;
    TickFullFrame(p, frame, start, end, {increment}, n - 1);
  }

  /** A wipe step with more than one pixel left converts exactly one more
      pixel, pushes the frame and does not move the cycle index. */
  lemma WipeAdvances(s: StripState, colors: seq<Color>, step: Option<real>, pause: Option<real>,
                     start: real, end: real, m: nat, n: nat)
    requires s.Valid() && |colors| > 0 && s.Size() == n && m + 1 < n
    requires var w := SelectColors(s.cycleIndex, colors);
      s.pixels == Layout(m, n, w.increment, w.decrement) && !SameOn(w.decrement, w.increment, s.bpp)
    requires AllLapse(s, start)
    ensures var w := SelectColors(s.cycleIndex, colors);
      var r := CycleBetween(s, colors, step, pause, start, end);
      && r.state.pixels == Layout(m + 1, n, w.increment, w.decrement)
      && r.refresh
      && r.state.cycleIndex == w.index
      && (forall i :: 0 <= i < n ==> r.state.countdowns[i] == OrDefault(step, s.cycleDuration))
  {
    var w := SelectColors(s.cycleIndex, colors);
    CountLayout(m, n, w.increment, w.decrement, s.bpp);
    CycleBetweenTicks(s, colors, step, pause, start, end);
    StepTick(s.(cycleColors := colors, cycleIndex := w.index), m, n, w.increment, w.decrement,
      OrDefault(step, s.cycleDuration), OrDefault(pause, s.pauseDuration), start, end);
  }

  /** The step that converts the last pixel fills the strip with the new
      colour, holds it for the pause, pushes the frame and moves the cycle
      index to the next colour: a completed step of the cycle. */
  lemma WipeCompletes(s: StripState, colors: seq<Color>, step: Option<real>, pause: Option<real>,
                      start: real, end: real, n: nat)
    requires s.Valid() && |colors| > 0 && s.Size() == n
    requires var w := SelectColors(s.cycleIndex, colors);
      s.pixels == Layout(n - 1, n, w.increment, w.decrement) && !SameOn(w.decrement, w.increment, s.bpp)
    requires AllLapse(s, start)
    ensures var w := SelectColors(s.cycleIndex, colors);
      var r := CycleBetween(s, colors, step, pause, start, end);
      && r.state.pixels == Repeat(n, w.increment)
      && r.refresh
      && r.state.cycleIndex == NextIndex(w.index, |colors|)
      && (forall i :: 0 <= i < n ==> r.state.countdowns[i] == OrDefault(pause, s.pauseDuration))
  {
    var w := SelectColors(s.cycleIndex, colors);
    CountLayout(n - 1, n, w.increment, w.decrement, s.bpp);
    CycleBetweenTicks(s, colors, step, pause, start, end);
    PauseTick(s.(cycleColors := colors, cycleIndex := w.index), n, w.increment, w.decrement,
      OrDefault(step, s.cycleDuration), OrDefault(pause, s.pauseDuration), start, end);
  }

  /** Once the whole strip shows the new colour, further calls change no
      pixel, push nothing and keep the cycle index, whatever the clock:
      the wipe holds at saturation. */
  lemma WipeHolds(s: StripState, colors: seq<Color>, step: Option<real>, pause: Option<real>, start: real, end: real)
    requires s.Valid() && |colors| > 0
    requires forall i :: 0 <= i < s.Size() ==> s.pixels[i] == SelectColors(s.cycleIndex, colors).increment
    ensures var r := CycleBetween(s, colors, step, pause, start, end);
      && r.state.pixels == s.pixels
      && !r.refresh
      && r.state.cycleIndex == SelectColors(s.cycleIndex, colors).index
  {
    var n := s.Size();
    var w := SelectColors(s.cycleIndex, colors);
    CountAll(s.pixels, w.increment, s.bpp);
    var frame := WipeFrame(n, CountColored(s.pixels, w.increment, s.bpp), w.increment, w.decrement,
      OrDefault(step, s.cycleDuration), OrDefault(pause, s.pauseDuration));
    CycleBetweenTicks(s, colors, step, pause, start, end);
    TickRepeatsShown(s.(cycleColors := colors, cycleIndex := w.index), frame, start, end);
  }

  /** One wipe call at clock reading `at`, with the strip's own durations. */
  function WipeCall(t: StripState, colors: seq<Color>, at: real): (u: StripState)
    requires t.Valid() && |colors| > 0
    ensures u.Valid() && u.Size() == t.Size()
    ensures u.bpp == t.bpp && u.pauseDuration == t.pauseDuration && u.cycleDuration == t.cycleDuration
    ensures u.lastTick == at
  {
    CycleBetween(t, colors, None, None, at, at).state
  }

  /** A wipe call on a strip of `n` pixels with more than one pixel left
      converts one more pixel, keeps the index and sets every countdown to
      the step duration. */
  lemma WipeCallAdvances(t: StripState, colors: seq<Color>, at: real, m: nat, n: nat)
    requires t.Valid() && |colors| > 0 && t.Size() == n && m + 1 < n
    requires var w := SelectColors(t.cycleIndex, colors);
      t.pixels == Layout(m, n, w.increment, w.decrement) && !SameOn(w.decrement, w.increment, t.bpp)
    requires AllLapse(t, at)
    ensures var w := SelectColors(t.cycleIndex, colors);
      var u := WipeCall(t, colors, at);
      && u.pixels == Layout(m + 1, n, w.increment, w.decrement)
      && u.cycleIndex == w.index
      && (forall i :: 0 <= i < n ==> u.countdowns[i] == t.cycleDuration)
  {
    WipeAdvances(t, colors, None, None, at, at, m, n);
  }

  /** The wipe call that converts the last pixel completes the step of the
      cycle: the strip shows the new colour and the index moves on. */
  lemma WipeCallCompletes(t: StripState, colors: seq<Color>, at: real, index: nat, n: nat)
    requires t.Valid() && |colors| > 0 && t.Size() == n && t.cycleIndex == index < |colors|
    requires var w := SelectColors(index, colors);
      t.pixels == Layout(n - 1, n, w.increment, w.decrement) && !SameOn(w.decrement, w.increment, t.bpp)
    requires AllLapse(t, at)
    ensures var u := WipeCall(t, colors, at);
      && u.pixels == Repeat(n, colors[NextIndex(index, |colors|)])
      && u.cycleIndex == NextIndex(index, |colors|)
  {
    WipeCompletes(t, colors, None, None, at, at, n);
  }

  /** Wipe calls at the first `k` clock readings of `times`. */
  function WipeRun(s: StripState, colors: seq<Color>, times: seq<real>, k: nat): (t: StripState)
    requires s.Valid() && |colors| > 0 && k <= |times|
    ensures t.Valid() && t.Size() == s.Size()
    ensures t.bpp == s.bpp && t.pauseDuration == s.pauseDuration && t.cycleDuration == s.cycleDuration
    ensures k > 0 ==> t.lastTick == times[k - 1]
  {
    if k == 0 then s else WipeCall(WipeRun(s, colors, times, k - 1), colors, times[k - 1])
  }

  /** The last of `k` wipe calls is a wipe call on the strip the first `k - 1` calls leave. */
  lemma WipeRunStep(s: StripState, colors: seq<Color>, times: seq<real>, k: nat)
    requires s.Valid() && |colors| > 0 && 0 < k <= |times|
    ensures var t := WipeRun(s, colors, times, k - 1);
      var u := WipeCall(t, colors, times[k - 1]);
      WipeRun(s, colors, times, k).pixels == u.pixels && WipeRun(s, colors, times, k).cycleIndex == u.cycleIndex
  {
  }

  /** Calls spaced so that every countdown lapses by each call: the first
      finds the strip's own countdowns run out, and consecutive calls lie at
      least one step duration apart. */
  ghost predicate Spaced(s: StripState, times: seq<real>)
    requires s.Valid()
  {
    && |times| > 0
    && AllLapse(s, times[0])
    && forall j :: 0 < j < |times| ==> s.cycleDuration <= times[j] - times[j - 1]
  }

  /** Countdowns that all hold the step duration lapse by the next spaced call. */
  lemma LapseAgain(u: StripState, at: real, later: real)
    requires u.Valid() && u.lastTick == at && u.cycleDuration <= later - at
    requires forall i :: 0 <= i < u.Size() ==> u.countdowns[i] == u.cycleDuration
    ensures AllLapse(u, later)
  {
  }

  /** From a strip of `n` pixels wholly in the old colour, with spaced
      calls, `k` calls convert exactly the first `k` pixels, as long as at
      least one pixel is left; every countdown lapses again by the next call. */
  lemma {:induction false} WipeRunConverts(s: StripState, colors: seq<Color>, times: seq<real>, k: nat, n: nat)
    requires s.Valid() && |colors| > 0 && s.cycleIndex < |colors| && s.Size() == n
    requires var w := SelectColors(s.cycleIndex, colors);
      s.pixels == Repeat(n, w.decrement) && !SameOn(w.decrement, w.increment, s.bpp)
    requires Spaced(s, times)
    requires k < n && k < |times|
    ensures var w := SelectColors(s.cycleIndex, colors);
      var t := WipeRun(s, colors, times, k);
      && t.pixels == Layout(k, n, w.increment, w.decrement)
      && t.cycleIndex == s.cycleIndex
      && AllLapse(t, times[k])
    decreases k, 1
  {
    if k == 0 {
      WipeRunConvertsNone(s, colors, times, n);
    } else {
      WipeRunConvertsStep(s, colors, times, k, n);
    }
  }

  /** The base of `WipeRunConverts`: before any call no pixel is converted. */
  lemma WipeRunConvertsNone(s: StripState, colors: seq<Color>, times: seq<real>, n: nat)
    requires s.Valid() && |colors| > 0 && s.Size() == n
    requires s.pixels == Repeat(n, SelectColors(s.cycleIndex, colors).decrement)
    requires Spaced(s, times)
    ensures var w, t := SelectColors(s.cycleIndex, colors), WipeRun(s, colors, times, 0);
      t.pixels == Layout(0, n, w.increment, w.decrement) && t.cycleIndex == s.cycleIndex && AllLapse(t, times[0])
  {
    var w := SelectColors(s.cycleIndex, colors);
    assert Layout(0, n, w.increment, w.decrement) == s.pixels;
  }

  /** The inductive step of `WipeRunConverts`: the first `k - 1` calls
      convert `k - 1` pixels, and one more spaced call converts one more. */
  lemma {:induction false} WipeRunConvertsStep(s: StripState, colors: seq<Color>, times: seq<real>, k: nat, n: nat)
    requires s.Valid() && |colors| > 0 && s.cycleIndex < |colors| && s.Size() == n
    requires var w := SelectColors(s.cycleIndex, colors);
      s.pixels == Repeat(n, w.decrement) && !SameOn(w.decrement, w.increment, s.bpp)
    requires Spaced(s, times) && 0 < k < n && k < |times|
    ensures var w, t := SelectColors(s.cycleIndex, colors), WipeRun(s, colors, times, k);
      && t.pixels == Layout(k, n, w.increment, w.decrement)
      && t.cycleIndex == s.cycleIndex
      && AllLapse(t, times[k])
    decreases k, 0
  {
    WipeRunConverts(s, colors, times, k - 1, n);
    var t := WipeRun(s, colors, times, k - 1);
    WipeCallAdvances(t, colors, times[k - 1], k - 1, n);
    LapseAgain(WipeCall(t, colors, times[k - 1]), times[k - 1], times[k]);
  }

  /** The whole wipe: from a strip of `n` pixels wholly in the old colour,
      `n` spaced calls leave it wholly in the new colour with the cycle index
      on the next colour; the `n`-th call is the one that converts the last
      pixel. */
  lemma WipeRunCompletes(s: StripState, colors: seq<Color>, times: seq<real>, n: nat)
    requires s.Valid() && |colors| > 0 && s.cycleIndex < |colors| && s.Size() == n
    requires var w := SelectColors(s.cycleIndex, colors);
      s.pixels == Repeat(n, w.decrement) && !SameOn(w.decrement, w.increment, s.bpp)
    requires Spaced(s, times) && n <= |times|
    ensures var t := WipeRun(s, colors, times, n);
      && t.pixels == Repeat(n, colors[NextIndex(s.cycleIndex, |colors|)])
      && t.cycleIndex == NextIndex(s.cycleIndex, |colors|)
  {
    WipeRunConverts(s, colors, times, n - 1, n);
    var t := WipeRun(s, colors, times, n - 1);
    WipeCallCompletes(t, colors, times[n - 1], s.cycleIndex, n);
    WipeRunStep(s, colors, times, n);
  }

  /** Sixteen BLUE pixels wiped to RED with the cycle [BLUE, RED], one call
      per second from a fresh strip: fifteen calls leave one BLUE pixel, the
      sixteenth finishes the wipe and moves the cycle index to RED. */
  lemma BlueToRed()
    ensures var s := Init(16, 3, 0.5, 0.0).(pixels := Repeat(16, BLUE));
      var times := seq(16, j => (j + 1) as real);
      && WipeRun(s, [BLUE, RED], times, 15).pixels == Repeat(15, RED) + [BLUE]
      && WipeRun(s, [BLUE, RED], times, 16).pixels == Repeat(16, RED)
      && WipeRun(s, [BLUE, RED], times, 16).cycleIndex == 1
  {
    var s := Init(16, 3, 0.5, 0.0).(pixels := Repeat(16, BLUE));
    var times := seq(16, j => (j + 1) as real);
    assert SelectColors(0, [BLUE, RED]) == WipeColors(0, BLUE, RED);
    assert Spaced(s, times);
    WipeRunConverts(s, [BLUE, RED], times, 15, 16);
    LayoutOneLeft(16, RED, BLUE);
    WipeRunCompletes(s, [BLUE, RED], times, 16);
  }
}
