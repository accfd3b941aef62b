/** The chase animator (`NovaStar.chase`): a band of pixels in a secondary
    colour moves one way or the other around a strip in a primary colour.
    The band is read back from the strip itself; when it is missing, or
    covers the whole strip, it is seeded afresh as `sections` evenly spaced
    runs. */
module Band {
  import opened Colors
  import opened Options
  import opened Strip

  /** Python's `round` on a number: the nearest integer, ties to the even one. */
  function RoundHalfEven(x: real): (r: int)
    ensures x - 0.5 <= r as real <= x + 0.5
    ensures (r as real) - x == 0.5 || x - (r as real) == 0.5 ==> r % 2 == 0
  {
    var f := x.Floor;
    var frac := x - f as real;
    if frac < 0.5 then f
    else if frac > 0.5 then f + 1
    else if f % 2 == 0 then f
    else f + 1
  }

  /** The distance of `x` from zero. */
  function Abs(x: real): real {
    if x < 0.0 then -x else x
  }

  /** No integer lies closer to `x` than the rounded value. */
  lemma RoundIsNearest(x: real, j: int)
    ensures Abs(RoundHalfEven(x) as real - x) <= Abs(j as real - x)
  {
    var r := RoundHalfEven(x);
    if j < r {
      assert j as real <= r as real - 1.0;
    } else if j > r {
      assert j as real >= r as real + 1.0;
    }
  }

  /** The integers `lo .. hi - 1` (Python's `range(lo, hi)`). */
  function Range(lo: int, hi: int): (r: set<int>)
    ensures forall x :: x in r <==> lo <= x < hi
    decreases hi - lo
  {
    if hi <= lo then {} else Range(lo, hi - 1) + {hi - 1}
  }

  /** A range holds as many integers as its bounds are apart. */
  lemma {:induction false} RangeSize(lo: int, hi: int)
    requires lo <= hi
    ensures |Range(lo, hi)| == hi - lo
    decreases hi - lo
  {
    if lo < hi {
      RangeSize(lo, hi - 1);
      assert hi - 1 !in Range(lo, hi - 1);
    }
  }

  /** The number of band starts `a, a + step, ...` below `n`. */
  function StartCount(a: int, n: int, step: nat): nat
    requires step > 0
    decreases n - a
  {
    if a >= n then 0 else 1 + StartCount(a + step, n, step)
  }

  /** Whether `x` lies in the run `range(a + k * step, a + k * step + size - 1)`
      that the `k`-th start from `a` seeds. */
  predicate InRun(x: int, a: int, step: nat, size: int, k: nat) {
    a + k * step <= x < a + k * step + size - 1
  }

  /** The seeded positions from start `a` on: a run `range(a, a + size - 1)`
      at every start `a, a + step, ...` below `n`. */
  function SeedFrom(a: int, n: int, step: nat, size: int): (r: set<int>)
    requires step > 0
    ensures forall x :: x in r ==> a <= x
    ensures forall x :: x in r ==> x < n + size - 2
    ensures forall x :: x in r <==> exists k: nat :: k < StartCount(a, n, step) && InRun(x, a, step, size, k)
    decreases n - a
  {
    if a >= n then {}
    else
      var rest := SeedFrom(a + step, n, step, size);
      SeedFromStep(a, a + step, n, step, size, rest, Range(a, a + size - 1) + rest);
      Range(a, a + size - 1) + rest
  }

  /** Adding the run at start `a` to the runs `rest` of the later starts,
      which begin at `b = a + step`, gives the runs of every start from `a` on. */
  lemma SeedFromStep(a: int, b: int, n: int, step: nat, size: int, rest: set<int>, all: set<int>)
    requires step > 0 && a < n && b == a + step && all == Range(a, a + size - 1) + rest
    requires forall x :: x in rest <==> exists k: nat :: k < StartCount(b, n, step) && InRun(x, b, step, size, k)
    ensures forall x :: x in all <==> exists k: nat :: k < StartCount(a, n, step) && InRun(x, a, step, size, k)
  {
    forall x | x in all ensures exists k: nat :: k < StartCount(a, n, step) && InRun(x, a, step, size, k) {
      if x in Range(a, a + size - 1) {
        assert InRun(x, a, step, size, 0);
      } else {
        var k: nat :| k < StartCount(b, n, step) && InRun(x, b, step, size, k);
        assert b + k * step == a + (k + 1) * step;
        assert InRun(x, a, step, size, k + 1);
      }
    }
    forall x | exists k: nat :: k < StartCount(a, n, step) && InRun(x, a, step, size, k) ensures x in all {
      var k: nat :| k < StartCount(a, n, step) && InRun(x, a, step, size, k);
      if k > 0 {
        assert b + (k - 1) * step == a + k * step;
        assert InRun(x, b, step, size, k - 1);
      }
    }
  }

  /** The positions a chase seeds when the strip shows no band or only band:
      `sections` evenly spaced runs of `size - 1` pixels. Positions can run
      past the end of the strip; the rotation wraps them. */
  function Seed(n: nat, sections: nat, size: int): (r: set<int>)
    requires 0 < sections <= n
    ensures forall x :: x in r ==> 0 <= x < n + size - 2
    ensures forall x :: 0 <= x < size - 1 ==> x in r
    ensures n % sections == 0 && 1 <= size <= n / sections + 1 ==> |r| == sections * (size - 1)
    ensures forall x :: x in r <==> exists k: nat :: k < StartCount(0, n, n / sections) && InRun(x, 0, n / sections, size, k)
    ensures n % sections == 0 ==> forall x :: x in r <==> exists k: nat :: k < sections && InRun(x, 0, n / sections, size, k)
  {
    var r := SeedFrom(0, n, n / sections, size);
    if n % sections == 0 then
      SeedStarts(n, sections);
      if 1 <= size <= n / sections + 1 then SeedCount(n, sections, size); r else r
    else r
  }

  /** When `sections` divides `n`, the starts `0, n / sections, ...` below `n` number `sections`. */
  lemma SeedStarts(n: nat, sections: nat)
    requires 0 < sections <= n && n % sections == 0
    ensures StartCount(0, n, n / sections) == sections
  {
    var step := n / sections;
    assert n - sections * step == 0;
    StartsExactly(sections, n, step);
  }

  /** With `sections` dividing `n` and runs that fit between starts, the
      seed holds `size - 1` positions for each of `sections` starts. */
  lemma SeedCount(n: nat, sections: nat, size: int)
    requires 0 < sections <= n && n % sections == 0 && 1 <= size <= n / sections + 1
    ensures |SeedFrom(0, n, n / sections, size)| == sections * (size - 1)
  {
    SeedStarts(n, sections);
    SeedSize(0, n, n / sections, size);
  }

  /** Starts spaced `step` apart from `k` steps below `n` number exactly `k`. */
  lemma {:induction false} StartsExactly(k: nat, n: int, step: nat)
    requires step > 0
    ensures StartCount(n - k * step, n, step) == k
  {
    if k > 0 {
      StartsExactly(k - 1, n, step);
      assert n - k * step + step == n - (k - 1) * step;
    }
  }

  /** When the runs are no longer than the gap between starts they do not
      overlap, and the seed holds `size - 1` positions per start. */
  lemma {:induction false} SeedSize(a: int, n: int, step: nat, size: int)
    requires step > 0 && 1 <= size && size - 1 <= step
    ensures |SeedFrom(a, n, step, size)| == StartCount(a, n, step) * (size - 1)
    decreases n - a
  {
    if a < n {
      var run, rest := Range(a, a + size - 1), SeedFrom(a + step, n, step, size);
      var c, k := StartCount(a + step, n, step), size - 1;
      SeedSize(a + step, n, step, size);
      RangeSize(a, a + size - 1);
      RunBeforeRest(a, n, step, size);
      DisjointUnionSize(run, rest);
      assert |SeedFrom(a, n, step, size)| == k + c * k;
      OneMore(c, k);
    }
  }

  /** The first run ends before the next start, so it shares no position with the rest. */
  lemma RunBeforeRest(a: int, n: int, step: nat, size: int)
    requires step > 0 && size - 1 <= step
    ensures Range(a, a + size - 1) * SeedFrom(a + step, n, step, size) == {}
  {
    var run, rest := Range(a, a + size - 1), SeedFrom(a + step, n, step, size);
    forall x ensures x !in run * rest {
      if x in run {
        assert x < a + step;
      }
    }
  }

  /** Disjoint sets add their sizes. */
  lemma DisjointUnionSize(u: set<int>, v: set<int>)
    requires u * v == {}
    ensures |u + v| == |u| + |v|
  {
  }

  /** One more run of `k` positions. */
  lemma OneMore(c: int, k: int)
    ensures k + c * k == (1 + c) * k
  {
  }

  /** Position `p` moved by `shift` and wrapped around a strip of `n`
      pixels (Python's `(p + shift) % n`, never negative for `n > 0`). */
  function Shifted(p: int, shift: int, n: nat): (q: int)
    requires n > 0
    ensures 0 <= q < n
  {
    (p + shift) % n
  }

  /** The band positions moved by `shift`, wrapped around a strip of `n` pixels. */
  function Rotate(positions: set<int>, shift: int, n: nat): (r: set<int>)
    requires n > 0
    ensures forall x :: x in r ==> 0 <= x < n
    ensures forall p :: p in positions ==> Shifted(p, shift, n) in r
    ensures forall x :: x in r ==> exists p :: p in positions && x == Shifted(p, shift, n)
  {
    set p | p in positions :: Shifted(p, shift, n)
  }

  /** Every position lies on a strip of `n` pixels. */
  ghost predicate OnStrip(positions: set<int>, n: nat) {
    forall p :: p in positions ==> 0 <= p < n
  }

  /** Adding a multiple of `n` leaves the remainder of a position on the strip unchanged. */
  lemma ModMultiple(x: int, c: int, n: int)
    requires n > 0 && 0 <= x < n
    ensures (x + c * n) % n == x
  {
    var z := x + c * n;
    var d := z / n - c;
    assert n * d == x - z % n;
  }

  /** Shifting a position on the strip by `k` and back by `k` returns it. */
  lemma ShiftBack(x: int, k: int, n: nat)
    requires n > 0 && 0 <= x < n
    ensures Shifted(Shifted(x, k, n), -k, n) == x
  {
    var q := (x + k) / n;
    assert (x + k) % n - k == x + (-q) * n;
    ModMultiple(x, -q, n);
  }

  /** Two positions on the strip that shift to the same place are the same. */
  lemma ShiftInjective(p: int, q: int, k: int, n: nat)
    requires n > 0 && 0 <= p < n && 0 <= q < n
    requires Shifted(p, k, n) == Shifted(q, k, n)
    ensures p == q
  {
    ShiftBack(p, k, n);
    ShiftBack(q, k, n);
  }

  /** Rotating by `shift` and then by `-shift` restores positions on the strip. */
  lemma RotateRoundTrip(positions: set<int>, shift: int, n: nat)
    requires n > 0 && OnStrip(positions, n)
    ensures Rotate(Rotate(positions, shift, n), -shift, n) == positions
  {
    RoundTripKeeps(positions, shift, n);
    RoundTripAdds(positions, shift, n);
  }

  /** Every band position survives the round trip. */
  lemma RoundTripKeeps(positions: set<int>, shift: int, n: nat)
    requires n > 0 && OnStrip(positions, n)
    ensures positions <= Rotate(Rotate(positions, shift, n), -shift, n)
  {
    var there := Rotate(positions, shift, n);
    forall p | p in positions ensures p in Rotate(there, -shift, n) {
      assert Shifted(p, shift, n) in there;
      ShiftBack(p, shift, n);
    }
  }

  /** The round trip brings back nothing but band positions. */
  lemma RoundTripAdds(positions: set<int>, shift: int, n: nat)
    requires n > 0 && OnStrip(positions, n)
    ensures Rotate(Rotate(positions, shift, n), -shift, n) <= positions
  {
    var there := Rotate(positions, shift, n);
    forall x | x in Rotate(there, -shift, n) ensures x in positions {
      var y :| y in there && x == Shifted(y, -shift, n);
      var p :| p in positions && y == Shifted(p, shift, n);
      ShiftBack(p, shift, n);
    }
  }

  /** A rotation moves the band without growing or shrinking it. */
  lemma RotateKeepsSize(positions: set<int>, shift: int, n: nat)
    requires n > 0 && OnStrip(positions, n)
    ensures |Rotate(positions, shift, n)| == |positions|
  {
    RotateKeepsSizeBelow(positions, shift, n, n);
  }

  /** The same, for bands within the first `m` pixels, by induction on `m`. */
  lemma {:induction false} RotateKeepsSizeBelow(positions: set<int>, shift: int, n: nat, m: nat)
    requires 0 < n && m <= n
    requires forall p :: p in positions ==> 0 <= p < m
    ensures |Rotate(positions, shift, n)| == |positions|
    decreases m
  {
    if m == 0 {
      forall p ensures p !in positions {}
      assert positions == {};
    } else {
      var last := m - 1;
      var rest := positions - {last};
      RotateKeepsSizeBelow(rest, shift, n, last);
      if last in positions {
        var moved := Shifted(last, shift, n);
        assert Rotate(positions, shift, n) == Rotate(rest, shift, n) + {moved};
        assert moved !in Rotate(rest, shift, n) by {
          forall q | q in rest ensures Shifted(q, shift, n) != moved {
            if Shifted(q, shift, n) == moved {
              ShiftInjective(q, last, shift, n);
            }
          }
        }
      } else {
        assert rest == positions;
      }
    }
  }

  /** The chase frame: the secondary colour at the target positions, the
      primary colour elsewhere, all for `duration`. */
  function ChaseFrame(n: nat, target: set<int>, primary: Color, secondary: Color, duration: real): (f: seq<ColorDuration>)
    ensures |f| == n
    ensures forall i :: 0 <= i < n && i in target ==> f[i] == ColorDuration(secondary, duration)
    ensures forall i :: 0 <= i < n && i !in target ==> f[i] == ColorDuration(primary, duration)
  {
    seq(n, i => if i in target then ColorDuration(secondary, duration) else ColorDuration(primary, duration))
  }

  /** The band a chase moves: the pixels showing the secondary colour, or a
      fresh seed when none or all of them do. */
  function CurrentBand(s: StripState, secondary: Color, size: int, sections: nat): (band: set<int>)
    requires s.Valid() && 0 < sections <= s.Size()
    ensures 0 < CountColored(s.pixels, secondary, s.bpp) < s.Size() ==> band == Matching(s.pixels, secondary, s.bpp)
    ensures CountColored(s.pixels, secondary, s.bpp) == 0 ==> band == Seed(s.Size(), sections, size)
    ensures CountColored(s.pixels, secondary, s.bpp) == s.Size() ==> band == Seed(s.Size(), sections, size)
  {
    var count := CountColored(s.pixels, secondary, s.bpp);
    if count == 0 || count == s.Size() then Seed(s.Size(), sections, size)
    else Matching(s.pixels, secondary, s.bpp)
  }

  /** The way the band moves: forward when the draw is within `randomness`, backward otherwise. */
  function Shift(draw: real, randomness: real, movement: int): (m: int)
    ensures m == movement || m == -movement
    ensures draw <= randomness ==> m == movement
    ensures randomness < draw ==> m == -movement
  {
    if draw <= randomness then movement else -movement
  }

  /** `NovaStar.chase`: find (or seed) the band, move it by `movement` in the
      direction the uniform draw `draw` picks, and tick the frame. The band
      is `round(n * percentage)` wide at seeding. */
  function Chase(s: StripState, primary: Color, secondary: Color, duration: Option<real>, percentage: real,
                 draw: real, randomness: real, movement: int, sections: nat, start: real, end: real): (r: TickResult)
    requires s.Valid() && 0 < sections <= s.Size()
    ensures r.state.Valid() && r.state.Size() == s.Size()
    ensures r.state == s.(pixels := r.state.pixels, countdowns := r.state.countdowns, cycleIndex := r.state.cycleIndex, lastTick := end)
    ensures var target := ChaseTarget(s, secondary, percentage, draw, randomness, movement, sections);
      forall i :: 0 <= i < s.Size() && Lapses(s.countdowns, start - s.lastTick, i) ==>
        r.state.pixels[i] == (if i in target then secondary else primary)
        && r.state.countdowns[i] == OrDefault(duration, s.cycleDuration)
    ensures forall i :: 0 <= i < s.Size() && !Lapses(s.countdowns, start - s.lastTick, i) ==>
      r.state.pixels[i] == s.pixels[i] && r.state.countdowns[i] == s.countdowns[i] - (start - s.lastTick)
    ensures var target := ChaseTarget(s, secondary, percentage, draw, randomness, movement, sections);
      r.refresh <==> exists i :: 0 <= i < s.Size() && Lapses(s.countdowns, start - s.lastTick, i) && s.pixels[i] != (if i in target then secondary else primary)
    ensures var target := ChaseTarget(s, secondary, percentage, draw, randomness, movement, sections);
      var lapsed := BandColors(s.countdowns, start - s.lastTick, s.Size(), target, primary, secondary);
      r.refresh && |lapsed| == 1 ==> r.state.cycleIndex == NextIndex(s.cycleIndex, Modulus(s.cycleColors))
    ensures var target := ChaseTarget(s, secondary, percentage, draw, randomness, movement, sections);
      var lapsed := BandColors(s.countdowns, start - s.lastTick, s.Size(), target, primary, secondary);
      !(r.refresh && |lapsed| == 1) ==> r.state.cycleIndex == s.cycleIndex
  {
    var target := ChaseTarget(s, secondary, percentage, draw, randomness, movement, sections);
    var hold := OrDefault(duration, s.cycleDuration);
    ChaseTick(s, target, primary, secondary, hold, start, end);
    Tick(s, ChaseFrame(s.Size(), target, primary, secondary, hold), start, end)
  }

  /** Ticking a chase frame: lapsed pixels take the secondary colour inside
      `target` and the primary colour outside it; the tick pushes exactly
      when one of them changes, and moves the index exactly when it pushes
      and the lapsed pixels all take one colour. */
  lemma ChaseTick(s: StripState, target: set<int>, primary: Color, secondary: Color, hold: real, start: real, end: real)
    requires s.Valid()
    ensures var r := Tick(s, ChaseFrame(s.Size(), target, primary, secondary, hold), start, end);
      && (forall i :: 0 <= i < s.Size() && Lapses(s.countdowns, start - s.lastTick, i) ==>
            r.state.pixels[i] == (if i in target then secondary else primary) && r.state.countdowns[i] == hold)
      && (r.refresh <==> exists i :: 0 <= i < s.Size() && Lapses(s.countdowns, start - s.lastTick, i) && s.pixels[i] != (if i in target then secondary else primary))
      && (var lapsed := BandColors(s.countdowns, start - s.lastTick, s.Size(), target, primary, secondary);
          && (r.refresh && |lapsed| == 1 ==> r.state.cycleIndex == NextIndex(s.cycleIndex, Modulus(s.cycleColors)))
          && (!(r.refresh && |lapsed| == 1) ==> r.state.cycleIndex == s.cycleIndex))
  {
    ChaseTickPixels(s, target, primary, secondary, hold, start, end);
    ChaseTickRefresh(s, target, primary, secondary, hold, start, end);
    ChaseTickIndex(s, target, primary, secondary, hold, start, end);
  }

  /** The pixel part of `ChaseTick`. */
  lemma ChaseTickPixels(s: StripState, target: set<int>, primary: Color, secondary: Color, hold: real, start: real, end: real)
    requires s.Valid()
    ensures var r := Tick(s, ChaseFrame(s.Size(), target, primary, secondary, hold), start, end);
      forall i :: 0 <= i < s.Size() && Lapses(s.countdowns, start - s.lastTick, i) ==>
        r.state.pixels[i] == (if i in target then secondary else primary) && r.state.countdowns[i] == hold
  {
  }

  /** The refresh part of `ChaseTick`. */
  lemma ChaseTickRefresh(s: StripState, target: set<int>, primary: Color, secondary: Color, hold: real, start: real, end: real)
    requires s.Valid()
    ensures var r := Tick(s, ChaseFrame(s.Size(), target, primary, secondary, hold), start, end);
      r.refresh <==> exists i :: 0 <= i < s.Size() && Lapses(s.countdowns, start - s.lastTick, i) && s.pixels[i] != (if i in target then secondary else primary)
  {
    var frame := ChaseFrame(s.Size(), target, primary, secondary, hold);
    assert forall i :: 0 <= i < s.Size() ==> frame[i].color == (if i in target then secondary else primary);
  }

  /** The index part of `ChaseTick`. */
  lemma ChaseTickIndex(s: StripState, target: set<int>, primary: Color, secondary: Color, hold: real, start: real, end: real)
    requires s.Valid()
    ensures var r := Tick(s, ChaseFrame(s.Size(), target, primary, secondary, hold), start, end);
      var lapsed := BandColors(s.countdowns, start - s.lastTick, s.Size(), target, primary, secondary);
      && (r.refresh && |lapsed| == 1 ==> r.state.cycleIndex == NextIndex(s.cycleIndex, Modulus(s.cycleColors)))
      && (!(r.refresh && |lapsed| == 1) ==> r.state.cycleIndex == s.cycleIndex)
  {
    var frame := ChaseFrame(s.Size(), target, primary, secondary, hold);
    FrameLapsedColors(s.countdowns, start - s.lastTick, s.Size(), target, primary, secondary, hold);
    assert |LapsedColors(s.countdowns, frame, start - s.lastTick, s.Size())|
      == |BandColors(s.countdowns, start - s.lastTick, s.Size(), target, primary, secondary)|;
  }

  /** The target positions of a chase. */
  function ChaseTarget(s: StripState, secondary: Color, percentage: real, draw: real, randomness: real,
                       movement: int, sections: nat): set<int>
    requires s.Valid() && 0 < sections <= s.Size()
  {
    var size := RoundHalfEven(s.Size() as real * percentage);
    Rotate(CurrentBand(s, secondary, size, sections), Shift(draw, randomness, movement), s.Size())
  }

  /** The distinct colours the lapsing pixels of a chase commit: the
      secondary colour when one lies in the moved band `target`, the primary
      colour when one lies outside it. */
  function BandColors(countdowns: seq<real>, delta: real, n: nat, target: set<int>, primary: Color,
                      secondary: Color): set<Color>
    requires n <= |countdowns|
  {
    set i | 0 <= i < n && Lapses(countdowns, delta, i) :: if i in target then secondary else primary
  }

  /** The colours a chase frame commits at the lapsing pixels. */
  lemma FrameLapsedColors(countdowns: seq<real>, delta: real, n: nat, target: set<int>, primary: Color,
                          secondary: Color, duration: real)
    requires n <= |countdowns|
    ensures LapsedColors(countdowns, ChaseFrame(n, target, primary, secondary, duration), delta, n)
      == BandColors(countdowns, delta, n, target, primary, secondary)
  {
  }

  /** When every countdown lapses, a chase shows the secondary colour
      exactly at the moved band and the primary colour everywhere else. */
  lemma ChaseShowsTarget(s: StripState, primary: Color, secondary: Color, duration: Option<real>, percentage: real,
                         draw: real, randomness: real, movement: int, sections: nat, start: real, end: real)
    requires s.Valid() && 0 < sections <= s.Size()
    requires AllLapse(s, start)
    ensures var r := Chase(s, primary, secondary, duration, percentage, draw, randomness, movement, sections, start, end);
      var target := ChaseTarget(s, secondary, percentage, draw, randomness, movement, sections);
      forall i :: 0 <= i < s.Size() ==> r.state.pixels[i] == if i in target then secondary else primary
  {
    var target := ChaseTarget(s, secondary, percentage, draw, randomness, movement, sections);
    var frame := ChaseFrame(s.Size(), target, primary, secondary, OrDefault(duration, s.cycleDuration));
    TickCommitsAll(s, frame, start, end);
  }

  /** Once a band exists and the primary colour differs from it on the
      strip's channels, a chase step in which every countdown lapses moves
      the band without changing its size. */
  lemma ChaseKeepsBandSize(s: StripState, primary: Color, secondary: Color, duration: Option<real>, percentage: real,
                           draw: real, randomness: real, movement: int, sections: nat, start: real, end: real)
    requires s.Valid() && 0 < sections <= s.Size()
    requires AllLapse(s, start) && !SameOn(primary, secondary, s.bpp)
    requires 0 < CountColored(s.pixels, secondary, s.bpp) < s.Size()
    ensures var r := Chase(s, primary, secondary, duration, percentage, draw, randomness, movement, sections, start, end);
      CountColored(r.state.pixels, secondary, s.bpp) == CountColored(s.pixels, secondary, s.bpp)
  {
    var r := Chase(s, primary, secondary, duration, percentage, draw, randomness, movement, sections, start, end);
    var band := Matching(s.pixels, secondary, s.bpp);
    var target := ChaseTarget(s, secondary, percentage, draw, randomness, movement, sections);
    assert target == Rotate(band, Shift(draw, randomness, movement), s.Size());
    ChaseShowsTarget(s, primary, secondary, duration, percentage, draw, randomness, movement, sections, start, end);
    assert Matching(r.state.pixels, secondary, s.bpp) == target;
    RotateKeepsSize(band, Shift(draw, randomness, movement), s.Size());
    CountIsMatchingSize(s.pixels, secondary, s.bpp);
    CountIsMatchingSize(r.state.pixels, secondary, s.bpp);
  }

  /** On a 16-pixel strip with two sections and a quarter of the pixels as
      band, the seed is two runs of three pixels, not of four: the run
      `range(a, a + size - 1)` stops one short. */
  lemma SixteenPixelSeed()
    ensures RoundHalfEven(16 as real * 0.25) == 4
    ensures Seed(16, 2, 4) == {0, 1, 2, 8, 9, 10}
    ensures |Seed(16, 2, 4)| == 6
  {
    assert SeedFrom(16, 16, 8, 4) == {};
    assert SeedFrom(8, 16, 8, 4) == {8, 9, 10};
    assert Range(0, 3) == {0, 1, 2};
  }

  /** The seed of a 16-pixel strip one pixel on. */
  const MovedSeed: set<int> := {1, 2, 3, 9, 10, 11}

  /** The first chase of the bottom strip while it is dark (after start-up
      or a night): all 16 pixels are off, so the band is seeded at
      {0, 1, 2, 8, 9, 10}; a forward draw moves it one pixel on, and the day
      colour fills the rest. */
  lemma FirstBottomChase(s: StripState, day: Color, start: real, end: real, rd: real, draw: real)
    requires s.Valid() && s.Size() == 16 && s.bpp == 3 && AllLapse(s, start)
    requires forall i :: 0 <= i < 16 ==> s.pixels[i] == OFF
    requires draw <= 0.5
    ensures var r := Chase(s, day, OFF, Some(rd), 0.25, draw, 0.5, 1, 2, start, end);
      forall i :: 0 <= i < 16 ==> r.state.pixels[i] == if i in MovedSeed then OFF else day
  {
    DarkForwardTarget(s, draw);
    ChaseShowsSet(s, day, OFF, Some(rd), 0.25, draw, 0.5, 1, 2, start, end, MovedSeed);
  }

  /** `ChaseShowsTarget` for a target known as a set. */
  lemma ChaseShowsSet(s: StripState, primary: Color, secondary: Color, duration: Option<real>, percentage: real,
                      draw: real, randomness: real, movement: int, sections: nat, start: real, end: real, target: set<int>)
    requires s.Valid() && 0 < sections <= s.Size()
    requires AllLapse(s, start)
    requires ChaseTarget(s, secondary, percentage, draw, randomness, movement, sections) == target
    ensures var r := Chase(s, primary, secondary, duration, percentage, draw, randomness, movement, sections, start, end);
      forall i :: 0 <= i < s.Size() ==> r.state.pixels[i] == if i in target then secondary else primary
  {
    ChaseShowsTarget(s, primary, secondary, duration, percentage, draw, randomness, movement, sections, start, end);
  }

  /** On a dark 16-pixel strip the band is the seed, moved one pixel on. */
  lemma DarkForwardTarget(s: StripState, draw: real)
    requires s.Valid() && s.Size() == 16 && s.bpp == 3
    requires forall i :: 0 <= i < 16 ==> s.pixels[i] == OFF
    requires draw <= 0.5
    ensures ChaseTarget(s, OFF, 0.25, draw, 0.5, 1, 2) == MovedSeed
  {
    CountAll(s.pixels, OFF, 3);
    SixteenPixelSeed();
    var size := RoundHalfEven(s.Size() as real * 0.25);
    assert size == 4;
    assert CurrentBand(s, OFF, size, 2) == Seed(16, 2, 4);
    assert Shift(draw, 0.5, 1) == 1;
    SeedMovedForward();
  }

  /** The seeded band of a 16-pixel strip, moved one pixel forward. */
  lemma SeedMovedForward()
    ensures Rotate({0, 1, 2, 8, 9, 10}, 1, 16) == MovedSeed
  {
    var moved := Rotate({0, 1, 2, 8, 9, 10}, 1, 16);
    forall x ensures x in moved <==> x in {1, 2, 3, 9, 10, 11} {
      if x in {1, 2, 3, 9, 10, 11} {
        assert x == Shifted(x - 1, 1, 16);
      }
    }
  }
}
