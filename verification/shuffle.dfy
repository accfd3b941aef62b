/** The Friday and transition palettes (`random_color_sort`): every light
    gets the eight base colours plus a white that suits its strip, in an
    order set by one random key per colour. Python's `sorted` with
    `key=random.random()` draws the keys in list order and sorts stably by
    them; the keys are a parameter here. */
module Shuffle {
  import opened Colors

  /** The base colours, in the order the list literal gives them. */
  const BaseColors: seq<Color> := [RED, ORANGE, YELLOW, GREEN, MINT, BLUE, PURPLE, PINK]

  /** The white a strip of `numPixels` pixels gets: the 8-pixel jewel has a
      white channel, the 16-pixel rings mix white from red, green and blue. */
  function WhiteFor(numPixels: nat): Color {
    if numPixels == 8 then WHITE else WHITE_RGB
  }

  /** The colours shuffled for one strip. */
  function Palette(numPixels: nat): (p: seq<Color>)
    ensures |p| == 9 && p[..8] == BaseColors
    ensures p[8] == WHITE <==> numPixels == 8
    ensures p[8] == WHITE_RGB <==> numPixels != 8
  {
    BaseColors + [WhiteFor(numPixels)]
  }

  /** A colour with the random key it is sorted by. */
  datatype Keyed = Keyed(key: real, color: Color)

  /** Keys never decrease along `s`. */
  ghost predicate SortedByKey(s: seq<Keyed>) {
    forall i, j :: 0 <= i < j < |s| ==> s[i].key <= s[j].key
  }

  /** The colours of `s`, in order. */
  function ColorsOf(s: seq<Keyed>): (c: seq<Color>)
    ensures |c| == |s|
    ensures forall i :: 0 <= i < |s| ==> c[i] == s[i].color
  {
    if |s| == 0 then [] else [s[0].color] + ColorsOf(s[1..])
  }

  /** Place `x` into the sorted `s` before the first element whose key is
      not smaller; elements with the same key as `x` that came from later in
      the input stay after it, which keeps the sort stable. */
  function Insert(x: Keyed, s: seq<Keyed>): (r: seq<Keyed>)
    ensures |r| == |s| + 1
  {
    if |s| == 0 then [x]
    else if x.key <= s[0].key then [x] + s
    else [s[0]] + Insert(x, s[1..])
  }

  /** Insertion sort by key, inserting from the back of the input. */
  function SortByKey(s: seq<Keyed>): (r: seq<Keyed>)
    ensures |r| == |s|
  {
    if |s| == 0 then [] else Insert(s[0], SortByKey(s[1..]))
  }

  /** Inserting into a sorted sequence keeps it sorted. */
  lemma {:induction false} InsertSorted(x: Keyed, s: seq<Keyed>)
    requires SortedByKey(s)
    ensures SortedByKey(Insert(x, s))
    ensures |s| > 0 ==> Insert(x, s)[0].key == if x.key <= s[0].key then x.key else s[0].key
  {
    if |s| > 0 && x.key > s[0].key {
      var tail := s[1..];
      assert SortedByKey(tail);
      InsertSorted(x, tail);
      var r := Insert(x, s);
      assert r == [s[0]] + Insert(x, tail);
      forall i, j | 0 <= i < j < |r| ensures r[i].key <= r[j].key {
        if i == 0 && j > 1 {
          assert r[j] == Insert(x, tail)[j - 1];
          assert Insert(x, tail)[0].key <= r[j].key;
        }
      }
    }
  }

  /** Inserting adds exactly `x` to the multiset of elements. */
  lemma {:induction false} InsertPermutes(x: Keyed, s: seq<Keyed>)
    ensures multiset(Insert(x, s)) == multiset(s) + multiset{x}
  {
    if |s| > 0 && x.key > s[0].key {
      InsertPermutes(x, s[1..]);
      assert s == [s[0]] + s[1..];
    }
  }

  /** The sort orders the keys. */
  lemma {:induction false} SortSorts(s: seq<Keyed>)
    ensures SortedByKey(SortByKey(s))
  {
    if |s| > 0 {
      SortSorts(s[1..]);
      InsertSorted(s[0], SortByKey(s[1..]));
    }
  }

  /** The sort rearranges its input without losing or adding an element. */
  lemma {:induction false} SortPermutes(s: seq<Keyed>)
    ensures multiset(SortByKey(s)) == multiset(s)
  {
    if |s| > 0 {
      SortPermutes(s[1..]);
      InsertPermutes(s[0], SortByKey(s[1..]));
      assert s == [s[0]] + s[1..];
    }
  }

  /** Inserting adds exactly the colour of `x` to the colours. */
  lemma {:induction false} InsertCarriesColors(x: Keyed, s: seq<Keyed>)
    ensures multiset(ColorsOf(Insert(x, s))) == multiset(ColorsOf(s)) + multiset{x.color}
  {
    if |s| > 0 {
      ColorsOfCons(s[0], s[1..]);
      assert [s[0]] + s[1..] == s;
      if x.key <= s[0].key {
        ColorsOfCons(x, s);
      } else {
        InsertCarriesColors(x, s[1..]);
        ColorsOfCons(s[0], Insert(x, s[1..]));
      }
    }
  }

  /** The colours of a sequence with one more element in front. */
  lemma ColorsOfCons(x: Keyed, s: seq<Keyed>)
    ensures ColorsOf([x] + s) == [x.color] + ColorsOf(s)
  {
    assert ([x] + s)[1..] == s;
  }

  /** The sort rearranges the colours without losing or adding one. */
  lemma {:induction false} SortCarriesColors(s: seq<Keyed>)
    ensures multiset(ColorsOf(SortByKey(s))) == multiset(ColorsOf(s))
  {
    if |s| > 0 {
      SortCarriesColors(s[1..]);
      InsertCarriesColors(s[0], SortByKey(s[1..]));
    }
  }

  /** `sorted(colors, key=...)` for one strip: the colours in the order of
      their keys. */
  function SortColors(colors: seq<Color>, keys: seq<real>): (r: seq<Color>)
    requires |keys| == |colors|
    ensures |r| == |colors|
    ensures multiset(r) == multiset(colors)
  {
    var tagged := seq(|colors|, i requires 0 <= i < |colors| => Keyed(keys[i], colors[i]));
    var sorted := SortByKey(tagged);
    SortCarriesColors(tagged);
    assert ColorsOf(tagged) == colors;
    ColorsOf(sorted)
  }

  /** The sorted colours come out in the order of their keys: there is a
      reordering of the keys, non-decreasing, that goes with them. */
  lemma SortColorsOrdered(colors: seq<Color>, keys: seq<real>)
    requires |keys| == |colors|
    ensures var tagged := seq(|colors|, i requires 0 <= i < |colors| => Keyed(keys[i], colors[i]));
      var sorted := SortByKey(tagged);
      SortedByKey(sorted) && ColorsOf(sorted) == SortColors(colors, keys)
  {
    var tagged := seq(|colors|, i requires 0 <= i < |colors| => Keyed(keys[i], colors[i]));
    SortSorts(tagged);
  }

  /** `random_color_sort`: one shuffled palette per strip, in strip order;
      `keys[i]` are the random keys drawn for strip `i`. */
  function RandomColorSort(sizes: seq<nat>, keys: seq<seq<real>>): (cycles: seq<seq<Color>>)
    requires |keys| == |sizes|
    requires forall i :: 0 <= i < |keys| ==> |keys[i]| == |Palette(sizes[i])|
    ensures |cycles| == |sizes|
    ensures forall i :: 0 <= i < |sizes| ==> multiset(cycles[i]) == multiset(Palette(sizes[i]))
  {
    seq(|sizes|, i requires 0 <= i < |sizes| => SortColors(Palette(sizes[i]), keys[i]))
  }

  /** The nine palette colours are distinct. */
  lemma PaletteDistinct(numPixels: nat)
    ensures forall i, j :: 0 <= i < j < |Palette(numPixels)| ==> Palette(numPixels)[i] != Palette(numPixels)[j]
  {
  }

  /** Every shuffled palette holds nine colours, each of the base colours
      once, and the white channel's WHITE exactly on the 8-pixel strip. */
  lemma ShuffledPalettes(sizes: seq<nat>, keys: seq<seq<real>>)
    requires |keys| == |sizes|
    requires forall i :: 0 <= i < |keys| ==> |keys[i]| == |Palette(sizes[i])|
    ensures forall i :: 0 <= i < |sizes| ==>
      var cycle := RandomColorSort(sizes, keys)[i];
      && |cycle| == 9
      && (forall c :: c in BaseColors ==> multiset(cycle)[c] == 1)
      && (WHITE in cycle <==> sizes[i] == 8)
      && (WHITE_RGB in cycle <==> sizes[i] != 8)
  {
    forall i | 0 <= i < |sizes|
      ensures var cycle := RandomColorSort(sizes, keys)[i];
        && |cycle| == 9
        && (forall c :: c in BaseColors ==> multiset(cycle)[c] == 1)
        && (WHITE in cycle <==> sizes[i] == 8)
        && (WHITE_RGB in cycle <==> sizes[i] != 8)
    {
      var cycle := RandomColorSort(sizes, keys)[i];
      var p := Palette(sizes[i]);
      assert multiset(cycle) == multiset(p);
      assert |cycle| == |multiset(cycle)| == |multiset(p)| == 9;
      PaletteCounts(sizes[i]);
      assert WHITE in cycle <==> WHITE in multiset(cycle);
      assert WHITE_RGB in cycle <==> WHITE_RGB in multiset(cycle);
    }
  }

  /** How often each colour occurs in a palette. */
  lemma PaletteCounts(numPixels: nat)
    ensures forall c :: c in BaseColors ==> multiset(Palette(numPixels))[c] == 1
    ensures WHITE in multiset(Palette(numPixels)) <==> numPixels == 8
    ensures WHITE_RGB in multiset(Palette(numPixels)) <==> numPixels != 8
  {
    var w := WhiteFor(numPixels);
    assert multiset(Palette(numPixels)) == multiset(BaseColors) + multiset{w};
    WhitesNotBase();
    BaseOnce();
  }

  /** Neither white is a base colour. */
  lemma WhitesNotBase()
    ensures WHITE !in multiset(BaseColors) && WHITE_RGB !in multiset(BaseColors)
  {
    assert WHITE !in BaseColors;
    assert WHITE_RGB !in BaseColors;
  }

  /** Each base colour occurs once among the base colours. */
  lemma BaseOnce()
    ensures forall c :: c in BaseColors ==> multiset(BaseColors)[c] == 1
  {
    forall c | c in BaseColors ensures multiset(BaseColors)[c] == 1 {
      BaseDistinct();
      DistinctOnce(BaseColors, c);
    }
  }

  /** The eight base colours are distinct. */
  lemma BaseDistinct()
    ensures forall i, j :: 0 <= i < j < |BaseColors| ==> BaseColors[i] != BaseColors[j]
  {
  }

  /** In a sequence without repeats, each element occurs once. */
  lemma {:induction false} DistinctOnce(s: seq<Color>, c: Color)
    requires forall i, j :: 0 <= i < j < |s| ==> s[i] != s[j]
    ensures c in s ==> multiset(s)[c] == 1
  {
    if |s| > 0 {
      var rest := s[1..];
      assert s == [s[0]] + rest;
      DistinctOnce(rest, c);
      if c == s[0] {
        assert c !in rest;
      }
    }
  }
}
