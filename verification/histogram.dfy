/**
 The dominant-colour histogram of `jpegToBitmap`: count every pixel of the
 decoded bitmap in a colour-to-count map, order the entries by count,
 descending, and report the first `NUMBER_OF_TOP` of them with their share
 of the image, padding with zero placeholders.
 */
module Histogram {

  /** Number of top colours shown to the user. */
  const NUMBER_OF_TOP: nat := 5

  /** A decoded bitmap; `pixels[x][y]` is `bitmap.getPixel(x, y)`, a packed ARGB `Int`. */
  datatype Bitmap = Bitmap(width: nat, height: nat, pixels: seq<seq<int>>)
  {
    predicate Valid()
    {
      |pixels| == width && forall x :: 0 <= x < width ==> |pixels[x]| == height
    }
  }

  /** One entry of the colour map: a colour and how many pixels have it. */
  datatype Entry = Entry(color: int, count: nat)

  /** One reported colour: `Triple(colour, count, percentage)` in the source. */
  datatype Bucket = Bucket(color: int, count: nat, percentage: real)

  /** The padding used when the image has fewer distinct colours than slots. */
  const Placeholder: Bucket := Bucket(0, 0, 0.0)

  function Min(a: nat, b: nat): nat { if a < b then a else b }

  // ---------------------------------------------------------------------------
  // Visiting the pixels

  /** The pixels of `columns` in the order the counting loop visits them: column by column, top to bottom. */
  function Flatten(columns: seq<seq<int>>): seq<int>
  {
    if columns == [] then [] else Flatten(columns[..|columns| - 1]) + columns[|columns| - 1]
  }

  lemma {:induction false} FlattenLength(columns: seq<seq<int>>, height: nat)
    requires forall x :: 0 <= x < |columns| ==> |columns[x]| == height
    ensures |Flatten(columns)| == |columns| * height
  {
    if columns != [] {
      FlattenLength(columns[..|columns| - 1], height);
    }
  }

  lemma {:induction false} FlattenPrefix(columns: seq<seq<int>>, k: nat)
    requires k <= |columns|
    ensures Flatten(columns[..k]) <= Flatten(columns)
  {
    if k < |columns| {
      var init := columns[..|columns| - 1];
      assert columns[..k] == init[..k];
      FlattenPrefix(init, k);
    } else {
      assert columns[..k] == columns;
    }
  }

  /** Pixel `(x, y)` is visited at step `x * height + y`: each pixel exactly once. */
  lemma FlattenIndex(b: Bitmap, x: nat, y: nat)
    requires b.Valid() && x < b.width && y < b.height
    ensures x * b.height + y < |Flatten(b.pixels)| == b.width * b.height
    ensures Flatten(b.pixels)[x * b.height + y] == b.pixels[x][y]
  {
    var upTo := b.pixels[..x + 1];
    assert upTo[..x] == b.pixels[..x];
    FlattenLength(b.pixels[..x], b.height);
    FlattenLength(b.pixels, b.height);
    FlattenPrefix(b.pixels, x + 1);
    assert Flatten(upTo) == Flatten(b.pixels[..x]) + b.pixels[x];
    ProductStep(x, b.width, b.height);
  }

  lemma ProductStep(x: nat, width: nat, height: nat)
    requires x < width
    ensures x * height + height <= width * height
  {
    var d: nat := width - x - 1;
    assert width * height == (x + 1) * height + d * height;
    assert d * height >= 0;
  }

  /** Everything the loop visits is some pixel of the bitmap. */
  lemma {:induction false} FlattenMember(columns: seq<seq<int>>, v: int)
    requires v in Flatten(columns)
    ensures exists x, y :: 0 <= x < |columns| && 0 <= y < |columns[x]| && columns[x][y] == v
  {
    var init := columns[..|columns| - 1];
    var last := columns[|columns| - 1];
    if v in Flatten(init) {
      FlattenMember(init, v);
      var x, y :| 0 <= x < |init| && 0 <= y < |init[x]| && init[x][y] == v;
      assert columns[x][y] == v;
    } else {
      var y :| 0 <= y < |last| && last[y] == v;
      assert columns[|columns| - 1][y] == v;
    }
  }

  // ---------------------------------------------------------------------------
  // The colour map and its total

  /** The colour map the counting loop builds: each colour seen, with its number of occurrences. */
  ghost function Tally(s: seq<int>): map<int, nat>
  {
    map c | c in multiset(s) :: multiset(s)[c]
  }

  /** `rgbMap[pixel] = (rgbMap[pixel] ?: 0) + 1` is exactly what one more pixel does to the tally. */
  lemma TallySnoc(s: seq<int>, p: int)
    ensures Tally(s + [p]) == Tally(s)[p := (if p in Tally(s) then Tally(s)[p] else 0) + 1]
  {
    var before, after := Tally(s), Tally(s + [p]);
    var expected := before[p := (if p in before then before[p] else 0) + 1];
    assert multiset(s + [p]) == multiset(s) + multiset{p};
    assert after.Keys == expected.Keys;
    forall c | c in after ensures after[c] == expected[c] {
      if c != p {
        assert c in before;
      }
    }
  }

  /** The sum of the counts of a colour map. */
  ghost function SumOfCounts(m: map<int, nat>): nat
    decreases |m|
  {
    if |m.Keys| == 0 then 0
    else
      var c := AnyKey(m);
      assert (m - {c}).Keys == m.Keys - {c};
      m[c] + SumOfCounts(m - {c})
  }

  /** Some key of a non-empty map, the one `SumOfCounts` starts from. */
  ghost function AnyKey(m: map<int, nat>): (c: int)
    requires |m.Keys| != 0
    ensures c in m
  {
    HasKey(m.Keys);
    var c :| c in m.Keys;
    c
  }

  lemma HasKey(keys: set<int>)
    requires |keys| != 0
    ensures exists c :: c in keys
  {
    if forall c :: c !in keys {
      assert false;
    }
  }

  /** The sum may be split at any key, not only the one the definition picks. */
  lemma {:induction false} SumOfCountsRemove(m: map<int, nat>, k: int)
    requires k in m
    ensures SumOfCounts(m) == m[k] + SumOfCounts(m - {k})
    decreases |m|
  {
    assert |m.Keys| != 0;
    var c := AnyKey(m);
    if c != k {
      var withoutC, withoutK := m - {c}, m - {k};
      assert |withoutC| < |m| && k in withoutC by { assert withoutC.Keys == m.Keys - {c}; }
      assert |withoutK| < |m| && c in withoutK by { assert withoutK.Keys == m.Keys - {k}; }
      SumOfCountsRemove(withoutC, k);
      SumOfCountsRemove(withoutK, c);
      assert withoutC - {k} == withoutK - {c};
    }
  }

  lemma SumOfCountsIncrement(m: map<int, nat>, p: int)
    ensures SumOfCounts(m[p := (if p in m then m[p] else 0) + 1]) == SumOfCounts(m) + 1
  {
    var m' := m[p := (if p in m then m[p] else 0) + 1];
    SumOfCountsRemove(m', p);
    if p in m {
      SumOfCountsRemove(m, p);
      assert m' - {p} == m - {p};
    } else {
      assert m' - {p} == m;
    }
  }

  /** The counts add up to the number of pixels visited. */
  lemma {:induction false} TallySum(s: seq<int>)
    ensures SumOfCounts(Tally(s)) == |s|
  {
    if s == [] {
      assert Tally(s) == map[];
    } else {
      var init, p := s[..|s| - 1], s[|s| - 1];
      assert s == init + [p];
      TallySum(init);
      TallySnoc(init, p);
      SumOfCountsIncrement(Tally(init), p);
    }
  }

  /** A colour that occurs at all occurs between once and every time. */
  lemma TallyBounds(s: seq<int>, c: int)
    requires c in Tally(s)
    ensures 1 <= Tally(s)[c] <= |s|
  {
    TallySum(s);
    SumOfCountsRemove(Tally(s), c);
  }

  /** The keys of the colour map are exactly the colours of the bitmap's pixels. */
  lemma TallyKeys(b: Bitmap, c: int)
    requires b.Valid()
    ensures c in Tally(Flatten(b.pixels)) <==>
            exists x, y :: 0 <= x < b.width && 0 <= y < b.height && b.pixels[x][y] == c
  {
    if c in Flatten(b.pixels) {
      FlattenMember(b.pixels, c);
    }
    if exists x, y :: 0 <= x < b.width && 0 <= y < b.height && b.pixels[x][y] == c {
      var x, y :| 0 <= x < b.width && 0 <= y < b.height && b.pixels[x][y] == c;
      FlattenIndex(b, x, y);
    }
  }

  /** A bitmap of a single colour has one entry whose count is its number of pixels. */
  lemma UniformTally(s: seq<int>, c: int)
    requires |s| > 0
    requires forall i :: 0 <= i < |s| ==> s[i] == c
    ensures Tally(s) == map[c := |s|]
  {
    assert multiset(s) == multiset{}[c := |s|] by {
      assert s == seq(|s|, _ => c);
      UniformMultiset(|s|, c);
    }
  }

  lemma {:induction false} UniformMultiset(n: nat, c: int)
    ensures multiset(seq(n, _ => c)) == multiset{}[c := n]
  {
    if n > 0 {
      UniformMultiset(n - 1, c);
      assert seq(n, _ => c) == seq(n - 1, _ => c) + [c];
    }
  }

  /** When no two pixels share a colour, every count is one. */
  lemma {:induction false} DistinctPixelsCountOnce(s: seq<int>)
    requires forall i, j :: 0 <= i < j < |s| ==> s[i] != s[j]
    ensures forall c :: c in Tally(s) ==> Tally(s)[c] == 1
  {
    if s != [] {
      var init, p := s[..|s| - 1], s[|s| - 1];
      assert s == init + [p];
      DistinctPixelsCountOnce(init);
      TallySnoc(init, p);
      assert p !in init;
    }
  }

  /** A bitmap whose pixels all have colour `c` has one colour, counted once per pixel. */
  lemma UniformBitmap(b: Bitmap, c: int)
    requires b.Valid() && b.width > 0 && b.height > 0
    requires forall x, y :: 0 <= x < b.width && 0 <= y < b.height ==> b.pixels[x][y] == c
    ensures ColorMap(b) == map[c := b.width * b.height]
  {
    var s := Flatten(b.pixels);
    FlattenLength(b.pixels, b.height);
    forall i | 0 <= i < |s| ensures s[i] == c {
      FlattenMember(b.pixels, s[i]);
    }
    ProductStep(0, b.width, b.height);
    UniformTally(s, c);
  }

  /** A bitmap whose pixels all differ has every colour counted once. */
  lemma DistinctBitmap(b: Bitmap)
    requires b.Valid()
    requires forall x1, y1, x2, y2 ::
      && 0 <= x1 < b.width && 0 <= y1 < b.height
      && 0 <= x2 < b.width && 0 <= y2 < b.height
      && (x1 != x2 || y1 != y2)
      ==> b.pixels[x1][y1] != b.pixels[x2][y2]
    ensures forall c :: c in ColorMap(b) ==> ColorMap(b)[c] == 1
  {
    var s := Flatten(b.pixels);
    FlattenLength(b.pixels, b.height);
    forall i, j | 0 <= i < j < |s| ensures s[i] != s[j] {
      var xi, yi := PixelAt(b, i);
      var xj, yj := PixelAt(b, j);
    }
    DistinctPixelsCountOnce(s);
  }

  /** Step `i` of the visiting order is the pixel `(i / height, i % height)`. */
  lemma PixelAt(b: Bitmap, i: nat) returns (x: nat, y: nat)
    requires b.Valid() && i < b.width * b.height
    ensures x < b.width && y < b.height && i == x * b.height + y
    ensures i < |Flatten(b.pixels)| && Flatten(b.pixels)[i] == b.pixels[x][y]
  {
    x, y := i / b.height, i % b.height;
    if x >= b.width {
      ProductStep(b.width - 1, x, b.height);
      assert false;
    }
    FlattenIndex(b, x, y);
  }

  /**
   The nested loops over columns `ii` and rows `jj`, incrementing
   `rgbMap[pixel]`. The result is the tally of all pixels, and the counts add
   up to `width * height`.
   */
  method CountColors(b: Bitmap) returns (counts: map<int, nat>)
    requires b.Valid()
    ensures counts == Tally(Flatten(b.pixels))
    ensures SumOfCounts(counts) == b.width * b.height
  {
    counts := map[];
    for ii := 0 to b.width
      invariant counts == Tally(Flatten(b.pixels[..ii]))
    {
      ghost var done := Flatten(b.pixels[..ii]);
      for jj := 0 to b.height
        invariant counts == Tally(done + b.pixels[ii][..jj])
      {
        var pixel := b.pixels[ii][jj];
        var count := if pixel in counts then counts[pixel] else 0;
        CountOneMore(done, b.pixels[ii], jj);
        counts := counts[pixel := count + 1];
      }
      FlattenStep(b.pixels, ii);
    }
    assert b.pixels[..b.width] == b.pixels;
    TallySum(Flatten(b.pixels));
    FlattenLength(b.pixels, b.height);
  }

  lemma CountOneMore(done: seq<int>, column: seq<int>, j: nat)
    requires j < |column|
    ensures Tally(done + column[..j + 1]) ==
      Tally(done + column[..j])[column[j] := (if column[j] in Tally(done + column[..j]) then Tally(done + column[..j])[column[j]] else 0) + 1]
  {
    assert done + column[..j + 1] == done + column[..j] + [column[j]];
    TallySnoc(done + column[..j], column[j]);
  }

  lemma FlattenStep(columns: seq<seq<int>>, i: nat)
    requires i < |columns|
    ensures Flatten(columns[..i + 1]) == Flatten(columns[..i]) + columns[i][..|columns[i]|]
  {
    assert columns[..i + 1][..i] == columns[..i];
    assert columns[i][..|columns[i]|] == columns[i];
  }

  // ---------------------------------------------------------------------------
  // From the map to an ordered list

  predicate DistinctColors(s: seq<Entry>)
  {
    forall i, j :: 0 <= i < j < |s| ==> s[i].color != s[j].color
  }

  /**
   `rgbMap.toList()`: every entry of the map once, in the map's iteration
   order, which a `HashMap` leaves unspecified; here each step picks any
   remaining key.
   */
  method ListEntries(counts: map<int, nat>) returns (entries: seq<Entry>)
    ensures |entries| == |counts|
    ensures DistinctColors(entries)
    ensures forall i :: 0 <= i < |entries| ==>
      entries[i].color in counts && entries[i].count == counts[entries[i].color]
    ensures forall c :: c in counts ==> Entry(c, counts[c]) in entries
  {
    entries := [];
    var rest := counts;
    while |rest.Keys| != 0
      invariant rest.Keys <= counts.Keys
      invariant forall c :: c in rest ==> rest[c] == counts[c]
      invariant |entries| + |rest| == |counts|
      invariant DistinctColors(entries)
      invariant forall i :: 0 <= i < |entries| ==>
        entries[i].color in counts && entries[i].color !in rest && entries[i].count == counts[entries[i].color]
      invariant forall c :: c in counts && c !in rest ==> Entry(c, counts[c]) in entries
      decreases |rest|
    {
      HasKey(rest.Keys);
      var c :| c in rest.Keys;
      entries := entries + [Entry(c, rest[c])];
      assert (rest - {c}).Keys == rest.Keys - {c};
      rest := rest - {c};
    }
  }

  /** Counts never increase along `s`. */
  predicate NonIncreasing(s: seq<Entry>)
  {
    forall i, j :: 0 <= i < j < |s| ==> s[i].count >= s[j].count
  }

  /** Insert `e` after every entry whose count is at least its own. */
  function InsertByCount(sorted: seq<Entry>, e: Entry): seq<Entry>
  {
    if sorted == [] then [e]
    else if sorted[0].count >= e.count then [sorted[0]] + InsertByCount(sorted[1..], e)
    else [e] + sorted
  }

  /** `sortedByDescending { value }`: a stable sort by count, descending (here by insertion). */
  function SortedByCountDescending(s: seq<Entry>): seq<Entry>
  {
    if s == [] then [] else InsertByCount(SortedByCountDescending(s[..|s| - 1]), s[|s| - 1])
  }

  lemma {:induction false} InsertByCountPermutes(sorted: seq<Entry>, e: Entry)
    ensures multiset(InsertByCount(sorted, e)) == multiset(sorted) + multiset{e}
  {
    if sorted != [] && sorted[0].count >= e.count {
      InsertByCountPermutes(sorted[1..], e);
      assert sorted == [sorted[0]] + sorted[1..];
    }
  }

  lemma {:induction false} InsertByCountOrdered(sorted: seq<Entry>, e: Entry)
    requires NonIncreasing(sorted)
    ensures NonIncreasing(InsertByCount(sorted, e))
  {
    if sorted != [] && sorted[0].count >= e.count {
      var rest := InsertByCount(sorted[1..], e);
      InsertByCountOrdered(sorted[1..], e);
      InsertByCountPermutes(sorted[1..], e);
      forall j | 0 <= j < |rest| ensures rest[j].count <= sorted[0].count {
        assert rest[j] in multiset(rest);
        assert rest[j] in sorted[1..] || rest[j] == e;
      }
    }
  }

  lemma {:induction false} InsertByCountDistinct(sorted: seq<Entry>, e: Entry)
    requires DistinctColors(sorted)
    requires forall i :: 0 <= i < |sorted| ==> sorted[i].color != e.color
    ensures DistinctColors(InsertByCount(sorted, e))
  {
    if sorted != [] && sorted[0].count >= e.count {
      var rest := InsertByCount(sorted[1..], e);
      InsertByCountDistinct(sorted[1..], e);
      InsertByCountPermutes(sorted[1..], e);
      forall j | 0 <= j < |rest| ensures rest[j].color != sorted[0].color {
        assert rest[j] in multiset(rest);
        assert rest[j] in sorted[1..] || rest[j] == e;
      }
    }
  }

  /** The sort returns a permutation of its input, ordered by count, with colours still distinct. */
  lemma {:induction false} SortedByCountDescendingCorrect(s: seq<Entry>)
    ensures multiset(SortedByCountDescending(s)) == multiset(s)
    ensures NonIncreasing(SortedByCountDescending(s))
    ensures DistinctColors(s) ==> DistinctColors(SortedByCountDescending(s))
  {
    if s != [] {
      var init, e := s[..|s| - 1], s[|s| - 1];
      var sortedInit := SortedByCountDescending(init);
      assert s == init + [e];
      SortedByCountDescendingCorrect(init);
      InsertByCountPermutes(sortedInit, e);
      InsertByCountOrdered(sortedInit, e);
      if DistinctColors(s) {
        forall i | 0 <= i < |sortedInit| ensures sortedInit[i].color != e.color {
          assert sortedInit[i] in multiset(init);
          var k :| 0 <= k < |init| && init[k] == sortedInit[i];
          assert s[k] == init[k];
        }
        InsertByCountDistinct(sortedInit, e);
      }
    }
  }

  // ---------------------------------------------------------------------------
  // The top list

  /** `100 * count / (width * height)`, as an exact real rather than a `Float`. */
  function Percentage(count: nat, total: nat): real
    requires total > 0
  {
    100.0 * count as real / total as real
  }

  /** A share of the pixels lies in (0, 100], and the whole image is exactly 100. */
  lemma PercentageBounds(count: nat, total: nat)
    requires 1 <= count <= total
    ensures 0.0 < Percentage(count, total) <= 100.0
    ensures count == total ==> Percentage(count, total) == 100.0
  {
    var p := Percentage(count, total);
    assert p * total as real == 100.0 * count as real;
  }

  /**
   The loop `for (i in 1..NUMBER_OF_TOP)` over the sorted entries: while the
   iterator has a next entry, report it with its percentage; afterwards add
   `(0, 0, 0)` placeholders.
   */
  method TakeTop(sorted: seq<Entry>, total: nat) returns (top: seq<Bucket>)
    requires |sorted| > 0 ==> total > 0
    ensures |top| == NUMBER_OF_TOP
    ensures forall i :: 0 <= i < NUMBER_OF_TOP ==>
      top[i] == if i < |sorted| then Bucket(sorted[i].color, sorted[i].count, Percentage(sorted[i].count, total))
                else Placeholder
  {
    top := [];
    var next := 0;  // position of the entry iterator
    for i := 1 to NUMBER_OF_TOP + 1
      invariant |top| == i - 1
      invariant next == Min(i - 1, |sorted|)
      invariant forall k :: 0 <= k < |top| ==>
        top[k] == if k < |sorted| then Bucket(sorted[k].color, sorted[k].count, Percentage(sorted[k].count, total))
                  else Placeholder
    {
      if next < |sorted| {
        var e := sorted[next];
        next := next + 1;
        top := top + [Bucket(e.color, e.count, Percentage(e.count, total))];
      } else {
        top := top + [Placeholder];
      }
    }
  }

  /** The first `n` slots report colours of `m` with their exact counts and their share of `total` pixels. */
  predicate ReportsEntries(top: seq<Bucket>, m: map<int, nat>, n: nat, total: nat)
    requires n <= |top|
  {
    forall i :: 0 <= i < n ==>
      && top[i].color in m
      && top[i].count == m[top[i].color]
      && total > 0
      && top[i].percentage == Percentage(top[i].count, total)
      && 0.0 < top[i].percentage <= 100.0
  }

  /** The first `n` slots hold different colours with non-increasing counts. */
  predicate Ranked(top: seq<Bucket>, n: nat)
    requires n <= |top|
  {
    forall i, j :: 0 <= i < j < n ==> top[i].count >= top[j].count && top[i].color != top[j].color
  }

  /** No colour of `m` missing from the first `n` slots has a larger count than one reported there. */
  predicate NoneLeftOutIsLarger(top: seq<Bucket>, m: map<int, nat>, n: nat)
    requires n <= |top|
  {
    forall c :: c in m && (forall i :: 0 <= i < n ==> top[i].color != c) ==>
      forall i :: 0 <= i < n ==> m[c] <= top[i].count
  }

  /** Every slot from `n` on is a placeholder. */
  predicate Padded(top: seq<Bucket>, n: nat)
  {
    forall i :: n <= i < |top| ==> top[i] == Placeholder
  }

  /**
   Taking the first slots of the entries of `m` sorted by count gives a
   correct top list: the largest counts, ranked, then padding.
   */
  lemma TopOfSorted(m: map<int, nat>, sorted: seq<Entry>, top: seq<Bucket>, total: nat)
    requires |sorted| == |m| && NonIncreasing(sorted) && DistinctColors(sorted)
    requires forall i :: 0 <= i < |sorted| ==> sorted[i].color in m && sorted[i].count == m[sorted[i].color]
    requires forall c :: c in m ==> Entry(c, m[c]) in sorted
    requires forall c :: c in m ==> 1 <= m[c] <= total
    requires |top| == NUMBER_OF_TOP
    requires forall i :: 0 <= i < NUMBER_OF_TOP ==>
      top[i] == if i < |sorted| then Bucket(sorted[i].color, sorted[i].count, Percentage(sorted[i].count, total))
                else Placeholder
    ensures ReportsEntries(top, m, Min(NUMBER_OF_TOP, |m|), total)
    ensures Ranked(top, Min(NUMBER_OF_TOP, |m|))
    ensures NoneLeftOutIsLarger(top, m, Min(NUMBER_OF_TOP, |m|))
    ensures Padded(top, Min(NUMBER_OF_TOP, |m|))
  {
    var n := Min(NUMBER_OF_TOP, |m|);
    forall i | 0 <= i < n
      ensures 0.0 < top[i].percentage <= 100.0
    {
      PercentageBounds(sorted[i].count, total);
    }
    forall c | c in m && (forall i :: 0 <= i < n ==> top[i].color != c)
      ensures forall i :: 0 <= i < n ==> m[c] <= top[i].count
    {
      var k :| 0 <= k < |sorted| && sorted[k] == Entry(c, m[c]);
      assert k >= n;
    }
  }

  /** The colour map of a bitmap. */
  ghost function ColorMap(b: Bitmap): map<int, nat>
  {
    Tally(Flatten(b.pixels))
  }

  /** How many of the top slots hold real colours. */
  ghost function RealSlots(b: Bitmap): nat
  {
    Min(NUMBER_OF_TOP, |ColorMap(b)|)
  }

  /**
   The histogram part of `jpegToBitmap`: exactly `NUMBER_OF_TOP` buckets;
   the first `min(NUMBER_OF_TOP, #colours)` are distinct colours of the bitmap
   with their exact counts, non-increasing, none beaten by a colour left out,
   each with its share of the pixels; the rest are placeholders. Ties are
   ordered as the map happens to iterate, which is not specified.
   */
  method DominantColors(b: Bitmap) returns (top: seq<Bucket>)
    requires b.Valid()
    ensures |top| == NUMBER_OF_TOP
    ensures ReportsEntries(top, ColorMap(b), RealSlots(b), b.width * b.height)
    ensures Ranked(top, RealSlots(b))
    ensures NoneLeftOutIsLarger(top, ColorMap(b), RealSlots(b))
    ensures Padded(top, RealSlots(b))
    ensures |ColorMap(b)| == 1 ==> top[0].count == b.width * b.height && top[0].percentage == 100.0
  {
    var counts := CountColors(b);
    var entries := ListEntries(counts);
    var sorted := SortedByCountDescending(entries);
    var total := b.width * b.height;
    SortedEntries(counts, entries, sorted);
    forall c | c in counts ensures 1 <= counts[c] <= total {
      FlattenLength(b.pixels, b.height);
      TallyBounds(Flatten(b.pixels), c);
    }
    assert |sorted| > 0 ==> total > 0 by {
      if |sorted| > 0 { assert sorted[0].color in counts; }
    }
    top := TakeTop(sorted, total);
    TopOfSorted(counts, sorted, top, total);
    if |counts| == 1 {
      SingleColor(counts, sorted[0].color);
      PercentageBounds(total, total);
    }
  }

  /** What sorting the listed entries of a map yields. */
  lemma SortedEntries(m: map<int, nat>, entries: seq<Entry>, sorted: seq<Entry>)
    requires |entries| == |m| && DistinctColors(entries)
    requires forall i :: 0 <= i < |entries| ==>
      entries[i].color in m && entries[i].count == m[entries[i].color]
    requires forall c :: c in m ==> Entry(c, m[c]) in entries
    requires sorted == SortedByCountDescending(entries)
    ensures |sorted| == |m| && NonIncreasing(sorted) && DistinctColors(sorted)
    ensures forall i :: 0 <= i < |sorted| ==> sorted[i].color in m && sorted[i].count == m[sorted[i].color]
    ensures forall c :: c in m ==> Entry(c, m[c]) in sorted
  {
    SortedByCountDescendingCorrect(entries);
    assert |multiset(sorted)| == |multiset(entries)|;
    forall i | 0 <= i < |sorted|
      ensures sorted[i].color in m && sorted[i].count == m[sorted[i].color]
    {
      assert sorted[i] in multiset(entries);
    }
    forall c | c in m ensures Entry(c, m[c]) in sorted {
      assert Entry(c, m[c]) in multiset(entries);
    }
  }

  /** With a single colour, its count is the whole sum. */
  lemma SingleColor(m: map<int, nat>, c: int)
    requires |m| == 1 && c in m
    ensures m[c] == SumOfCounts(m)
  {
    SumOfCountsRemove(m, c);
    assert (m - {c}).Keys == {};
  }
}
