/** Dominant-colour fraction of a pixel buffer (`get_color`).

    The buffer is scanned row by row; a histogram maps each exact pixel value
    (a tuple of channel values) to a stored count. A colour met for the first
    time is stored with 0, so every stored count is its number of occurrences
    minus one. The result is the largest stored count divided by the number of
    ROWS of the buffer, not by its number of pixels. */
module ColorDominance {
  import opened Outcomes

  /** One pixel: its tuple of channel values. */
  type Pixel = seq<int>

  /** A decoded buffer: a sequence of rows, each a sequence of pixels. */
  type Buffer = seq<seq<Pixel>>

  /** `max` of an empty list of counts fails: the buffer has no pixel. */
  datatype ColorError = EmptyHistogram

  /** The pixels of `img` in scanning order: row after row. */
  function Pixels(img: Buffer): seq<Pixel>
  {
    if img == [] then [] else Pixels(img[..|img| - 1]) + img[|img| - 1]
  }

  /** The distinct colours of a pixel sequence. */
  function Colors(s: seq<Pixel>): set<Pixel>
  {
    set p | p in s
  }

  /** One step of the scan: a known colour is incremented, a new colour is
      stored with count 0. */
  function Record(h: map<Pixel, int>, p: Pixel): (h': map<Pixel, int>)
    ensures h'.Keys == h.Keys + {p}
    ensures h'[p] == if p in h then h[p] + 1 else 0
    ensures forall q :: q in h && q != p ==> h'[q] == h[q]
  {
    if p in h then h[p := h[p] + 1] else h[p := 0]
  }

  /** The histogram the scan has built after meeting the pixels of `s`. */
  function Histogram(s: seq<Pixel>): (h: map<Pixel, int>)
    ensures s == [] <==> h == map[]
  {
    if s == [] then map[] else Record(Histogram(s[..|s| - 1]), s[|s| - 1])
  }

  /** Scanning one more pixel records it in the histogram built so far. */
  lemma HistogramSnoc(s: seq<Pixel>, x: Pixel)
    ensures Histogram(s + [x]) == Record(Histogram(s), x)
  {
  }

  /** The largest value stored in a non-empty histogram. */
  ghost function MaxStored(h: map<Pixel, int>): (m: int)
    requires h != map[]
    ensures exists p :: p in h && h[p] == m
    ensures forall p :: p in h ==> h[p] <= m
    decreases |h|
  {
    assert h.Keys != {} by {
      var p :| p in h;
    }
    var p :| p in h;
    var rest := h - {p};
    assert rest.Keys == h.Keys - {p};
    if rest == map[] then
      assert h.Keys == {p} by {
        assert rest.Keys == {};
      }
      h[p]
    else
      var m' := MaxStored(rest);
      assert forall q :: q in h ==> q == p || q in rest;
      if h[p] < m' then m' else h[p]
  }

  /** What `get_color` returns for `img`. */
  ghost function ColorResult(img: Buffer): Result<real, ColorError>
  {
    var h := Histogram(Pixels(img));
    if h == map[] then Err(EmptyHistogram)
    else
      assert img != [];
      Ok(MaxStored(h) as real / |img| as real)
  }

  /** The scan of `get_color`: the histogram of the buffer, then the maximum
      of its values divided by the number of rows. */
  method GetColor(img: Buffer) returns (result: Result<real, ColorError>)
    ensures result == ColorResult(img)
  {
    var sameColors := BuildHistogram(img);
    if sameColors == map[] {
      return Err(EmptyHistogram);
    }
    var best := MaxValue(sameColors);
    assert img != [];
    result := Ok(best as real / |img| as real);
  }

  /** The nested loops over rows and pixels that fill the dictionary. */
  method BuildHistogram(img: Buffer) returns (sameColors: map<Pixel, int>)
    ensures sameColors == Histogram(Pixels(img))
  {
    sameColors := map[];
    for i := 0 to |img|
      invariant sameColors == Histogram(Pixels(img[..i]))
    {
      sameColors := ScanRow(sameColors, Pixels(img[..i]), img[i]);
      assert img[..i + 1][..i] == img[..i];
    }
    assert img[..|img|] == img;
  }

  /** The inner loop of the scan: records every pixel of one row. */
  method ScanRow(h: map<Pixel, int>, ghost before: seq<Pixel>, row: seq<Pixel>)
    returns (sameColors: map<Pixel, int>)
    requires h == Histogram(before)
    ensures sameColors == Histogram(before + row)
  {
    sameColors := h;
    assert before + row[..0] == before;
    for j := 0 to |row|
      invariant sameColors == Histogram(before + row[..j])
    {
      var at := row[j];
      ExtendPrefix(before, row, j);
      HistogramSnoc(before + row[..j], at);
      if at in sameColors {
        sameColors := sameColors[at := sameColors[at] + 1];
      } else {
        sameColors := sameColors[at := 0];
      }
    }
    assert row[..|row|] == row;
  }

  lemma ExtendPrefix(a: seq<Pixel>, row: seq<Pixel>, j: nat)
    requires j < |row|
    ensures a + row[..j + 1] == (a + row[..j]) + [row[j]]
  {
  }

  /** `max` over the values of a non-empty dictionary. */
  method MaxValue(h: map<Pixel, int>) returns (best: int)
    requires h != map[]
    ensures exists p :: p in h && h[p] == best
    ensures forall p :: p in h ==> h[p] <= best
  {
    var rest := h.Keys;
    var first :| first in rest;
    best := h[first];
    ghost var arg := first;
    rest := rest - {first};
    while rest != {}
      invariant rest <= h.Keys
      invariant arg in h && arg !in rest && h[arg] == best
      invariant forall q :: q in h && q !in rest ==> h[q] <= best
      decreases rest
    {
      var k :| k in rest;
      if h[k] > best {
        best, arg := h[k], k;
      }
      rest := rest - {k};
    }
  }

  /** Each colour of the buffer is a key, no other value is, and the count
      stored for it is its number of occurrences minus one. */
  lemma {:induction false} HistogramCounts(s: seq<Pixel>)
    ensures Histogram(s).Keys == Colors(s)
    ensures forall p :: p in Histogram(s) ==> Histogram(s)[p] == multiset(s)[p] - 1
  {
    if s != [] {
      var t, x := s[..|s| - 1], s[|s| - 1];
      assert s == t + [x];
      HistogramCounts(t);
      forall p | p in Histogram(s)
        ensures Histogram(s)[p] == multiset(s)[p] - 1
      {
        assert multiset(s) == multiset(t) + multiset{x};
        if p != x {
          assert p in Histogram(t);
        } else if x !in Histogram(t) {
          assert x !in t;
        }
      }
    }
  }

  /** The sum of the values stored in a histogram. */
  ghost function SumValues(h: map<Pixel, int>): int
    decreases |h|
  {
    if h == map[] then 0
    else
      assert h.Keys != {} by {
        var p :| p in h;
      }
      var p :| p in h;
      assert (h - {p}).Keys == h.Keys - {p};
      h[p] + SumValues(h - {p})
  }

  /** `SumValues` does not depend on which key it takes first. */
  lemma SumValuesRemove(h: map<Pixel, int>, k: Pixel)
    requires k in h
    ensures SumValues(h) == h[k] + SumValues(h - {k})
    decreases |h|
  {
    assert h.Keys != {};
    var p :| p in h && SumValues(h) == h[p] + SumValues(h - {p});
    if p != k {
      assert (h - {p}).Keys == h.Keys - {p};
      assert (h - {k}).Keys == h.Keys - {k};
      SumValuesRemove(h - {p}, k);
      SumValuesRemove(h - {k}, p);
      assert h - {p} - {k} == h - {k} - {p};
    }
  }

  /** Recording a pixel adds one to the sum when its colour is known and
      nothing when it is new. */
  lemma SumRecord(h: map<Pixel, int>, x: Pixel)
    ensures SumValues(Record(h, x)) == SumValues(h) + (if x in h then 1 else 0)
  {
    var h' := Record(h, x);
    SumValuesRemove(h', x);
    assert h' - {x} == h - {x};
    if x in h {
      SumValuesRemove(h, x);
    } else {
      assert h - {x} == h;
    }
  }

  /** The stored counts add up to the number of pixels minus the number of
      distinct colours. */
  lemma {:induction false} HistogramSum(s: seq<Pixel>)
    ensures SumValues(Histogram(s)) == |s| - |Colors(s)|
  {
    if s != [] {
      var t, x := s[..|s| - 1], s[|s| - 1];
      assert s == t + [x];
      HistogramSum(t);
      HistogramCounts(t);
      SumRecord(Histogram(t), x);
      assert Colors(s) == Colors(t) + {x};
    }
  }

  /** An empty buffer fails; otherwise the result is the number of extra
      occurrences of a most frequent colour, divided by the number of rows. */
  lemma ColorResultMeaning(img: Buffer)
    ensures Pixels(img) == [] ==> ColorResult(img) == Err(EmptyHistogram)
    ensures Pixels(img) != [] ==>
      exists p :: p in Pixels(img)
        && ColorResult(img) == Ok((multiset(Pixels(img))[p] - 1) as real / |img| as real)
        && forall q :: q in Pixels(img) ==> multiset(Pixels(img))[q] <= multiset(Pixels(img))[p]
  {
    var s := Pixels(img);
    if s != [] {
      assert img != [];
      var p := MaxStoredIsLargestCount(s);
      assert ColorResult(img) == Ok((multiset(s)[p] - 1) as real / |img| as real);
    }
  }

  /** The largest stored count belongs to a colour of the buffer and is its
      number of occurrences minus one, the largest such number. */
  lemma MaxStoredIsLargestCount(s: seq<Pixel>) returns (p: Pixel)
    requires s != []
    ensures p in s && MaxStored(Histogram(s)) == multiset(s)[p] - 1
    ensures forall q :: q in s ==> multiset(s)[q] - 1 <= MaxStored(Histogram(s))
  {
    HistogramCounts(s);
    var h := Histogram(s);
    var m := MaxStored(h);
    p :| p in h && h[p] == m;
    assert p in Colors(s);
    forall q | q in s
      ensures multiset(s)[q] - 1 <= m
    {
      assert q in Colors(s);
    }
  }

  /** A buffer of R rows of C copies of one colour: the colour is stored with
      R * C - 1, so the result is (R * C - 1) / R. */
  lemma UniformBuffer(img: Buffer, rows: nat, cols: nat, p: Pixel)
    requires |img| == rows >= 1 && cols >= 1
    requires forall i :: 0 <= i < rows ==> img[i] == seq(cols, _ => p)
    ensures ColorResult(img) == Ok((rows * cols - 1) as real / rows as real)
  {
    var s := Pixels(img);
    UniformPixels(img, rows, cols, p);
    UniformMultiset(s, p);
    var q := MaxStoredIsLargestCount(s);
    assert q == p;
  }

  lemma {:induction false} UniformPixels(img: Buffer, rows: nat, cols: nat, p: Pixel)
    requires |img| == rows && forall i :: 0 <= i < rows ==> img[i] == seq(cols, _ => p)
    ensures |Pixels(img)| == rows * cols
    ensures forall k :: 0 <= k < |Pixels(img)| ==> Pixels(img)[k] == p
  {
    if rows > 0 {
      UniformPixels(img[..rows - 1], rows - 1, cols, p);
      assert rows * cols == (rows - 1) * cols + cols;
    }
  }

  lemma {:induction false} UniformMultiset(s: seq<Pixel>, p: Pixel)
    requires forall k :: 0 <= k < |s| ==> s[k] == p
    ensures multiset(s)[p] == |s|
  {
    if s != [] {
      assert s == s[..|s| - 1] + [p];
      UniformMultiset(s[..|s| - 1], p);
    }
  }

  /** A buffer whose pixels are pairwise distinct stores only zeros, so the
      result is 0. */
  lemma AllDistinct(img: Buffer)
    requires Pixels(img) != []
    requires forall i, j :: 0 <= i < j < |Pixels(img)| ==> Pixels(img)[i] != Pixels(img)[j]
    ensures ColorResult(img) == Ok(0.0)
  {
    var s := Pixels(img);
    assert img != [];
    var p := MaxStoredIsLargestCount(s);
    var k :| 0 <= k < |s| && s[k] == p;
    DistinctOnce(s, k);
  }

  lemma {:induction false} DistinctOnce(s: seq<Pixel>, k: nat)
    requires k < |s|
    requires forall i, j :: 0 <= i < j < |s| ==> s[i] != s[j]
    ensures multiset(s)[s[k]] == 1
  {
    var t, x := s[..|s| - 1], s[|s| - 1];
    assert s == t + [x];
    if k == |s| - 1 {
      assert x !in t;
    } else {
      DistinctOnce(t, k);
    }
  }
}
