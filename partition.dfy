/**
  The colour partitioner of `generate_paths`: count every pixel whose alpha is
  not zero, keyed by its exact `[r, g, b, a]` value, in a `BTreeMap`; list the
  map's entries (which come out in ascending key order); then sort that list
  by descending count with a stable sort, so that colours with equal counts
  stay in ascending colour order.

  The `BTreeMap<[u8; 4], usize>` is modelled by its abstract value, the list
  of its entries in ascending key order (`ColorCounter`).
 */
module Partition {
  import opened Raster

  /** One `(colour, count)` pair of the counter. */
  datatype Entry = Entry(color: Color, count: nat)

  predicate Ascending(es: seq<Entry>) {
    forall i, j :: 0 <= i < j < |es| ==> ColorLess(es[i].color, es[j].color)
  }

  /** The entries of a `BTreeMap<[u8; 4], usize>`, in its iteration order. */
  type ColorCounter = es: seq<Entry> | Ascending(es)

  function Keys(es: seq<Entry>): set<Color>
  {
    if es == [] then {} else {es[0].color} + Keys(es[1..])
  }

  /** The count stored under `c`, or 0 when `c` is not a key. */
  function Lookup(es: seq<Entry>, c: Color): nat
  {
    if es == [] then 0 else if es[0].color == c then es[0].count else Lookup(es[1..], c)
  }

  /** The sum of the counts. */
  function Total(es: seq<Entry>): nat
  {
    if es == [] then 0 else es[0].count + Total(es[1..])
  }

  lemma {:induction false} KeysIndex(es: seq<Entry>, c: Color)
    ensures c in Keys(es) <==> exists i :: 0 <= i < |es| && es[i].color == c
  {
    if es != [] {
      KeysIndex(es[1..], c);
      if c in Keys(es[1..]) {
        var i :| 0 <= i < |es[1..]| && es[1..][i].color == c;
        assert es[i + 1].color == c;
      }
      if c != es[0].color && exists i :: 0 <= i < |es| && es[i].color == c {
        var i :| 0 <= i < |es| && es[i].color == c;
        assert es[1..][i - 1].color == c;
      }
    }
  }

  lemma {:induction false} KeysBelow(es: ColorCounter, c: Color)
    requires es != [] && !ColorLess(es[0].color, c)
    ensures forall k :: k in Keys(es[1..]) ==> k != c
  {
    forall k | k in Keys(es[1..]) ensures k != c {
      KeysIndex(es[1..], k);
    }
  }

  lemma {:induction false} LookupMissing(es: seq<Entry>, c: Color)
    requires c !in Keys(es)
    ensures Lookup(es, c) == 0
  {
    if es != [] {
      LookupMissing(es[1..], c);
    }
  }

  /** In a counter each key appears once, so looking up an entry's key finds that entry. */
  lemma {:induction false} LookupAt(es: ColorCounter, i: nat)
    requires i < |es|
    ensures Lookup(es, es[i].color) == es[i].count
  {
    if i > 0 {
      LookupAt(es[1..], i - 1);
    }
  }

  /** A counter has as many keys as entries. */
  lemma {:induction false} KeysCard(es: ColorCounter)
    ensures |Keys(es)| == |es|
  {
    if es != [] {
      KeysBelow(es, es[0].color);
      KeysCard(es[1..]);
    }
  }

  /** An entry below every key of a counter can go in front of it. */
  lemma PrependBelow(e: Entry, m: ColorCounter)
    requires forall k :: k in Keys(m) ==> ColorLess(e.color, k)
    ensures Ascending([e] + m)
  {
    forall j | 0 <= j < |m| ensures ColorLess(e.color, m[j].color) {
      KeysIndex(m, m[j].color);
    }
  }

  /** A colour below the first key of a counter is below all its keys, and not one of them. */
  lemma BelowFirst(m: ColorCounter, c: Color)
    requires m != [] && ColorLess(c, m[0].color)
    ensures forall k :: k in Keys(m) ==> ColorLess(c, k)
    ensures Lookup(m, c) == 0
  {
    forall k | k in Keys(m) ensures ColorLess(c, k) { KeysIndex(m, k); }
    LookupMissing(m, c);
  }

  /** `*colors.entry(c).or_insert(0) += 1` on the ordered map. */
  function Increment(m: ColorCounter, c: Color): (r: ColorCounter)
    ensures Keys(r) == Keys(m) + {c}
    ensures forall k :: Lookup(r, k) == Lookup(m, k) + (if k == c then 1 else 0)
    ensures Total(r) == Total(m) + 1
  {
    if m == [] then [Entry(c, 1)]
    else if m[0].color == c then [Entry(c, m[0].count + 1)] + m[1..]
    else if ColorLess(c, m[0].color) then
      BelowFirst(m, c);
      PrependBelow(Entry(c, 1), m);
      [Entry(c, 1)] + m
    else
      var rest := Increment(m[1..], c);
      assert forall k :: k in Keys(m[1..]) ==> ColorLess(m[0].color, k) by {
        forall k | k in Keys(m[1..]) ensures ColorLess(m[0].color, k) { KeysIndex(m[1..], k); }
      }
      PrependBelow(m[0], rest);
      [m[0]] + rest
  }

  /**
    The counter after the pixel loop has visited `s`: transparent pixels are
    skipped, every other pixel increments its colour's count.
   */
  function Tally(s: seq<Color>): ColorCounter
  {
    if s == [] then []
    else
      var m := Tally(s[..|s| - 1]);
      if s[|s| - 1].a == 0 then m else Increment(m, s[|s| - 1])
  }

  /**
    The counter holds exactly the non-transparent colours of `s`, each with the
    number of entries of exactly that value, and the counts add up to the
    number of non-transparent entries.
   */
  lemma {:induction false} TallySpec(s: seq<Color>)
    ensures Keys(Tally(s)) == OpaqueColors(s)
    ensures forall c :: Lookup(Tally(s), c) == if c.a == 0 then 0 else Occ(s, c)
    ensures Total(Tally(s)) == OpaqueCount(s)
  {
    if s != [] {
      var front, p := s[..|s| - 1], s[|s| - 1];
      assert s == front + [p];
      TallySpec(front);
    }
  }

  /** Every colour the counter holds was seen, and on at least one pixel. */
  lemma TallyEntries(s: seq<Color>, i: nat)
    requires i < |Tally(s)|
    ensures Tally(s)[i].color.a != 0
    ensures Tally(s)[i].count == Occ(s, Tally(s)[i].color) > 0
  {
    var m := Tally(s);
    TallySpec(s);
    KeysIndex(m, m[i].color);
    LookupAt(m, i);
    OccPositive(s, m[i].color);
  }

  /** The colour histogram of a frame: its counter after the pixel loop. */
  function Histogram(f: Frame): ColorCounter
  {
    Tally(Pixels(f))
  }

  /**
    The counting loop of `generate_paths`, visiting the pixels row by row as
    `image.pixels()` does. Its counter holds exactly the non-transparent
    colours of the frame, each with the number of pixels of that exact value.
   */
  method CountColors(f: Frame) returns (colors: ColorCounter)
    ensures colors == Histogram(f)
    ensures Keys(colors) == OpaqueColors(Pixels(f))
    ensures forall c :: Lookup(colors, c) == if c.a == 0 then 0 else Occ(Pixels(f), c)
    ensures Total(colors) == OpaqueCount(Pixels(f))
  {
    colors := [];
    ghost var seen: seq<Color> := [];
    for y := 0 to f.height
      invariant seen == Flatten(f.rows[..y])
      invariant colors == Tally(seen)
    {
      for x := 0 to f.width
        invariant seen == Flatten(f.rows[..y]) + f.rows[y][..x]
        invariant colors == Tally(seen)
      {
        var pixel := f.rows[y][x];
        TallySnoc(seen, pixel);
        if pixel.a != 0 {
          colors := Increment(colors, pixel);
        }
        seen := seen + [pixel];
        RowPrefix(f.rows[y], x);
      }
      FlattenPrefix(f.rows, y);
    }
    assert f.rows[..f.height] == f.rows;
    TallySpec(seen);
  }

  lemma TallySnoc(s: seq<Color>, p: Color)
    ensures Tally(s + [p]) == if p.a == 0 then Tally(s) else Increment(Tally(s), p)
  {
    assert (s + [p])[..|s|] == s;
  }

  lemma RowPrefix(row: seq<Color>, x: nat)
    requires x < |row|
    ensures row[..x + 1] == row[..x] + [row[x]]
  {
  }

  lemma FlattenPrefix(rows: seq<seq<Color>>, y: nat)
    requires y < |rows|
    ensures Flatten(rows[..y + 1]) == Flatten(rows[..y]) + rows[y]
  {
    assert rows[..y + 1][..y] == rows[..y];
  }

  /**
    The order a stable sort comparing the counts in reverse leaves behind when
    applied to entries in ascending colour order: higher count first, and among
    equal counts the smaller colour first.
   */
  predicate RankedBefore(p: Entry, q: Entry) {
    p.count > q.count || (p.count == q.count && ColorLess(p.color, q.color))
  }

  predicate Ranked(s: seq<Entry>) {
    forall i, j :: 0 <= i < j < |s| ==> RankedBefore(s[i], s[j])
  }

  /** One insertion step of a stable sort by descending count: `e` goes after every entry whose count is at least its own. */
  function InsertByCount(e: Entry, s: seq<Entry>): (r: seq<Entry>)
    ensures multiset(r) == multiset(s) + multiset{e}
    ensures Total(r) == Total(s) + e.count
  {
    if s == [] then [e]
    else if s[0].count >= e.count then
      assert s == [s[0]] + s[1..];
      [s[0]] + InsertByCount(e, s[1..])
    else [e] + s
  }

  /** A stable sort by descending count: `Vec::sort_by` with the reversed count comparison. */
  function SortByCountDescending(es: seq<Entry>): (r: seq<Entry>)
    ensures multiset(r) == multiset(es)
    ensures Total(r) == Total(es)
  {
    if es == [] then []
    else
      assert es == es[..|es| - 1] + [es[|es| - 1]];
      TotalSnoc(es[..|es| - 1], es[|es| - 1]);
      InsertByCount(es[|es| - 1], SortByCountDescending(es[..|es| - 1]))
  }

  lemma {:induction false} TotalSnoc(s: seq<Entry>, e: Entry)
    ensures Total(s + [e]) == Total(s) + e.count
  {
    if s != [] {
      assert (s + [e])[1..] == s[1..] + [e];
      TotalSnoc(s[1..], e);
    }
  }

  lemma {:induction false} InsertKeepsRanked(e: Entry, s: seq<Entry>)
    requires Ranked(s)
    requires forall i :: 0 <= i < |s| ==> ColorLess(s[i].color, e.color)
    ensures Ranked(InsertByCount(e, s))
  {
    if s != [] && s[0].count >= e.count {
      var rest := InsertByCount(e, s[1..]);
      InsertKeepsRanked(e, s[1..]);
      forall j | 0 <= j < |rest| ensures RankedBefore(s[0], rest[j]) {
        assert rest[j] in multiset(rest);
        if rest[j] != e {
          assert rest[j] in multiset(s[1..]);
          var k :| 0 <= k < |s[1..]| && s[1..][k] == rest[j];
          assert RankedBefore(s[0], s[k + 1]);
        }
      }
    }
  }

  /** Sorting a counter's entries leaves them ranked: counts never increase, and equal counts keep ascending colour order. */
  lemma {:induction false} SortIsRanked(es: ColorCounter)
    ensures Ranked(SortByCountDescending(es))
  {
    if es != [] {
      var front, last := es[..|es| - 1], es[|es| - 1];
      var sorted := SortByCountDescending(front);
      SortIsRanked(front);
      forall i | 0 <= i < |sorted| ensures ColorLess(sorted[i].color, last.color) {
        assert sorted[i] in multiset(front);
        var k :| 0 <= k < |front| && front[k] == sorted[i];
      }
      InsertKeepsRanked(last, sorted);
    }
  }

  lemma MultisetTail(s: seq<Entry>)
    requires s != []
    ensures multiset(s[1..]) == multiset(s) - multiset{s[0]}
  {
    assert s == [s[0]] + s[1..];
  }

  /** Two ranked arrangements of the same entries start with the same entry. */
  lemma RankedHeads(s: seq<Entry>, t: seq<Entry>)
    requires Ranked(s) && Ranked(t)
    requires multiset(s) == multiset(t)
    requires s != []
    ensures t != [] && s[0] == t[0]
  {
    assert s[0] in multiset(t);
    assert t[0] in multiset(s);
    var i :| 0 <= i < |t| && t[i] == s[0];
    var j :| 0 <= j < |s| && s[j] == t[0];
  }

  /**
    A ranked order is determined by its entries: any two ranked arrangements of
    the same entries are equal, whichever stable sort produced them.
   */
  lemma {:induction false} RankedIsUnique(s: seq<Entry>, t: seq<Entry>)
    requires Ranked(s) && Ranked(t)
    requires multiset(s) == multiset(t)
    ensures s == t
  {
    if s != [] {
      RankedHeads(s, t);
      MultisetTail(s);
      MultisetTail(t);
      RankedIsUnique(s[1..], t[1..]);
      assert s == [s[0]] + s[1..] && t == [t[0]] + t[1..];
    }
  }

  /** `sorted_colors`: the histogram of a frame, sorted by descending count. */
  function RankedColors(f: Frame): seq<Entry>
  {
    SortByCountDescending(Histogram(f))
  }

  /** Sorting keeps the entries: whatever is in the ranked list is in the histogram and vice versa. */
  lemma RankedFromHistogram(f: Frame, i: nat)
    requires i < |RankedColors(f)|
    ensures exists k :: 0 <= k < |Histogram(f)| && Histogram(f)[k] == RankedColors(f)[i]
  {
    assert RankedColors(f)[i] in multiset(Histogram(f));
  }

  /**
    Every entry of the ranked colour list is a non-transparent colour of the
    frame, with the number of pixels of exactly that value.
   */
  lemma RankedColorsCounts(f: Frame)
    ensures forall i :: 0 <= i < |RankedColors(f)| ==>
      RankedColors(f)[i].color.a != 0 && RankedColors(f)[i].count == Occ(Pixels(f), RankedColors(f)[i].color) > 0
  {
    var h, r := Histogram(f), RankedColors(f);
    forall i | 0 <= i < |r|
      ensures r[i].color.a != 0 && r[i].count == Occ(Pixels(f), r[i].color) > 0
    {
      RankedFromHistogram(f, i);
      var k :| 0 <= k < |h| && h[k] == r[i];
      TallyEntries(Pixels(f), k);
    }
  }

  /**
    The ranked colour list is ordered by descending count, equal counts in
    ascending colour order, and lists no colour twice.
   */
  lemma RankedColorsOrder(f: Frame)
    ensures Ranked(RankedColors(f))
    ensures forall i, j :: 0 <= i < j < |RankedColors(f)| ==> RankedColors(f)[i].count >= RankedColors(f)[j].count
    ensures forall i, j :: 0 <= i < j < |RankedColors(f)| ==> RankedColors(f)[i].color != RankedColors(f)[j].color
  {
    var r := RankedColors(f);
    SortIsRanked(Histogram(f));
    RankedColorsCounts(f);
    forall i, j | 0 <= i < j < |r| ensures r[i].color != r[j].color {
      assert RankedBefore(r[i], r[j]);
    }
  }

  /** The ranked colour list names exactly the distinct non-transparent colours of the frame, one entry each. */
  lemma RankedColorsCover(f: Frame)
    ensures forall c :: c in OpaqueColors(Pixels(f)) <==> exists i :: 0 <= i < |RankedColors(f)| && RankedColors(f)[i].color == c
    ensures |RankedColors(f)| == |OpaqueColors(Pixels(f))|
  {
    var h, r := Histogram(f), RankedColors(f);
    TallySpec(Pixels(f));
    forall c ensures c in OpaqueColors(Pixels(f)) <==> exists i :: 0 <= i < |r| && r[i].color == c {
      KeysIndex(h, c);
      if c in OpaqueColors(Pixels(f)) {
        var k :| 0 <= k < |h| && h[k].color == c;
        assert h[k] in multiset(r);
        var i :| 0 <= i < |r| && r[i] == h[k];
      }
      if exists i :: 0 <= i < |r| && r[i].color == c {
        var i :| 0 <= i < |r| && r[i].color == c;
        RankedFromHistogram(f, i);
      }
    }
    KeysCard(h);
    assert |r| == |multiset(r)| == |multiset(h)| == |h|;
  }

  /** The counts of the ranked list add up to the number of non-transparent pixels. */
  lemma RankedColorsTotal(f: Frame)
    ensures Total(RankedColors(f)) == OpaqueCount(Pixels(f))
  {
    TallySpec(Pixels(f));
  }
}
