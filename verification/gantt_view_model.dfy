/** The Gantt chart: one interval bar per stretch of a workplace's timeline, coloured by block
    name while a block runs and light gray while none does, cut off at the current date. */
module GanttViewModel {
  import opened Wrappers
  import opened Time
  import opened Blocks
  import opened Schedule
  import opened Sorting

  datatype GanttColor = Red | Orange | Yellow | LimeGreen | SkyBlue | Purple | Brown | Teal | Pink | LightGray

  /** The nine block colours, handed out in turn. */
  const Palette: seq<GanttColor> := [Red, Orange, Yellow, LimeGreen, SkyBlue, Purple, Brown, Teal, Pink]

  /** An `IntervalBarItem`; category `k` is the row of workplace `k + 1`. */
  datatype Bar = Bar(start: Instant, end: Instant, category: int, color: GanttColor)

  // ---------------------------------------------------------------------------------------
  // The colour map

  /** The colour map, as the names in the order they were first coloured: the `k`-th name got
      the palette colour `k % 9`, because `colorMap.Count` was `k` when it was added. */
  type ColorOrder = seq<string>

  predicate Distinct(order: ColorOrder) {
    forall i, j :: 0 <= i < j < |order| ==> order[i] != order[j]
  }

  function IndexOf(order: ColorOrder, name: string): (r: nat)
    requires name in order
    ensures r < |order| && order[r] == name
    ensures forall k :: 0 <= k < r ==> order[k] != name
  {
    if order[0] == name then 0 else 1 + IndexOf(order[1..], name)
  }

  /** The colour the map holds for a name. */
  function ColorOf(order: ColorOrder, name: string): GanttColor
    requires name in order
  {
    Palette[IndexOf(order, name) % |Palette|]
  }

  /** `GetColor`: a new name is added with the next palette colour; a known one keeps its colour. */
  function GetColor(order: ColorOrder, name: string): (r: (ColorOrder, GanttColor))
    ensures name in order ==> r.0 == order
    ensures name !in order ==> r.0 == order + [name]
    ensures name in r.0 && r.1 == ColorOf(r.0, name)
    ensures name !in order ==> r.1 == Palette[|order| % |Palette|]
    ensures r.1 != LightGray
  {
    if name in order then (order, ColorOf(order, name))
    else
      var next := order + [name];
      assert forall k :: 0 <= k < |order| ==> next[k] == order[k];
      assert IndexOf(next, name) == |order|;
      (next, Palette[|order| % |Palette|])
  }

  /** A name, once coloured, keeps its colour through any later `GetColor`. */
  lemma {:induction false} GetColorKeepsColors(order: ColorOrder, name: string, other: string)
    requires other in order
    ensures other in GetColor(order, name).0
    ensures ColorOf(GetColor(order, name).0, other) == ColorOf(order, other)
  {
    var next := GetColor(order, name).0;
    assert forall k :: 0 <= k < |order| ==> next[k] == order[k];
    assert IndexOf(next, other) == IndexOf(order, other) by {
      var i := IndexOf(order, other);
      assert next[i] == other;
    }
  }

  /** `GetColor` keeps the names distinct. */
  lemma {:induction false} GetColorKeepsDistinct(order: ColorOrder, name: string)
    requires Distinct(order)
    ensures Distinct(GetColor(order, name).0)
  {
  }

  /** Among the first nine names coloured, different names get different colours. */
  lemma {:induction false} FirstNineDiffer(order: ColorOrder, a: string, b: string)
    requires Distinct(order) && a in order && b in order && a != b
    requires IndexOf(order, a) < |Palette| && IndexOf(order, b) < |Palette|
    ensures ColorOf(order, a) != ColorOf(order, b)
  {
    var i := IndexOf(order, a);
    var j := IndexOf(order, b);
    assert i != j;
  }

  // ---------------------------------------------------------------------------------------
  // The walk along one workplace

  /** How the cursor moves past a coloured block. */
  datatype CursorRule =
    | /** `cursor = useEnd`, which can move the cursor backwards. */ AsWritten
    | /** The cursor never moves backwards. */ Monotone

  function Advance(rule: CursorRule, cursor: Instant, useEnd: Instant): (r: Instant)
    ensures r >= useEnd
    ensures rule.Monotone? ==> r >= cursor
  {
    match rule
    case AsWritten => useEnd
    case Monotone => if useEnd > cursor then useEnd else cursor
  }

  datatype Walked = Walked(bars: seq<Bar>, colors: ColorOrder, cursor: Instant)

  predicate SortedByStart(bs: seq<Block>) {
    forall i, j :: 0 <= i < j < |bs| ==> bs[i].start <= bs[j].start
  }

  /** The bar a block gets: from its start to its end or the current date, whichever is
      earlier, when the block starts before the current date and that is not empty. */
  function ColouredSpan(b: Block, currentDate: Instant): (r: Option<(Instant, Instant)>)
    ensures r.Some? <==> b.start < currentDate && b.start < b.end
    ensures r.Some? ==> r.value.0 == b.start && r.value.1 <= currentDate && r.value.1 <= b.end
                        && (r.value.1 == currentDate || r.value.1 == b.end)
  {
    var useEnd := if b.end < currentDate then b.end else currentDate;
    if b.start < currentDate && useEnd > b.start then Some((b.start, useEnd)) else None
  }

  /** One pass of the inner loop: the gray bar from the cursor up to the block (or the current
      date), then the block's own bar. */
  function Step(rule: CursorRule, b: Block, category: int, cursor: Instant, currentDate: Instant, colors: ColorOrder): (r: Walked)
    ensures WellFormed(r.bars, category, currentDate)
    ensures SpansOfColoured(r.bars) == if ColouredSpan(b, currentDate).Some? then [ColouredSpan(b, currentDate).value] else []
    ensures forall k :: 0 <= k < |r.bars| && r.bars[k].color == LightGray ==> r.bars[k].start == cursor && r.bars[k].end <= b.start
    ensures forall k :: 0 <= k < |r.bars| && r.bars[k].color != LightGray ==> r.bars[k].start == b.start && r.bars[k].end <= r.cursor
    ensures rule.Monotone? ==> r.cursor >= cursor
    ensures b.start >= currentDate ==> r.cursor == cursor && r.colors == colors
  {
    var gapEnd := if b.start < currentDate then b.start else currentDate;
    var gap := if gapEnd > cursor then [Bar(cursor, gapEnd, category, LightGray)] else [];
    if b.start < currentDate then
      var useEnd := if b.end < currentDate then b.end else currentDate;
      if useEnd > b.start then
        var (colors1, color) := GetColor(colors, b.name);
        var r := Walked(gap + [Bar(b.start, useEnd, category, color)], colors1, Advance(rule, cursor, useEnd));
        SpansOfColouredConcat(gap, [Bar(b.start, useEnd, category, color)]);
        r
      else
        assert SpansOfColoured(gap + []) == SpansOfColoured(gap);
        Walked(gap, colors, Advance(rule, cursor, useEnd))
    else Walked(gap, colors, cursor)
  }

  /** The inner loop over a workplace's blocks ordered by start, stopping after the first block
      that starts after the current date. */
  function Walk(rule: CursorRule, bs: seq<Block>, category: int, cursor: Instant, currentDate: Instant, colors: ColorOrder): (r: Walked)
    ensures WellFormed(r.bars, category, currentDate)
    decreases |bs|
  {
    if |bs| == 0 then Walked([], colors, cursor)
    else
      var s := Step(rule, bs[0], category, cursor, currentDate, colors);
      if bs[0].start > currentDate then s
      else
        var rest := Walk(rule, bs[1..], category, s.cursor, currentDate, s.colors);
        Walked(s.bars + rest.bars, rest.colors, rest.cursor)
  }

  // ---------------------------------------------------------------------------------------
  // Bar properties

  /** Every bar is a non-empty interval ending by the current date, in the given row. */
  predicate WellFormed(bars: seq<Bar>, category: int, currentDate: Instant) {
    forall k :: 0 <= k < |bars| ==> bars[k].start < bars[k].end <= currentDate && bars[k].category == category
  }

  /** The coloured parts of the blocks, in order. */
  function ColouredSpans(bs: seq<Block>, currentDate: Instant): seq<(Instant, Instant)> {
    if |bs| == 0 then []
    else
      (if ColouredSpan(bs[0], currentDate).Some? then [ColouredSpan(bs[0], currentDate).value] else [])
      + ColouredSpans(bs[1..], currentDate)
  }

  /** The spans of the non-gray bars. */
  function SpansOfColoured(bars: seq<Bar>): seq<(Instant, Instant)> {
    if |bars| == 0 then []
    else (if bars[0].color != LightGray then [(bars[0].start, bars[0].end)] else []) + SpansOfColoured(bars[1..])
  }

  lemma {:induction false} SpansOfColouredConcat(a: seq<Bar>, b: seq<Bar>)
    ensures SpansOfColoured(a + b) == SpansOfColoured(a) + SpansOfColoured(b)
  {
    if |a| == 0 {
      assert a + b == b;
    } else {
      assert (a + b)[1..] == a[1..] + b;
      SpansOfColouredConcat(a[1..], b);
    }
  }

  /** Blocks starting after the current date have nothing to colour. */
  lemma {:induction false} LateBlocksUncoloured(bs: seq<Block>, currentDate: Instant)
    requires forall k :: 0 <= k < |bs| ==> bs[k].start > currentDate
    ensures ColouredSpans(bs, currentDate) == []
  {
    if |bs| > 0 {
      LateBlocksUncoloured(bs[1..], currentDate);
    }
  }

  /** The walk's bars are well formed, and its coloured bars are exactly the coloured parts of
      the blocks, in order: stopping at the first block after the current date loses nothing. */
  lemma {:induction false} WalkColoursEveryBlock(rule: CursorRule, bs: seq<Block>, category: int, cursor: Instant, currentDate: Instant, colors: ColorOrder)
    requires SortedByStart(bs)
    ensures SpansOfColoured(Walk(rule, bs, category, cursor, currentDate, colors).bars) == ColouredSpans(bs, currentDate)
    decreases |bs|
  {
    if |bs| > 0 {
      var s := Step(rule, bs[0], category, cursor, currentDate, colors);
      if bs[0].start > currentDate {
        assert forall k :: 1 <= k < |bs| ==> bs[k].start > currentDate;
        LateBlocksUncoloured(bs[1..], currentDate);
        assert ColouredSpans(bs, currentDate) == SpansOfColoured(s.bars) + [];
      } else {
        var rest := Walk(rule, bs[1..], category, s.cursor, currentDate, s.colors);
        WalkColoursEveryBlock(rule, bs[1..], category, s.cursor, currentDate, s.colors);
        SpansOfColouredConcat(s.bars, rest.bars);
      }
    }
  }

  // ---------------------------------------------------------------------------------------
  // Gray bars and block bars

  predicate IsGray(x: Bar) {
    x.color == LightGray
  }

  predicate Apart(x: Bar, y: Bar) {
    x.end <= y.start || y.end <= x.start
  }

  /** No gray bar overlaps a block's bar in the same row. */
  predicate Separated(bars: seq<Bar>) {
    forall i, j ::
      0 <= i < |bars| && 0 <= j < |bars| && IsGray(bars[i]) && !IsGray(bars[j]) && bars[i].category == bars[j].category
      ==> Apart(bars[i], bars[j])
  }

  lemma {:induction false} SeparatedConcat(a: seq<Bar>, b: seq<Bar>)
    requires Separated(a) && Separated(b)
    requires forall i, j :: 0 <= i < |a| && 0 <= j < |b| && IsGray(a[i]) && !IsGray(b[j]) && a[i].category == b[j].category
               ==> Apart(a[i], b[j])
    requires forall i, j :: 0 <= i < |a| && 0 <= j < |b| && !IsGray(a[i]) && IsGray(b[j]) && a[i].category == b[j].category
               ==> Apart(a[i], b[j])
    ensures Separated(a + b)
  {
    var c := a + b;
    forall i, j | 0 <= i < |c| && 0 <= j < |c| && IsGray(c[i]) && !IsGray(c[j]) && c[i].category == c[j].category
      ensures Apart(c[i], c[j])
    {
      if i < |a| && j >= |a| {
        assert c[j] == b[j - |a|];
      } else if i >= |a| && j < |a| {
        assert c[i] == b[i - |a|];
      } else if i >= |a| {
        assert c[i] == b[i - |a|] && c[j] == b[j - |a|];
      }
    }
  }

  /** With the monotone cursor the walk never moves the cursor back, its gray bars start at or
      after the cursor, and its block bars start at or after the first block and end by the final
      cursor. */
  lemma {:induction false} WalkBounds(bs: seq<Block>, category: int, cursor: Instant, currentDate: Instant, colors: ColorOrder)
    requires SortedByStart(bs)
    ensures var w := Walk(Monotone, bs, category, cursor, currentDate, colors);
      && w.cursor >= cursor
      && (forall k :: 0 <= k < |w.bars| && IsGray(w.bars[k]) ==> w.bars[k].start >= cursor)
      && (forall k :: 0 <= k < |w.bars| && !IsGray(w.bars[k]) ==> w.bars[k].start >= bs[0].start && w.bars[k].end <= w.cursor)
    decreases |bs|
  {
    if |bs| > 0 {
      var b := bs[0];
      var s := Step(Monotone, b, category, cursor, currentDate, colors);
      if b.start <= currentDate {
        var rest := Walk(Monotone, bs[1..], category, s.cursor, currentDate, s.colors);
        WalkBounds(bs[1..], category, s.cursor, currentDate, s.colors);
        var w := Walked(s.bars + rest.bars, rest.colors, rest.cursor);
        assert Walk(Monotone, bs, category, cursor, currentDate, colors) == w;
        forall k | 0 <= k < |w.bars| && !IsGray(w.bars[k])
          ensures w.bars[k].start >= b.start && w.bars[k].end <= w.cursor
        {
          if k >= |s.bars| {
            assert w.bars[k] == rest.bars[k - |s.bars|];
            assert bs[1..][0].start >= b.start;
          }
        }
        forall k | 0 <= k < |w.bars| && IsGray(w.bars[k])
          ensures w.bars[k].start >= cursor
        {
          if k >= |s.bars| {
            assert w.bars[k] == rest.bars[k - |s.bars|];
          }
        }
      }
    }
  }

  /** With the monotone cursor no gray bar of the walk overlaps one of its block bars. */
  lemma {:induction false} WalkSeparates(bs: seq<Block>, category: int, cursor: Instant, currentDate: Instant, colors: ColorOrder)
    requires SortedByStart(bs)
    ensures Separated(Walk(Monotone, bs, category, cursor, currentDate, colors).bars)
    decreases |bs|
  {
    if |bs| > 0 {
      var b := bs[0];
      var s := Step(Monotone, b, category, cursor, currentDate, colors);
      if b.start <= currentDate {
        var rest := Walk(Monotone, bs[1..], category, s.cursor, currentDate, s.colors);
        WalkSeparates(bs[1..], category, s.cursor, currentDate, s.colors);
        WalkBounds(bs[1..], category, s.cursor, currentDate, s.colors);
        if |bs[1..]| > 0 {
          assert bs[1..][0].start >= b.start;
        }
        SeparatedConcat(s.bars, rest.bars);
      }
    }
  }

  /** One group's bars. */
  function GroupBars(rule: CursorRule, bs: seq<Block>, wp: int, overallStart: Instant, currentDate: Instant, colors: ColorOrder): (r: (seq<Bar>, ColorOrder))
    ensures WellFormed(r.0, wp - 1, currentDate)
  {
    var w := Walk(rule, bs, wp - 1, overallStart, currentDate, colors);
    var tail := if w.cursor < currentDate then [Bar(w.cursor, currentDate, wp - 1, LightGray)] else [];
    (w.bars + tail, w.colors)
  }

  /** A workplace row colours exactly the clipped blocks of the workplace, in start order. */
  lemma {:induction false} GroupBarsShape(rule: CursorRule, bs: seq<Block>, wp: int, overallStart: Instant, currentDate: Instant, colors: ColorOrder)
    requires SortedByStart(bs)
    ensures SpansOfColoured(GroupBars(rule, bs, wp, overallStart, currentDate, colors).0) == ColouredSpans(bs, currentDate)
  {
    var w := Walk(rule, bs, wp - 1, overallStart, currentDate, colors);
    var tail := if w.cursor < currentDate then [Bar(w.cursor, currentDate, wp - 1, LightGray)] else [];
    WalkColoursEveryBlock(rule, bs, wp - 1, overallStart, currentDate, colors);
    SpansOfColouredConcat(w.bars, tail);
  }

  /** With the monotone cursor no bar of a workplace row starts before the overall start, when
      no block of the row does. */
  lemma {:induction false} GroupBarsFromStart(bs: seq<Block>, wp: int, overallStart: Instant, currentDate: Instant, colors: ColorOrder)
    requires SortedByStart(bs)
    requires forall k :: 0 <= k < |bs| ==> overallStart <= bs[k].start
    ensures var bars := GroupBars(Monotone, bs, wp, overallStart, currentDate, colors).0;
      forall k :: 0 <= k < |bars| ==> overallStart <= bars[k].start
  {
    var w := Walk(Monotone, bs, wp - 1, overallStart, currentDate, colors);
    var tail := if w.cursor < currentDate then [Bar(w.cursor, currentDate, wp - 1, LightGray)] else [];
    WalkBounds(bs, wp - 1, overallStart, currentDate, colors);
    var bars := w.bars + tail;
    assert GroupBars(Monotone, bs, wp, overallStart, currentDate, colors).0 == bars;
    forall k | 0 <= k < |bars|
      ensures overallStart <= bars[k].start
    {
      if k < |w.bars| {
        assert bars[k] == w.bars[k];
      }
    }
  }

  /** With the monotone cursor a workplace row never draws gray over a block. */
  lemma {:induction false} GroupBarsSeparated(bs: seq<Block>, wp: int, overallStart: Instant, currentDate: Instant, colors: ColorOrder)
    requires SortedByStart(bs)
    ensures Separated(GroupBars(Monotone, bs, wp, overallStart, currentDate, colors).0)
  {
    var w := Walk(Monotone, bs, wp - 1, overallStart, currentDate, colors);
    var tail := if w.cursor < currentDate then [Bar(w.cursor, currentDate, wp - 1, LightGray)] else [];
    WalkBounds(bs, wp - 1, overallStart, currentDate, colors);
    WalkSeparates(bs, wp - 1, overallStart, currentDate, colors);
    SeparatedConcat(w.bars, tail);
  }

  /** The code as written moves the cursor back to the end of a short block that started inside
      a longer one, and then draws gray over the longer block: blocks spanning 1-10, 2-5 and 7-12
      in one workplace, cut at 12, give a gray bar 5-7 inside the block bar 1-10. */
  lemma {:induction false} AsWrittenDrawsGrayOverBlock(bs: seq<Block>)
    requires bs == OverlapExample()
    ensures GroupBars(AsWritten, bs, 1, 1, 12, []).0 == OverlapBars
    ensures !Apart(OverlapBars[2], OverlapBars[0])
    ensures !Separated(OverlapBars)
  {
    ExampleWalk(bs);
    assert IsGray(OverlapBars[2]) && !IsGray(OverlapBars[0]);
  }

  /** The bars the code as written draws for the example. */
  const OverlapBars: seq<Bar> :=
    [Bar(1, 10, 0, Red), Bar(2, 5, 0, Orange), Bar(5, 7, 0, LightGray), Bar(7, 12, 0, Yellow)]

  lemma {:induction false} ExampleWalk(bs: seq<Block>)
    requires bs == OverlapExample()
    ensures Walk(AsWritten, bs, 0, 1, 12, []) == Walked(OverlapBars, ["A", "B", "C"], 12)
  {
    ExampleStep1(bs[0]);
    ExampleWalkFromB(bs[1..]);
    WalkCons(AsWritten, bs, 0, 1, 12, []);
    assert [Bar(1, 10, 0, Red)] + OverlapBars[1..] == OverlapBars;
  }

  lemma {:induction false} ExampleWalkFromB(bs: seq<Block>)
    requires bs == OverlapExample()[1..]
    ensures Walk(AsWritten, bs, 0, 10, 12, ["A"]) == Walked(OverlapBars[1..], ["A", "B", "C"], 12)
  {
    ExampleStep2(bs[0]);
    ExampleWalkFromC(bs[1..]);
    WalkCons(AsWritten, bs, 0, 10, 12, ["A"]);
    assert [Bar(2, 5, 0, Orange)] + OverlapBars[2..] == OverlapBars[1..];
  }

  lemma {:induction false} ExampleWalkFromC(bs: seq<Block>)
    requires bs == OverlapExample()[2..]
    ensures Walk(AsWritten, bs, 0, 5, 12, ["A", "B"]) == Walked(OverlapBars[2..], ["A", "B", "C"], 12)
  {
    ExampleStep3(bs[0]);
    assert bs[1..] == [];
    WalkCons(AsWritten, bs, 0, 5, 12, ["A", "B"]);
    assert [Bar(5, 7, 0, LightGray), Bar(7, 12, 0, Yellow)] + [] == OverlapBars[2..];
  }

  /** One pass of the inner loop for a block that does not start after the current date. */
  lemma {:induction false} WalkCons(rule: CursorRule, bs: seq<Block>, category: int, cursor: Instant, currentDate: Instant, colors: ColorOrder)
    requires |bs| > 0 && bs[0].start <= currentDate
    ensures var s := Step(rule, bs[0], category, cursor, currentDate, colors);
      var rest := Walk(rule, bs[1..], category, s.cursor, currentDate, s.colors);
      Walk(rule, bs, category, cursor, currentDate, colors) == Walked(s.bars + rest.bars, rest.colors, rest.cursor)
  {
  }

  lemma {:induction false} ExampleStep1(b: Block)
    requires b == Block("A", 1, 1, 10, None, 0, 1)
    ensures Step(AsWritten, b, 0, 1, 12, []) == Walked([Bar(1, 10, 0, Red)], ["A"], 10)
  {
    assert GetColor([], "A") == (["A"], Red) by {
      assert [] + ["A"] == ["A"];
      assert Palette[0] == Red;
    }
  }

  lemma {:induction false} ExampleStep2(b: Block)
    requires b == Block("B", 2, 2, 5, None, 0, 1)
    ensures Step(AsWritten, b, 0, 10, 12, ["A"]) == Walked([Bar(2, 5, 0, Orange)], ["A", "B"], 5)
  {
    assert GetColor(["A"], "B") == (["A", "B"], Orange) by {
      assert "B" != "A";
      assert ["A"] + ["B"] == ["A", "B"];
      assert Palette[1] == Orange;
    }
  }

  lemma {:induction false} ExampleStep3(b: Block)
    requires b == Block("C", 3, 7, 12, None, 0, 1)
    ensures Step(AsWritten, b, 0, 5, 12, ["A", "B"])
            == Walked([Bar(5, 7, 0, LightGray), Bar(7, 12, 0, Yellow)], ["A", "B", "C"], 12)
  {
    assert GetColor(["A", "B"], "C") == (["A", "B", "C"], Yellow) by {
      assert "C" != "A" && "C" != "B";
      assert ["A", "B"] + ["C"] == ["A", "B", "C"];
      assert Palette[2] == Yellow;
    }
  }

  /** Three blocks of workplace 1: 1-10, 2-5 inside it, and 7-12 overlapping its end. */
  function OverlapExample(): (r: seq<Block>)
    ensures SortedByStart(r)
  {
    [Block("A", 1, 1, 10, None, 0, 1), Block("B", 2, 2, 5, None, 0, 1), Block("C", 3, 7, 12, None, 0, 1)]
  }

  // ---------------------------------------------------------------------------------------
  // The whole chart

  /** What `UpdateGantt` leaves behind: the colour map, the date axis range and the bar series
      (none after an update without blocks). */
  datatype Chart = Chart(colors: ColorOrder, axis: Option<(Instant, Instant)>, series: Option<seq<Bar>>)

  const InitialChart: Chart := Chart([], None, None)

  /** The bars of the groups with the given keys, in key order, threading the colour map. Every
      bar is non-empty, ends by the cut date and lies in the row of one of the keys. */
  function AllGroups(rule: CursorRule, keys: seq<int>, blocks: seq<Block>, overallStart: Instant, currentDate: Instant, colors: ColorOrder): (r: (seq<Bar>, ColorOrder))
    ensures forall k :: 0 <= k < |r.0| ==> r.0[k].start < r.0[k].end <= currentDate && r.0[k].category + 1 in keys
    decreases |keys|
  {
    if |keys| == 0 then ([], colors)
    else
      var group := GroupBars(rule, WorkplaceBlocks(blocks, keys[0]), keys[0], overallStart, currentDate, colors);
      var rest := AllGroups(rule, keys[1..], blocks, overallStart, currentDate, group.1);
      var bars := group.0 + rest.0;
      assert forall k :: |group.0| <= k < |bars| ==> bars[k] == rest.0[k - |group.0|];
      (bars, rest.1)
  }

  /** The date the chart is cut at: the simulation date, but no later than the last end. */
  function CutDate(blocks: seq<Block>, simDate: Instant): (r: Instant)
    requires |blocks| > 0
    ensures r <= simDate && r <= MaxEnd(blocks)
    ensures r == simDate || r == MaxEnd(blocks)
  {
    var overallEnd := MaxEnd(blocks);
    if simDate > overallEnd then overallEnd else simDate
  }

  /** `UpdateGantt` with a given cursor rule. */
  function Render(rule: CursorRule, chart: Chart, blocks: seq<Block>, simDate: Instant): (r: Chart)
    ensures |blocks| == 0 ==> r == chart.(series := None)
    ensures |blocks| > 0 ==> r.series.Some? && r.axis == Some((MinStart(blocks), MaxEnd(blocks)))
  {
    if |blocks| == 0 then chart.(series := None)
    else
      var overallStart := MinStart(blocks);
      var currentDate := CutDate(blocks, simDate);
      var (bars, colors) := AllGroups(rule, WorkplaceKeys(blocks), blocks, overallStart, currentDate, chart.colors);
      Chart(colors, Some((overallStart, MaxEnd(blocks))), Some(bars))
  }

  /** The whole chart as the code writes it, for the three example blocks and any simulation
      date from 12 on: the cut date is the last end, 12, and the one row is the one with gray
      drawn over the first block. */
  lemma {:induction false} AsWrittenChartDrawsGrayOverBlock(blocks: seq<Block>, simDate: Instant)
    requires blocks == OverlapExample() && simDate >= 12
    ensures Render(AsWritten, InitialChart, blocks, simDate).series == Some(OverlapBars)
    ensures !Separated(OverlapBars)
  {
    ExampleSchedule(simDate);
    RenderSeries(AsWritten, InitialChart, blocks, simDate);
    AllGroupsSingle(AsWritten, 1, blocks, 1, 12, []);
    AsWrittenDrawsGrayOverBlock(blocks);
  }

  /** The bars of a single group are that group's row. */
  lemma {:induction false} AllGroupsSingle(rule: CursorRule, wp: int, blocks: seq<Block>, overallStart: Instant, currentDate: Instant, colors: ColorOrder)
    ensures AllGroups(rule, [wp], blocks, overallStart, currentDate, colors).0
            == GroupBars(rule, WorkplaceBlocks(blocks, wp), wp, overallStart, currentDate, colors).0
  {
    var g := GroupBars(rule, WorkplaceBlocks(blocks, wp), wp, overallStart, currentDate, colors);
    assert [wp][1..] == [];
    assert g.0 + [] == g.0;
  }

  /** The series of a chart with blocks is the rows of its workplaces, in order of first
      appearance, cut at the cut date. */
  lemma {:induction false} RenderSeries(rule: CursorRule, chart: Chart, blocks: seq<Block>, simDate: Instant)
    requires |blocks| > 0
    ensures Render(rule, chart, blocks, simDate).series
            == Some(AllGroups(rule, WorkplaceKeys(blocks), blocks, MinStart(blocks), CutDate(blocks, simDate), chart.colors).0)
  {
  }

  /** The example's range, cut date, single workplace and its ordered blocks. */
  lemma {:induction false} ExampleSchedule(simDate: Instant)
    requires simDate >= 12
    ensures MinStart(OverlapExample()) == 1 && CutDate(OverlapExample(), simDate) == 12
    ensures WorkplaceKeys(OverlapExample()) == [1]
    ensures WorkplaceBlocks(OverlapExample(), 1) == OverlapExample()
  {
    var bs := OverlapExample();
    assert MinStart(bs) == 1 && MaxEnd(bs) == 12;
    ExampleKeys();
    ExampleBlocks();
  }

  lemma {:induction false} ExampleKeys()
    ensures WorkplaceKeys(OverlapExample()) == [1]
  {
    var bs := OverlapExample();
    assert WorkplaceKeys(bs[..1]) == [1] by {
      assert bs[..1][..0] == [];
    }
    assert WorkplaceKeys(bs[..2]) == [1] by {
      assert bs[..2][..1] == bs[..1];
    }
    assert bs[..|bs| - 1] == bs[..2];
  }

  lemma {:induction false} ExampleBlocks()
    ensures WorkplaceBlocks(OverlapExample(), 1) == OverlapExample()
  {
    ExampleInWorkplace();
    ExampleSorted();
  }

  lemma {:induction false} ExampleInWorkplace()
    ensures InWorkplace(OverlapExample(), 1) == OverlapExample()
  {
    InWorkplaceOfOne(OverlapExample(), 1);
  }

  lemma {:induction false} ExampleSorted()
    ensures TotalPreorder(ByStart) && SortBy(OverlapExample(), ByStart) == OverlapExample()
  {
    ByStartIsTotalPreorder();
    SortBySorted(OverlapExample(), ByStart);
  }

  /** `UpdateGantt`, with the cursor kept from moving backwards. */
  function UpdateGantt(chart: Chart, blocks: seq<Block>, simDate: Instant): (r: Chart)
    ensures |blocks| == 0 ==> r == chart.(series := None)
    ensures |blocks| > 0 ==> r.series.Some? && r.axis == Some((MinStart(blocks), MaxEnd(blocks)))
  {
    Render(Monotone, chart, blocks, simDate)
  }

  /** The bars of one row. */
  function InCategory(bars: seq<Bar>, category: int): (r: seq<Bar>)
    ensures forall k :: 0 <= k < |r| ==> r[k].category == category && r[k] in bars
  {
    if |bars| == 0 then []
    else
      var rest := InCategory(bars[1..], category);
      assert forall x :: x in bars[1..] ==> x in bars;
      (if bars[0].category == category then [bars[0]] else []) + rest
  }

  lemma {:induction false} InCategoryConcat(a: seq<Bar>, b: seq<Bar>, category: int)
    ensures InCategory(a + b, category) == InCategory(a, category) + InCategory(b, category)
  {
    if |a| == 0 {
      assert a + b == b;
    } else {
      assert (a + b)[1..] == a[1..] + b;
      InCategoryConcat(a[1..], b, category);
    }
  }

  lemma {:induction false} InCategoryOfRow(bars: seq<Bar>, row: int, category: int, currentDate: Instant)
    requires WellFormed(bars, row, currentDate)
    ensures InCategory(bars, category) == if row == category then bars else []
  {
    if |bars| > 0 {
      InCategoryOfRow(bars[1..], row, category, currentDate);
    }
  }

  /** A workplace's blocks start no earlier than all blocks do. */
  lemma {:induction false} WorkplaceBlocksAfter(blocks: seq<Block>, wp: int, overallStart: Instant)
    requires forall k :: 0 <= k < |blocks| ==> overallStart <= blocks[k].start
    ensures forall k :: 0 <= k < |WorkplaceBlocks(blocks, wp)| ==> overallStart <= WorkplaceBlocks(blocks, wp)[k].start
  {
    var bs := WorkplaceBlocks(blocks, wp);
    forall k | 0 <= k < |bs|
      ensures overallStart <= bs[k].start
    {
      assert bs[k] in bs;
      var j :| 0 <= j < |blocks| && blocks[j] == bs[k];
    }
  }

  /** The bars a row contributes and the bars after it keep the bounds of both. */
  predicate InBounds(bars: seq<Bar>, keys: seq<int>, overallStart: Instant, currentDate: Instant) {
    forall k :: 0 <= k < |bars| ==>
      overallStart <= bars[k].start < bars[k].end <= currentDate && bars[k].category + 1 in keys
  }

  lemma {:induction false} InBoundsConcat(a: seq<Bar>, b: seq<Bar>, keys: seq<int>, overallStart: Instant, currentDate: Instant)
    requires |keys| > 0
    requires InBounds(a, keys[..1], overallStart, currentDate)
    requires InBounds(b, keys[1..], overallStart, currentDate)
    ensures InBounds(a + b, keys, overallStart, currentDate)
  {
    assert keys == keys[..1] + keys[1..];
    forall k | 0 <= k < |a + b|
      ensures (a + b)[k].category + 1 in keys
    {
      if k < |a| {
        assert (a + b)[k] == a[k];
      } else {
        assert (a + b)[k] == b[k - |a|];
      }
    }
  }

  /** A row's bars in bounds, from its shape. */
  lemma {:induction false} GroupBarsInBounds(bs: seq<Block>, wp: int, keys: seq<int>, overallStart: Instant, currentDate: Instant, colors: ColorOrder)
    requires SortedByStart(bs)
    requires forall k :: 0 <= k < |bs| ==> overallStart <= bs[k].start
    requires |keys| > 0 && keys[0] == wp
    ensures InBounds(GroupBars(Monotone, bs, wp, overallStart, currentDate, colors).0, keys[..1], overallStart, currentDate)
  {
    GroupBarsFromStart(bs, wp, overallStart, currentDate, colors);
    assert keys[..1] == [wp];
  }

  /** The groups unfold into the first row followed by the rest. */
  lemma {:induction false} AllGroupsUnfold(rule: CursorRule, keys: seq<int>, blocks: seq<Block>, overallStart: Instant, currentDate: Instant, colors: ColorOrder)
    requires |keys| > 0
    ensures var g := GroupBars(rule, WorkplaceBlocks(blocks, keys[0]), keys[0], overallStart, currentDate, colors);
      AllGroups(rule, keys, blocks, overallStart, currentDate, colors).0
      == g.0 + AllGroups(rule, keys[1..], blocks, overallStart, currentDate, g.1).0
  {
  }

  /** Every bar of the groups lies in the row of one of the keys, between the overall start and
      the cut date. */
  lemma {:induction false} AllGroupsBounds(keys: seq<int>, blocks: seq<Block>, overallStart: Instant, currentDate: Instant, colors: ColorOrder)
    requires forall k :: 0 <= k < |blocks| ==> overallStart <= blocks[k].start
    ensures InBounds(AllGroups(Monotone, keys, blocks, overallStart, currentDate, colors).0, keys, overallStart, currentDate)
    decreases |keys|
  {
    if |keys| > 0 {
      var bs := WorkplaceBlocks(blocks, keys[0]);
      var g := GroupBars(Monotone, bs, keys[0], overallStart, currentDate, colors);
      var rest := AllGroups(Monotone, keys[1..], blocks, overallStart, currentDate, g.1).0;
      WorkplaceBlocksAfter(blocks, keys[0], overallStart);
      GroupBarsInBounds(bs, keys[0], keys, overallStart, currentDate, colors);
      AllGroupsBounds(keys[1..], blocks, overallStart, currentDate, g.1);
      InBoundsConcat(g.0, rest, keys, overallStart, currentDate);
      AllGroupsUnfold(Monotone, keys, blocks, overallStart, currentDate, colors);
    }
  }

  /** Bars in the rows of the later keys share no row with the bars of the first key. */
  lemma {:induction false} LaterRowsDiffer(a: seq<Bar>, b: seq<Bar>, keys: seq<int>, overallStart: Instant, currentDate: Instant)
    requires forall i, j :: 0 <= i < j < |keys| ==> keys[i] != keys[j]
    requires |keys| > 0
    requires InBounds(a, keys[..1], overallStart, currentDate)
    requires InBounds(b, keys[1..], overallStart, currentDate)
    ensures forall k :: 0 <= k < |b| ==> b[k].category != keys[0] - 1
    ensures forall i, j :: 0 <= i < |a| && 0 <= j < |b| ==> a[i].category != b[j].category
  {
    forall j | 0 <= j < |b|
      ensures b[j].category != keys[0] - 1
    {
      var m :| 0 <= m < |keys[1..]| && keys[1..][m] == b[j].category + 1;
      assert keys[m + 1] == b[j].category + 1;
    }
    forall i | 0 <= i < |a|
      ensures a[i].category == keys[0] - 1
    {
      assert a[i].category + 1 in keys[..1];
    }
  }

  /** Picking a row out of one row's bars followed by others. */
  lemma {:induction false} InCategoryAfterRow(a: seq<Bar>, b: seq<Bar>, row: int, category: int, currentDate: Instant)
    requires WellFormed(a, row, currentDate)
    ensures row != category ==> InCategory(a + b, category) == InCategory(b, category)
    ensures row == category && (forall k :: 0 <= k < |b| ==> b[k].category != row) ==> InCategory(a + b, category) == a
  {
    InCategoryConcat(a, b, category);
    InCategoryOfRow(a, row, category, currentDate);
    if row != category {
      assert [] + InCategory(b, category) == InCategory(b, category);
    } else if forall k :: 0 <= k < |b| ==> b[k].category != row {
      InCategoryEmpty(b, category);
      assert a + [] == a;
    }
  }

  /** The row of the first key holds exactly that key's group. */
  lemma {:induction false} FirstRow(keys: seq<int>, blocks: seq<Block>, overallStart: Instant, currentDate: Instant, colors: ColorOrder)
    requires forall i, j :: 0 <= i < j < |keys| ==> keys[i] != keys[j]
    requires forall k :: 0 <= k < |blocks| ==> overallStart <= blocks[k].start
    requires |keys| > 0
    ensures InCategory(AllGroups(Monotone, keys, blocks, overallStart, currentDate, colors).0, keys[0] - 1)
            == GroupBars(Monotone, WorkplaceBlocks(blocks, keys[0]), keys[0], overallStart, currentDate, colors).0
  {
    var bs := WorkplaceBlocks(blocks, keys[0]);
    var g := GroupBars(Monotone, bs, keys[0], overallStart, currentDate, colors);
    var rest := AllGroups(Monotone, keys[1..], blocks, overallStart, currentDate, g.1).0;
    AllGroupsUnfold(Monotone, keys, blocks, overallStart, currentDate, colors);
    WorkplaceBlocksAfter(blocks, keys[0], overallStart);
    GroupBarsInBounds(bs, keys[0], keys, overallStart, currentDate, colors);
    AllGroupsBounds(keys[1..], blocks, overallStart, currentDate, g.1);
    LaterRowsDiffer(g.0, rest, keys, overallStart, currentDate);
    InCategoryAfterRow(g.0, rest, keys[0] - 1, keys[0] - 1, currentDate);
  }

  /** A later key's row is unaffected by the first group. */
  lemma {:induction false} LaterRow(keys: seq<int>, blocks: seq<Block>, overallStart: Instant, currentDate: Instant, colors: ColorOrder, wp: int)
    requires |keys| > 0 && wp != keys[0]
    ensures var g := GroupBars(Monotone, WorkplaceBlocks(blocks, keys[0]), keys[0], overallStart, currentDate, colors);
      InCategory(AllGroups(Monotone, keys, blocks, overallStart, currentDate, colors).0, wp - 1)
      == InCategory(AllGroups(Monotone, keys[1..], blocks, overallStart, currentDate, g.1).0, wp - 1)
  {
    var bs := WorkplaceBlocks(blocks, keys[0]);
    var g := GroupBars(Monotone, bs, keys[0], overallStart, currentDate, colors);
    var rest := AllGroups(Monotone, keys[1..], blocks, overallStart, currentDate, g.1).0;
    AllGroupsUnfold(Monotone, keys, blocks, overallStart, currentDate, colors);
    InCategoryAfterRow(g.0, rest, keys[0] - 1, wp - 1, currentDate);
  }

  /** Row `wp - 1` of the groups colours exactly the clipped blocks of workplace `wp`. */
  lemma {:induction false} AllGroupsRows(keys: seq<int>, blocks: seq<Block>, overallStart: Instant, currentDate: Instant, colors: ColorOrder, wp: int)
    requires forall i, j :: 0 <= i < j < |keys| ==> keys[i] != keys[j]
    requires forall k :: 0 <= k < |blocks| ==> overallStart <= blocks[k].start
    requires wp in keys
    ensures SpansOfColoured(InCategory(AllGroups(Monotone, keys, blocks, overallStart, currentDate, colors).0, wp - 1))
            == ColouredSpans(WorkplaceBlocks(blocks, wp), currentDate)
    decreases |keys|, 1
  {
    if wp == keys[0] {
      FirstRowSpans(keys, blocks, overallStart, currentDate, colors);
      var bars := AllGroups(Monotone, keys, blocks, overallStart, currentDate, colors).0;
      assert RowColours(bars, blocks, currentDate, keys[0]);
      assert RowColours(bars, blocks, currentDate, wp);
    } else {
      LaterRowsSpans(keys, blocks, overallStart, currentDate, colors, wp);
    }
  }

  /** The rows after the first, by induction over the keys. */
  lemma {:induction false} LaterRowsSpans(keys: seq<int>, blocks: seq<Block>, overallStart: Instant, currentDate: Instant, colors: ColorOrder, wp: int)
    requires forall i, j :: 0 <= i < j < |keys| ==> keys[i] != keys[j]
    requires forall k :: 0 <= k < |blocks| ==> overallStart <= blocks[k].start
    requires wp in keys && wp != keys[0]
    ensures SpansOfColoured(InCategory(AllGroups(Monotone, keys, blocks, overallStart, currentDate, colors).0, wp - 1))
            == ColouredSpans(WorkplaceBlocks(blocks, wp), currentDate)
    decreases |keys|, 0
  {
    var g := GroupBars(Monotone, WorkplaceBlocks(blocks, keys[0]), keys[0], overallStart, currentDate, colors);
    InLaterKeys(keys, wp);
    AllGroupsRows(keys[1..], blocks, overallStart, currentDate, g.1, wp);
    LaterRowSpans(keys, blocks, overallStart, currentDate, colors, wp);
  }

  /** A later row colours what the same row of the later keys' groups colours. */
  lemma {:induction false} LaterRowSpans(keys: seq<int>, blocks: seq<Block>, overallStart: Instant, currentDate: Instant, colors: ColorOrder, wp: int)
    requires |keys| > 0 && wp != keys[0]
    requires var g := GroupBars(Monotone, WorkplaceBlocks(blocks, keys[0]), keys[0], overallStart, currentDate, colors);
      SpansOfColoured(InCategory(AllGroups(Monotone, keys[1..], blocks, overallStart, currentDate, g.1).0, wp - 1))
      == ColouredSpans(WorkplaceBlocks(blocks, wp), currentDate)
    ensures SpansOfColoured(InCategory(AllGroups(Monotone, keys, blocks, overallStart, currentDate, colors).0, wp - 1))
            == ColouredSpans(WorkplaceBlocks(blocks, wp), currentDate)
  {
    LaterRow(keys, blocks, overallStart, currentDate, colors, wp);
  }

  /** The first row of the groups colours exactly the clipped blocks of the first workplace. */
  lemma {:induction false} FirstRowSpans(keys: seq<int>, blocks: seq<Block>, overallStart: Instant, currentDate: Instant, colors: ColorOrder)
    requires forall i, j :: 0 <= i < j < |keys| ==> keys[i] != keys[j]
    requires forall k :: 0 <= k < |blocks| ==> overallStart <= blocks[k].start
    requires |keys| > 0
    ensures SpansOfColoured(InCategory(AllGroups(Monotone, keys, blocks, overallStart, currentDate, colors).0, keys[0] - 1))
            == ColouredSpans(WorkplaceBlocks(blocks, keys[0]), currentDate)
  {
    FirstRow(keys, blocks, overallStart, currentDate, colors);
    GroupBarsShape(Monotone, WorkplaceBlocks(blocks, keys[0]), keys[0], overallStart, currentDate, colors);
  }

  /** Row `wp - 1` of `bars` colours exactly the clipped blocks of workplace `wp`. */
  predicate RowColours(bars: seq<Bar>, blocks: seq<Block>, currentDate: Instant, wp: int) {
    SpansOfColoured(InCategory(bars, wp - 1)) == ColouredSpans(WorkplaceBlocks(blocks, wp), currentDate)
  }

  lemma {:induction false} InLaterKeys(keys: seq<int>, wp: int)
    requires wp in keys && wp != keys[0]
    ensures wp in keys[1..]
  {
    var m :| 0 <= m < |keys| && keys[m] == wp;
    assert keys[1..][m - 1] == wp;
  }

  /** No gray bar of the groups overlaps a block bar of its row. */
  lemma {:induction false} AllGroupsSeparated(keys: seq<int>, blocks: seq<Block>, overallStart: Instant, currentDate: Instant, colors: ColorOrder)
    requires forall i, j :: 0 <= i < j < |keys| ==> keys[i] != keys[j]
    requires forall k :: 0 <= k < |blocks| ==> overallStart <= blocks[k].start
    ensures Separated(AllGroups(Monotone, keys, blocks, overallStart, currentDate, colors).0)
    decreases |keys|
  {
    if |keys| > 0 {
      var bs := WorkplaceBlocks(blocks, keys[0]);
      var g := GroupBars(Monotone, bs, keys[0], overallStart, currentDate, colors);
      var rest := AllGroups(Monotone, keys[1..], blocks, overallStart, currentDate, g.1).0;
      AllGroupsUnfold(Monotone, keys, blocks, overallStart, currentDate, colors);
      WorkplaceBlocksAfter(blocks, keys[0], overallStart);
      GroupBarsInBounds(bs, keys[0], keys, overallStart, currentDate, colors);
      GroupBarsSeparated(bs, keys[0], overallStart, currentDate, colors);
      AllGroupsBounds(keys[1..], blocks, overallStart, currentDate, g.1);
      AllGroupsSeparated(keys[1..], blocks, overallStart, currentDate, g.1);
      LaterRowsDiffer(g.0, rest, keys, overallStart, currentDate);
      SeparatedConcat(g.0, rest);
    }
  }

  lemma {:induction false} InCategoryEmpty(bars: seq<Bar>, category: int)
    requires forall k :: 0 <= k < |bars| ==> bars[k].category != category
    ensures InCategory(bars, category) == []
  {
    if |bars| > 0 {
      InCategoryEmpty(bars[1..], category);
    }
  }

  /** The bars `UpdateGantt` draws for blocks are those of the groups of their workplaces. */
  lemma {:induction false} UpdateGanttBars(chart: Chart, blocks: seq<Block>, simDate: Instant)
    requires |blocks| > 0
    ensures UpdateGantt(chart, blocks, simDate).series.value
            == AllGroups(Monotone, WorkplaceKeys(blocks), blocks, MinStart(blocks), CutDate(blocks, simDate), chart.colors).0
  {
  }

  /** After `UpdateGantt` with blocks every bar is a non-empty interval from the earliest start
      to the cut date, in the row of a workplace that has blocks. */
  lemma {:induction false} UpdateGanttBounds(chart: Chart, blocks: seq<Block>, simDate: Instant)
    requires |blocks| > 0
    ensures var bars := UpdateGantt(chart, blocks, simDate).series.value;
      && (forall k :: 0 <= k < |bars| ==> MinStart(blocks) <= bars[k].start < bars[k].end <= CutDate(blocks, simDate))
      && (forall k :: 0 <= k < |bars| ==> exists j :: 0 <= j < |blocks| && blocks[j].workplace == bars[k].category + 1)
  {
    var keys := WorkplaceKeys(blocks);
    UpdateGanttBars(chart, blocks, simDate);
    AllGroupsBounds(keys, blocks, MinStart(blocks), CutDate(blocks, simDate), chart.colors);
    InBoundsHaveBlocks(AllGroups(Monotone, keys, blocks, MinStart(blocks), CutDate(blocks, simDate), chart.colors).0,
                       blocks, MinStart(blocks), CutDate(blocks, simDate));
  }

  /** Bars in the rows of the workplace keys lie in the rows of workplaces that have blocks. */
  lemma {:induction false} InBoundsHaveBlocks(bars: seq<Bar>, blocks: seq<Block>, overallStart: Instant, currentDate: Instant)
    requires InBounds(bars, WorkplaceKeys(blocks), overallStart, currentDate)
    ensures forall k :: 0 <= k < |bars| ==> overallStart <= bars[k].start < bars[k].end <= currentDate
    ensures forall k :: 0 <= k < |bars| ==> HasBlocks(blocks, bars[k].category + 1)
  {
    var keys := WorkplaceKeys(blocks);
    forall k | 0 <= k < |bars|
      ensures HasBlocks(blocks, bars[k].category + 1)
    {
      assert bars[k].category + 1 in keys;
    }
  }

  predicate HasBlocks(blocks: seq<Block>, wp: int) {
    exists j :: 0 <= j < |blocks| && blocks[j].workplace == wp
  }

  /** After `UpdateGantt` with blocks the block bars of each workplace's row are exactly the
      clipped blocks of that workplace, in start order. */
  lemma {:induction false} UpdateGanttRows(chart: Chart, blocks: seq<Block>, simDate: Instant, wp: int)
    requires |blocks| > 0
    requires exists j :: 0 <= j < |blocks| && blocks[j].workplace == wp
    ensures SpansOfColoured(InCategory(UpdateGantt(chart, blocks, simDate).series.value, wp - 1))
            == ColouredSpans(WorkplaceBlocks(blocks, wp), CutDate(blocks, simDate))
  {
    UpdateGanttBars(chart, blocks, simDate);
    AllGroupsRows(WorkplaceKeys(blocks), blocks, MinStart(blocks), CutDate(blocks, simDate), chart.colors, wp);
  }

  /** After `UpdateGantt` no gray bar overlaps a block bar of its row. */
  lemma {:induction false} UpdateGanttSeparated(chart: Chart, blocks: seq<Block>, simDate: Instant)
    requires |blocks| > 0
    ensures Separated(UpdateGantt(chart, blocks, simDate).series.value)
  {
    UpdateGanttBars(chart, blocks, simDate);
    AllGroupsSeparated(WorkplaceKeys(blocks), blocks, MinStart(blocks), CutDate(blocks, simDate), chart.colors);
  }
}
