/** The per-workplace occupancy pies. For each of the six workplaces the blocks are clipped to the
    window from the earliest start of all blocks to the (clamped) current date; a sweep over the
    sorted clip boundaries splits every stretch of time equally among the blocks active in it and
    books uncovered time as idle. */
module PiViewModel {
  import opened Wrappers
  import opened Time
  import opened Sorting
  import opened Blocks
  import opened Schedule

  /** A block clipped to the window. */
  datatype Clip = Clip(name: string, start: Instant, end: Instant)

  datatype SliceKind = BlockSlice(name: string) | Idle

  /** A `PieSlice`; its fill colour is the chart colour of the block name, or light gray for
      idle time. */
  datatype PieSlice = PieSlice(kind: SliceKind, value: real)

  /** One `PlotModel`, titled with its workplace, and whether its series shows percentages. */
  datatype PieModel = PieModel(workplace: int, showLabels: bool, slices: seq<PieSlice>)

  // ---------------------------------------------------------------------------------------
  // Clipping

  /** The end a block is clipped with: its effective end, or the window end when it has none. */
  function ClipEnd(b: Block, windowEnd: Instant): Instant {
    EffectiveEnd(b).GetOr(windowEnd)
  }

  /** Instant `t` lies in the window and in the block's span. */
  predicate Covers(b: Block, windowStart: Instant, windowEnd: Instant, t: Instant) {
    windowStart <= t < windowEnd && b.start <= t < ClipEnd(b, windowEnd)
  }

  /** One iteration of the clipping loop. */
  function ClipBlock(b: Block, windowStart: Instant, windowEnd: Instant): (r: Option<Clip>)
    ensures r.Some? ==> r.value.name == b.name && windowStart <= r.value.start < r.value.end <= windowEnd
    ensures r.Some? ==> forall t :: r.value.start <= t < r.value.end <==> Covers(b, windowStart, windowEnd, t)
    ensures r.None? <==> forall t :: !Covers(b, windowStart, windowEnd, t)
  {
    var effectiveEnd := ClipEnd(b, windowEnd);
    if effectiveEnd < windowStart then
      assert forall t :: !Covers(b, windowStart, windowEnd, t);
      None
    else
      var s := if b.start < windowStart then windowStart else b.start;
      var e := if effectiveEnd > windowEnd then windowEnd else effectiveEnd;
      if e <= s then None
      else
        assert Covers(b, windowStart, windowEnd, s);
        Some(Clip(b.name, s, e))
  }

  /** The clipping loop: the surviving clips, in block order. Every block that meets the window
      keeps its clip, and every clip is the clip of a block. */
  function ClipAll(blocks: seq<Block>, windowStart: Instant, windowEnd: Instant): (r: seq<Clip>)
    ensures |r| <= |blocks|
    ensures forall k :: 0 <= k < |r| ==> windowStart <= r[k].start < r[k].end <= windowEnd
    ensures forall k :: 0 <= k < |r| ==> exists j :: 0 <= j < |blocks| && ClipBlock(blocks[j], windowStart, windowEnd) == Some(r[k])
    ensures forall j :: 0 <= j < |blocks| && ClipBlock(blocks[j], windowStart, windowEnd).Some? ==>
              ClipBlock(blocks[j], windowStart, windowEnd).value in r
  {
    if |blocks| == 0 then []
    else
      var rest := ClipAll(blocks[1..], windowStart, windowEnd);
      ClipsOfTail(blocks, windowStart, windowEnd, rest);
      var first := ClipBlock(blocks[0], windowStart, windowEnd);
      var r := if first.Some? then [first.value] + rest else rest;
      ClipsOfCons(blocks, windowStart, windowEnd, rest, r);
      r
  }

  /** Putting the clip of the first block, if any, in front of the clips of the others gives the
      clips of all blocks. */
  lemma {:induction false} ClipsOfCons(blocks: seq<Block>, windowStart: Instant, windowEnd: Instant, rest: seq<Clip>, r: seq<Clip>)
    requires |blocks| > 0 && |rest| < |blocks|
    requires forall k :: 0 <= k < |rest| ==> windowStart <= rest[k].start < rest[k].end <= windowEnd
    requires forall k :: 0 <= k < |rest| ==>
               exists j :: 0 <= j < |blocks| && ClipBlock(blocks[j], windowStart, windowEnd) == Some(rest[k])
    requires forall j :: 1 <= j < |blocks| && ClipBlock(blocks[j], windowStart, windowEnd).Some? ==>
               ClipBlock(blocks[j], windowStart, windowEnd).value in rest
    requires ClipBlock(blocks[0], windowStart, windowEnd).Some? ==> r == [ClipBlock(blocks[0], windowStart, windowEnd).value] + rest
    requires ClipBlock(blocks[0], windowStart, windowEnd).None? ==> r == rest
    ensures |r| <= |blocks|
    ensures forall k :: 0 <= k < |r| ==> windowStart <= r[k].start < r[k].end <= windowEnd
    ensures forall k :: 0 <= k < |r| ==> exists j :: 0 <= j < |blocks| && ClipBlock(blocks[j], windowStart, windowEnd) == Some(r[k])
    ensures forall j :: 0 <= j < |blocks| && ClipBlock(blocks[j], windowStart, windowEnd).Some? ==>
              ClipBlock(blocks[j], windowStart, windowEnd).value in r
  {
    var first := ClipBlock(blocks[0], windowStart, windowEnd);
    if first.Some? {
      forall k | 1 <= k < |r|
        ensures r[k] == rest[k - 1]
      {
      }
      assert ClipBlock(blocks[0], windowStart, windowEnd) == Some(r[0]);
    }
  }

  /** The clips of `blocks[1..]` are clips of `blocks`, and they hold the clip of every block
      after the first that meets the window. */
  lemma {:induction false} ClipsOfTail(blocks: seq<Block>, windowStart: Instant, windowEnd: Instant, rest: seq<Clip>)
    requires |blocks| > 0
    requires forall k :: 0 <= k < |rest| ==>
               exists j :: 0 <= j < |blocks[1..]| && ClipBlock(blocks[1..][j], windowStart, windowEnd) == Some(rest[k])
    requires forall j :: 0 <= j < |blocks[1..]| && ClipBlock(blocks[1..][j], windowStart, windowEnd).Some? ==>
               ClipBlock(blocks[1..][j], windowStart, windowEnd).value in rest
    ensures forall k :: 0 <= k < |rest| ==>
              exists j :: 0 <= j < |blocks| && ClipBlock(blocks[j], windowStart, windowEnd) == Some(rest[k])
    ensures forall j :: 1 <= j < |blocks| && ClipBlock(blocks[j], windowStart, windowEnd).Some? ==>
              ClipBlock(blocks[j], windowStart, windowEnd).value in rest
  {
    forall k | 0 <= k < |rest|
      ensures exists j :: 0 <= j < |blocks| && ClipBlock(blocks[j], windowStart, windowEnd) == Some(rest[k])
    {
      var c := rest[k];
      assert exists j :: 0 <= j < |blocks[1..]| && ClipBlock(blocks[1..][j], windowStart, windowEnd) == Some(c);
      var j :| 0 <= j < |blocks[1..]| && ClipBlock(blocks[1..][j], windowStart, windowEnd) == Some(c);
      var w := j + 1;
      assert blocks[w] == blocks[1..][j];
      assert 0 <= w < |blocks| && ClipBlock(blocks[w], windowStart, windowEnd) == Some(rest[k]);
    }
    assert forall k :: 0 <= k < |rest| ==> exists j :: 0 <= j < |blocks| && ClipBlock(blocks[j], windowStart, windowEnd) == Some(rest[k]);
    forall j | 1 <= j < |blocks| && ClipBlock(blocks[j], windowStart, windowEnd).Some?
      ensures ClipBlock(blocks[j], windowStart, windowEnd).value in rest
    {
      assert blocks[j] == blocks[1..][j - 1];
    }
  }

  /** The indices from `i` on of the blocks that meet the window, ascending. */
  function SurvivingFrom(blocks: seq<Block>, windowStart: Instant, windowEnd: Instant, i: nat): (r: seq<nat>)
    requires i <= |blocks|
    ensures forall k :: 0 <= k < |r| ==> i <= r[k] < |blocks| && ClipBlock(blocks[r[k]], windowStart, windowEnd).Some?
    ensures forall j :: i <= j < |blocks| && ClipBlock(blocks[j], windowStart, windowEnd).Some? ==> j in r
    ensures forall k, m :: 0 <= k < m < |r| ==> r[k] < r[m]
    decreases |blocks| - i
  {
    if i == |blocks| then []
    else
      var rest := SurvivingFrom(blocks, windowStart, windowEnd, i + 1);
      if ClipBlock(blocks[i], windowStart, windowEnd).Some? then [i] + rest else rest
  }

  /** One clip per block that meets the window, in block order: clip k of the blocks from `i` on
      is the clip of the k-th surviving block from `i` on. */
  lemma {:induction false} ClipAllInBlockOrder(blocks: seq<Block>, windowStart: Instant, windowEnd: Instant, i: nat)
    requires i <= |blocks|
    ensures |ClipAll(blocks[i..], windowStart, windowEnd)| == |SurvivingFrom(blocks, windowStart, windowEnd, i)|
    ensures forall k :: 0 <= k < |ClipAll(blocks[i..], windowStart, windowEnd)| ==>
              Some(ClipAll(blocks[i..], windowStart, windowEnd)[k])
                == ClipBlock(blocks[SurvivingFrom(blocks, windowStart, windowEnd, i)[k]], windowStart, windowEnd)
    decreases |blocks| - i
  {
    if i < |blocks| {
      ClipAllInBlockOrder(blocks, windowStart, windowEnd, i + 1);
      var rest := ClipAll(blocks[i + 1..], windowStart, windowEnd);
      var idx := SurvivingFrom(blocks, windowStart, windowEnd, i + 1);
      var first := ClipBlock(blocks[i], windowStart, windowEnd);
      assert blocks[i..][0] == blocks[i];
      assert blocks[i..][1..] == blocks[i + 1..];
      var r := ClipAll(blocks[i..], windowStart, windowEnd);
      var s := SurvivingFrom(blocks, windowStart, windowEnd, i);
      assert r == if first.Some? then [first.value] + rest else rest;
      assert s == if first.Some? then [i] + idx else idx;
      ClipsAligned(blocks, windowStart, windowEnd, i, rest, idx, r, s);
    }
  }

  /** The step of `ClipAllInBlockOrder`: putting the clip of block `i`, if any, in front of
      clips aligned with their indices keeps them aligned. */
  lemma {:induction false} ClipsAligned(blocks: seq<Block>, windowStart: Instant, windowEnd: Instant, i: nat,
                                        rest: seq<Clip>, idx: seq<nat>, r: seq<Clip>, s: seq<nat>)
    requires i < |blocks| && |rest| == |idx|
    requires forall k :: 0 <= k < |rest| ==> idx[k] < |blocks| && Some(rest[k]) == ClipBlock(blocks[idx[k]], windowStart, windowEnd)
    requires ClipBlock(blocks[i], windowStart, windowEnd).Some? ==>
               r == [ClipBlock(blocks[i], windowStart, windowEnd).value] + rest && s == [i] + idx
    requires ClipBlock(blocks[i], windowStart, windowEnd).None? ==> r == rest && s == idx
    ensures |r| == |s|
    ensures forall k :: 0 <= k < |r| ==> Some(r[k]) == ClipBlock(blocks[s[k]], windowStart, windowEnd)
  {
    if ClipBlock(blocks[i], windowStart, windowEnd).Some? {
      forall k | 1 <= k < |r|
        ensures Some(r[k]) == ClipBlock(blocks[s[k]], windowStart, windowEnd)
      {
        assert r[k] == rest[k - 1] && s[k] == idx[k - 1];
      }
    }
  }

  /** Every clip name is the name of a block. */
  lemma {:induction false} ClipNameFromBlock(blocks: seq<Block>, windowStart: Instant, windowEnd: Instant, n: string)
    requires n in ClipNames(ClipAll(blocks, windowStart, windowEnd))
    ensures exists j :: 0 <= j < |blocks| && blocks[j].name == n
  {
    var clips := ClipAll(blocks, windowStart, windowEnd);
    ClipNamesByIndex(clips, n);
    var m :| 0 <= m < |clips| && clips[m].name == n;
    var j :| 0 <= j < |blocks| && ClipBlock(blocks[j], windowStart, windowEnd) == Some(clips[m]);
  }

  // ---------------------------------------------------------------------------------------
  // Tick collection: a `SortedSet<DateTime>` as a strictly increasing sequence

  predicate StrictlyIncreasing(t: seq<Instant>) {
    forall i, j :: 0 <= i < j < |t| ==> t[i] < t[j]
  }

  /** `SortedSet.Add`. */
  function InsertTick(t: seq<Instant>, x: Instant): (r: seq<Instant>)
    requires StrictlyIncreasing(t)
    ensures StrictlyIncreasing(r)
    ensures forall y :: y in r <==> y in t || y == x
  {
    if |t| == 0 then [x]
    else if x < t[0] then [x] + t
    else if x == t[0] then t
    else
      var rest := InsertTick(t[1..], x);
      forall y | y in rest
        ensures t[0] < y
      {
        if y != x {
          var k :| 0 <= k < |t[1..]| && t[1..][k] == y;
          assert t[k + 1] == y;
        }
      }
      ConsIncreasing(t[0], rest);
      [t[0]] + rest
  }

  lemma {:induction false} ConsIncreasing(x: Instant, t: seq<Instant>)
    requires StrictlyIncreasing(t) && forall y :: y in t ==> x < y
    ensures StrictlyIncreasing([x] + t)
  {
    var r := [x] + t;
    forall i, j | 0 <= i < j < |r|
      ensures r[i] < r[j]
    {
      assert r[j] == t[j - 1];
      if i > 0 {
        assert r[i] == t[i - 1];
      } else {
        assert t[j - 1] in t;
      }
    }
  }

  /** Some clip starts or ends at `y`. */
  predicate IsBound(clips: seq<Clip>, y: Instant) {
    exists k :: 0 <= k < |clips| && (clips[k].start == y || clips[k].end == y)
  }

  /** Adds every clip's start and end. */
  function AddBounds(t: seq<Instant>, clips: seq<Clip>): (r: seq<Instant>)
    requires StrictlyIncreasing(t)
    ensures StrictlyIncreasing(r)
    ensures forall y :: y in r <==> y in t || IsBound(clips, y)
    decreases |clips|
  {
    if |clips| == 0 then t
    else
      var r := AddBounds(InsertTick(InsertTick(t, clips[0].start), clips[0].end), clips[1..]);
      assert forall y :: IsBound(clips[1..], y) ==> IsBound(clips, y) by {
        forall y | IsBound(clips[1..], y)
          ensures IsBound(clips, y)
        {
          var k :| 0 <= k < |clips[1..]| && (clips[1..][k].start == y || clips[1..][k].end == y);
          assert clips[k + 1] == clips[1..][k];
        }
      }
      assert forall y :: IsBound(clips, y) ==> y == clips[0].start || y == clips[0].end || IsBound(clips[1..], y) by {
        forall y | IsBound(clips, y)
          ensures y == clips[0].start || y == clips[0].end || IsBound(clips[1..], y)
        {
          var k :| 0 <= k < |clips| && (clips[k].start == y || clips[k].end == y);
          if k > 0 {
            assert clips[1..][k - 1] == clips[k];
          }
        }
      }
      r
  }

  /** The sweep ticks: the window ends and every clip bound, sorted and without repeats. */
  function CollectTicks(clips: seq<Clip>, windowStart: Instant, windowEnd: Instant): (r: seq<Instant>)
    requires windowStart < windowEnd
    requires forall k :: 0 <= k < |clips| ==> windowStart <= clips[k].start < clips[k].end <= windowEnd
    ensures StrictlyIncreasing(r)
    ensures forall y :: y in r <==> y == windowStart || y == windowEnd || IsBound(clips, y)
    ensures |r| >= 2 && r[0] == windowStart && r[|r| - 1] == windowEnd
  {
    var r := AddBounds([windowStart, windowEnd], clips);
    BoundsWithin(r, clips, windowStart, windowEnd);
    EndsOfIncreasing(r, windowStart, windowEnd);
    r
  }

  lemma {:induction false} BoundsWithin(r: seq<Instant>, clips: seq<Clip>, windowStart: Instant, windowEnd: Instant)
    requires windowStart < windowEnd
    requires forall k :: 0 <= k < |clips| ==> windowStart <= clips[k].start < clips[k].end <= windowEnd
    requires forall y :: y in r <==> y == windowStart || y == windowEnd || IsBound(clips, y)
    ensures forall y :: y in r ==> windowStart <= y <= windowEnd
  {
    forall y | y in r
      ensures windowStart <= y <= windowEnd
    {
      if IsBound(clips, y) {
        var k :| 0 <= k < |clips| && (clips[k].start == y || clips[k].end == y);
        assert windowStart <= clips[k].start < clips[k].end <= windowEnd;
      }
    }
  }

  /** A strictly increasing sequence that holds `lo` and `hi` and nothing outside them starts
      with `lo` and ends with `hi`. */
  lemma {:induction false} EndsOfIncreasing(r: seq<Instant>, lo: Instant, hi: Instant)
    requires StrictlyIncreasing(r) && lo < hi && lo in r && hi in r
    requires forall y :: y in r ==> lo <= y <= hi
    ensures |r| >= 2 && r[0] == lo && r[|r| - 1] == hi
  {
    var i :| 0 <= i < |r| && r[i] == lo;
    var j :| 0 <= j < |r| && r[j] == hi;
    assert r[0] in r && r[|r| - 1] in r;
  }

  // ---------------------------------------------------------------------------------------
  // Per-name durations: a `Dictionary<string, double>` in insertion order

  type Durations = seq<(string, real)>

  function Total(d: Durations): real {
    if |d| == 0 then 0.0 else d[0].1 + Total(d[1..])
  }

  /** The value recorded for a name, 0 when it is absent. */
  function Lookup(d: Durations, name: string): real {
    if |d| == 0 then 0.0 else if d[0].0 == name then d[0].1 else Lookup(d[1..], name)
  }

  /** The names a duration list holds. */
  function Keys(d: Durations): set<string> {
    if |d| == 0 then {} else {d[0].0} + Keys(d[1..])
  }

  /** The names the clips carry. */
  function ClipNames(clips: seq<Clip>): set<string> {
    if |clips| == 0 then {} else {clips[0].name} + ClipNames(clips[1..])
  }

  /** No name occurs twice, as in a dictionary. */
  predicate DistinctKeys(d: Durations) {
    |d| == 0 || (d[0].0 !in Keys(d[1..]) && DistinctKeys(d[1..]))
  }

  /** The same, entry by entry. */
  lemma {:induction false} DistinctKeysByIndex(d: Durations)
    ensures DistinctKeys(d) <==> forall i, j :: 0 <= i < j < |d| ==> d[i].0 != d[j].0
  {
    if |d| > 0 {
      DistinctKeysByIndex(d[1..]);
      KeysByIndex(d[1..], d[0].0);
      if DistinctKeys(d) {
        forall i, j | 0 <= i < j < |d|
          ensures d[i].0 != d[j].0
        {
          assert d[j] == d[1..][j - 1];
          if i > 0 { assert d[i] == d[1..][i - 1]; }
        }
      }
      forall i, j | 0 <= i < j < |d[1..]|
        ensures d[1..][i] == d[i + 1] && d[1..][j] == d[j + 1]
      {
      }
      if d[0].0 in Keys(d[1..]) {
        var k :| 0 <= k < |d[1..]| && d[1..][k].0 == d[0].0;
        assert d[k + 1].0 == d[0].0;
      }
    }
  }

  predicate AllPositive(d: Durations) {
    forall k :: 0 <= k < |d| ==> d[k].1 > 0.0
  }

  lemma {:induction false} KeysCons(x: (string, real), d: Durations)
    ensures Keys([x] + d) == {x.0} + Keys(d)
  {
    assert ([x] + d)[1..] == d;
  }

  lemma {:induction false} ClipNamesCons(c: Clip, clips: seq<Clip>)
    ensures ClipNames([c] + clips) == {c.name} + ClipNames(clips)
  {
    assert ([c] + clips)[1..] == clips;
  }

  /** A name is a key exactly when some entry carries it. */
  lemma {:induction false} KeysByIndex(d: Durations, n: string)
    ensures n in Keys(d) <==> exists k :: 0 <= k < |d| && d[k].0 == n
  {
    if |d| > 0 {
      KeysByIndex(d[1..], n);
      if exists k :: 0 <= k < |d| && d[k].0 == n {
        var k :| 0 <= k < |d| && d[k].0 == n;
        if k > 0 { assert d[1..][k - 1].0 == n; }
      }
      if exists k :: 0 <= k < |d[1..]| && d[1..][k].0 == n {
        var k :| 0 <= k < |d[1..]| && d[1..][k].0 == n;
        assert d[k + 1].0 == n;
      }
    }
  }

  /** A name is a clip name exactly when some clip carries it. */
  lemma {:induction false} ClipNamesByIndex(clips: seq<Clip>, n: string)
    ensures n in ClipNames(clips) <==> exists k :: 0 <= k < |clips| && clips[k].name == n
  {
    if |clips| > 0 {
      ClipNamesByIndex(clips[1..], n);
      if exists k :: 0 <= k < |clips| && clips[k].name == n {
        var k :| 0 <= k < |clips| && clips[k].name == n;
        if k > 0 { assert clips[1..][k - 1].name == n; }
      }
      if exists k :: 0 <= k < |clips[1..]| && clips[1..][k].name == n {
        var k :| 0 <= k < |clips[1..]| && clips[1..][k].name == n;
        assert clips[k + 1].name == n;
      }
    }
  }

  /** `if (!dur.ContainsKey(name)) dur[name] = 0; dur[name] += v;`: a new name goes last. */
  function AddShare(d: Durations, name: string, v: real): (r: Durations)
    ensures Total(r) == Total(d) + v
    ensures forall n :: Lookup(r, n) == Lookup(d, n) + (if n == name then v else 0.0)
    ensures Keys(r) == Keys(d) + {name}
    ensures |r| == if name in Keys(d) then |d| else |d| + 1
  {
    if |d| == 0 then [(name, v)]
    else
      assert d == [d[0]] + d[1..];
      KeysCons(d[0], d[1..]);
      if d[0].0 == name then
        KeysCons((name, d[0].1 + v), d[1..]);
        [(name, d[0].1 + v)] + d[1..]
      else
        var rest := AddShare(d[1..], name, v);
        KeysCons(d[0], rest);
        [d[0]] + rest
  }

  /** Insertion order, as in a `Dictionary` that is only ever added to: a new name goes last,
      and a known name keeps every entry where it was. */
  lemma {:induction false} AddShareOrder(d: Durations, name: string, v: real)
    ensures name !in Keys(d) ==> AddShare(d, name, v) == d + [(name, v)]
    ensures name in Keys(d) ==> |AddShare(d, name, v)| == |d|
    ensures name in Keys(d) ==> forall k :: 0 <= k < |d| ==> AddShare(d, name, v)[k].0 == d[k].0
  {
    if |d| > 0 {
      var r := AddShare(d, name, v);
      KeysCons(d[0], d[1..]);
      assert d == [d[0]] + d[1..];
      if d[0].0 != name {
        AddShareOrder(d[1..], name, v);
        var rest := AddShare(d[1..], name, v);
        assert r == [d[0]] + rest;
        if name !in Keys(d) {
          assert r == d + [(name, v)];
        } else {
          forall k | 0 <= k < |d|
            ensures r[k].0 == d[k].0
          {
            if k > 0 { assert r[k] == rest[k - 1]; }
          }
        }
      }
    }
  }

  lemma {:induction false} AddShareKeepsDistinct(d: Durations, name: string, v: real)
    requires DistinctKeys(d)
    ensures DistinctKeys(AddShare(d, name, v))
  {
    if |d| > 0 {
      if d[0].0 == name {
        assert AddShare(d, name, v)[1..] == d[1..];
      } else {
        AddShareKeepsDistinct(d[1..], name, v);
        assert AddShare(d, name, v)[1..] == AddShare(d[1..], name, v);
      }
    }
  }

  lemma {:induction false} AddShareKeepsPositive(d: Durations, name: string, v: real)
    requires AllPositive(d) && v > 0.0
    ensures AllPositive(AddShare(d, name, v))
  {
    if |d| > 0 && d[0].0 != name {
      AddShareKeepsPositive(d[1..], name, v);
    }
  }

  /** How many of the clips carry `name`. */
  function CountName(clips: seq<Clip>, name: string): nat {
    if |clips| == 0 then 0 else (if clips[0].name == name then 1 else 0) + CountName(clips[1..], name)
  }

  /** `n` shares of `share`, added one at a time. */
  function Shares(n: nat, share: real): real {
    if n == 0 then 0.0 else share + Shares(n - 1, share)
  }

  /** Splitting a stretch into `n` equal shares and handing them all out gives back the stretch. */
  lemma {:induction false} SharesAddUp(n: nat, seg: real)
    requires n > 0
    ensures Shares(n, seg / n as real) == seg
  {
    SharesAreProduct(n, seg / n as real);
  }

  lemma {:induction false} SharesAreProduct(n: nat, share: real)
    ensures Shares(n, share) == n as real * share
  {
    if n > 0 {
      SharesAreProduct(n - 1, share);
    }
  }

  /** Gives `share` to the name of each active clip, in clip order. */
  function AddShares(d: Durations, active: seq<Clip>, share: real): (r: Durations)
    ensures Total(r) == Total(d) + Shares(|active|, share)
    ensures Keys(r) == Keys(d) + ClipNames(active)
    decreases |active|
  {
    if |active| == 0 then d
    else AddShares(AddShare(d, active[0].name, share), active[1..], share)
  }

  /** The equal split: every name gains `share` once per active clip carrying it. */
  lemma {:induction false} AddSharesSplitsEqually(d: Durations, active: seq<Clip>, share: real, n: string)
    ensures Lookup(AddShares(d, active, share), n) == Lookup(d, n) + Shares(CountName(active, n), share)
    decreases |active|
  {
    if |active| > 0 {
      var d1 := AddShare(d, active[0].name, share);
      AddSharesSplitsEqually(d1, active[1..], share, n);
      assert Lookup(d1, n) == Lookup(d, n) + (if n == active[0].name then share else 0.0);
      assert CountName(active, n) == (if active[0].name == n then 1 else 0) + CountName(active[1..], n);
    }
  }

  lemma {:induction false} AddSharesKeepsShape(d: Durations, active: seq<Clip>, share: real)
    ensures DistinctKeys(d) ==> DistinctKeys(AddShares(d, active, share))
    ensures AllPositive(d) && share > 0.0 ==> AllPositive(AddShares(d, active, share))
    decreases |active|
  {
    if |active| > 0 {
      var d1 := AddShare(d, active[0].name, share);
      if DistinctKeys(d) { AddShareKeepsDistinct(d, active[0].name, share); }
      if AllPositive(d) && share > 0.0 { AddShareKeepsPositive(d, active[0].name, share); }
      AddSharesKeepsShape(d1, active[1..], share);
    }
  }

  /** The clips active at instant `s`: `Start <= s && End > s`. */
  function Active(clips: seq<Clip>, s: Instant): (r: seq<Clip>)
    ensures |r| <= |clips|
    ensures forall k :: 0 <= k < |r| ==> r[k].start <= s < r[k].end
    ensures forall k :: 0 <= k < |clips| && clips[k].start <= s < clips[k].end ==> clips[k] in r
    ensures ClipNames(r) <= ClipNames(clips)
  {
    if |clips| == 0 then []
    else
      var rest := Active(clips[1..], s);
      if clips[0].start <= s && clips[0].end > s then
        ClipNamesCons(clips[0], rest);
        [clips[0]] + rest
      else rest
  }

  /** Exactly the active clips, each as often as in `clips`. */
  lemma {:induction false} ActiveCounts(clips: seq<Clip>, s: Instant)
    ensures forall x :: multiset(Active(clips, s))[x] == if x.start <= s < x.end then multiset(clips)[x] else 0
  {
    if |clips| > 0 {
      ActiveCounts(clips[1..], s);
      assert clips == [clips[0]] + clips[1..];
    }
  }

  // ---------------------------------------------------------------------------------------
  // The sweep

  datatype Tally = Tally(durations: Durations, idle: real)

  predicate NonDecreasing(t: seq<Instant>) {
    forall i, j :: 0 <= i < j < |t| ==> t[i] <= t[j]
  }

  /** One iteration of the loop over consecutive ticks `s` and `e`: the stretch is split equally
      among the clips active at `s`, or booked as idle when none is. */
  function Step(s: Instant, e: Instant, clips: seq<Clip>, acc: Tally): (r: Tally)
    ensures r.idle >= acc.idle
    ensures Keys(r.durations) == Keys(acc.durations) + (if TotalDays(e - s) > 0.0 then ClipNames(Active(clips, s)) else {})
  {
    var seg := TotalDays(e - s);
    if seg <= 0.0 then acc
    else
      var active := Active(clips, s);
      if |active| == 0 then Tally(acc.durations, acc.idle + seg)
      else Tally(AddShares(acc.durations, active, seg / |active| as real), acc.idle)
  }

  /** The loop over consecutive ticks. */
  function Sweep(t: seq<Instant>, clips: seq<Clip>, acc: Tally): (r: Tally)
    ensures r.idle >= acc.idle
    ensures Keys(acc.durations) <= Keys(r.durations) <= Keys(acc.durations) + ClipNames(clips)
    decreases |t|
  {
    if |t| < 2 then acc else Sweep(t[1..], clips, Step(t[0], t[1], clips, acc))
  }

  /** One stretch: nothing moves when it is empty; it is idle time when no clip is active at
      its start; otherwise every name gains one equal share of it per active clip carrying the
      name, and idle time stays. */
  lemma {:induction false} StepSplits(s: Instant, e: Instant, clips: seq<Clip>, acc: Tally, n: string)
    ensures TotalDays(e - s) <= 0.0 ==> Step(s, e, clips, acc) == acc
    ensures TotalDays(e - s) > 0.0 && |Active(clips, s)| == 0 ==>
              Step(s, e, clips, acc) == Tally(acc.durations, acc.idle + TotalDays(e - s))
    ensures TotalDays(e - s) > 0.0 && |Active(clips, s)| > 0 ==>
              Step(s, e, clips, acc).idle == acc.idle &&
              Lookup(Step(s, e, clips, acc).durations, n)
                == Lookup(acc.durations, n) + Shares(CountName(Active(clips, s), n), TotalDays(e - s) / |Active(clips, s)| as real)
  {
    var seg := TotalDays(e - s);
    var active := Active(clips, s);
    if seg > 0.0 && |active| > 0 {
      AddSharesSplitsEqually(acc.durations, active, seg / |active| as real, n);
    }
  }

  /** One stretch hands out exactly its own length. */
  lemma {:induction false} StepConserves(s: Instant, e: Instant, clips: seq<Clip>, acc: Tally)
    requires s <= e
    ensures Total(Step(s, e, clips, acc).durations) + Step(s, e, clips, acc).idle
            == Total(acc.durations) + acc.idle + TotalDays(e - s)
  {
    var seg := TotalDays(e - s);
    var active := Active(clips, s);
    if seg > 0.0 && |active| > 0 {
      SharesAddUp(|active|, seg);
    }
  }

  /** Conservation: the sweep hands out exactly the time between the first and last tick. */
  /** The time one stretch gives `name`, stated without the dictionary: a stretch of positive
      length is split equally among the clips active at its start, and `name` receives one share
      per active clip carrying it. */
  function StretchCredit(s: Instant, e: Instant, clips: seq<Clip>, name: string): real {
    var seg := TotalDays(e - s);
    var active := Active(clips, s);
    if seg > 0.0 && |active| > 0 then Shares(CountName(active, name), seg / |active| as real) else 0.0
  }

  /** The time the stretches between consecutive instants of `t` give `name`. */
  function Credit(t: seq<Instant>, clips: seq<Clip>, name: string): real
    decreases |t|
  {
    if |t| < 2 then 0.0 else StretchCredit(t[0], t[1], clips, name) + Credit(t[1..], clips, name)
  }

  /** Two clips sharing a whole day, one of them twice over: "a" is active twice and "b" once,
      so "a" gets two thirds of the day and "b" one third. */
  lemma {:induction false} StretchCreditExample()
    ensures StretchCredit(0, TicksPerDay, [Clip("a", 0, TicksPerDay), Clip("a", 0, TicksPerDay), Clip("b", 0, TicksPerDay)], "a") == 2.0 / 3.0
    ensures StretchCredit(0, TicksPerDay, [Clip("a", 0, TicksPerDay), Clip("a", 0, TicksPerDay), Clip("b", 0, TicksPerDay)], "b") == 1.0 / 3.0
  {
    var a := Clip("a", 0, TicksPerDay);
    var b := Clip("b", 0, TicksPerDay);
    var clips := [a, a, b];
    assert TotalDays(TicksPerDay - 0) == 1.0;
    ExampleAllActive(a, b);
    ExampleCounts(a, b);
    SharesAreProduct(2, 1.0 / 3.0);
    SharesAreProduct(1, 1.0 / 3.0);
  }

  lemma {:induction false} ExampleAllActive(a: Clip, b: Clip)
    requires a.start <= 0 < a.end && b.start <= 0 < b.end
    ensures Active([a, a, b], 0) == [a, a, b]
  {
    assert [a, a, b][1..] == [a, b] && [a, b][1..] == [b] && [b][1..] == [];
    assert Active([b], 0) == [b];
    assert Active([a, b], 0) == [a, b];
  }

  lemma {:induction false} ExampleCounts(a: Clip, b: Clip)
    requires a.name == "a" && b.name == "b"
    ensures CountName([a, a, b], "a") == 2 && CountName([a, a, b], "b") == 1
  {
    assert [a, a, b][1..] == [a, b] && [a, b][1..] == [b] && [b][1..] == [];
    assert "a" != "b" by { assert "a"[0] != "b"[0]; }
    assert CountName([], "a") == 0 && CountName([], "b") == 0;
    assert CountName([b], "a") == 0 && CountName([b], "b") == 1;
    assert CountName([a, b], "a") == 1 && CountName([a, b], "b") == 1;
  }

  /** The sweep records for every name exactly the time `Credit` gives it. */
  lemma {:induction false} SweepGivesCredit(t: seq<Instant>, clips: seq<Clip>, acc: Tally, n: string)
    ensures Lookup(Sweep(t, clips, acc).durations, n) == Lookup(acc.durations, n) + Credit(t, clips, n)
    decreases |t|
  {
    if |t| >= 2 {
      var next := Step(t[0], t[1], clips, acc);
      StepCredit(t[0], t[1], clips, acc, n);
      SweepGivesCredit(t[1..], clips, next, n);
      assert Sweep(t, clips, acc) == Sweep(t[1..], clips, next);
    }
  }

  /** One stretch raises a name's duration by the credit of that stretch alone. */
  lemma {:induction false} StepCredit(s: Instant, e: Instant, clips: seq<Clip>, acc: Tally, n: string)
    ensures Lookup(Step(s, e, clips, acc).durations, n) == Lookup(acc.durations, n) + StretchCredit(s, e, clips, n)
  {
    var seg := TotalDays(e - s);
    var active := Active(clips, s);
    if seg > 0.0 && |active| > 0 {
      AddSharesSplitsEqually(acc.durations, active, seg / |active| as real, n);
    }
  }

  lemma {:induction false} SweepConserves(t: seq<Instant>, clips: seq<Clip>, acc: Tally)
    requires |t| >= 1 && NonDecreasing(t)
    ensures Total(Sweep(t, clips, acc).durations) + Sweep(t, clips, acc).idle
            == Total(acc.durations) + acc.idle + TotalDays(t[|t| - 1] - t[0])
    decreases |t|
  {
    if |t| >= 2 {
      assert NonDecreasing(t[1..]);
      TotalDaysAdd(t[1] - t[0], t[|t| - 1] - t[1]);
      StepConserves(t[0], t[1], clips, acc);
      SweepConserves(t[1..], clips, Step(t[0], t[1], clips, acc));
    }
  }

  /** The shape of the durations: one positive duration per name, each a clip's name, and a
      non-negative idle time. */
  predicate TallyShape(acc: Tally, clips: seq<Clip>) {
    DistinctKeys(acc.durations) && AllPositive(acc.durations) && acc.idle >= 0.0 && Keys(acc.durations) <= ClipNames(clips)
  }

  lemma {:induction false} StepKeepsShape(s: Instant, e: Instant, clips: seq<Clip>, acc: Tally)
    requires TallyShape(acc, clips)
    ensures TallyShape(Step(s, e, clips, acc), clips)
  {
    var seg := TotalDays(e - s);
    var active := Active(clips, s);
    if seg > 0.0 && |active| > 0 {
      var share := seg / |active| as real;
      assert share > 0.0;
      AddSharesKeepsShape(acc.durations, active, share);
      assert Step(s, e, clips, acc) == Tally(AddShares(acc.durations, active, share), acc.idle);
    }
  }

  /** The sweep keeps one positive duration per name, each the name of a clip, and a
      non-negative idle time. */
  lemma {:induction false} SweepKeepsShape(t: seq<Instant>, clips: seq<Clip>, acc: Tally)
    requires DistinctKeys(acc.durations) && AllPositive(acc.durations) && acc.idle >= 0.0
    requires Keys(acc.durations) <= ClipNames(clips)
    ensures DistinctKeys(Sweep(t, clips, acc).durations)
    ensures AllPositive(Sweep(t, clips, acc).durations)
    ensures Sweep(t, clips, acc).idle >= 0.0
    ensures Keys(Sweep(t, clips, acc).durations) <= ClipNames(clips)
    decreases |t|
  {
    if |t| >= 2 {
      StepKeepsShape(t[0], t[1], clips, acc);
      SweepKeepsShape(t[1..], clips, Step(t[0], t[1], clips, acc));
    }
  }

  // ---------------------------------------------------------------------------------------
  // Slices

  /** `OrderByDescending(x => x.Value)`. */
  const ByValueDescending: ((string, real), (string, real)) -> bool :=
    (a: (string, real), b: (string, real)) => a.1 >= b.1

  lemma {:induction false} ByValueDescendingIsTotalPreorder()
    ensures TotalPreorder(ByValueDescending)
  {
  }

  /** One block slice per positive duration, in the given order. */
  function ToSlices(d: Durations): (r: seq<PieSlice>)
    ensures |r| <= |d|
    ensures forall k :: 0 <= k < |r| ==> r[k].kind.BlockSlice? && r[k].value > 0.0
  {
    if |d| == 0 then []
    else if d[0].1 <= 0.0 then ToSlices(d[1..])
    else [PieSlice(BlockSlice(d[0].0), d[0].1)] + ToSlices(d[1..])
  }

  /** The slices are exactly the positive entries, each with its own name and value. */
  lemma {:induction false} ToSlicesEntries(d: Durations)
    ensures forall k :: 0 <= k < |ToSlices(d)| ==> (ToSlices(d)[k].kind.name, ToSlices(d)[k].value) in d
    ensures forall j :: 0 <= j < |d| && d[j].1 > 0.0 ==> PieSlice(BlockSlice(d[j].0), d[j].1) in ToSlices(d)
  {
    if |d| > 0 {
      ToSlicesEntries(d[1..]);
      var rest := ToSlices(d[1..]);
      var r := ToSlices(d);
      assert d == [d[0]] + d[1..];
      forall k | 0 <= k < |r|
        ensures (r[k].kind.name, r[k].value) in d
      {
        if d[0].1 > 0.0 && k == 0 {
        } else if d[0].1 > 0.0 {
          assert r[k] == rest[k - 1];
        } else {
          assert r[k] == rest[k];
        }
      }
      forall j | 0 <= j < |d| && d[j].1 > 0.0
        ensures PieSlice(BlockSlice(d[j].0), d[j].1) in r
      {
        if j > 0 { assert d[j] == d[1..][j - 1]; }
      }
    }
  }

  /** Converting joined durations is joining the conversions, so the slices keep the order of
      the entries. */
  lemma {:induction false} ToSlicesAppend(a: Durations, b: Durations)
    ensures ToSlices(a + b) == ToSlices(a) + ToSlices(b)
    decreases |a|
  {
    if |a| == 0 {
      assert a + b == b;
    } else {
      ToSlicesAppend(a[1..], b);
      assert (a + b)[0] == a[0];
      assert (a + b)[1..] == a[1..] + b;
    }
  }

  function SliceTotal(s: seq<PieSlice>): real {
    if |s| == 0 then 0.0 else s[0].value + SliceTotal(s[1..])
  }

  lemma {:induction false} TotalConcat(a: Durations, b: Durations)
    ensures Total(a + b) == Total(a) + Total(b)
  {
    if |a| > 0 {
      assert (a + b)[0] == a[0];
      assert (a + b)[1..] == a[1..] + b;
      TotalConcat(a[1..], b);
    } else {
      assert a + b == b;
    }
  }

  lemma {:induction false} SliceTotalConcat(a: seq<PieSlice>, b: seq<PieSlice>)
    ensures SliceTotal(a + b) == SliceTotal(a) + SliceTotal(b)
  {
    if |a| > 0 {
      assert (a + b)[0] == a[0];
      assert (a + b)[1..] == a[1..] + b;
      SliceTotalConcat(a[1..], b);
    } else {
      assert a + b == b;
    }
  }

  /** Sorting durations does not change their total. */
  lemma {:induction false} SortKeepsTotal(d: Durations)
    requires TotalPreorder(ByValueDescending)
    ensures Total(SortBy(d, ByValueDescending)) == Total(d)
  {
    if |d| > 0 {
      var rest := SortBy(d[1..], ByValueDescending);
      SortKeepsTotal(d[1..]);
      var k := InsertByShape(d[0], rest, ByValueDescending);
      TotalInsert(rest, k, d[0]);
    }
  }

  /** Putting `x` anywhere into `s` adds its value to the total. */
  lemma {:induction false} TotalInsert(s: Durations, k: nat, x: (string, real))
    requires k <= |s|
    ensures Total(s[..k] + [x] + s[k..]) == x.1 + Total(s)
  {
    assert s == s[..k] + s[k..];
    TotalConcat(s[..k], s[k..]);
    TotalConcat(s[..k] + [x], s[k..]);
    TotalConcat(s[..k], [x]);
  }

  /** With positive durations every entry becomes a slice, so the slices carry the whole total. */
  lemma {:induction false} ToSlicesOfPositive(d: Durations)
    requires AllPositive(d)
    ensures |ToSlices(d)| == |d|
    ensures forall k :: 0 <= k < |d| ==> ToSlices(d)[k] == PieSlice(BlockSlice(d[k].0), d[k].1)
    ensures SliceTotal(ToSlices(d)) == Total(d)
  {
    if |d| > 0 {
      ToSlicesOfPositive(d[1..]);
    }
  }

  /** Sorting keeps the set of names. */
  lemma {:induction false} SortKeepsKeys(d: Durations)
    requires TotalPreorder(ByValueDescending)
    ensures Keys(SortBy(d, ByValueDescending)) == Keys(d)
  {
    var s := SortBy(d, ByValueDescending);
    forall n
      ensures n in Keys(s) <==> n in Keys(d)
    {
      KeysByIndex(s, n);
      KeysByIndex(d, n);
      if n in Keys(s) {
        var k :| 0 <= k < |s| && s[k].0 == n;
        SortByMembers(d, ByValueDescending, s[k]);
      }
      if n in Keys(d) {
        var k :| 0 <= k < |d| && d[k].0 == n;
        SortByMembers(d, ByValueDescending, d[k]);
      }
    }
  }

  /** Sorting keeps every duration positive. */
  lemma {:induction false} SortKeepsPositive(d: Durations)
    requires TotalPreorder(ByValueDescending) && AllPositive(d)
    ensures AllPositive(SortBy(d, ByValueDescending))
  {
    var s := SortBy(d, ByValueDescending);
    forall k | 0 <= k < |s|
      ensures s[k].1 > 0.0
    {
      SortByMembers(d, ByValueDescending, s[k]);
    }
  }

  /** Sorting keeps the names distinct. */
  lemma {:induction false} SortKeepsDistinct(d: Durations)
    requires TotalPreorder(ByValueDescending) && DistinctKeys(d)
    ensures DistinctKeys(SortBy(d, ByValueDescending))
  {
    DistinctKeysByIndex(d);
    SortByKeepsPairwise(d, ByValueDescending, (a: (string, real), b: (string, real)) => a.0 != b.0);
    DistinctKeysByIndex(SortBy(d, ByValueDescending));
  }

  /** The block slices: the durations ordered by decreasing value, the non-positive ones left out. */
  function BlockSlices(d: Durations): (r: seq<PieSlice>)
    ensures |r| <= |d|
    ensures forall k :: 0 <= k < |r| ==> r[k].kind.BlockSlice? && r[k].value > 0.0
  {
    ByValueDescendingIsTotalPreorder();
    ToSlices(SortBy(d, ByValueDescending))
  }

  /** For the durations a sweep produces, the block slices are one per name, in decreasing
      order, and carry the whole total. */
  lemma {:induction false} BlockSlicesFacts(d: Durations)
    requires AllPositive(d) && DistinctKeys(d)
    ensures SliceTotal(BlockSlices(d)) == Total(d)
    ensures forall k :: 0 <= k < |BlockSlices(d)| ==> BlockSlices(d)[k].kind.name in Keys(d)
    ensures forall i, j :: 0 <= i < j < |BlockSlices(d)| ==> BlockSlices(d)[i].value >= BlockSlices(d)[j].value
    ensures forall i, j :: 0 <= i < j < |BlockSlices(d)| ==> BlockSlices(d)[i].kind.name != BlockSlices(d)[j].kind.name
    ensures forall k :: 0 <= k < |BlockSlices(d)| ==> BlockSlices(d)[k].value == Lookup(d, BlockSlices(d)[k].kind.name)
  {
    ByValueDescendingIsTotalPreorder();
    var s := SortBy(d, ByValueDescending);
    BlockSlicesLookup(d);
    SortKeepsTotal(d);
    SortKeepsKeys(d);
    SortKeepsPositive(d);
    SortKeepsDistinct(d);
    DistinctKeysByIndex(s);
    ToSlicesOfPositive(s);
    forall k | 0 <= k < |s|
      ensures s[k].0 in Keys(d)
    {
      KeysByIndex(s, s[k].0);
    }
  }

  /** With distinct names, an entry's value is what looking up its name gives. */
  lemma {:induction false} LookupOfMember(d: Durations, n: string, v: real)
    requires DistinctKeys(d) && (n, v) in d
    ensures Lookup(d, n) == v
  {
    if d[0] != (n, v) {
      assert (n, v) in d[1..];
      if d[0].0 == n {
        KeysByIndex(d[1..], n);
      }
      LookupOfMember(d[1..], n, v);
    }
  }

  /** Every block slice shows the duration recorded for its name. */
  lemma {:induction false} BlockSlicesLookup(d: Durations)
    requires DistinctKeys(d)
    ensures forall k :: 0 <= k < |BlockSlices(d)| ==> BlockSlices(d)[k].value == Lookup(d, BlockSlices(d)[k].kind.name)
  {
    ByValueDescendingIsTotalPreorder();
    var s := SortBy(d, ByValueDescending);
    var r := BlockSlices(d);
    ToSlicesEntries(s);
    forall k | 0 <= k < |r|
      ensures r[k].value == Lookup(d, r[k].kind.name)
    {
      SortByMembers(d, ByValueDescending, (r[k].kind.name, r[k].value));
      LookupOfMember(d, r[k].kind.name, r[k].value);
    }
  }

  /** Block slices followed by the idle slice when there is idle time; one idle slice of the
      whole window if both are empty. */
  function Assemble(blockSlices: seq<PieSlice>, idle: real, totalDays: real): (r: seq<PieSlice>)
    ensures |r| >= 1
    ensures idle > 0.0 ==> r == blockSlices + [PieSlice(Idle, idle)]
    ensures idle <= 0.0 && |blockSlices| > 0 ==> r == blockSlices
    ensures idle <= 0.0 && |blockSlices| == 0 ==> r == [PieSlice(Idle, totalDays)]
  {
    var slices := blockSlices + (if idle > 0.0 then [PieSlice(Idle, idle)] else []);
    if |slices| == 0 then [PieSlice(Idle, totalDays)] else slices
  }

  /** The slices of one workplace whose window is not degenerate and whose blocks leave at
      least one clip. */
  function SweepSlices(clips: seq<Clip>, windowStart: Instant, windowEnd: Instant): (r: seq<PieSlice>)
    requires windowStart < windowEnd
    requires forall k :: 0 <= k < |clips| ==> windowStart <= clips[k].start < clips[k].end <= windowEnd
  {
    var ticks := CollectTicks(clips, windowStart, windowEnd);
    var tally := Sweep(ticks, clips, Tally([], 0.0));
    Assemble(BlockSlices(tally.durations), tally.idle, TotalDays(windowEnd - windowStart))
  }

  /** How every pie is laid out: positive slices, block slices in decreasing order and with
      distinct names, and only the last slice possibly idle. */
  predicate PieShape(r: seq<PieSlice>) {
    && (forall k :: 0 <= k < |r| ==> r[k].value > 0.0)
    && (forall k :: 0 <= k < |r| - 1 ==> r[k].kind.BlockSlice?)
    && (forall i, j :: 0 <= i < j < |r| && r[i].kind.BlockSlice? && r[j].kind.BlockSlice? ==> r[i].value >= r[j].value)
    && (forall i, j :: 0 <= i < j < |r| && r[i].kind.BlockSlice? && r[j].kind.BlockSlice? ==> r[i].kind.name != r[j].kind.name)
  }

  /** Every block slice is named by one of `names`. */
  predicate NamesWithin(r: seq<PieSlice>, names: set<string>) {
    forall k :: 0 <= k < |r| && r[k].kind.BlockSlice? ==> r[k].kind.name in names
  }

  /** Positive block slices in decreasing order with distinct names, plus a non-negative idle
      time, assemble into a pie of the whole window. */
  lemma {:induction false} AssembleFacts(b: seq<PieSlice>, idle: real, totalDays: real, names: set<string>)
    requires forall k :: 0 <= k < |b| ==> b[k].kind.BlockSlice? && b[k].value > 0.0
    requires forall i, j :: 0 <= i < j < |b| ==> b[i].value >= b[j].value && b[i].kind.name != b[j].kind.name
    requires NamesWithin(b, names)
    requires idle >= 0.0 && totalDays > 0.0 && SliceTotal(b) + idle == totalDays
    ensures PieShape(Assemble(b, idle, totalDays))
    ensures SliceTotal(Assemble(b, idle, totalDays)) == totalDays
    ensures NamesWithin(Assemble(b, idle, totalDays), names)
  {
    var r := Assemble(b, idle, totalDays);
    if idle <= 0.0 && |b| == 0 {
      assert false;
    } else if idle > 0.0 {
      SliceTotalConcat(b, [PieSlice(Idle, idle)]);
      assert forall k :: 0 <= k < |b| ==> r[k] == b[k];
    }
  }

  /** The pie of a clipped workplace: positive slices summing to the window length, block slices
      first in decreasing order, one per clip name, then at most one idle slice. */
  lemma {:induction false} SweepSlicesFacts(clips: seq<Clip>, windowStart: Instant, windowEnd: Instant)
    requires windowStart < windowEnd
    requires forall k :: 0 <= k < |clips| ==> windowStart <= clips[k].start < clips[k].end <= windowEnd
    ensures SliceTotal(SweepSlices(clips, windowStart, windowEnd)) == TotalDays(windowEnd - windowStart)
    ensures PieShape(SweepSlices(clips, windowStart, windowEnd))
    ensures NamesWithin(SweepSlices(clips, windowStart, windowEnd), ClipNames(clips))
    ensures CreditedSlices(SweepSlices(clips, windowStart, windowEnd), CollectTicks(clips, windowStart, windowEnd), clips)
  {
    var ticks := CollectTicks(clips, windowStart, windowEnd);
    var tally := Sweep(ticks, clips, Tally([], 0.0));
    SweepTallyFacts(clips, windowStart, windowEnd);
    BlockSlicesFacts(tally.durations);
    AssembleFacts(BlockSlices(tally.durations), tally.idle, TotalDays(windowEnd - windowStart), ClipNames(clips));
    SweepSlicesCredited(clips, windowStart, windowEnd);
  }

  /** Every block slice of `r` shows the time `Credit` gives its name over `t`. */
  predicate CreditedSlices(r: seq<PieSlice>, t: seq<Instant>, clips: seq<Clip>) {
    forall k :: 0 <= k < |r| && r[k].kind.BlockSlice? ==> r[k].value == Credit(t, clips, r[k].kind.name)
  }

  /** The block slices of a swept workplace show each name's credit over the ticks. */
  lemma {:induction false} SweepSlicesCredited(clips: seq<Clip>, windowStart: Instant, windowEnd: Instant)
    requires windowStart < windowEnd
    requires forall k :: 0 <= k < |clips| ==> windowStart <= clips[k].start < clips[k].end <= windowEnd
    ensures CreditedSlices(SweepSlices(clips, windowStart, windowEnd), CollectTicks(clips, windowStart, windowEnd), clips)
  {
    var ticks := CollectTicks(clips, windowStart, windowEnd);
    var tally := Sweep(ticks, clips, Tally([], 0.0));
    SweepTallyFacts(clips, windowStart, windowEnd);
    forall n
      ensures Lookup(tally.durations, n) == Credit(ticks, clips, n)
    {
      SweepGivesCredit(ticks, clips, Tally([], 0.0), n);
    }
    BlockSlicesCredited(tally.durations, ticks, clips);
    AssembleCredited(BlockSlices(tally.durations), tally.idle, TotalDays(windowEnd - windowStart), ticks, clips);
  }

  /** Durations that record every name's credit give block slices showing that credit. */
  lemma {:induction false} BlockSlicesCredited(d: Durations, t: seq<Instant>, clips: seq<Clip>)
    requires DistinctKeys(d)
    requires forall n :: Lookup(d, n) == Credit(t, clips, n)
    ensures CreditedSlices(BlockSlices(d), t, clips)
  {
    BlockSlicesLookup(d);
  }

  /** Adding the idle slice keeps the block slices as they are. */
  lemma {:induction false} AssembleCredited(b: seq<PieSlice>, idle: real, totalDays: real, t: seq<Instant>, clips: seq<Clip>)
    requires CreditedSlices(b, t, clips)
    ensures CreditedSlices(Assemble(b, idle, totalDays), t, clips)
  {
    var r := Assemble(b, idle, totalDays);
    if idle > 0.0 {
      assert forall k :: 0 <= k < |b| ==> r[k] == b[k];
    }
  }

  /** The sweep over the ticks of a window starts from nothing and hands out the whole window. */
  lemma {:induction false} SweepTallyFacts(clips: seq<Clip>, windowStart: Instant, windowEnd: Instant)
    requires windowStart < windowEnd
    requires forall k :: 0 <= k < |clips| ==> windowStart <= clips[k].start < clips[k].end <= windowEnd
    ensures var tally := Sweep(CollectTicks(clips, windowStart, windowEnd), clips, Tally([], 0.0));
      TallyShape(tally, clips) && Total(tally.durations) + tally.idle == TotalDays(windowEnd - windowStart)
  {
    var ticks := CollectTicks(clips, windowStart, windowEnd);
    assert Keys([]) == {};
    assert NonDecreasing(ticks);
    SweepConserves(ticks, clips, Tally([], 0.0));
    SweepKeepsShape(ticks, clips, Tally([], 0.0));
  }

  /** One workplace's slices, as the body of the per-workplace loop produces them. */
  function WorkplaceSlices(blocks: seq<Block>, windowStart: Instant, windowEnd: Instant): (r: seq<PieSlice>)
    ensures |r| >= 1
    ensures windowEnd <= windowStart ==> r == [PieSlice(Idle, 1.0)]
    ensures windowEnd > windowStart && |blocks| == 0 ==> r == [PieSlice(Idle, TotalDays(windowEnd - windowStart))]
  {
    if windowEnd <= windowStart then [PieSlice(Idle, 1.0)]
    else
      var totalDays := TotalDays(windowEnd - windowStart);
      if |blocks| == 0 then [PieSlice(Idle, totalDays)]
      else
        var clips := ClipAll(blocks, windowStart, windowEnd);
        if |clips| == 0 then [PieSlice(Idle, totalDays)]
        else SweepSlices(clips, windowStart, windowEnd)
  }

  /** Slices named after clips are named after blocks. */
  lemma {:induction false} SliceNamesFromBlocks(blocks: seq<Block>, windowStart: Instant, windowEnd: Instant, r: seq<PieSlice>)
    requires NamesWithin(r, ClipNames(ClipAll(blocks, windowStart, windowEnd)))
    ensures forall k :: 0 <= k < |r| && r[k].kind.BlockSlice? ==> exists j :: 0 <= j < |blocks| && blocks[j].name == r[k].kind.name
  {
    forall k | 0 <= k < |r| && r[k].kind.BlockSlice?
      ensures exists j :: 0 <= j < |blocks| && blocks[j].name == r[k].kind.name
    {
      ClipNameFromBlock(blocks, windowStart, windowEnd, r[k].kind.name);
    }
  }

  /** Every workplace pie: positive slices summing to the window length (1.0 for an empty
      window), block slices first in decreasing order, one per block name, then at most one
      idle slice. */
  lemma {:induction false} WorkplaceSlicesFacts(blocks: seq<Block>, windowStart: Instant, windowEnd: Instant)
    ensures SliceTotal(WorkplaceSlices(blocks, windowStart, windowEnd))
            == (if windowEnd <= windowStart then 1.0 else TotalDays(windowEnd - windowStart))
    ensures PieShape(WorkplaceSlices(blocks, windowStart, windowEnd))
    ensures forall k :: 0 <= k < |WorkplaceSlices(blocks, windowStart, windowEnd)| && WorkplaceSlices(blocks, windowStart, windowEnd)[k].kind.BlockSlice? ==>
              exists j :: 0 <= j < |blocks| && blocks[j].name == WorkplaceSlices(blocks, windowStart, windowEnd)[k].kind.name
    ensures TimedSlices(WorkplaceSlices(blocks, windowStart, windowEnd), blocks, windowStart, windowEnd)
  {
    if windowEnd > windowStart && |blocks| > 0 {
      var clips := ClipAll(blocks, windowStart, windowEnd);
      if |clips| > 0 {
        SweepSlicesFacts(clips, windowStart, windowEnd);
        SliceNamesFromBlocks(blocks, windowStart, windowEnd, SweepSlices(clips, windowStart, windowEnd));
      }
    }
    WorkplaceSlicesTimed(blocks, windowStart, windowEnd);
  }

  /** The time a workplace pie gives `name` over the window: its credit over the ticks of the
      blocks clipped to the window; nothing for an empty window. */
  function BlockTime(blocks: seq<Block>, windowStart: Instant, windowEnd: Instant, name: string): real {
    if windowEnd <= windowStart then 0.0
    else
      var clips := ClipAll(blocks, windowStart, windowEnd);
      Credit(CollectTicks(clips, windowStart, windowEnd), clips, name)
  }

  /** Every block slice of `r` shows the time `BlockTime` gives its name. */
  predicate TimedSlices(r: seq<PieSlice>, blocks: seq<Block>, windowStart: Instant, windowEnd: Instant) {
    forall k :: 0 <= k < |r| && r[k].kind.BlockSlice? ==> r[k].value == BlockTime(blocks, windowStart, windowEnd, r[k].kind.name)
  }

  /** A workplace pie shows every block its time; the pies without a sweep have no block slice. */
  lemma {:induction false} WorkplaceSlicesTimed(blocks: seq<Block>, windowStart: Instant, windowEnd: Instant)
    ensures TimedSlices(WorkplaceSlices(blocks, windowStart, windowEnd), blocks, windowStart, windowEnd)
  {
    var r := WorkplaceSlices(blocks, windowStart, windowEnd);
    if windowEnd > windowStart && |blocks| > 0 {
      var clips := ClipAll(blocks, windowStart, windowEnd);
      if |clips| > 0 {
        SweepSlicesCredited(clips, windowStart, windowEnd);
        assert r == SweepSlices(clips, windowStart, windowEnd);
      }
    }
  }

  // ---------------------------------------------------------------------------------------
  // Completeness: time a block covers shows up as a slice of its name

  /** A looked-up value other than 0 belongs to a key. */
  lemma {:induction false} LookupInKeys(d: Durations, n: string)
    requires Lookup(d, n) != 0.0
    ensures n in Keys(d)
  {
    if |d| > 0 && d[0].0 != n {
      LookupInKeys(d[1..], n);
    }
  }

  /** A clip among `clips` counts its name at least once. */
  lemma {:induction false} CountNameOfMember(clips: seq<Clip>, c: Clip)
    requires c in clips
    ensures CountName(clips, c.name) >= 1
  {
    if clips[0] != c {
      assert clips == [clips[0]] + clips[1..];
      CountNameOfMember(clips[1..], c);
    }
  }

  /** Handing out a positive share never lowers a duration, and raises the duration of every
      name an active clip carries. */
  lemma {:induction false} AddSharesGrows(d: Durations, active: seq<Clip>, share: real, n: string)
    requires share > 0.0
    ensures Lookup(AddShares(d, active, share), n) >= Lookup(d, n)
    ensures CountName(active, n) >= 1 ==> Lookup(AddShares(d, active, share), n) > Lookup(d, n)
  {
    AddSharesSplitsEqually(d, active, share, n);
    SharesAreProduct(CountName(active, n), share);
  }

  /** One stretch never lowers a duration. */
  lemma {:induction false} StepGrows(s: Instant, e: Instant, clips: seq<Clip>, acc: Tally, n: string)
    ensures Lookup(Step(s, e, clips, acc).durations, n) >= Lookup(acc.durations, n)
  {
    var seg := TotalDays(e - s);
    var active := Active(clips, s);
    if seg > 0.0 && |active| > 0 {
      AddSharesGrows(acc.durations, active, seg / |active| as real, n);
    }
  }

  /** A stretch of positive length during which clip `c` is active raises the duration of the
      clip's name. */
  lemma {:induction false} StepCredits(s: Instant, e: Instant, clips: seq<Clip>, acc: Tally, c: Clip)
    requires s < e && c in clips && c.start <= s < c.end
    ensures Lookup(Step(s, e, clips, acc).durations, c.name) > Lookup(acc.durations, c.name)
  {
    var active := Active(clips, s);
    var k :| 0 <= k < |clips| && clips[k] == c;
    assert c in active;
    var share := TotalDays(e - s) / |active| as real;
    assert share > 0.0;
    CountNameOfMember(active, c);
    AddSharesGrows(acc.durations, active, share, c.name);
    assert Step(s, e, clips, acc).durations == AddShares(acc.durations, active, share);
  }

  /** The sweep never lowers a duration. */
  lemma {:induction false} SweepGrows(t: seq<Instant>, clips: seq<Clip>, acc: Tally, n: string)
    ensures Lookup(Sweep(t, clips, acc).durations, n) >= Lookup(acc.durations, n)
    decreases |t|
  {
    if |t| >= 2 {
      StepGrows(t[0], t[1], clips, acc, n);
      SweepGrows(t[1..], clips, Step(t[0], t[1], clips, acc), n);
    }
  }

  /** A stretch from tick `i` to a later tick `i + 1` during which clip `c` is active raises the
      duration of the clip's name. */
  lemma {:induction false} SweepCredits(t: seq<Instant>, clips: seq<Clip>, acc: Tally, i: nat, c: Clip)
    requires i + 1 < |t| && t[i] < t[i + 1]
    requires c in clips && c.start <= t[i] < c.end
    ensures Lookup(Sweep(t, clips, acc).durations, c.name) > Lookup(acc.durations, c.name)
    decreases |t|
  {
    var next := Step(t[0], t[1], clips, acc);
    if i == 0 {
      StepCredits(t[0], t[1], clips, acc, c);
      SweepGrows(t[1..], clips, next, c.name);
    } else {
      assert t[1..][i - 1] == t[i] && t[1..][i] == t[i + 1];
      StepGrows(t[0], t[1], clips, acc, c.name);
      SweepCredits(t[1..], clips, next, i - 1, c);
    }
  }

  /** A clip's start is a tick that a later tick follows. */
  lemma {:induction false} ClipStartIsTick(clips: seq<Clip>, windowStart: Instant, windowEnd: Instant, c: Clip)
    requires windowStart < windowEnd
    requires forall k :: 0 <= k < |clips| ==> windowStart <= clips[k].start < clips[k].end <= windowEnd
    requires c in clips
    ensures var t := CollectTicks(clips, windowStart, windowEnd);
      exists i :: 0 <= i && i + 1 < |t| && t[i] == c.start && t[i] < t[i + 1]
  {
    var t := CollectTicks(clips, windowStart, windowEnd);
    var k :| 0 <= k < |clips| && clips[k] == c;
    assert IsBound(clips, c.start);
    var i :| 0 <= i < |t| && t[i] == c.start;
    assert c.start < c.end <= windowEnd == t[|t| - 1];
    assert i != |t| - 1;
    assert t[i] < t[i + 1];
  }

  /** Every name with a duration has a block slice. */
  lemma {:induction false} KeyHasBlockSlice(d: Durations, n: string)
    requires AllPositive(d) && n in Keys(d)
    ensures exists k :: 0 <= k < |BlockSlices(d)| && BlockSlices(d)[k].kind == BlockSlice(n)
  {
    ByValueDescendingIsTotalPreorder();
    var s := SortBy(d, ByValueDescending);
    SortKeepsKeys(d);
    SortKeepsPositive(d);
    ToSlicesOfPositive(s);
    KeysByIndex(s, n);
    var k :| 0 <= k < |s| && s[k].0 == n;
    assert BlockSlices(d)[k] == PieSlice(BlockSlice(n), s[k].1);
  }

  /** Every clip's name has a block slice in the sweep's pie. */
  lemma {:induction false} SweepSlicesCover(clips: seq<Clip>, windowStart: Instant, windowEnd: Instant, c: Clip)
    requires windowStart < windowEnd
    requires forall k :: 0 <= k < |clips| ==> windowStart <= clips[k].start < clips[k].end <= windowEnd
    requires c in clips
    ensures exists k :: 0 <= k < |SweepSlices(clips, windowStart, windowEnd)| &&
                        SweepSlices(clips, windowStart, windowEnd)[k].kind == BlockSlice(c.name)
  {
    var t := CollectTicks(clips, windowStart, windowEnd);
    ClipStartIsTick(clips, windowStart, windowEnd, c);
    var i :| 0 <= i && i + 1 < |t| && t[i] == c.start && t[i] < t[i + 1];
    var acc := Tally([], 0.0);
    SweepCredits(t, clips, acc, i, c);
    var tally := Sweep(t, clips, acc);
    LookupInKeys(tally.durations, c.name);
    assert Keys([]) == {};
    SweepKeepsShape(t, clips, acc);
    KeyHasBlockSlice(tally.durations, c.name);
    var b := BlockSlices(tally.durations);
    var k :| 0 <= k < |b| && b[k].kind == BlockSlice(c.name);
    assert SweepSlices(clips, windowStart, windowEnd)[k] == b[k];
  }

  /** A block that covers some instant of a non-empty window has a block slice of its name. */
  lemma {:induction false} WorkplaceSlicesCover(blocks: seq<Block>, windowStart: Instant, windowEnd: Instant, m: int, t: Instant)
    requires 0 <= m < |blocks| && Covers(blocks[m], windowStart, windowEnd, t)
    ensures exists k :: 0 <= k < |WorkplaceSlices(blocks, windowStart, windowEnd)| &&
                        WorkplaceSlices(blocks, windowStart, windowEnd)[k].kind == BlockSlice(blocks[m].name)
  {
    var clips := ClipAll(blocks, windowStart, windowEnd);
    var c := ClipBlock(blocks[m], windowStart, windowEnd).value;
    assert c in clips;
    SweepSlicesCover(clips, windowStart, windowEnd, c);
    assert WorkplaceSlices(blocks, windowStart, windowEnd) == SweepSlices(clips, windowStart, windowEnd);
  }

  // ---------------------------------------------------------------------------------------
  // The six pies

  const WorkplaceCount: int := 6

  /** `all.Select(b => b.GetEffectiveEnd() ?? fallback).Max()`. */
  function MaxEffectiveEnd(all: seq<Block>, fallback: Instant): (r: Instant)
    requires |all| > 0
    ensures forall k :: 0 <= k < |all| ==> EffectiveEnd(all[k]).GetOr(fallback) <= r
    ensures exists k :: 0 <= k < |all| && r == EffectiveEnd(all[k]).GetOr(fallback)
  {
    var e := EffectiveEnd(all[0]).GetOr(fallback);
    if |all| == 1 then e
    else
      var m := MaxEffectiveEnd(all[1..], fallback);
      assert forall k :: 1 <= k < |all| ==> all[k] == all[1..][k - 1];
      if e >= m then e else m
  }

  /** `now` raised to the global start, then lowered to the global end. */
  function ClampNow(now: Instant, globalStart: Instant, globalEnd: Instant): (r: Instant)
    ensures r <= globalEnd
    ensures globalStart <= globalEnd ==> globalStart <= r
    ensures globalStart <= now <= globalEnd ==> r == now
    ensures now < globalStart && globalStart <= globalEnd ==> r == globalStart
    ensures now > globalEnd ==> r == globalEnd
  {
    var n := if now < globalStart then globalStart else now;
    if n > globalEnd then globalEnd else n
  }

  /** Where a workplace's window starts. */
  datatype BaselineMode = GlobalStart | WorkplaceFirstStart

  /** The baseline the view model is built with. */
  const Baseline: BaselineMode := GlobalStart

  /** The window start for a workplace whose blocks, ordered by start, are `ws`. */
  function WindowStart(baseline: BaselineMode, ws: seq<Block>, globalStart: Instant): (r: Instant)
    requires forall i, j :: 0 <= i < j < |ws| ==> ws[i].start <= ws[j].start
    ensures baseline == GlobalStart || |ws| == 0 ==> r == globalStart
    ensures baseline == WorkplaceFirstStart && |ws| > 0 ==> forall k :: 0 <= k < |ws| ==> r <= ws[k].start
    ensures baseline == WorkplaceFirstStart && |ws| > 0 ==> r in (set k | 0 <= k < |ws| :: ws[k].start)
  {
    if baseline == GlobalStart then globalStart
    else if |ws| > 0 then ws[0].start
    else globalStart
  }

  /** One workplace's pie. */
  function Pie(all: seq<Block>, wp: int, globalStart: Instant, windowEnd: Instant, showLabels: bool): PieModel {
    var ws := WorkplaceBlocks(all, wp);
    PieModel(wp, showLabels, WorkplaceSlices(ws, WindowStart(Baseline, ws, globalStart), windowEnd))
  }

  /** The window end `UpdatePie` uses: the current date clamped between the earliest start and
      the latest effective end (the current date standing in for a missing end). */
  function WindowEnd(all: seq<Block>, now: Instant): Instant
    requires |all| > 0
  {
    ClampNow(now, MinStart(all), MaxEffectiveEnd(all, now))
  }

  /** The pies of workplaces 1 to 6 over the window from `globalStart` to `windowEnd`. */
  function PiesOver(all: seq<Block>, globalStart: Instant, windowEnd: Instant, showLabels: bool): (r: seq<PieModel>)
    ensures |r| == WorkplaceCount
    ensures forall k :: 0 <= k < |r| ==> r[k] == Pie(all, k + 1, globalStart, windowEnd, showLabels)
  {
    seq(WorkplaceCount, k => Pie(all, k + 1, globalStart, windowEnd, showLabels))
  }

  /** `UpdatePie`: one pie per workplace 1 to 6, with percentages shown when `showLabels`
      (`pieOptions != null && pieOptions.ShowLabels`); idle-only pies when there are no blocks. */
  function UpdatePie(all: seq<Block>, now: Instant, showLabels: bool): (r: seq<PieModel>)
    ensures |r| == WorkplaceCount
    ensures forall k :: 0 <= k < |r| ==> r[k].workplace == k + 1
  {
    if |all| == 0 then seq(WorkplaceCount, k => PieModel(k + 1, false, [PieSlice(Idle, 1.0)]))
    else PiesOver(all, MinStart(all), WindowEnd(all, now), showLabels)
  }

  /** What one workplace pie shows: positive slices adding up to the window length (a single
      1.0 slice when the window is empty), block slices first in decreasing order with one slice
      per block name of that workplace, idle time last. */
  lemma {:induction false} PieFacts(all: seq<Block>, wp: int, globalStart: Instant, windowEnd: Instant, showLabels: bool)
    ensures SliceTotal(Pie(all, wp, globalStart, windowEnd, showLabels).slices)
            == (if windowEnd <= globalStart then 1.0 else TotalDays(windowEnd - globalStart))
    ensures PieShape(Pie(all, wp, globalStart, windowEnd, showLabels).slices)
    ensures forall i :: 0 <= i < |Pie(all, wp, globalStart, windowEnd, showLabels).slices| &&
                        Pie(all, wp, globalStart, windowEnd, showLabels).slices[i].kind.BlockSlice? ==>
              exists j :: 0 <= j < |all| && all[j].workplace == wp &&
                          all[j].name == Pie(all, wp, globalStart, windowEnd, showLabels).slices[i].kind.name
    ensures TimedSlices(Pie(all, wp, globalStart, windowEnd, showLabels).slices, WorkplaceBlocks(all, wp), globalStart, windowEnd)
  {
    var ws := WorkplaceBlocks(all, wp);
    var s := WorkplaceSlices(ws, globalStart, windowEnd);
    assert Pie(all, wp, globalStart, windowEnd, showLabels).slices == s;
    WorkplaceSlicesFacts(ws, globalStart, windowEnd);
    NamesFromWorkplace(all, wp, s);
  }

  /** Completeness of a workplace pie: a block of the workplace that covers some instant of the
      window from the global start to the window end has a positive slice of its name. */
  lemma {:induction false} PieCoversBlocks(all: seq<Block>, wp: int, globalStart: Instant, windowEnd: Instant, showLabels: bool, j: int, t: Instant)
    requires 0 <= j < |all| && all[j].workplace == wp && Covers(all[j], globalStart, windowEnd, t)
    ensures exists i :: 0 <= i < |Pie(all, wp, globalStart, windowEnd, showLabels).slices| &&
                        Pie(all, wp, globalStart, windowEnd, showLabels).slices[i].kind == BlockSlice(all[j].name) &&
                        Pie(all, wp, globalStart, windowEnd, showLabels).slices[i].value > 0.0
  {
    var ws := WorkplaceBlocks(all, wp);
    assert all[j] in ws;
    var m :| 0 <= m < |ws| && ws[m] == all[j];
    WorkplaceSlicesCover(ws, globalStart, windowEnd, m, t);
    WorkplaceSlicesFacts(ws, globalStart, windowEnd);
    assert Pie(all, wp, globalStart, windowEnd, showLabels).slices == WorkplaceSlices(ws, globalStart, windowEnd);
  }

  /** Slices named after blocks of workplace `wp` are named after blocks of the schedule in `wp`. */
  lemma {:induction false} NamesFromWorkplace(all: seq<Block>, wp: int, s: seq<PieSlice>)
    requires forall i :: 0 <= i < |s| && s[i].kind.BlockSlice? ==>
               exists m :: 0 <= m < |WorkplaceBlocks(all, wp)| && WorkplaceBlocks(all, wp)[m].name == s[i].kind.name
    ensures forall i :: 0 <= i < |s| && s[i].kind.BlockSlice? ==>
              exists j :: 0 <= j < |all| && all[j].workplace == wp && all[j].name == s[i].kind.name
  {
    var ws := WorkplaceBlocks(all, wp);
    forall i | 0 <= i < |s| && s[i].kind.BlockSlice?
      ensures exists j :: 0 <= j < |all| && all[j].workplace == wp && all[j].name == s[i].kind.name
    {
      var m :| 0 <= m < |ws| && ws[m].name == s[i].kind.name;
      assert ws[m] in ws;
      var j :| 0 <= j < |all| && all[j] == ws[m];
    }
  }

  /** Without blocks, `UpdatePie` draws every workplace as a single idle slice of 1.0 without
      labels. */
  lemma {:induction false} UpdatePieIdle(now: Instant, showLabels: bool, k: int)
    requires 0 <= k < WorkplaceCount
    ensures UpdatePie([], now, showLabels)[k] == PieModel(k + 1, false, [PieSlice(Idle, 1.0)])
  {
  }

  /** With blocks, `UpdatePie` draws the pies over the window from the earliest start to the
      current date clamped between that start and the latest effective end. */
  lemma {:induction false} UpdatePieWindow(all: seq<Block>, now: Instant, showLabels: bool)
    requires |all| > 0
    ensures UpdatePie(all, now, showLabels) == PiesOver(all, MinStart(all), WindowEnd(all, now), showLabels)
    ensures MinStart(all) <= MaxEffectiveEnd(all, now) ==> MinStart(all) <= WindowEnd(all, now) <= MaxEffectiveEnd(all, now)
  {
  }

  /** The pie of workplace `k + 1` over a window: positive slices adding up to the window length
      (1.0 for an empty window), block slices first in decreasing order and one per block name
      of that workplace, idle time last, and labels as asked. */
  lemma {:induction false} PiesOverFacts(all: seq<Block>, globalStart: Instant, windowEnd: Instant, showLabels: bool, k: int)
    requires 0 <= k < WorkplaceCount
    ensures PiesOver(all, globalStart, windowEnd, showLabels)[k].workplace == k + 1
    ensures PiesOver(all, globalStart, windowEnd, showLabels)[k].showLabels == showLabels
    ensures PieShape(PiesOver(all, globalStart, windowEnd, showLabels)[k].slices)
    ensures SliceTotal(PiesOver(all, globalStart, windowEnd, showLabels)[k].slices)
            == (if windowEnd <= globalStart then 1.0 else TotalDays(windowEnd - globalStart))
    ensures forall i :: 0 <= i < |PiesOver(all, globalStart, windowEnd, showLabels)[k].slices| &&
                        PiesOver(all, globalStart, windowEnd, showLabels)[k].slices[i].kind.BlockSlice? ==>
              exists j :: 0 <= j < |all| && all[j].workplace == k + 1 &&
                          all[j].name == PiesOver(all, globalStart, windowEnd, showLabels)[k].slices[i].kind.name
    ensures TimedSlices(PiesOver(all, globalStart, windowEnd, showLabels)[k].slices, WorkplaceBlocks(all, k + 1), globalStart, windowEnd)
  {
    PieFacts(all, k + 1, globalStart, windowEnd, showLabels);
  }
}
