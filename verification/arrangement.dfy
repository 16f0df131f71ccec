/** The scheduling half of the 3D layout (`BlockArrangementService.Arrange`): which blocks are
    shown on a date, how each workplace's blocks are grouped into projects, and which of three
    tracks each project takes. Box sizes and coordinates are not part of this model. */
module BlockArrangement {
  import opened Time
  import opened Sorting
  import opened Blocks
  import opened Schedule

  /** A project's place when no track is free of overlaps. */
  const FallbackTrack: nat := 2

  /** `WorkplaceCenters` has an entry for workplaces 1 to 6 only. */
  predicate HasCentre(wp: int) {
    1 <= wp <= 6
  }

  // ---------------------------------------------------------------------------------------
  // Live blocks and the workplaces they occupy

  /** A block is shown on `date` when the date lies between its start and its raw end, both
      included. */
  predicate IsLive(b: Block, date: Instant) {
    b.start <= date <= b.end
  }

  /** `blocks.Where(b => b.Start <= date && date <= b.End)`, in input order. */
  function Live(blocks: seq<Block>, date: Instant): (r: seq<Block>)
    ensures forall x :: multiset(r)[x] == if IsLive(x, date) then multiset(blocks)[x] else 0
    ensures forall k :: 0 <= k < |r| ==> IsLive(r[k], date)
  {
    if |blocks| == 0 then []
    else
      assert blocks == [blocks[0]] + blocks[1..];
      if IsLive(blocks[0], date) then [blocks[0]] + Live(blocks[1..], date)
      else Live(blocks[1..], date)
  }

  /** The workplaces from `wp` to 6 that occur among the keys, ascending. */
  function CentredFrom(keys: seq<int>, wp: int): (r: seq<int>)
    requires 1 <= wp <= 7
    ensures forall i, j :: 0 <= i < j < |r| ==> r[i] < r[j]
    ensures forall x :: x in r <==> wp <= x <= 6 && x in keys
    decreases 7 - wp
  {
    if wp == 7 then []
    else
      var rest := CentredFrom(keys, wp + 1);
      assert forall k :: 0 <= k < |rest| ==> rest[k] in rest;
      if wp in keys then [wp] + rest else rest
  }

  /** `live.GroupBy(b => b.DeployWorkplace).OrderBy(g => g.Key)` without the groups that have no
      centre: each workplace 1 to 6 that has a live block, ascending. */
  function Workplaces(live: seq<Block>): (r: seq<int>)
    ensures forall i, j :: 0 <= i < j < |r| ==> r[i] < r[j]
    ensures forall wp :: wp in r <==> HasCentre(wp) && exists k :: 0 <= k < |live| && live[k].workplace == wp
  {
    CentredFrom(WorkplaceKeys(live), 1)
  }

  // ---------------------------------------------------------------------------------------
  // Projects

  /** The keys of `GroupBy(b => b.Name)`: each name once, in order of first appearance. */
  function NameKeys(bs: seq<Block>): (r: seq<string>)
    ensures forall i, j :: 0 <= i < j < |r| ==> r[i] != r[j]
    ensures forall n :: n in r <==> exists k :: 0 <= k < |bs| && bs[k].name == n
    decreases |bs|
  {
    if |bs| == 0 then []
    else
      var front := bs[..|bs| - 1];
      var keys := NameKeys(front);
      var last := bs[|bs| - 1].name;
      assert forall k :: 0 <= k < |front| ==> front[k] == bs[k];
      if last in keys then keys else keys + [last]
  }

  /** `b => b.Name`. */
  const NameOf: Block -> string := (b: Block) => b.name

  /** Every name of `bs` is a group key, and every group key first appears inside `bs`. */
  lemma {:induction false} NameKeysIndexed(bs: seq<Block>)
    ensures forall j :: 0 <= j < |bs| ==> NameOf(bs[j]) in NameKeys(bs)
    ensures forall n :: n in NameKeys(bs) ==> FirstIndex(bs, NameOf, n) < |bs|
  {
    var keys := NameKeys(bs);
    forall j | 0 <= j < |bs|
      ensures NameOf(bs[j]) in keys
    {
      assert bs[j].name == NameOf(bs[j]);
    }
    forall n | n in keys
      ensures FirstIndex(bs, NameOf, n) < |bs|
    {
      var k :| 0 <= k < |bs| && bs[k].name == n;
      assert NameOf(bs[k]) == n;
    }
  }

  /** The name groups come in the order in which each name first appears in `bs`. */
  lemma {:induction false} NameKeysFirstAppearance(bs: seq<Block>)
    ensures forall i, j :: 0 <= i < j < |NameKeys(bs)| ==>
      FirstIndex(bs, NameOf, NameKeys(bs)[i]) < FirstIndex(bs, NameOf, NameKeys(bs)[j])
    decreases |bs|
  {
    if |bs| > 0 {
      var front := bs[..|bs| - 1];
      NameKeysFirstAppearance(front);
      NameKeysIndexed(front);
      var last := bs[|bs| - 1];
      assert bs == front + [last];
      assert NameOf(last) == last.name;
      GroupKeysStep(front, last, NameOf, NameKeys(front), NameKeys(bs));
    }
  }

  /** The group of one name, in input order. */
  function WithName(bs: seq<Block>, name: string): (r: seq<Block>)
    ensures forall x :: multiset(r)[x] == if x.name == name then multiset(bs)[x] else 0
    ensures forall k :: 0 <= k < |r| ==> r[k].name == name
  {
    if |bs| == 0 then []
    else
      assert bs == [bs[0]] + bs[1..];
      if bs[0].name == name then [bs[0]] + WithName(bs[1..], name)
      else WithName(bs[1..], name)
  }

  lemma {:induction false} WithNameNonEmpty(bs: seq<Block>, name: string)
    requires exists k :: 0 <= k < |bs| && bs[k].name == name
    ensures |WithName(bs, name)| > 0
  {
    var k :| 0 <= k < |bs| && bs[k].name == name;
    assert bs[k] in multiset(bs);
    assert multiset(WithName(bs, name))[bs[k]] > 0;
  }

  /** A project: the blocks of one name, ordered by start, with the span from their earliest start
      to their latest raw end. */
  datatype Project = Project(name: string, blocks: seq<Block>, start: Instant, end: Instant)

  /** The anonymous record built for one name group: its blocks are the group's, ordered by
      start. */
  function ProjectOf(bs: seq<Block>, name: string): (r: Project)
    requires exists k :: 0 <= k < |bs| && bs[k].name == name
    ensures r.name == name
    ensures multiset(r.blocks) == multiset(WithName(bs, name))
    ensures forall i, j :: 0 <= i < j < |r.blocks| ==> r.blocks[i].start <= r.blocks[j].start
  {
    WithNameNonEmpty(bs, name);
    ByStartIsTotalPreorder();
    var group := WithName(bs, name);
    Project(name, SortBy(group, ByStart), MinStart(group), MaxEnd(group))
  }

  /** A project spans from the earliest start to the latest raw end of its name's blocks. */
  lemma {:induction false} ProjectSpan(bs: seq<Block>, name: string)
    requires exists k :: 0 <= k < |bs| && bs[k].name == name
    ensures var p := ProjectOf(bs, name);
      && (forall k :: 0 <= k < |bs| && bs[k].name == name ==> p.start <= bs[k].start && bs[k].end <= p.end)
      && (exists k :: 0 <= k < |bs| && bs[k].name == name && p.start == bs[k].start)
      && (exists k :: 0 <= k < |bs| && bs[k].name == name && p.end == bs[k].end)
  {
    WithNameNonEmpty(bs, name);
    InGroup(bs, name);
    var group := WithName(bs, name);
    var p := ProjectOf(bs, name);
    GroupSpan(bs, group, name, p.start, p.end);
  }

  /** Bounds on the members of a name group, and values they attain, carry over to the blocks of
      that name. */
  lemma {:induction false} GroupSpan(bs: seq<Block>, group: seq<Block>, name: string, lo: Instant, hi: Instant)
    requires forall x :: x in group <==> x in bs && x.name == name
    requires forall k :: 0 <= k < |group| ==> lo <= group[k].start && group[k].end <= hi
    requires exists k :: 0 <= k < |group| && lo == group[k].start
    requires exists k :: 0 <= k < |group| && hi == group[k].end
    ensures forall k :: 0 <= k < |bs| && bs[k].name == name ==> lo <= bs[k].start && bs[k].end <= hi
    ensures exists k :: 0 <= k < |bs| && bs[k].name == name && lo == bs[k].start
    ensures exists k :: 0 <= k < |bs| && bs[k].name == name && hi == bs[k].end
  {
    forall k | 0 <= k < |bs| && bs[k].name == name
      ensures lo <= bs[k].start && bs[k].end <= hi
    {
      assert bs[k] in group;
    }
    var i :| 0 <= i < |group| && lo == group[i].start;
    assert group[i] in bs;
    var j :| 0 <= j < |group| && hi == group[j].end;
    assert group[j] in bs;
  }

  /** The members of a name group are exactly the blocks of that name. */
  lemma {:induction false} InGroup(bs: seq<Block>, name: string)
    ensures forall x :: x in WithName(bs, name) <==> x in bs && x.name == name
  {
    var group := WithName(bs, name);
    forall x
      ensures x in group <==> x in bs && x.name == name
    {
      assert x in group <==> x in multiset(group);
      assert x in bs <==> x in multiset(bs);
    }
  }

  /** A project of this name exists among the blocks and is that name's group. */
  predicate IsGroupOf(bs: seq<Block>, p: Project) {
    (exists j :: 0 <= j < |bs| && bs[j].name == p.name) && p == ProjectOf(bs, p.name)
  }

  /** Two projects have different names. */
  const NamesDiffer: (Project, Project) -> bool := (a: Project, b: Project) => a.name != b.name

  /** `GroupBy(b => b.Name).Select(...)`: one project per name, in order of first appearance. */
  function NameGroups(bs: seq<Block>): (r: seq<Project>)
    ensures |r| == |NameKeys(bs)|
    ensures forall k :: 0 <= k < |r| ==> r[k].name == NameKeys(bs)[k] && IsGroupOf(bs, r[k])
    ensures forall i, j :: 0 <= i < j < |r| ==> NamesDiffer(r[i], r[j])
  {
    var keys := NameKeys(bs);
    NameKeysNamed(bs);
    seq(|keys|, k requires 0 <= k < |keys| => ProjectOf(bs, keys[k]))
  }

  /** Every group key is the name of a block. */
  lemma {:induction false} NameKeysNamed(bs: seq<Block>)
    ensures forall k :: 0 <= k < |NameKeys(bs)| ==> exists j :: 0 <= j < |bs| && bs[j].name == NameKeys(bs)[k]
  {
    var keys := NameKeys(bs);
    assert forall k :: 0 <= k < |keys| ==> keys[k] in keys;
  }

  /** `OrderBy(p => p.Start)`. */
  const ByProjectStart: (Project, Project) -> bool := (a: Project, b: Project) => a.start <= b.start

  lemma {:induction false} ByProjectStartIsTotalPreorder()
    ensures TotalPreorder(ByProjectStart)
  {
  }

  /** The projects of one workplace's live blocks, ordered by their earliest start; the sort is
      stable, so among equal starts the name seen first comes first (`ProjectsStable`). */
  function Projects(bs: seq<Block>): (r: seq<Project>)
    ensures forall i, j :: 0 <= i < j < |r| ==> r[i].start <= r[j].start
    ensures forall p :: p in r <==> p in NameGroups(bs)
    ensures forall i, j :: 0 <= i < j < |r| ==> r[i].name != r[j].name
  {
    ByProjectStartIsTotalPreorder();
    var unsorted := NameGroups(bs);
    var r := SortBy(unsorted, ByProjectStart);
    SortByKeepsPairwise(unsorted, ByProjectStart, NamesDiffer);
    forall p
      ensures p in r <==> p in unsorted
    {
      SortByMembers(unsorted, ByProjectStart, p);
    }
    r
  }

  /** Projects with the same start keep the order of their name groups, that is, the order in
      which their names first appear among the blocks. */
  lemma {:induction false} ProjectsStable(bs: seq<Block>, p: Project)
    ensures SameKey(Projects(bs), ByProjectStart, p) == SameKey(NameGroups(bs), ByProjectStart, p)
    ensures forall i, j :: 0 <= i < j < |NameGroups(bs)| ==>
      FirstIndex(bs, NameOf, NameGroups(bs)[i].name) < FirstIndex(bs, NameOf, NameGroups(bs)[j].name)
  {
    ByProjectStartIsTotalPreorder();
    SortByStable(NameGroups(bs), ByProjectStart, p);
    NameKeysFirstAppearance(bs);
  }

  /** Each project is the group of a name of the blocks. */
  lemma {:induction false} ProjectsAreGroups(bs: seq<Block>)
    ensures forall k :: 0 <= k < |Projects(bs)| ==> IsGroupOf(bs, Projects(bs)[k])
  {
    var groups := NameGroups(bs);
    var r := Projects(bs);
    forall k | 0 <= k < |r|
      ensures IsGroupOf(bs, r[k])
    {
      assert r[k] in groups;
    }
  }

  /** Every name among the blocks has a project. */
  lemma {:induction false} EveryNameHasProject(bs: seq<Block>)
    ensures forall j :: 0 <= j < |bs| ==> exists k :: 0 <= k < |Projects(bs)| && Projects(bs)[k].name == bs[j].name
  {
    var keys := NameKeys(bs);
    var groups := NameGroups(bs);
    var r := Projects(bs);
    forall j | 0 <= j < |bs|
      ensures exists k :: 0 <= k < |r| && r[k].name == bs[j].name
    {
      assert bs[j].name in keys;
      var i :| 0 <= i < |keys| && keys[i] == bs[j].name;
      var g := groups[i];
      assert g in groups;
      assert g in r;
      var k :| 0 <= k < |r| && r[k] == groups[i];
    }
  }

  // ---------------------------------------------------------------------------------------
  // Tracks

  /** `other.End <= proj.Start || other.Start >= proj.End`: the earlier project `a` does not
      overlap `b` (touching ends do not count). */
  predicate Disjoint(a: Project, b: Project) {
    a.end <= b.start || a.start >= b.end
  }

  /** Whether `p` overlaps none of the projects already on track `t`. */
  predicate FitsOn(placed: seq<(Project, nat)>, p: Project, t: nat) {
    forall k :: 0 <= k < |placed| && placed[k].1 == t ==> Disjoint(placed[k].0, p)
  }

  /** The inner `for (t = 0; t < 3; t++)` loop: the lowest of tracks 0, 1 and 2 that fits, and
      track 2 when none does. */
  function FirstFit(placed: seq<(Project, nat)>, p: Project): (r: nat)
    ensures r <= FallbackTrack
    ensures r < FallbackTrack ==> FitsOn(placed, p, r)
    ensures forall t: nat :: t < r ==> !FitsOn(placed, p, t)
  {
    if FitsOn(placed, p, 0) then 0
    else if FitsOn(placed, p, 1) then 1
    else FallbackTrack
  }

  /** Project `j` of the layout overlaps an earlier project on track `t`. */
  predicate BlockedOn(layout: seq<(Project, nat)>, j: int, t: nat)
    requires 0 <= j < |layout|
  {
    exists i :: 0 <= i < j && layout[i].1 == t && !Disjoint(layout[i].0, layout[j].0)
  }

  /** The `foreach (var proj in projectGroups)` loop: each project, in order, paired with the
      first track that fits it given the projects before it. */
  function AssignTracks(projects: seq<Project>): (r: seq<(Project, nat)>)
    ensures |r| == |projects|
    ensures forall k :: 0 <= k < |r| ==> r[k].0 == projects[k] && r[k].1 <= FallbackTrack
    decreases |projects|
  {
    if |projects| == 0 then []
    else
      var front := AssignTracks(projects[..|projects| - 1]);
      var p := projects[|projects| - 1];
      front + [(p, FirstFit(front, p))]
  }

  /** A project on track 0 or 1 overlaps no earlier project there, and every track below a
      project's holds an earlier project it overlaps. */
  predicate GreedyTracks(r: seq<(Project, nat)>) {
    && (forall i, j :: 0 <= i < j < |r| && r[i].1 == r[j].1 && r[j].1 < FallbackTrack ==> Disjoint(r[i].0, r[j].0))
    && (forall j, t: nat :: 0 <= j < |r| && t < r[j].1 ==> BlockedOn(r, j, t))
  }

  /** The greedy assignment: a project on track 0 or 1 overlaps no earlier project there, and
      every track below a project's holds an earlier project it overlaps. */
  lemma {:induction false} TracksAvoidOverlap(projects: seq<Project>)
    ensures GreedyTracks(AssignTracks(projects))
    decreases |projects|
  {
    if |projects| > 0 {
      var front := AssignTracks(projects[..|projects| - 1]);
      TracksAvoidOverlap(projects[..|projects| - 1]);
      var p := projects[|projects| - 1];
      var t := FirstFit(front, p);
      var r := AssignTracks(projects);
      assert r == front + [(p, t)];
      assert forall k :: 0 <= k < |front| ==> r[k] == front[k];
      forall i, j | 0 <= i < j < |r| && r[i].1 == r[j].1 && r[j].1 < FallbackTrack
        ensures Disjoint(r[i].0, r[j].0)
      {
        if j == |front| {
          assert FitsOn(front, p, t);
          assert r[i] == front[i];
        } else {
          assert r[i] == front[i] && r[j] == front[j];
          assert front[i].1 == front[j].1 && front[j].1 < FallbackTrack;
        }
      }
      forall j, t': nat | 0 <= j < |r| && t' < r[j].1
        ensures BlockedOn(r, j, t')
      {
        if j < |front| {
          assert r[j] == front[j];
          assert t' < front[j].1;
          assert BlockedOn(front, j, t');
          var i :| 0 <= i < j && front[i].1 == t' && !Disjoint(front[i].0, front[j].0);
          assert r[i] == front[i];
        } else {
          assert !FitsOn(front, p, t');
          var i :| 0 <= i < |front| && front[i].1 == t' && !Disjoint(front[i].0, p);
          assert r[i] == front[i];
        }
      }
    }
  }

  // ---------------------------------------------------------------------------------------
  // Placement

  /** A block put into the scene, on the track of its project. */
  datatype Placement = Placement(block: Block, track: nat)

  /** The blocks of the placements, in order. */
  function PlacedBlocks(ps: seq<Placement>): (r: seq<Block>)
    ensures |r| == |ps|
    ensures forall k :: 0 <= k < |r| ==> r[k] == ps[k].block
  {
    seq(|ps|, k requires 0 <= k < |ps| => ps[k].block)
  }

  /** The blocks of the projects, project after project. */
  function Flatten(projects: seq<Project>): (r: seq<Block>)
    decreases |projects|
  {
    if |projects| == 0 then [] else projects[0].blocks + Flatten(projects[1..])
  }

  /** One project's blocks, in their order, on track `t`. */
  function OnTrack(bs: seq<Block>, t: nat): (r: seq<Placement>)
    ensures |r| == |bs|
    ensures PlacedBlocks(r) == bs
    ensures forall k :: 0 <= k < |r| ==> r[k].track == t
  {
    seq(|bs|, k requires 0 <= k < |bs| => Placement(bs[k], t))
  }

  /** The `foreach (var proj in projectGroups)` loop that builds boxes: each project's blocks in
      project order, on the project's track. */
  function Place(layout: seq<(Project, nat)>): (r: seq<Placement>)
    ensures PlacedBlocks(r) == Flatten(seq(|layout|, k requires 0 <= k < |layout| => layout[k].0))
    ensures OnLayoutTracks(r, layout)
    decreases |layout|
  {
    if |layout| == 0 then []
    else
      var head := OnTrack(layout[0].0.blocks, layout[0].1);
      var rest := Place(layout[1..]);
      var r := head + rest;
      assert PlacedBlocks(r) == PlacedBlocks(head) + PlacedBlocks(rest);
      var projects := seq(|layout|, k requires 0 <= k < |layout| => layout[k].0);
      assert projects[1..] == seq(|layout[1..]|, k requires 0 <= k < |layout[1..]| => layout[1..][k].0);
      forall k | 0 <= k < |r|
        ensures exists j :: 0 <= j < |layout| && r[k].track == layout[j].1
      {
        if k >= |head| {
          assert r[k] == rest[k - |head|];
          var j :| 0 <= j < |layout[1..]| && rest[k - |head|].track == layout[1..][j].1;
          assert layout[1..][j] == layout[j + 1];
        }
      }
      r
  }

  /** Every placement is on the track of one of the layout's projects. */
  predicate OnLayoutTracks(ps: seq<Placement>, layout: seq<(Project, nat)>) {
    forall k :: 0 <= k < |ps| ==> exists j :: 0 <= j < |layout| && ps[k].track == layout[j].1
  }

  /** The position in `Place(layout)` where the blocks of `layout[j]` begin. */
  function Offset(layout: seq<(Project, nat)>, j: nat): nat
    requires j <= |layout|
  {
    if j == 0 then 0 else |layout[0].0.blocks| + Offset(layout[1..], j - 1)
  }

  /** The blocks of project `j` sit together, in their order, all on the track of project `j`. */
  lemma {:induction false} PlaceTracks(layout: seq<(Project, nat)>, j: nat, m: nat)
    requires j < |layout| && m < |layout[j].0.blocks|
    ensures Offset(layout, j) + m < |Place(layout)|
    ensures Place(layout)[Offset(layout, j) + m] == Placement(layout[j].0.blocks[m], layout[j].1)
    decreases j
  {
    var head := OnTrack(layout[0].0.blocks, layout[0].1);
    var rest := Place(layout[1..]);
    PlaceCons(layout);
    if j == 0 {
      assert head[m] == Placement(layout[0].0.blocks[m], layout[0].1);
      IndexConcat(head, rest, true, m);
    } else {
      var tail := layout[1..];
      assert tail[j - 1] == layout[j];
      PlaceTracks(tail, j - 1, m);
      PlaceTracksStep(layout, j, m, head, rest, Place(layout), Offset(tail, j - 1) + m);
    }
  }

  /** `Place` on a non-empty layout: the first project's track, then the rest. */
  lemma {:induction false} PlaceCons(layout: seq<(Project, nat)>)
    requires |layout| > 0
    ensures Place(layout) == OnTrack(layout[0].0.blocks, layout[0].1) + Place(layout[1..])
  {
  }

  /** The step of `PlaceTracks`: position `i` of the later projects' placements moves back by the
      first project's blocks. */
  lemma {:induction false} PlaceTracksStep(layout: seq<(Project, nat)>, j: nat, m: nat,
                                           head: seq<Placement>, rest: seq<Placement>, placed: seq<Placement>, i: nat)
    requires 0 < j < |layout| && m < |layout[j].0.blocks|
    requires |head| == |layout[0].0.blocks| && placed == head + rest
    requires i == Offset(layout[1..], j - 1) + m && i < |rest|
    requires rest[i] == Placement(layout[j].0.blocks[m], layout[j].1)
    ensures Offset(layout, j) + m < |placed|
    ensures placed[Offset(layout, j) + m] == Placement(layout[j].0.blocks[m], layout[j].1)
  {
    assert Offset(layout, j) + m == |head| + i;
    IndexConcat(head, rest, false, i);
  }

  /** Indexing into a concatenation: an index of the front, or one past the front. */
  lemma {:induction false} IndexConcat<T>(a: seq<T>, b: seq<T>, inFront: bool, i: nat)
    requires inFront ==> i < |a|
    requires !inFront ==> i < |b|
    ensures inFront ==> (a + b)[i] == a[i]
    ensures !inFront ==> |a| + i < |a + b| && (a + b)[|a| + i] == b[i]
  {
  }

  /** The tracks of one workplace's projects: every project of the workplace's live blocks, in
      order, on track 0, 1 or the fallback track 2. */
  function WorkplaceLayout(live: seq<Block>, wp: int): (r: seq<(Project, nat)>)
    ensures |r| == |Projects(InWorkplace(live, wp))|
    ensures forall k :: 0 <= k < |r| ==> r[k].0 == Projects(InWorkplace(live, wp))[k] && r[k].1 <= FallbackTrack
  {
    AssignTracks(Projects(InWorkplace(live, wp)))
  }

  /** The placements of the given workplaces, in order; every one on one of the three tracks. */
  function PlaceAll(live: seq<Block>, wps: seq<int>): (r: seq<Placement>)
    ensures OnThreeTracks(r)
    decreases |wps|
  {
    if |wps| == 0 then []
    else
      var head := Place(WorkplaceLayout(live, wps[0]));
      var rest := PlaceAll(live, wps[1..]);
      WorkplaceOnThreeTracks(live, wps[0]);
      ThreeTracksConcat(head, rest);
      head + rest
  }

  /** Steps 3 and 4 of `Arrange`: the live blocks, workplace by ascending workplace, project by
      project, each block on its project's track, which is one of the three. */
  function Arrange(blocks: seq<Block>, date: Instant): (r: seq<Placement>)
    ensures forall k :: 0 <= k < |r| ==> r[k].track <= FallbackTrack
  {
    var live := Live(blocks, date);
    PlaceAll(live, Workplaces(live))
  }

  // ---------------------------------------------------------------------------------------
  // What the arrangement shows

  /** The names of the projects. */
  function Names(gs: seq<Project>): (r: set<string>)
    decreases |gs|
  {
    if |gs| == 0 then {} else {gs[0].name} + Names(gs[1..])
  }

  lemma {:induction false} NamesByIndex(gs: seq<Project>)
    ensures forall n :: n in Names(gs) <==> exists k :: 0 <= k < |gs| && gs[k].name == n
    decreases |gs|
  {
    if |gs| > 0 {
      NamesByIndex(gs[1..]);
      forall n
        ensures n in Names(gs) <==> exists k :: 0 <= k < |gs| && gs[k].name == n
      {
        if n in Names(gs[1..]) {
          var k :| 0 <= k < |gs[1..]| && gs[1..][k].name == n;
          assert gs[k + 1].name == n;
        }
        if exists k :: 1 <= k < |gs| && gs[k].name == n {
          var k :| 1 <= k < |gs| && gs[k].name == n;
          assert gs[1..][k - 1].name == n;
        }
      }
    }
  }

  /** A name's group holds each block of that name as often as the blocks do, and nothing else. */
  lemma {:induction false} GroupCount(bs: seq<Block>, g: Project)
    requires IsGroupOf(bs, g)
    ensures forall x :: multiset(g.blocks)[x] == if x.name == g.name then multiset(bs)[x] else 0
  {
  }

  lemma {:induction false} FlattenGroups(bs: seq<Block>, gs: seq<Project>)
    requires forall k :: 0 <= k < |gs| ==> IsGroupOf(bs, gs[k])
    requires forall i, j :: 0 <= i < j < |gs| ==> gs[i].name != gs[j].name
    ensures forall x :: multiset(Flatten(gs))[x] == if x.name in Names(gs) then multiset(bs)[x] else 0
    decreases |gs|
  {
    if |gs| > 0 {
      var g := gs[0];
      var tail := gs[1..];
      FlattenGroups(bs, tail);
      GroupCount(bs, g);
      NamesByIndex(tail);
      assert g.name !in Names(tail) by {
        forall k | 0 <= k < |tail|
          ensures tail[k].name != g.name
        {
          assert tail[k] == gs[k + 1];
        }
      }
      assert Flatten(gs) == g.blocks + Flatten(tail);
    }
  }

  /** The projects of a workplace hold its blocks, each exactly as often as it occurs. */
  lemma {:induction false} ProjectsHoldBlocks(bs: seq<Block>)
    ensures multiset(Flatten(Projects(bs))) == multiset(bs)
  {
    var r := Projects(bs);
    ProjectsAreGroups(bs);
    EveryNameHasProject(bs);
    FlattenGroups(bs, r);
    NamesByIndex(r);
    forall x
      ensures multiset(Flatten(r))[x] == multiset(bs)[x]
    {
      if x in bs {
        var j :| 0 <= j < |bs| && bs[j] == x;
        var k :| 0 <= k < |r| && r[k].name == bs[j].name;
      } else {
        assert x !in multiset(bs);
      }
    }
  }

  /** A workplace's placements hold its live blocks, each exactly as often as it occurs. */
  lemma {:induction false} WorkplacePlacesItsBlocks(live: seq<Block>, wp: int)
    ensures multiset(PlacedBlocks(Place(WorkplaceLayout(live, wp)))) == multiset(InWorkplace(live, wp))
  {
    var projects := Projects(InWorkplace(live, wp));
    PlaceFlattens(WorkplaceLayout(live, wp), projects);
    ProjectsHoldBlocks(InWorkplace(live, wp));
  }

  /** Placing a layout lays out the blocks of its projects, project after project. */
  lemma {:induction false} PlaceFlattens(layout: seq<(Project, nat)>, projects: seq<Project>)
    requires |layout| == |projects|
    requires forall k :: 0 <= k < |layout| ==> layout[k].0 == projects[k]
    ensures PlacedBlocks(Place(layout)) == Flatten(projects)
  {
    assert seq(|layout|, k requires 0 <= k < |layout| => layout[k].0) == projects;
  }

  lemma {:induction false} PlaceAllBlocks(live: seq<Block>, wps: seq<int>)
    requires forall i, j :: 0 <= i < j < |wps| ==> wps[i] != wps[j]
    ensures forall x :: multiset(PlacedBlocks(PlaceAll(live, wps)))[x] == if x.workplace in wps then multiset(live)[x] else 0
    decreases |wps|
  {
    if |wps| > 0 {
      var hb := PlacedBlocks(Place(WorkplaceLayout(live, wps[0])));
      var rb := PlacedBlocks(PlaceAll(live, wps[1..]));
      PlaceAllSplits(live, wps);
      WorkplacePlacesItsBlocks(live, wps[0]);
      PlaceAllBlocks(live, wps[1..]);
      assert wps[0] !in wps[1..];
      forall x: Block
        ensures multiset(hb + rb)[x] == if x.workplace in wps then multiset(live)[x] else 0
      {
        assert x.workplace in wps <==> x.workplace == wps[0] || x.workplace in wps[1..];
      }
    }
  }

  lemma {:induction false} PlaceAllSplits(live: seq<Block>, wps: seq<int>)
    requires |wps| > 0
    ensures PlacedBlocks(PlaceAll(live, wps))
            == PlacedBlocks(Place(WorkplaceLayout(live, wps[0]))) + PlacedBlocks(PlaceAll(live, wps[1..]))
  {
    PlacedBlocksConcat(Place(WorkplaceLayout(live, wps[0])), PlaceAll(live, wps[1..]));
  }

  lemma {:induction false} PlacedBlocksConcat(a: seq<Placement>, b: seq<Placement>)
    ensures PlacedBlocks(a + b) == PlacedBlocks(a) + PlacedBlocks(b)
  {
  }

  /** `Arrange` places exactly the blocks that are live on the date and belong to a workplace with
      a centre, each as often as it occurs in the input. */
  lemma {:induction false} ArrangePlacesLiveBlocks(blocks: seq<Block>, date: Instant)
    ensures forall x :: multiset(PlacedBlocks(Arrange(blocks, date)))[x]
                        == if IsLive(x, date) && HasCentre(x.workplace) then multiset(blocks)[x] else 0
  {
    var live := Live(blocks, date);
    var wps := Workplaces(live);
    PlaceAllBlocks(live, wps);
    forall x
      ensures multiset(PlacedBlocks(Arrange(blocks, date)))[x]
              == if IsLive(x, date) && HasCentre(x.workplace) then multiset(blocks)[x] else 0
    {
      if x in live {
        var k :| 0 <= k < |live| && live[k] == x;
      }
      assert x in live <==> x in multiset(live);
    }
  }

  /** Every project of live blocks spans the date. */
  lemma {:induction false} ProjectsSpanDate(bs: seq<Block>, date: Instant)
    requires forall k :: 0 <= k < |bs| ==> IsLive(bs[k], date)
    ensures forall k :: 0 <= k < |Projects(bs)| ==> Projects(bs)[k].start <= date <= Projects(bs)[k].end
  {
    var r := Projects(bs);
    ProjectsAreGroups(bs);
    forall k | 0 <= k < |r|
      ensures r[k].start <= date <= r[k].end
    {
      ProjectSpan(bs, r[k].name);
    }
  }

  /** The blocks a workplace places all belong to that workplace. */
  lemma {:induction false} WorkplacePlacesOwnBlocks(live: seq<Block>, wp: int)
    ensures forall k :: 0 <= k < |PlacedBlocks(Place(WorkplaceLayout(live, wp)))| ==>
              PlacedBlocks(Place(WorkplaceLayout(live, wp)))[k].workplace == wp
  {
    var bs := PlacedBlocks(Place(WorkplaceLayout(live, wp)));
    WorkplacePlacesItsBlocks(live, wp);
    forall k | 0 <= k < |bs|
      ensures bs[k].workplace == wp
    {
      assert bs[k] in multiset(bs);
    }
  }

  /** The blocks' workplaces never decrease. */
  predicate AscendingWorkplaces(bs: seq<Block>) {
    forall i, j :: 0 <= i < j < |bs| ==> bs[i].workplace <= bs[j].workplace
  }

  lemma {:induction false} AscendingConcat(a: seq<Block>, b: seq<Block>, wp: int)
    requires forall k :: 0 <= k < |a| ==> a[k].workplace == wp
    requires forall k :: 0 <= k < |b| ==> wp < b[k].workplace
    requires AscendingWorkplaces(b)
    ensures AscendingWorkplaces(a + b)
  {
    var all := a + b;
    forall i, j | 0 <= i < j < |all|
      ensures all[i].workplace <= all[j].workplace
    {
      if j < |a| {
        assert all[i] == a[i] && all[j] == a[j];
      } else if i < |a| {
        assert all[i] == a[i] && all[j] == b[j - |a|];
      } else {
        assert all[i] == b[i - |a|] && all[j] == b[j - |a|];
      }
    }
  }

  /** Every block's workplace is one of `wps`. */
  predicate WorkplacesAmong(bs: seq<Block>, wps: seq<int>) {
    forall k :: 0 <= k < |bs| ==> bs[k].workplace in wps
  }

  /** Blocks from the workplaces after the first of an ascending list lie above that first one. */
  lemma {:induction false} AboveFirst(rb: seq<Block>, wps: seq<int>)
    requires |wps| > 0 && forall i, j :: 0 <= i < j < |wps| ==> wps[i] < wps[j]
    requires WorkplacesAmong(rb, wps[1..])
    ensures forall k :: 0 <= k < |rb| ==> wps[0] < rb[k].workplace
    ensures WorkplacesAmong(rb, wps)
  {
    forall k | 0 <= k < |rb|
      ensures wps[0] < rb[k].workplace && rb[k].workplace in wps
    {
      var m :| 0 <= m < |wps[1..]| && wps[1..][m] == rb[k].workplace;
      assert wps[m + 1] == rb[k].workplace;
    }
  }

  lemma {:induction false} AmongConcat(a: seq<Block>, b: seq<Block>, wps: seq<int>)
    requires WorkplacesAmong(a, wps) && WorkplacesAmong(b, wps)
    ensures WorkplacesAmong(a + b, wps)
  {
    var all := a + b;
    forall k | 0 <= k < |all|
      ensures all[k].workplace in wps
    {
      if k < |a| {
        assert all[k] == a[k];
      } else {
        assert all[k] == b[k - |a|];
      }
    }
  }

  lemma {:induction false} OwnAmong(hb: seq<Block>, wps: seq<int>)
    requires |wps| > 0 && forall k :: 0 <= k < |hb| ==> hb[k].workplace == wps[0]
    ensures WorkplacesAmong(hb, wps)
  {
  }

  lemma {:induction false} PlaceAllOrdered(live: seq<Block>, wps: seq<int>)
    requires forall i, j :: 0 <= i < j < |wps| ==> wps[i] < wps[j]
    ensures WorkplacesAmong(PlacedBlocks(PlaceAll(live, wps)), wps)
    ensures AscendingWorkplaces(PlacedBlocks(PlaceAll(live, wps)))
    decreases |wps|
  {
    if |wps| > 0 {
      var hb := PlacedBlocks(Place(WorkplaceLayout(live, wps[0])));
      var rb := PlacedBlocks(PlaceAll(live, wps[1..]));
      PlaceAllSplits(live, wps);
      WorkplacePlacesOwnBlocks(live, wps[0]);
      PlaceAllOrdered(live, wps[1..]);
      AboveFirst(rb, wps);
      AscendingConcat(hb, rb, wps[0]);
      OwnAmong(hb, wps);
      AmongConcat(hb, rb, wps);
    }
  }

  /** `Arrange` visits the workplaces in ascending order: the placed blocks' workplaces never
      decrease, and each has a centre. */
  lemma {:induction false} ArrangeByAscendingWorkplace(blocks: seq<Block>, date: Instant)
    ensures forall k :: 0 <= k < |PlacedBlocks(Arrange(blocks, date))| ==> HasCentre(PlacedBlocks(Arrange(blocks, date))[k].workplace)
    ensures AscendingWorkplaces(PlacedBlocks(Arrange(blocks, date)))
  {
    var live := Live(blocks, date);
    PlaceAllOrdered(live, Workplaces(live));
  }

  /** Every placement is on one of the three tracks. */
  predicate OnThreeTracks(ps: seq<Placement>) {
    forall k :: 0 <= k < |ps| ==> ps[k].track <= FallbackTrack
  }

  lemma {:induction false} WorkplaceOnThreeTracks(live: seq<Block>, wp: int)
    ensures OnThreeTracks(Place(WorkplaceLayout(live, wp)))
  {
    PlaceOnThreeTracks(WorkplaceLayout(live, wp));
  }

  lemma {:induction false} PlaceOnThreeTracks(layout: seq<(Project, nat)>)
    requires forall k :: 0 <= k < |layout| ==> layout[k].1 <= FallbackTrack
    ensures OnThreeTracks(Place(layout))
  {
    var placed := Place(layout);
    forall k | 0 <= k < |placed|
      ensures placed[k].track <= FallbackTrack
    {
      var j :| 0 <= j < |layout| && placed[k].track == layout[j].1;
    }
  }

  lemma {:induction false} ThreeTracksConcat(a: seq<Placement>, b: seq<Placement>)
    requires OnThreeTracks(a) && OnThreeTracks(b)
    ensures OnThreeTracks(a + b)
  {
    var all := a + b;
    forall k | 0 <= k < |all|
      ensures all[k].track <= FallbackTrack
    {
      if k < |a| {
        assert all[k] == a[k];
      } else {
        assert all[k] == b[k - |a|];
      }
    }
  }

  /** One workplace's layout on a date: projects ordered by start, each spanning the date, and
      placed greedily on the three tracks. */
  lemma {:induction false} WorkplaceLayoutFacts(blocks: seq<Block>, date: Instant, wp: int)
    ensures GreedyTracks(WorkplaceLayout(Live(blocks, date), wp))
    ensures forall k :: 0 <= k < |WorkplaceLayout(Live(blocks, date), wp)| ==>
              WorkplaceLayout(Live(blocks, date), wp)[k].0.start <= date <= WorkplaceLayout(Live(blocks, date), wp)[k].0.end
    ensures forall i, j :: 0 <= i < j < |WorkplaceLayout(Live(blocks, date), wp)| ==>
              WorkplaceLayout(Live(blocks, date), wp)[i].0.start <= WorkplaceLayout(Live(blocks, date), wp)[j].0.start
  {
    var live := Live(blocks, date);
    var bs := InWorkplace(live, wp);
    forall k | 0 <= k < |bs|
      ensures IsLive(bs[k], date)
    {
      assert bs[k] in bs;
      var j :| 0 <= j < |live| && live[j] == bs[k];
    }
    ProjectsSpanDate(bs, date);
    TracksAvoidOverlap(Projects(bs));
  }

  /** `AssignTracks` handles the projects one after the other. */
  lemma {:induction false} AssignTracksSnoc(ps: seq<Project>, p: Project)
    ensures AssignTracks(ps + [p]) == AssignTracks(ps) + [(p, FirstFit(AssignTracks(ps), p))]
  {
    assert (ps + [p])[..|ps + [p]| - 1] == ps;
  }

  /** A second project overlapping the first goes to track 1. */
  lemma {:induction false} SecondOverlapping(a: Project, b: Project)
    requires !Disjoint(a, b)
    ensures AssignTracks([a, b]) == [(a, 0), (b, 1)]
  {
    AssignTracksSnoc([], a);
    assert [] + [a] == [a];
    AssignTracksSnoc([a], b);
    assert !FitsOn([(a, 0)], b, 0);
  }

  /** A third project overlapping both earlier ones goes to track 2. */
  lemma {:induction false} ThirdOverlapping(a: Project, b: Project, c: Project)
    requires AssignTracks([a, b]) == [(a, 0), (b, 1)]
    requires !Disjoint(a, c) && !Disjoint(b, c)
    ensures AssignTracks([a, b, c]) == [(a, 0), (b, 1), (c, 2)]
  {
    AssignTracksSnoc([a, b], c);
    assert [a, b] + [c] == [a, b, c];
    assert !FitsOn([(a, 0), (b, 1)], c, 0);
    assert !FitsOn([(a, 0), (b, 1)], c, 1);
  }

  /** A project overlapping the ones on tracks 0 and 1 falls back to track 2. */
  lemma {:induction false} FourthOverlapping(a: Project, b: Project, c: Project, d: Project)
    requires AssignTracks([a, b, c]) == [(a, 0), (b, 1), (c, 2)]
    requires !Disjoint(a, d) && !Disjoint(b, d)
    ensures AssignTracks([a, b, c, d]) == [(a, 0), (b, 1), (c, 2), (d, 2)]
  {
    AssignTracksSnoc([a, b, c], d);
    assert [a, b, c] + [d] == [a, b, c, d];
    assert !FitsOn([(a, 0), (b, 1), (c, 2)], d, 0);
    assert !FitsOn([(a, 0), (b, 1), (c, 2)], d, 1);
  }

  /** Four projects that all overlap: the first three take tracks 0, 1 and 2, and the fourth falls
      back to track 2 on top of the third. */
  lemma {:induction false} FallbackTrackMayOverlap(ps: seq<Project>)
    requires ps == [Project("a", [], 0, 10), Project("b", [], 1, 10), Project("c", [], 2, 10), Project("d", [], 3, 10)]
    ensures AssignTracks(ps) == [(ps[0], 0), (ps[1], 1), (ps[2], 2), (ps[3], 2)]
    ensures !Disjoint(ps[2], ps[3])
  {
    var a, b, c, d := ps[0], ps[1], ps[2], ps[3];
    SecondOverlapping(a, b);
    ThirdOverlapping(a, b, c);
    FourthOverlapping(a, b, c, d);
    assert ps == [a, b, c, d];
  }
}
