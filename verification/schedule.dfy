/** The LINQ queries the views run over the schedule's block list: minimum start, selection by
    workplace, ordering by start and grouping by workplace. */
module Schedule {
  import opened Time
  import opened Sorting
  import opened Blocks

  /** `all.Min(b => b.Start)`. */
  function MinStart(all: seq<Block>): (r: Instant)
    requires |all| > 0
    ensures forall k :: 0 <= k < |all| ==> r <= all[k].start
    ensures exists k :: 0 <= k < |all| && r == all[k].start
  {
    if |all| == 1 then all[0].start
    else
      var m := MinStart(all[1..]);
      assert forall k :: 1 <= k < |all| ==> all[k] == all[1..][k - 1];
      if all[0].start <= m then all[0].start else m
  }

  /** `blocks.Max(b => b.End)`: the raw end, not the effective one. */
  function MaxEnd(blocks: seq<Block>): (r: Instant)
    requires |blocks| > 0
    ensures forall k :: 0 <= k < |blocks| ==> blocks[k].end <= r
    ensures exists k :: 0 <= k < |blocks| && r == blocks[k].end
  {
    if |blocks| == 1 then blocks[0].end
    else
      var m := MaxEnd(blocks[1..]);
      assert forall k :: 1 <= k < |blocks| ==> blocks[k] == blocks[1..][k - 1];
      if blocks[0].end >= m then blocks[0].end else m
  }

  /** `all.Where(b => b.DeployWorkplace == wp)`, in input order. */
  function InWorkplace(all: seq<Block>, wp: int): (r: seq<Block>)
    ensures forall x :: multiset(r)[x] == if x.workplace == wp then multiset(all)[x] else 0
    ensures forall x :: x in r <==> x in all && x.workplace == wp
  {
    if |all| == 0 then []
    else
      assert all == [all[0]] + all[1..];
      if all[0].workplace == wp then [all[0]] + InWorkplace(all[1..], wp)
      else InWorkplace(all[1..], wp)
  }

  /** Selecting the workplace every block belongs to keeps all of them, in order. */
  lemma {:induction false} InWorkplaceOfOne(all: seq<Block>, wp: int)
    requires forall k :: 0 <= k < |all| ==> all[k].workplace == wp
    ensures InWorkplace(all, wp) == all
  {
    if |all| > 0 {
      InWorkplaceOfOne(all[1..], wp);
      assert all == [all[0]] + all[1..];
    }
  }

  /** `OrderBy(b => b.Start)`. */
  const ByStart: (Block, Block) -> bool := (a: Block, b: Block) => a.start <= b.start

  lemma {:induction false} ByStartIsTotalPreorder()
    ensures TotalPreorder(ByStart)
  {
  }

  /** `all.Where(b => b.DeployWorkplace == wp).OrderBy(b => b.Start)`: exactly the blocks of the
      workplace, each as often as in `all`, ordered by start. */
  function WorkplaceBlocks(all: seq<Block>, wp: int): (r: seq<Block>)
    ensures forall x :: multiset(r)[x] == if x.workplace == wp then multiset(all)[x] else 0
    ensures forall x :: x in r <==> x in all && x.workplace == wp
    ensures forall i, j :: 0 <= i < j < |r| ==> r[i].start <= r[j].start
  {
    ByStartIsTotalPreorder();
    var ws := InWorkplace(all, wp);
    var r := SortBy(ws, ByStart);
    assert forall x :: x in r <==> x in multiset(r);
    assert forall x :: x in ws <==> x in multiset(ws);
    r
  }

  /** The index of the first element whose key is `k`; `|s|` when there is none. */
  function FirstIndex<T, K(==)>(s: seq<T>, key: T -> K, k: K): (i: nat)
    ensures i <= |s|
    ensures i < |s| ==> key(s[i]) == k
    ensures forall j :: 0 <= j < i ==> key(s[j]) != k
  {
    if |s| == 0 then 0
    else if key(s[0]) == k then 0
    else 1 + FirstIndex(s[1..], key, k)
  }

  /** An index whose key is `k`, with no earlier one, is the first index of `k`. */
  lemma {:induction false} FirstIndexIs<T, K>(s: seq<T>, key: T -> K, k: K, i: nat)
    requires i < |s| && key(s[i]) == k
    requires forall j :: 0 <= j < i ==> key(s[j]) != k
    ensures FirstIndex(s, key, k) == i
  {
    var f := FirstIndex(s, key, k);
    assert !(f < i) && !(i < f);
  }

  /** A key of `front` keeps its first index when an element is appended. */
  lemma {:induction false} FirstIndexAppend<T, K>(front: seq<T>, last: T, key: T -> K, k: K)
    requires FirstIndex(front, key, k) < |front|
    ensures FirstIndex(front + [last], key, k) == FirstIndex(front, key, k)
  {
    var s := front + [last];
    var i := FirstIndex(front, key, k);
    assert s[i] == front[i];
    assert forall j :: 0 <= j < i ==> s[j] == front[j];
    FirstIndexIs(s, key, k, i);
  }

  /** A key occurs exactly when its first index is inside the sequence. */
  lemma {:induction false} FirstIndexFound<T, K>(s: seq<T>, key: T -> K, k: K)
    ensures FirstIndex(s, key, k) < |s| <==> exists j :: 0 <= j < |s| && key(s[j]) == k
  {
  }

  /** One step of building the group keys: the keys of `front` in first-appearance order stay
      in that order when the key of `last` is appended if it is new. */
  lemma {:induction false} GroupKeysStep<T, K>(front: seq<T>, last: T, key: T -> K, keys: seq<K>, r: seq<K>)
    requires forall j :: 0 <= j < |front| ==> key(front[j]) in keys
    requires forall x :: x in keys ==> FirstIndex(front, key, x) < |front|
    requires forall i, j :: 0 <= i < j < |keys| ==> FirstIndex(front, key, keys[i]) < FirstIndex(front, key, keys[j])
    requires r == if key(last) in keys then keys else keys + [key(last)]
    ensures forall i, j :: 0 <= i < j < |r| ==> FirstIndex(front + [last], key, r[i]) < FirstIndex(front + [last], key, r[j])
  {
    var s := front + [last];
    forall x | x in keys
      ensures FirstIndex(s, key, x) == FirstIndex(front, key, x) < |front|
    {
      FirstIndexAppend(front, last, key, x);
    }
    if key(last) !in keys {
      assert s[|front|] == last;
      forall j | 0 <= j < |front|
        ensures key(s[j]) != key(last)
      {
        assert s[j] == front[j];
      }
      FirstIndexIs(s, key, key(last), |front|);
      forall i, j | 0 <= i < j < |r|
        ensures FirstIndex(s, key, r[i]) < FirstIndex(s, key, r[j])
      {
        assert r[i] == keys[i];
        if j < |keys| {
          assert r[j] == keys[j];
        }
      }
    }
  }

  /** `b => b.DeployWorkplace`. */
  const WorkplaceOf: Block -> int := (b: Block) => b.workplace

  /** The keys of `all.GroupBy(b => b.DeployWorkplace)`: each workplace once, in order of first
      appearance. */
  function WorkplaceKeys(all: seq<Block>): (r: seq<int>)
    ensures forall i, j :: 0 <= i < j < |r| ==> r[i] != r[j]
    ensures forall wp :: wp in r <==> exists k :: 0 <= k < |all| && all[k].workplace == wp
    ensures |all| > 0 ==> |r| > 0 && r[0] == all[0].workplace
    decreases |all|
  {
    if |all| == 0 then []
    else
      var front := all[..|all| - 1];
      var keys := WorkplaceKeys(front);
      var last := all[|all| - 1].workplace;
      assert forall k :: 0 <= k < |front| ==> front[k] == all[k];
      assert |front| > 0 ==> front[0] == all[0];
      if last in keys then keys else keys + [last]
  }

  /** Every workplace of `all` is a group key, and every group key first appears inside `all`. */
  lemma {:induction false} WorkplaceKeysIndexed(all: seq<Block>)
    ensures forall j :: 0 <= j < |all| ==> WorkplaceOf(all[j]) in WorkplaceKeys(all)
    ensures forall x :: x in WorkplaceKeys(all) ==> FirstIndex(all, WorkplaceOf, x) < |all|
  {
    var keys := WorkplaceKeys(all);
    forall j | 0 <= j < |all|
      ensures WorkplaceOf(all[j]) in keys
    {
      assert all[j].workplace == WorkplaceOf(all[j]);
    }
    forall x | x in keys
      ensures FirstIndex(all, WorkplaceOf, x) < |all|
    {
      var k :| 0 <= k < |all| && all[k].workplace == x;
      assert WorkplaceOf(all[k]) == x;
    }
  }

  /** The workplace groups come in the order in which each workplace first appears in `all`. */
  lemma {:induction false} WorkplaceKeysFirstAppearance(all: seq<Block>)
    ensures forall i, j :: 0 <= i < j < |WorkplaceKeys(all)| ==>
      FirstIndex(all, WorkplaceOf, WorkplaceKeys(all)[i]) < FirstIndex(all, WorkplaceOf, WorkplaceKeys(all)[j])
    decreases |all|
  {
    if |all| > 0 {
      var front := all[..|all| - 1];
      WorkplaceKeysFirstAppearance(front);
      WorkplaceKeysIndexed(front);
      var last := all[|all| - 1];
      assert all == front + [last];
      assert WorkplaceOf(last) == last.workplace;
      GroupKeysStep(front, last, WorkplaceOf, WorkplaceKeys(front), WorkplaceKeys(all));
    }
  }
}
