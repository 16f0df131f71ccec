/** The stable `OrderBy` / `OrderByDescending` of LINQ, as an insertion sort over a total preorder. */
module Sorting {

  /** `le` is total and transitive: the comparison a LINQ key selector induces. */
  ghost predicate TotalPreorder<T(!new)>(le: (T, T) -> bool) {
    && (forall a, b :: le(a, b) || le(b, a))
    && (forall a, b, c :: le(a, b) && le(b, c) ==> le(a, c))
  }

  predicate SortedBy<T>(s: seq<T>, le: (T, T) -> bool) {
    forall i, j :: 0 <= i < j < |s| ==> le(s[i], s[j])
  }

  /** Inserts `x` in front of the first element it is not after, so that among equal keys the
      earlier input stays first. */
  function InsertBy<T(==,!new)>(x: T, s: seq<T>, le: (T, T) -> bool): (r: seq<T>)
    requires TotalPreorder(le) && SortedBy(s, le)
    ensures SortedBy(r, le)
    ensures multiset(r) == multiset(s) + multiset{x}
    ensures |r| == |s| + 1
  {
    if |s| == 0 || le(x, s[0]) then
      [x] + s
    else
      var tail := InsertBy(x, s[1..], le);
      assert s == [s[0]] + s[1..];
      assert forall k :: 0 <= k < |tail| ==> le(s[0], tail[k]) by {
        forall k | 0 <= k < |tail|
          ensures le(s[0], tail[k])
        {
          assert tail[k] in multiset(tail);
          if tail[k] != x {
            assert tail[k] in multiset(s[1..]);
            var j :| 0 <= j < |s[1..]| && s[1..][j] == tail[k];
            assert s[j + 1] == tail[k];
          }
        }
      }
      [s[0]] + tail
  }

  /** A stable sort: the result is ordered by `le` and is a permutation of the input. */
  function SortBy<T(==,!new)>(s: seq<T>, le: (T, T) -> bool): (r: seq<T>)
    requires TotalPreorder(le)
    ensures SortedBy(r, le)
    ensures multiset(r) == multiset(s)
    ensures |r| == |s|
  {
    if |s| == 0 then []
    else
      assert s == [s[0]] + s[1..];
      InsertBy(s[0], SortBy(s[1..], le), le)
  }

  /** The elements whose key equals that of `c`, in order. */
  function SameKey<T>(s: seq<T>, le: (T, T) -> bool, c: T): seq<T> {
    if |s| == 0 then []
    else (if le(c, s[0]) && le(s[0], c) then [s[0]] else []) + SameKey(s[1..], le, c)
  }

  lemma {:induction false} SameKeyCons<T>(x: T, s: seq<T>, le: (T, T) -> bool, c: T)
    ensures SameKey([x] + s, le, c) == (if le(c, x) && le(x, c) then [x] else []) + SameKey(s, le, c)
  {
    assert ([x] + s)[0] == x && ([x] + s)[1..] == s;
  }

  lemma {:induction false} SameKeyConcat<T>(a: seq<T>, b: seq<T>, le: (T, T) -> bool, c: T)
    ensures SameKey(a + b, le, c) == SameKey(a, le, c) + SameKey(b, le, c)
  {
    if |a| > 0 {
      SameKeyConcat(a[1..], b, le, c);
      assert a + b == [a[0]] + (a[1..] + b);
      SameKeyCons(a[0], a[1..] + b, le, c);
      SameKeyCons(a[0], a[1..], le, c);
      assert a == [a[0]] + a[1..];
    } else {
      assert a + b == b;
    }
  }

  /** No element with the key of `c` lies strictly below `x` when `x` has that key. */
  lemma {:induction false} NoneEqualBelow<T(!new)>(x: T, s: seq<T>, le: (T, T) -> bool, c: T)
    requires TotalPreorder(le) && le(x, c)
    requires forall j :: 0 <= j < |s| ==> !le(x, s[j])
    ensures SameKey(s, le, c) == []
  {
    if |s| > 0 {
      NoneEqualBelow(x, s[1..], le, c);
      assert !le(c, s[0]);
    }
  }

  /** Inserting keeps the elements of every key in their order, `x` before the equal ones. */
  lemma {:induction false} InsertByStable<T(!new)>(x: T, s: seq<T>, le: (T, T) -> bool, c: T)
    requires TotalPreorder(le) && SortedBy(s, le)
    ensures SameKey(InsertBy(x, s, le), le, c) == SameKey([x] + s, le, c)
  {
    var k := InsertByShape(x, s, le);
    if le(c, x) && le(x, c) {
      NoneEqualBelow(x, s[..k], le, c);
    }
    StableAtPosition(x, s, k, le, c);
  }

  /** Putting `x` at position `k` keeps the order of `x`'s key when nothing before `k` has it. */
  lemma {:induction false} StableAtPosition<T>(x: T, s: seq<T>, k: nat, le: (T, T) -> bool, c: T)
    requires k <= |s|
    requires le(c, x) && le(x, c) ==> SameKey(s[..k], le, c) == []
    ensures SameKey(s[..k] + [x] + s[k..], le, c) == SameKey([x] + s, le, c)
  {
    assert s == s[..k] + s[k..];
    SameKeyConcat(s[..k] + [x], s[k..], le, c);
    SameKeyConcat(s[..k], [x], le, c);
    SameKeyConcat(s[..k], s[k..], le, c);
    SameKeyCons(x, s, le, c);
    SameKeyCons(x, [], le, c);
  }

  /** `OrderBy` is stable: elements with equal keys keep their input order. */
  lemma {:induction false} SortByStable<T(!new)>(s: seq<T>, le: (T, T) -> bool, c: T)
    requires TotalPreorder(le)
    ensures SameKey(SortBy(s, le), le, c) == SameKey(s, le, c)
  {
    if |s| > 0 {
      var rest := SortBy(s[1..], le);
      SortByStable(s[1..], le, c);
      InsertByStable(s[0], rest, le, c);
      SameKeyCons(s[0], rest, le, c);
    }
  }

  /** The sort is stable on ordered input: an ordered sequence comes back unchanged. */
  lemma {:induction false} SortBySorted<T(!new)>(s: seq<T>, le: (T, T) -> bool)
    requires TotalPreorder(le) && SortedBy(s, le)
    ensures SortBy(s, le) == s
  {
    if |s| > 0 {
      SortBySorted(s[1..], le);
      assert s == [s[0]] + s[1..];
    }
  }

  /** Every element of a sorted permutation comes from the input, and conversely. */
  lemma {:induction false} SortByMembers<T(!new)>(s: seq<T>, le: (T, T) -> bool, x: T)
    requires TotalPreorder(le)
    ensures x in SortBy(s, le) <==> x in s
  {
    assert x in multiset(SortBy(s, le)) <==> x in multiset(s);
  }

  /** Inserting places `x` at one position and keeps the rest in order. */
  lemma {:induction false} InsertByShape<T(!new)>(x: T, s: seq<T>, le: (T, T) -> bool) returns (k: nat)
    requires TotalPreorder(le) && SortedBy(s, le)
    ensures k <= |s| && InsertBy(x, s, le) == s[..k] + [x] + s[k..]
    ensures forall j :: 0 <= j < k ==> !le(x, s[j])
  {
    if |s| == 0 || le(x, s[0]) {
      k := 0;
    } else {
      var k' := InsertByShape(x, s[1..], le);
      k := k' + 1;
      assert s[..k] == [s[0]] + s[1..][..k'];
      assert s[k..] == s[1..][k'..];
    }
  }

  /** Inserting `x` into a sequence whose elements are pairwise related, where `x` is related
      both ways to every element, keeps every two elements related. */
  lemma {:induction false} PairwiseInsert<T>(rest: seq<T>, k: nat, x: T, rel: (T, T) -> bool)
    requires k <= |rest|
    requires forall i, j :: 0 <= i < j < |rest| ==> rel(rest[i], rest[j])
    requires forall y :: y in rest ==> rel(x, y) && rel(y, x)
    ensures forall i, j :: 0 <= i < j < |rest[..k] + [x] + rest[k..]| ==>
              rel((rest[..k] + [x] + rest[k..])[i], (rest[..k] + [x] + rest[k..])[j])
  {
    var r := rest[..k] + [x] + rest[k..];
    forall i, j | 0 <= i < j < |r|
      ensures rel(r[i], r[j])
    {
      if i < k && j < k {
        assert r[i] == rest[i] && r[j] == rest[j];
      } else if i < k && j == k {
        assert r[i] in rest;
      } else if i < k {
        assert r[i] == rest[i] && r[j] == rest[j - 1];
      } else if i == k {
        assert r[j] == rest[j - 1];
      } else {
        assert r[i] == rest[i - 1] && r[j] == rest[j - 1];
      }
    }
  }

  /** A symmetric relation that holds between every two elements of the input still holds
      between every two elements of the sorted output. */
  lemma {:induction false} SortByKeepsPairwise<T(!new)>(s: seq<T>, le: (T, T) -> bool, rel: (T, T) -> bool)
    requires TotalPreorder(le)
    requires forall a, b :: rel(a, b) ==> rel(b, a)
    requires forall i, j :: 0 <= i < j < |s| ==> rel(s[i], s[j])
    ensures forall i, j :: 0 <= i < j < |SortBy(s, le)| ==> rel(SortBy(s, le)[i], SortBy(s, le)[j])
  {
    if |s| > 0 {
      var rest := SortBy(s[1..], le);
      SortByKeepsPairwise(s[1..], le, rel);
      var k := InsertByShape(s[0], rest, le);
      forall y | y in rest
        ensures rel(s[0], y) && rel(y, s[0])
      {
        SortByMembers(s[1..], le, y);
        var j :| 0 <= j < |s[1..]| && s[1..][j] == y;
        assert s[j + 1] == y;
      }
      PairwiseInsert(rest, k, s[0], rel);
    }
  }
}
