/** The pie slice that carries the names and blocks behind it. Its label (`caption`) is always empty; its
    name list is cleaned of blanks, made case-insensitively distinct and sorted ignoring case. */
module BlockPieSlice {
  import opened Wrappers
  import opened Text
  import opened Sorting
  import opened Blocks

  datatype Slice = Slice(caption: string, value: real, colorKey: string, blockNames: seq<string>, blocks: seq<Block>)

  /** The names that `IsNullOrWhiteSpace` does not reject, in input order. */
  function NonBlank(names: seq<Option<string>>): (r: seq<string>)
    ensures forall k :: 0 <= k < |r| ==> !AllWhiteSpace(r[k]) && Some(r[k]) in names
    ensures forall k :: 0 <= k < |names| && !IsNullOrWhiteSpace(names[k]) ==> names[k].value in r
  {
    if |names| == 0 then []
    else if IsNullOrWhiteSpace(names[0]) then NonBlank(names[1..])
    else [names[0].value] + NonBlank(names[1..])
  }

  predicate ContainsIgnoreCase(s: seq<string>, x: string) {
    exists k :: 0 <= k < |s| && EqualsIgnoreCase(s[k], x)
  }

  predicate DistinctIgnoringCase(s: seq<string>) {
    forall i, j :: 0 <= i < j < |s| ==> !EqualsIgnoreCase(s[i], s[j])
  }

  /** `x` occurs in `s`, and no name before that occurrence equals it ignoring case: it is the
      spelling under which `s` first mentions the name. */
  predicate FirstSpelling(s: seq<string>, x: string) {
    exists i :: 0 <= i < |s| && s[i] == x && forall j :: 0 <= j < i ==> !EqualsIgnoreCase(s[j], x)
  }

  /** `Distinct(StringComparer.OrdinalIgnoreCase)`: the first spelling of each name, in order. */
  function DistinctIgnoreCase(s: seq<string>): (r: seq<string>)
    ensures DistinctIgnoringCase(r)
    ensures forall k :: 0 <= k < |r| ==> FirstSpelling(s, r[k])
    ensures forall k :: 0 <= k < |s| ==> ContainsIgnoreCase(r, s[k])
  {
    if |s| == 0 then []
    else
      var d := DistinctIgnoreCase(s[..|s| - 1]);
      var r := if ContainsIgnoreCase(d, s[|s| - 1]) then d else d + [s[|s| - 1]];
      KeepFirstSpelling(s, s[..|s| - 1], d, r);
      r
  }

  /** One step of `DistinctIgnoreCase`: the last name is kept only when no kept name equals it
      ignoring case. */
  lemma {:induction false} KeepFirstSpelling(s: seq<string>, prefix: seq<string>, d: seq<string>, r: seq<string>)
    requires |s| > 0 && prefix == s[..|s| - 1]
    requires DistinctIgnoringCase(d)
    requires forall k :: 0 <= k < |d| ==> FirstSpelling(prefix, d[k])
    requires forall k :: 0 <= k < |prefix| ==> ContainsIgnoreCase(d, prefix[k])
    requires r == if ContainsIgnoreCase(d, s[|s| - 1]) then d else d + [s[|s| - 1]]
    ensures DistinctIgnoringCase(r)
    ensures forall k :: 0 <= k < |r| ==> FirstSpelling(s, r[k])
    ensures forall k :: 0 <= k < |s| ==> ContainsIgnoreCase(r, s[k])
  {
    var last := s[|s| - 1];
    assert s == prefix + [last];
    KeepDistinct(last, d, r);
    KeepMembers(prefix, last, d, r);
    KeepCovers(prefix, last, d, r);
  }

  /** A name is added only when no kept name equals it ignoring case, so the kept names stay
      distinct. */
  lemma {:induction false} KeepDistinct(last: string, d: seq<string>, r: seq<string>)
    requires DistinctIgnoringCase(d)
    requires r == if ContainsIgnoreCase(d, last) then d else d + [last]
    ensures DistinctIgnoringCase(r)
  {
    forall i, j | 0 <= i < j < |r|
      ensures !EqualsIgnoreCase(r[i], r[j])
    {
      assert r[i] == d[i];
      if j < |d| {
        assert r[j] == d[j];
      } else {
        assert r[j] == last;
      }
    }
  }

  /** The names `DistinctIgnoreCase` keeps after one more name are first spellings: an earlier
      name keeps its first occurrence, and the last name is added only when nothing before it
      equals it ignoring case. */
  lemma {:induction false} KeepMembers(prefix: seq<string>, last: string, d: seq<string>, r: seq<string>)
    requires forall k :: 0 <= k < |d| ==> FirstSpelling(prefix, d[k])
    requires forall k :: 0 <= k < |prefix| ==> ContainsIgnoreCase(d, prefix[k])
    requires r == if ContainsIgnoreCase(d, last) then d else d + [last]
    ensures forall k :: 0 <= k < |r| ==> FirstSpelling(prefix + [last], r[k])
  {
    forall k | 0 <= k < |r|
      ensures FirstSpelling(prefix + [last], r[k])
    {
      if k < |d| {
        assert r[k] == d[k];
        FirstSpellingExtends(prefix, last, d[k]);
      } else {
        assert r[k] == last;
        NewSpellingIsFirst(prefix, last, d);
      }
    }
  }

  /** A first spelling stays first when a name is appended. */
  lemma {:induction false} FirstSpellingExtends(prefix: seq<string>, last: string, x: string)
    requires FirstSpelling(prefix, x)
    ensures FirstSpelling(prefix + [last], x)
  {
    var s := prefix + [last];
    var i :| 0 <= i < |prefix| && prefix[i] == x && forall j :: 0 <= j < i ==> !EqualsIgnoreCase(prefix[j], x);
    assert s[i] == x;
    assert forall j :: 0 <= j < i ==> s[j] == prefix[j];
  }

  /** A name no kept name equals ignoring case equals no earlier name either, so its spelling
      is the first. */
  lemma {:induction false} NewSpellingIsFirst(prefix: seq<string>, last: string, d: seq<string>)
    requires forall k :: 0 <= k < |prefix| ==> ContainsIgnoreCase(d, prefix[k])
    requires !ContainsIgnoreCase(d, last)
    ensures FirstSpelling(prefix + [last], last)
  {
    var s := prefix + [last];
    forall j | 0 <= j < |prefix|
      ensures !EqualsIgnoreCase(s[j], last)
    {
      assert s[j] == prefix[j];
      var m :| 0 <= m < |d| && EqualsIgnoreCase(d[m], prefix[j]);
    }
    assert s[|prefix|] == last;
  }

  /** After one more name, every input name still has a kept spelling. */
  lemma {:induction false} KeepCovers(prefix: seq<string>, last: string, d: seq<string>, r: seq<string>)
    requires forall k :: 0 <= k < |prefix| ==> ContainsIgnoreCase(d, prefix[k])
    requires r == if ContainsIgnoreCase(d, last) then d else d + [last]
    ensures forall k :: 0 <= k < |prefix + [last]| ==> ContainsIgnoreCase(r, (prefix + [last])[k])
  {
    var s := prefix + [last];
    forall k | 0 <= k < |s|
      ensures ContainsIgnoreCase(r, s[k])
    {
      if k < |prefix| {
        assert s[k] == prefix[k];
        var j :| 0 <= j < |d| && EqualsIgnoreCase(d[j], prefix[k]);
        assert r[j] == d[j];
      } else if !ContainsIgnoreCase(d, last) {
        assert s[k] == last && r[|d|] == last;
      }
    }
  }

  /** The case-insensitive ordinal order, as the comparison `OrderBy` is given. */
  const NameOrder: (string, string) -> bool := (a: string, b: string) => LeIgnoreCase(a, b)

  lemma {:induction false} NameOrderIsTotalPreorder()
    ensures TotalPreorder(NameOrder)
  {
    forall a: string, b: string
      ensures NameOrder(a, b) || NameOrder(b, a)
    {
      OrdinalLeTotal(Upper(a), Upper(b));
    }
    forall a: string, b: string, c: string | NameOrder(a, b) && NameOrder(b, c)
      ensures NameOrder(a, c)
    {
      OrdinalLeTrans(Upper(a), Upper(b), Upper(c));
    }
  }

  /** Sorting a case-insensitively distinct list by name keeps it distinct and keeps its members. */
  lemma {:induction false} SortNamesSpec(d: seq<string>)
    requires DistinctIgnoringCase(d)
    requires TotalPreorder(NameOrder)
    ensures DistinctIgnoringCase(SortBy(d, NameOrder))
    ensures forall k :: 0 <= k < |SortBy(d, NameOrder)| ==> SortBy(d, NameOrder)[k] in d
    ensures forall x :: x in d ==> x in SortBy(d, NameOrder)
  {
    NameOrderIsTotalPreorder();
    var r := SortBy(d, NameOrder);
    SortByKeepsPairwise(d, NameOrder, (a: string, b: string) => !EqualsIgnoreCase(a, b));
    forall x | x in d || x in r
      ensures x in d <==> x in r
    {
      SortByMembers(d, NameOrder, x);
    }
  }

  /** The names kept from a non-null `displayNames`. */
  function NormaliseList(ns: seq<Option<string>>): (r: seq<string>)
    ensures forall k :: 0 <= k < |r| ==> !AllWhiteSpace(r[k]) && Some(r[k]) in ns
    ensures DistinctIgnoringCase(r)
    ensures forall i, j :: 0 <= i < j < |r| ==> LeIgnoreCase(r[i], r[j])
    ensures forall k :: 0 <= k < |ns| && !IsNullOrWhiteSpace(ns[k]) ==> ContainsIgnoreCase(r, ns[k].value)
    ensures forall k :: 0 <= k < |r| ==> FirstNonBlankSpelling(ns, r[k])
  {
    var kept := NonBlank(ns);
    var d := DistinctIgnoreCase(kept);
    NameOrderIsTotalPreorder();
    SortNamesSpec(d);
    var r := SortBy(d, NameOrder);
    NormaliseListCovers(ns, kept, d, r);
    KeptSpellingsFirst(ns, r);
    r
  }

  /** Names drawn from the first spellings of the non-blank names are first spellings of `ns`. */
  lemma {:induction false} KeptSpellingsFirst(ns: seq<Option<string>>, r: seq<string>)
    requires forall k :: 0 <= k < |r| ==> r[k] in DistinctIgnoreCase(NonBlank(ns))
    ensures forall k :: 0 <= k < |r| ==> FirstNonBlankSpelling(ns, r[k])
  {
    forall k | 0 <= k < |r|
      ensures FirstNonBlankSpelling(ns, r[k])
    {
      KeptSpellingFirst(ns, r[k]);
    }
  }

  lemma {:induction false} KeptSpellingFirst(ns: seq<Option<string>>, x: string)
    requires x in DistinctIgnoreCase(NonBlank(ns))
    ensures FirstNonBlankSpelling(ns, x)
  {
    var d := DistinctIgnoreCase(NonBlank(ns));
    var m :| 0 <= m < |d| && d[m] == x;
    assert FirstSpelling(NonBlank(ns), d[m]);
    NonBlankFirst(ns, x);
  }

  /** `x` is the spelling under which the non-blank names of `ns` first mention it. */
  predicate FirstNonBlankSpelling(ns: seq<Option<string>>, x: string) {
    exists i :: 0 <= i < |ns| && ns[i] == Some(x) &&
      forall j :: 0 <= j < i && !IsNullOrWhiteSpace(ns[j]) ==> !EqualsIgnoreCase(ns[j].value, x)
  }

  /** A first spelling among the kept names is a first spelling among the non-blank names. */
  lemma {:induction false} NonBlankFirst(ns: seq<Option<string>>, x: string)
    requires FirstSpelling(NonBlank(ns), x)
    ensures FirstNonBlankSpelling(ns, x)
  {
    var kept := NonBlank(ns);
    var i :| 0 <= i < |kept| && kept[i] == x && forall j :: 0 <= j < i ==> !EqualsIgnoreCase(kept[j], x);
    if IsNullOrWhiteSpace(ns[0]) {
      NonBlankFirst(ns[1..], x);
      FirstNonBlankAfter(ns, x);
    } else if i == 0 {
      assert ns[0] == Some(x);
    } else {
      var rest := NonBlank(ns[1..]);
      assert kept == [ns[0].value] + rest;
      assert rest[i - 1] == x;
      assert forall j :: 0 <= j < i - 1 ==> rest[j] == kept[j + 1];
      assert FirstSpelling(rest, x);
      NonBlankFirst(ns[1..], x);
      assert !EqualsIgnoreCase(ns[0].value, x) by {
        assert kept[0] == ns[0].value;
      }
      FirstNonBlankAfter(ns, x);
    }
  }

  /** A first spelling after the first name stays first when that name is blank or a different
      name. */
  lemma {:induction false} FirstNonBlankAfter(ns: seq<Option<string>>, x: string)
    requires |ns| > 0 && FirstNonBlankSpelling(ns[1..], x)
    requires IsNullOrWhiteSpace(ns[0]) || !EqualsIgnoreCase(ns[0].value, x)
    ensures FirstNonBlankSpelling(ns, x)
  {
    var i :| 0 <= i < |ns[1..]| && ns[1..][i] == Some(x) &&
      forall j :: 0 <= j < i && !IsNullOrWhiteSpace(ns[1..][j]) ==> !EqualsIgnoreCase(ns[1..][j].value, x);
    assert ns[i + 1] == Some(x);
    forall j | 0 <= j < i + 1 && !IsNullOrWhiteSpace(ns[j])
      ensures !EqualsIgnoreCase(ns[j].value, x)
    {
      if j > 0 {
        assert ns[j] == ns[1..][j - 1];
      }
    }
  }

  lemma {:induction false} NormaliseListCovers(ns: seq<Option<string>>, kept: seq<string>, d: seq<string>, r: seq<string>)
    requires kept == NonBlank(ns)
    requires forall k :: 0 <= k < |kept| ==> ContainsIgnoreCase(d, kept[k])
    requires forall x :: x in d ==> x in r
    ensures forall k :: 0 <= k < |ns| && !IsNullOrWhiteSpace(ns[k]) ==> ContainsIgnoreCase(r, ns[k].value)
  {
    forall k | 0 <= k < |ns| && !IsNullOrWhiteSpace(ns[k])
      ensures ContainsIgnoreCase(r, ns[k].value)
    {
      assert ns[k].value in kept;
      var i :| 0 <= i < |kept| && kept[i] == ns[k].value;
      var j :| 0 <= j < |d| && EqualsIgnoreCase(d[j], kept[i]);
      assert d[j] in r;
      var m :| 0 <= m < |r| && r[m] == d[j];
      assert EqualsIgnoreCase(r[m], ns[k].value);
    }
  }

  /** The `BlockNames` list built by the constructor. */
  function NormaliseNames(names: Option<seq<Option<string>>>): (r: seq<string>)
    ensures names.None? ==> r == []
    ensures names.Some? ==> r == NormaliseList(names.value)
  {
    match names
    case None => []
    case Some(ns) => NormaliseList(ns)
  }

  /** The non-null blocks, in input order. */
  function NonNullBlocks(blocks: seq<Option<Block>>): (r: seq<Block>)
    ensures |r| <= |blocks|
    ensures forall k :: 0 <= k < |r| ==> Some(r[k]) in blocks
    ensures forall k :: 0 <= k < |blocks| && blocks[k].Some? ==> blocks[k].value in r
    ensures (forall k :: 0 <= k < |blocks| ==> blocks[k].Some?) ==> |r| == |blocks|
  {
    if |blocks| == 0 then []
    else match blocks[0]
      case None => NonNullBlocks(blocks[1..])
      case Some(b) => [b] + NonNullBlocks(blocks[1..])
  }

  /** Each block is kept as often as it occurs in the input. */
  lemma {:induction false} NonNullBlocksCounts(blocks: seq<Option<Block>>)
    ensures forall x :: multiset(NonNullBlocks(blocks))[x] == multiset(blocks)[Some(x)]
  {
    if |blocks| > 0 {
      var rest := NonNullBlocks(blocks[1..]);
      NonNullBlocksCounts(blocks[1..]);
      assert blocks == [blocks[0]] + blocks[1..];
      assert multiset(blocks) == multiset{blocks[0]} + multiset(blocks[1..]);
      var head := if blocks[0].Some? then [blocks[0].value] else [];
      assert NonNullBlocks(blocks) == head + rest;
      assert multiset(NonNullBlocks(blocks)) == multiset(head) + multiset(rest);
    }
  }

  /** Dropping the nulls commutes with concatenation, so the kept blocks keep their input order. */
  lemma {:induction false} NonNullBlocksAppend(a: seq<Option<Block>>, b: seq<Option<Block>>)
    ensures NonNullBlocks(a + b) == NonNullBlocks(a) + NonNullBlocks(b)
    decreases |a|
  {
    if |a| == 0 {
      assert a + b == b;
    } else {
      var ab := a + b;
      assert ab[0] == a[0];
      assert ab[1..] == a[1..] + b;
      NonNullBlocksAppend(a[1..], b);
      if a[0].Some? {
        calc {
          NonNullBlocks(ab);
          [a[0].value] + NonNullBlocks(a[1..] + b);
          [a[0].value] + (NonNullBlocks(a[1..]) + NonNullBlocks(b));
          ([a[0].value] + NonNullBlocks(a[1..])) + NonNullBlocks(b);
        }
      }
    }
  }

  /** The constructor `BlockPieSlice(colorKey, displayNames, value, blocks)`. */
  function NewSlice(colorKey: Option<string>, displayNames: Option<seq<Option<string>>>, value: real,
                    blocks: Option<seq<Option<Block>>>): (r: Slice)
    ensures r.caption == "" && r.value == value
    ensures colorKey.None? ==> r.colorKey == ""
    ensures colorKey.Some? ==> r.colorKey == colorKey.value
    ensures r.blockNames == NormaliseNames(displayNames)
    ensures blocks.None? ==> r.blocks == []
    ensures blocks.Some? ==> r.blocks == NonNullBlocks(blocks.value)
  {
    Slice("", value, colorKey.GetOr(""), NormaliseNames(displayNames),
          match blocks case None => [] case Some(bs) => NonNullBlocks(bs))
  }

  /** `RepresentativeName`: the first name, which is the least ignoring case, or empty. */
  function RepresentativeName(s: Slice): (r: string)
    requires forall i, j :: 0 <= i < j < |s.blockNames| ==> LeIgnoreCase(s.blockNames[i], s.blockNames[j])
    ensures |s.blockNames| == 0 ==> r == ""
    ensures |s.blockNames| > 0 ==> r in s.blockNames && forall n :: n in s.blockNames ==> LeIgnoreCase(r, n)
  {
    if |s.blockNames| > 0 then
      assert forall n :: n in s.blockNames ==> LeIgnoreCase(s.blockNames[0], n) by {
        forall n | n in s.blockNames
          ensures LeIgnoreCase(s.blockNames[0], n)
        {
          var k :| 0 <= k < |s.blockNames| && s.blockNames[k] == n;
          if k == 0 {
            OrdinalLeTotal(Upper(n), Upper(n));
          }
        }
      }
      s.blockNames[0]
    else ""
  }

  /** `SingleBlock`: the block when there is exactly one. */
  function SingleBlock(s: Slice): (r: Option<Block>)
    ensures r.Some? <==> |s.blocks| == 1
    ensures r.Some? ==> r.value == s.blocks[0]
  {
    if |s.blocks| == 1 then Some(s.blocks[0]) else None
  }
}
