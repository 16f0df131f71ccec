/** The .NET string primitives the views rely on: `char.IsWhiteSpace`, `string.Trim`,
    `string.IsNullOrWhiteSpace`, and the `StringComparer.OrdinalIgnoreCase` equality and order. */
module Text {
  import opened Wrappers

  /** `char.IsWhiteSpace`: the Unicode space separators, line and paragraph separators,
      U+0009 to U+000D, U+0085 and U+00A0. */
  predicate IsWhiteSpace(c: char) {
    || ('\U{0009}' <= c <= '\U{000D}')
    || c == '\U{0020}' || c == '\U{0085}' || c == '\U{00A0}' || c == '\U{1680}'
    || ('\U{2000}' <= c <= '\U{200A}')
    || c == '\U{2028}' || c == '\U{2029}' || c == '\U{202F}' || c == '\U{205F}' || c == '\U{3000}'
  }

  predicate AllWhiteSpace(s: string) {
    forall k :: 0 <= k < |s| ==> IsWhiteSpace(s[k])
  }

  /** `TrimStart()`: drops the leading white space and nothing else. */
  function TrimStart(s: string): (r: string)
    ensures |r| <= |s| && r == s[|s| - |r|..]
    ensures AllWhiteSpace(s[..|s| - |r|])
    ensures |r| > 0 ==> !IsWhiteSpace(r[0])
  {
    if |s| > 0 && IsWhiteSpace(s[0]) then TrimStart(s[1..]) else s
  }

  /** `TrimEnd()`: drops the trailing white space and nothing else. */
  function TrimEnd(s: string): (r: string)
    ensures |r| <= |s| && r == s[..|r|]
    ensures AllWhiteSpace(s[|r|..])
    ensures |r| > 0 ==> !IsWhiteSpace(r[|r| - 1])
  {
    if |s| > 0 && IsWhiteSpace(s[|s| - 1]) then TrimEnd(s[..|s| - 1]) else s
  }

  /** `Trim()`: a piece of `s` that neither starts nor ends with white space. */
  function Trim(s: string): (r: string)
    ensures |r| <= |s|
    ensures |r| > 0 ==> !IsWhiteSpace(r[0]) && !IsWhiteSpace(r[|r| - 1])
  {
    var t := TrimStart(s);
    var r := TrimEnd(t);
    assert |r| > 0 ==> r[0] == t[0];
    r
  }

  lemma {:induction false} WhiteSpaceConcat(a: string, b: string)
    ensures AllWhiteSpace(a + b) <==> AllWhiteSpace(a) && AllWhiteSpace(b)
  {
    if AllWhiteSpace(a) && AllWhiteSpace(b) {
      forall k | 0 <= k < |a + b|
        ensures IsWhiteSpace((a + b)[k])
      {
        if k < |a| {
          assert (a + b)[k] == a[k];
        } else {
          assert (a + b)[k] == b[k - |a|];
        }
      }
    }
    if AllWhiteSpace(a + b) {
      forall k | 0 <= k < |a|
        ensures IsWhiteSpace(a[k])
      {
        assert (a + b)[k] == a[k];
      }
      forall k | 0 <= k < |b|
        ensures IsWhiteSpace(b[k])
      {
        assert (a + b)[k + |a|] == b[k];
      }
    }
  }

  /** The position in `s` where `Trim(s)` begins. */
  lemma {:induction false} TrimPosition(s: string) returns (i: nat)
    ensures i <= |s| - |Trim(s)| && Trim(s) == s[i..i + |Trim(s)|]
    ensures AllWhiteSpace(s[..i]) && AllWhiteSpace(s[i + |Trim(s)|..])
  {
    var t := TrimStart(s);
    var r := TrimEnd(t);
    i := |s| - |t|;
    SliceOfSuffix(s, i, |r|);
  }

  lemma {:induction false} SliceOfSuffix(s: string, i: nat, n: nat)
    requires i + n <= |s|
    ensures s[i..][..n] == s[i..i + n] && s[i..][n..] == s[i + n..]
  {
  }

  /** `Trim()` keeps a contiguous run of `s` whose ends are not white space and cuts off only white
      space; it is empty exactly when `s` is all white space. */
  lemma {:induction false} TrimSpec(s: string)
    ensures |Trim(s)| == 0 <==> AllWhiteSpace(s)
    ensures |Trim(s)| > 0 ==> !IsWhiteSpace(Trim(s)[0]) && !IsWhiteSpace(Trim(s)[|Trim(s)| - 1])
    ensures exists i :: 0 <= i <= |s| - |Trim(s)| && Trim(s) == s[i..i + |Trim(s)|]
                        && AllWhiteSpace(s[..i]) && AllWhiteSpace(s[i + |Trim(s)|..])
  {
    var r := Trim(s);
    var i := TrimPosition(s);
    assert s == s[..i] + s[i..];
    WhiteSpaceConcat(s[..i], s[i..]);
    if |r| > 0 {
      assert s[i] == r[0];
    }
  }

  /** `string.IsNullOrWhiteSpace`. */
  predicate IsNullOrWhiteSpace(s: Option<string>) {
    s.None? || AllWhiteSpace(s.value)
  }

  /** The per-character case folding of `OrdinalIgnoreCase`: upper-casing of the ASCII letters. */
  function UpperChar(c: char): (r: char)
    ensures 'a' <= c <= 'z' ==> r as int == c as int - 32
    ensures !('a' <= c <= 'z') ==> r == c
    ensures !('a' <= r <= 'z')
  {
    if 'a' <= c <= 'z' then (c as int - 32) as char else c
  }

  function Upper(s: string): (r: string)
    ensures |r| == |s|
    ensures forall k :: 0 <= k < |s| ==> r[k] == UpperChar(s[k])
  {
    if |s| == 0 then [] else [UpperChar(s[0])] + Upper(s[1..])
  }

  /** Equality under `StringComparer.OrdinalIgnoreCase`. */
  predicate EqualsIgnoreCase(a: string, b: string) {
    Upper(a) == Upper(b)
  }

  // ---------------------------------------------------------------------------------------
  // UTF-16: a .NET string is a sequence of 16-bit code units

  predicate IsHighSurrogate(u: int) {
    0xD800 <= u <= 0xDBFF
  }

  predicate IsLowSurrogate(u: int) {
    0xDC00 <= u <= 0xDFFF
  }

  /** The UTF-16 code units of one character: the character itself up to U+FFFF, a surrogate
      pair above. */
  function CodeUnits(c: char): (r: seq<int>)
    ensures |r| == 1 || |r| == 2
    ensures forall k :: 0 <= k < |r| ==> 0 <= r[k] <= 0xFFFF
    ensures |r| == 1 <==> c as int <= 0xFFFF
    ensures |r| == 1 ==> r[0] == c as int && !IsHighSurrogate(r[0]) && !IsLowSurrogate(r[0])
    ensures |r| == 2 ==> IsHighSurrogate(r[0]) && IsLowSurrogate(r[1])
                         && c as int == 0x1_0000 + (r[0] - 0xD800) * 0x400 + (r[1] - 0xDC00)
  {
    var v := c as int;
    if v <= 0xFFFF then [v]
    else [0xD800 + (v - 0x1_0000) / 0x400, 0xDC00 + (v - 0x1_0000) % 0x400]
  }

  /** The code units of a string, the ones `foreach` and ordinal comparison visit. */
  function Utf16(s: string): (r: seq<int>)
    ensures |s| <= |r| <= 2 * |s|
    ensures forall k :: 0 <= k < |r| ==> 0 <= r[k] <= 0xFFFF
  {
    if |s| == 0 then [] else CodeUnits(s[0]) + Utf16(s[1..])
  }

  /** Up to U+FFFF every character is a single code unit of its own value. */
  lemma {:induction false} Utf16OfBmp(s: string)
    requires forall k :: 0 <= k < |s| ==> s[k] as int <= 0xFFFF
    ensures |Utf16(s)| == |s|
    ensures forall k :: 0 <= k < |s| ==> Utf16(s)[k] == s[k] as int
  {
    if |s| > 0 {
      Utf16OfBmp(s[1..]);
      forall k | 0 <= k < |s|
        ensures Utf16(s)[k] == s[k] as int
      {
        if k > 0 {
          assert s[1..][k - 1] == s[k];
        }
      }
    }
  }

  /** Different strings have different code units: the encoding loses nothing. */
  lemma {:induction false} Utf16Injective(a: string, b: string)
    requires Utf16(a) == Utf16(b)
    ensures a == b
  {
    if |a| > 0 && |b| > 0 {
      var ua, ub := CodeUnits(a[0]), CodeUnits(b[0]);
      assert Utf16(a) == ua + Utf16(a[1..]) && Utf16(b) == ub + Utf16(b[1..]);
      assert ua[0] == Utf16(a)[0] == ub[0];
      assert |ua| == |ub|;
      assert ua == Utf16(a)[..|ua|] == ub;
      assert Utf16(a[1..]) == Utf16(a)[|ua|..] == Utf16(b[1..]);
      Utf16Injective(a[1..], b[1..]);
      assert a == [a[0]] + a[1..] && b == [b[0]] + b[1..];
    }
  }

  // ---------------------------------------------------------------------------------------
  // Ordinal order

  /** Code unit by code unit, a proper prefix first. */
  predicate UnitsLe(a: seq<int>, b: seq<int>) {
    if |a| == 0 then true
    else if |b| == 0 then false
    else if a[0] != b[0] then a[0] < b[0]
    else UnitsLe(a[1..], b[1..])
  }

  /** Ordinal order: the strings' UTF-16 code units compared in turn. Any two strings are
      ordered one way or the other, and only equal strings both ways. */
  predicate OrdinalLe(a: string, b: string)
    ensures OrdinalLe(a, b) || UnitsLe(Utf16(b), Utf16(a))
    ensures OrdinalLe(a, b) && UnitsLe(Utf16(b), Utf16(a)) ==> a == b
  {
    UnitsLeTotal(Utf16(a), Utf16(b));
    if UnitsLe(Utf16(a), Utf16(b)) && UnitsLe(Utf16(b), Utf16(a)) then
      UnitsLeAntisym(Utf16(a), Utf16(b));
      Utf16Injective(a, b);
      true
    else UnitsLe(Utf16(a), Utf16(b))
  }

  /** `StringComparer.OrdinalIgnoreCase.Compare(a, b) <= 0`. */
  predicate LeIgnoreCase(a: string, b: string) {
    OrdinalLe(Upper(a), Upper(b))
  }

  lemma {:induction false} UnitsLeTotal(a: seq<int>, b: seq<int>)
    ensures UnitsLe(a, b) || UnitsLe(b, a)
  {
    if |a| > 0 && |b| > 0 && a[0] == b[0] {
      UnitsLeTotal(a[1..], b[1..]);
    }
  }

  lemma {:induction false} UnitsLeTrans(a: seq<int>, b: seq<int>, c: seq<int>)
    requires UnitsLe(a, b) && UnitsLe(b, c)
    ensures UnitsLe(a, c)
  {
    if |a| > 0 && |b| > 0 && |c| > 0 && a[0] == b[0] && b[0] == c[0] {
      UnitsLeTrans(a[1..], b[1..], c[1..]);
    }
  }

  lemma {:induction false} UnitsLeAntisym(a: seq<int>, b: seq<int>)
    requires UnitsLe(a, b) && UnitsLe(b, a)
    ensures a == b
  {
    if |a| > 0 && |b| > 0 {
      UnitsLeAntisym(a[1..], b[1..]);
      assert a == [a[0]] + a[1..] && b == [b[0]] + b[1..];
    }
  }

  lemma {:induction false} OrdinalLeTotal(a: string, b: string)
    ensures OrdinalLe(a, b) || OrdinalLe(b, a)
  {
    UnitsLeTotal(Utf16(a), Utf16(b));
  }

  lemma {:induction false} OrdinalLeTrans(a: string, b: string, c: string)
    requires OrdinalLe(a, b) && OrdinalLe(b, c)
    ensures OrdinalLe(a, c)
  {
    UnitsLeTrans(Utf16(a), Utf16(b), Utf16(c));
  }

  lemma {:induction false} OrdinalLeAntisym(a: string, b: string)
    requires OrdinalLe(a, b) && OrdinalLe(b, a)
    ensures a == b
  {
    UnitsLeAntisym(Utf16(a), Utf16(b));
    Utf16Injective(a, b);
  }

  /** Ordinal order is not the order of the characters: a character above U+FFFF starts with a
      surrogate, so it sorts below U+E000 to U+FFFF. */
  lemma {:induction false} SurrogatesSortBelowPrivateUse()
    ensures OrdinalLe("\U{1F600}", "\U{E000}") && !OrdinalLe("\U{E000}", "\U{1F600}")
    ensures "\U{E000}"[0] < "\U{1F600}"[0]
  {
    assert Utf16("\U{1F600}") == [0xD83D, 0xDE00] by {
      assert Utf16("\U{1F600}"[1..]) == [];
    }
    assert Utf16("\U{E000}") == [0xE000] by {
      assert Utf16("\U{E000}"[1..]) == [];
    }
  }

  /** Two names the case-insensitive order cannot tell apart are equal ignoring case. */
  lemma {:induction false} LeIgnoreCaseAntisym(a: string, b: string)
    requires LeIgnoreCase(a, b) && LeIgnoreCase(b, a)
    ensures EqualsIgnoreCase(a, b)
  {
    OrdinalLeAntisym(Upper(a), Upper(b));
  }
}
