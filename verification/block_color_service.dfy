/** The shared name-to-colour service: a 32-bit string hash chooses a hue and two 6-bit tone
    fields, and three case-insensitive caches remember the colour, brush and chart colour handed
    out for each name. */
module BlockColorService {
  import opened Wrappers
  import opened Text
  import IntExtensions

  /** A colour as the service produces it. Colours made from a hash are kept in the HSL terms
      they are built from; the conversion to bytes is not part of this model. */
  datatype Color = Rgb(r: int, g: int, b: int) | Hsl(hue: int, saturation: real, lightness: real)

  /** A frozen `SolidColorBrush` and an OxyPlot colour carrying the same colour. */
  datatype Brush = SolidBrush(color: Color)
  datatype ChartColor = ChartColor(color: Color)

  const DefaultColor: Color := Rgb(204, 204, 204)
  const DefaultBrush: Brush := SolidBrush(DefaultColor)
  const DefaultChartColor: ChartColor := ChartColor(DefaultColor)

  /** The hash before any wrap-around: 17 * 31^n plus each code unit weighted by 31^(n-1-i). */
  function HashPolynomial(units: seq<int>): int {
    if |units| == 0 then 17 else HashPolynomial(units[..|units| - 1]) * 31 + units[|units| - 1]
  }

  /** The loop `hash = hash * 31 + ch` from 17 over the code units, wrapping at every step. */
  function HashUnits(units: seq<int>): (r: int)
    ensures IntExtensions.IsInt32(r)
  {
    if |units| == 0 then 17
    else IntExtensions.Wrap32(HashUnits(units[..|units| - 1]) * 31 + units[|units| - 1])
  }

  /** `ComputeStableHash`: `foreach (var ch in key)` visits the UTF-16 code units of the key. */
  function StableHash(key: string): (r: int)
    ensures IntExtensions.IsInt32(r)
  {
    HashUnits(Utf16(key))
  }

  /** Wrapping at every step gives the same value as wrapping once at the end. */
  lemma {:induction false} Wrap32Absorbs(a: int, c: int)
    ensures IntExtensions.Wrap32(IntExtensions.Wrap32(a) * 31 + c) == IntExtensions.Wrap32(a * 31 + c)
  {
    var m := IntExtensions.TwoTo32;
    var lo := IntExtensions.MinInt32;
    var q := (a - lo) / m;
    assert a - lo == q * m + (a - lo) % m;
    assert IntExtensions.Wrap32(a) == a - q * m;
    var x := a * 31 + c - lo;
    assert IntExtensions.Wrap32(a) * 31 + c - lo == x + (-31 * q) * m;
    IntExtensions.ModShift(x, -31 * q, m);
  }

  /** Wrapping at every step of the loop gives the hash polynomial, wrapped once. */
  lemma {:induction false} HashUnitsIsPolynomial(units: seq<int>)
    ensures HashUnits(units) == IntExtensions.Wrap32(HashPolynomial(units))
  {
    if |units| > 0 {
      var prefix := units[..|units| - 1];
      HashUnitsIsPolynomial(prefix);
      Wrap32Absorbs(HashPolynomial(prefix), units[|units| - 1]);
    }
  }

  /** The stable hash is the hash polynomial of the key's code units, reduced to 32 bits; up to
      U+FFFF the code units are the characters themselves. */
  lemma {:induction false} StableHashIsPolynomial(key: string)
    ensures StableHash(key) == IntExtensions.Wrap32(HashPolynomial(Utf16(key)))
    ensures (forall k :: 0 <= k < |key| ==> key[k] as int <= 0xFFFF) ==>
              StableHash(key) == IntExtensions.Wrap32(HashPolynomial(seq(|key|, k requires 0 <= k < |key| => key[k] as int)))
  {
    HashUnitsIsPolynomial(Utf16(key));
    if forall k :: 0 <= k < |key| ==> key[k] as int <= 0xFFFF {
      Utf16OfBmp(key);
      assert Utf16(key) == seq(|key|, k requires 0 <= k < |key| => key[k] as int);
    }
  }

  /** A character above U+FFFF is hashed as its two surrogates, one step each. */
  lemma {:induction false} StableHashOfSurrogatePair()
    ensures StableHash("\U{1F600}") == IntExtensions.Wrap32((17 * 31 + 0xD83D) * 31 + 0xDE00)
  {
    var units := Utf16("\U{1F600}");
    assert units == [0xD83D, 0xDE00] by {
      assert Utf16("\U{1F600}"[1..]) == [];
    }
    HashUnitsIsPolynomial(units);
    assert units[..1] == [0xD83D] && units[..1][..0] == [];
  }

  /** `(hash % 360 + 360) % 360`: the hue, in whole degrees. */
  function Hue(hash: int): (r: int)
    requires IntExtensions.IsInt32(hash)
    ensures 0 <= r < 360
    ensures r == hash % 360
  {
    IntExtensions.ModAgreesWithoutOverflow(hash, 360);
    match IntExtensions.ModAsWritten(hash, 360)
    case Success(v) => v
    case Failure(_) => 0
  }

  /** `(hash >> shift) & 0x3F` on a 32-bit `int`: the arithmetic shift is floor division by a
      power of two, and masking the low six bits of a two's-complement value is the residue
      modulo 64. */
  function SixBits(hash: int, shift: nat): (r: int)
    ensures 0 <= r <= 63
  {
    (hash / Pow2(shift)) % 64
  }

  function Pow2(n: nat): (r: int)
    ensures r >= 1
  {
    if n == 0 then 1 else 2 * Pow2(n - 1)
  }

  /** A tone component `base + bits / 255`, clamped at `cap`. */
  function Tone(base: real, bits: int, cap: real): real {
    var v := base + bits as real / 255.0;
    if v > cap then cap else v
  }

  /** `CreateColor` up to the HSL conversion. */
  function CreateColor(key: string): (r: Color)
    ensures r.Hsl? && 0 <= r.hue < 360
    ensures 0.55 <= r.saturation < 0.85 && 0.45 <= r.lightness < 0.75
  {
    var hash := StableHash(key);
    Hsl(Hue(hash), Tone(0.55, SixBits(hash, 8), 0.85), Tone(0.45, SixBits(hash, 16), 0.75))
  }

  /** The clamps in `CreateColor` never fire: six bits over 255 stay below both caps. */
  lemma {:induction false} TonesNeverClamped(hash: int)
    ensures Tone(0.55, SixBits(hash, 8), 0.85) == 0.55 + SixBits(hash, 8) as real / 255.0
    ensures Tone(0.45, SixBits(hash, 16), 0.75) == 0.45 + SixBits(hash, 16) as real / 255.0
  {
  }

  /** The three caches. `OrdinalIgnoreCase` keys are modelled by their upper-cased spelling. */
  datatype Caches = Caches(colors: map<string, Color>, brushes: map<string, Brush>, chartColors: map<string, ChartColor>)

  const Empty: Caches := Caches(map[], map[], map[])

  /** Every cached brush and chart colour carries the cached colour of the same key. */
  ghost predicate Coherent(c: Caches) {
    && (forall k :: k in c.brushes ==> k in c.colors && c.brushes[k] == SolidBrush(c.colors[k]))
    && (forall k :: k in c.chartColors ==> k in c.colors && c.chartColors[k] == ChartColor(c.colors[k]))
  }

  /** Upper-casing only touches ASCII letters, so it keeps a name blank or non-blank. */
  lemma {:induction false} UpperKeepsBlankness(s: string)
    ensures AllWhiteSpace(Upper(s)) <==> AllWhiteSpace(s)
  {
    assert forall k :: 0 <= k < |s| ==> (IsWhiteSpace(Upper(s)[k]) <==> IsWhiteSpace(s[k]));
  }

  /** `GetColor`: a blank name gets the default colour; otherwise the cached colour of any
      spelling of the name, or a fresh hash colour that is cached. */
  function GetColor(c: Caches, name: Option<string>): (r: (Caches, Color))
    ensures IsNullOrWhiteSpace(name) ==> r == (c, DefaultColor)
    ensures !IsNullOrWhiteSpace(name) && Upper(name.value) in c.colors ==> r == (c, c.colors[Upper(name.value)])
    ensures !IsNullOrWhiteSpace(name) && Upper(name.value) !in c.colors
            ==> r.1 == CreateColor(name.value) && r.0 == c.(colors := c.colors[Upper(name.value) := r.1])
    ensures !IsNullOrWhiteSpace(name) ==> Upper(name.value) in r.0.colors && r.0.colors[Upper(name.value)] == r.1
    ensures Coherent(c) ==> Coherent(r.0)
  {
    if IsNullOrWhiteSpace(name) then (c, DefaultColor)
    else
      var key := Upper(name.value);
      if key in c.colors then (c, c.colors[key])
      else
        var color := CreateColor(name.value);
        (c.(colors := c.colors[key := color]), color)
  }

  /** `GetBrush`: the default brush for a blank name, otherwise a cached brush or a new one made
      from `GetColor`. A new brush is cached under the name, and the colour `GetColor` cached on
      the way stays cached. */
  function GetBrush(c: Caches, name: Option<string>): (r: (Caches, Brush))
    ensures IsNullOrWhiteSpace(name) ==> r == (c, DefaultBrush)
    ensures Coherent(c) ==> Coherent(r.0)
    ensures Coherent(c) ==> r.1 == SolidBrush(GetColor(c, name).1)
    ensures !IsNullOrWhiteSpace(name) && Upper(name.value) in c.brushes ==> r == (c, c.brushes[Upper(name.value)])
    ensures !IsNullOrWhiteSpace(name) ==> r.0.brushes == c.brushes[Upper(name.value) := r.1] && r.0.chartColors == c.chartColors
    ensures Coherent(c) && !IsNullOrWhiteSpace(name) ==> r.0.colors == GetColor(c, name).0.colors
  {
    if IsNullOrWhiteSpace(name) then (c, DefaultBrush)
    else
      var key := Upper(name.value);
      if key in c.brushes then (c, c.brushes[key])
      else
        var (c1, color) := GetColor(c, name);
        var brush := SolidBrush(color);
        (c1.(brushes := c1.brushes[key := brush]), brush)
  }

  /** `GetOxyColor`: the default for a blank name, otherwise a cached chart colour or a new one
      made from `GetColor`. A new chart colour is cached under the name, and the colour
      `GetColor` cached on the way stays cached. */
  function GetChartColor(c: Caches, name: Option<string>): (r: (Caches, ChartColor))
    ensures IsNullOrWhiteSpace(name) ==> r == (c, DefaultChartColor)
    ensures Coherent(c) ==> Coherent(r.0)
    ensures Coherent(c) ==> r.1 == ChartColor(GetColor(c, name).1)
    ensures !IsNullOrWhiteSpace(name) && Upper(name.value) in c.chartColors ==> r == (c, c.chartColors[Upper(name.value)])
    ensures !IsNullOrWhiteSpace(name) ==> r.0.chartColors == c.chartColors[Upper(name.value) := r.1] && r.0.brushes == c.brushes
    ensures Coherent(c) && !IsNullOrWhiteSpace(name) ==> r.0.colors == GetColor(c, name).0.colors
  {
    if IsNullOrWhiteSpace(name) then (c, DefaultChartColor)
    else
      var key := Upper(name.value);
      if key in c.chartColors then (c, c.chartColors[key])
      else
        var (c1, color) := GetColor(c, name);
        var chart := ChartColor(color);
        (c1.(chartColors := c1.chartColors[key := chart]), chart)
  }

  /** Once a name has been coloured, every spelling of it that differs only in case gets the
      same colour and leaves the caches as they are. */
  lemma {:induction false} GetColorMemoisedIgnoringCase(c: Caches, name: string, other: string)
    requires !IsNullOrWhiteSpace(Some(name))
    requires EqualsIgnoreCase(name, other)
    ensures GetColor(GetColor(c, Some(name)).0, Some(other)) == GetColor(c, Some(name))
  {
    UpperKeepsBlankness(name);
    UpperKeepsBlankness(other);
  }

  /** Asking for a brush or a chart colour first caches the colour itself: any later spelling of
      the name that differs only in case gets the colour the first spelling hashed to. */
  lemma {:induction false} BrushFixesColour(c: Caches, name: string, other: string)
    requires Coherent(c)
    requires !IsNullOrWhiteSpace(Some(name))
    requires EqualsIgnoreCase(name, other)
    ensures GetColor(GetBrush(c, Some(name)).0, Some(other)).1 == GetColor(c, Some(name)).1
    ensures GetColor(GetChartColor(c, Some(name)).0, Some(other)).1 == GetColor(c, Some(name)).1
  {
    UpperKeepsBlankness(name);
    UpperKeepsBlankness(other);
  }

  /** `Reset`: all three caches are emptied, so the next colour for a name is its hash colour. */
  function Reset(c: Caches): (r: Caches)
    ensures |r.colors| == 0 && |r.brushes| == 0 && |r.chartColors| == 0
    ensures Coherent(r)
    ensures forall n :: !IsNullOrWhiteSpace(Some(n)) ==> GetColor(r, Some(n)).1 == CreateColor(n)
  {
    Empty
  }
}
