/** The work item ("block") and the extension methods every view uses to read it: effective-end
    resolution, the activity test and the display-name fallback. */
module Blocks {
  import opened Wrappers
  import opened Time
  import opened Text

  /** The scheduling part of a block: dimensions and coordinates are not part of this model.
      `processingTime` is a whole number of days. */
  datatype Block = Block(
    name: string,
    id: int,
    start: Instant,
    end: Instant,
    due: Option<Instant>,
    processingTime: int,
    workplace: int)

  /** The label shown for a block without a usable name. */
  const UnnamedBlockLabel: string := "(\U{BB34}\U{BA85} \U{BE14}\U{B85D})"

  /** The end used by every computation: `End` when it lies after `Start`, else a `Due` after
      `Start`, else `Start` plus a positive processing time, else none. */
  function EffectiveEnd(b: Block): (r: Option<Instant>)
    ensures b.end > b.start ==> r == Some(b.end)
    ensures b.end <= b.start && b.due.Some? && b.due.value > b.start ==> r == Some(b.due.value)
    ensures b.end <= b.start && (b.due.None? || b.due.value <= b.start) && b.processingTime > 0
            ==> r == Some(AddWholeDays(b.start, b.processingTime))
    ensures r.None? <==> b.end <= b.start && (b.due.None? || b.due.value <= b.start) && b.processingTime <= 0
    ensures r.Some? ==> r.value > b.start
  {
    if b.end > b.start then Some(b.end)
    else if b.due.Some? && b.due.value > b.start then Some(b.due.value)
    else if b.processingTime > 0 then Some(AddWholeDays(b.start, b.processingTime))
    else None
  }

  /** `GetEffectiveEnd` on a possibly-null block. */
  function EffectiveEndOf(b: Option<Block>): (r: Option<Instant>)
    ensures b.None? ==> r.None?
    ensures r.Some? ==> b.Some? && r.value > b.value.start
  {
    match b
    case None => None
    case Some(blk) => EffectiveEnd(blk)
  }

  /** `IsActiveOn`: a block is active from its start through its effective end, both inclusive,
      and forever after its start when it has no effective end. */
  function IsActiveOn(b: Option<Block>, d: Instant): (r: bool)
    ensures b.None? ==> !r
    ensures b.Some? && d < b.value.start ==> !r
    ensures b.Some? && EffectiveEnd(b.value).Some?
            ==> (r <==> b.value.start <= d <= EffectiveEnd(b.value).value)
    ensures b.Some? && EffectiveEnd(b.value).None? ==> (r <==> b.value.start <= d)
  {
    match b
    case None => false
    case Some(blk) =>
      if d < blk.start then false
      else
        var end := EffectiveEnd(blk);
        end.None? || d <= end.value
  }

  /** A block is active on its own start day, whatever its end fields hold. */
  lemma {:induction false} ActiveOnStart(b: Block)
    ensures IsActiveOn(Some(b), b.start)
  {
  }

  /** The days on which a block is active form one unbroken stretch. */
  lemma {:induction false} ActiveIsConvex(b: Option<Block>, d1: Instant, d: Instant, d2: Instant)
    requires d1 <= d <= d2
    requires IsActiveOn(b, d1) && IsActiveOn(b, d2)
    ensures IsActiveOn(b, d)
  {
  }

  /** `GetDisplayName(string?)`: the trimmed name, or the unnamed label when that is empty. */
  function DisplayName(name: Option<string>): (r: string)
    ensures |r| > 0
    ensures IsNullOrWhiteSpace(name) ==> r == UnnamedBlockLabel
    ensures !IsNullOrWhiteSpace(name) ==> r == Trim(name.value)
    ensures !IsNullOrWhiteSpace(name) ==> !IsWhiteSpace(r[0]) && !IsWhiteSpace(r[|r| - 1])
  {
    match name
    case None => UnnamedBlockLabel
    case Some(s) =>
      TrimSpec(s);
      var trimmed := Trim(s);
      if |trimmed| == 0 then UnnamedBlockLabel else trimmed
  }

  /** `GetDisplayName(Block)`: a null block is unnamed, otherwise its name is normalised. */
  function BlockDisplayName(b: Option<Block>): (r: string)
    ensures |r| > 0
    ensures b.None? ==> r == UnnamedBlockLabel
    ensures b.Some? ==> r == DisplayName(Some(b.value.name))
  {
    match b
    case None => UnnamedBlockLabel
    case Some(blk) => DisplayName(Some(blk.name))
  }
}
