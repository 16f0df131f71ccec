# BlockViz scheduling core in Dafny

BlockViz shows a shipyard block schedule three ways. A 3D factory floor shows the blocks live on
the current simulation date. A Gantt chart draws one row per workplace. Six pies show how each
workplace's time so far splits among blocks and idle time. A simulation clock moves the current
date one step per timer tick. The ribbon loads a schedule file and drives the clock. A shared
colour service gives every block name a stable colour.

This project models the scheduling logic behind those views and proves what it guarantees:

- **Blocks** (`blocks.dfy`): the effective end of a block (end, else due date, else start plus
  processing days), the inclusive activity test, and the display-name fallback.
- **Clock** (`simulation_service.dfy`, `time.dfy`): the current date, direction, speed and
  timer switch. A tick moves the date by `direction * speed` days, rounded to whole
  milliseconds as `DateTime.AddDays` rounds.
- **Colours** (`block_color_service.dfy`): the 32-bit polynomial string hash, the hue and tone
  fields taken from it, and the three case-insensitive caches.
- **Helpers**: the `Mod` extension with C#'s truncating `%` and unchecked 32-bit wrap-around
  (`int_extensions.dfy`); the change-only setters of the selection and pie-label options
  (`change_cell.dfy`, `selection_service.dfy`, `pie_options.dfy`); the .NET string primitives
  (`text.dfy`); and a stable sort standing for LINQ `OrderBy` (`sorting.dfy`).
- **Pie slice** (`block_pie_slice.dfy`): the name list, cleaned of blanks, made distinct ignoring
  case and sorted ignoring case; the non-null block list; the representative name.
- **Pies** (`pi_view_model.dfy`): clipping blocks to the window, collecting the tick set,
  sweeping stretches that split time equally among active blocks, and assembling six pies.
- **Gantt** (`gantt_view_model.dfy`): the palette colour map, and the walk over each workplace's
  blocks that emits gray gap bars and coloured block bars.
- **Layout** (`arrangement.dfy`): the scheduling half of the 3D layout. It selects live blocks,
  groups them by workplace and by project name, and puts projects on three tracks greedily.
- **Ribbon** (`ribbon.dfy`): loading a schedule, the pie-label switch, and `DelegateCommand`.
- `schedule.dfy` holds the LINQ queries shared by the views; `wrappers.dfy` holds `Option` and
  `Result`.

A `DateTime` is its tick count (`int`, 864 000 000 000 ticks per day, `default(DateTime)` at 0).
Pie durations are exact `real` days. A null block, name list or key is `Option.None`; a block's
`Name` is never null (see Left out). A string is a sequence
of Unicode scalar values; where the code walks a string's `char`s (the colour hash, ordinal
comparison) the model walks its UTF-16 code units.

## Model

| member | source | states |
|---|---|---|
| Blocks.EffectiveEnd | BlockViz.Application/Extensions/BlockExtensions.cs:10-33 | The end is `End` when after the start, else a `Due` after the start, else start plus a positive processing time. It is none exactly when all three fail, and when present it always lies after the start. |
| Blocks.EffectiveEndOf | BlockViz.Application/Extensions/BlockExtensions.cs:12-15 | A null block has no effective end; otherwise any effective end lies after the block's start. |
| Blocks.IsActiveOn | BlockViz.Application/Extensions/BlockExtensions.cs:35-49 | A block is active exactly from its start through its effective end, both inclusive. With no effective end it is active from its start on. A null block is never active. |
| Blocks.ActiveOnStart | BlockViz.Application/Extensions/BlockExtensions.cs:42-48 | Every block is active on its own start date, whatever its end fields hold. |
| Blocks.ActiveIsConvex | BlockViz.Application/Extensions/BlockExtensions.cs:35-49 | The active dates form one unbroken interval: a date between two active dates is active. |
| Blocks.DisplayName | BlockViz.Application/Extensions/BlockExtensions.cs:61-65 | The result is never empty. It is the unnamed label for a null or blank name, otherwise the trimmed name, which neither starts nor ends with white space. |
| Blocks.BlockDisplayName | BlockViz.Application/Extensions/BlockExtensions.cs:51-59 | A null block gets the unnamed label; otherwise its name is normalised as above. |
| Text.TrimSpec | BlockViz.Application/Extensions/BlockExtensions.cs:63-64 | `Trim` returns a contiguous piece of the input with only white space cut off either side, and no white space at either end. It is empty exactly when the input is all white space. |
| Text.Trim | BlockViz.Application/Extensions/BlockExtensions.cs:63 | Trimming never lengthens a name, and a non-empty result neither starts nor ends with white space. |
| Text.Upper | BlockViz.Application/Services/BlockColorService.cs:13-15 | The key under which the case-insensitive caches file a name: same length, every ASCII lower-case letter turned upper-case and every other char kept. |
| Text.LeIgnoreCaseAntisym | BlockViz.Application/Models/BlockPieSlice.cs:32-33 | Two names the case-insensitive order ranks both ways are equal ignoring case. So sorting after case-insensitive de-duplication meets no ties. |
| Text.CodeUnits | BlockViz.Application/Services/BlockColorService.cs:103-106 | A character inside the Basic Multilingual Plane is one UTF-16 code unit, itself not a surrogate. Any other character is a high surrogate followed by a low surrogate that decode back to it. |
| Text.Utf16Injective | BlockViz.Application/Models/BlockPieSlice.cs:32-33 | Different strings have different UTF-16 encodings. |
| Text.OrdinalLe | BlockViz.Application/Models/BlockPieSlice.cs:33 | Ordinal order is total, so any two names compare one way or the other, and two names that compare both ways are equal. |
| Text.OrdinalLeAntisym | BlockViz.Application/Models/BlockPieSlice.cs:33 | Two strings the ordinal order ranks both ways are equal. |
| Text.SurrogatesSortBelowPrivateUse | BlockViz.Application/Models/BlockPieSlice.cs:33 | Ordinal order compares UTF-16 code units, not code points: U+1F600 sorts before U+E000 although its code point is larger. |
| Time.DayTicks | BlockViz.Application/Services/SimulationService.cs:72-73 | `AddDays` moves by a whole number of milliseconds. The move is within half a millisecond of the exact `days * 864 000 000 000` ticks, and it never goes against the sign of the days. |
| Time.AddWholeDays | BlockViz.Application/ViewModels/RibbonViewModel.cs:84 | Adding n whole days moves an instant by exactly n days of ticks, so the result is later exactly when n is positive. |
| Time.DayTicksOdd | BlockViz.Application/Services/SimulationService.cs:72-73 | Moving by minus `d` days is exactly the reverse of moving by `d` days. |
| Time.DayTicksWhole | BlockViz.Application/Extensions/BlockExtensions.cs:29 | A whole number of days moves an instant by exactly that many days, with no rounding. |
| Time.TotalDays | BlockViz.Application/ViewModels/PiViewModel.cs:123 | `TotalDays` is positive exactly when the span is, and scales back to the tick count. |
| Time.TotalDaysAdd | BlockViz.Application/ViewModels/PiViewModel.cs:167 | Day lengths of adjacent spans add up to the day length of the joined span. |
| IntExtensions.Wrap32 | BlockViz.Application/Services/BlockColorService.cs:100-107 | Unchecked arithmetic yields a 32-bit value congruent to the exact one modulo 2^32. Values already in range are left alone. |
| IntExtensions.CsRem | BlockViz.Application/Services/IntExtensions.cs:6 | C#'s `%` is smaller in magnitude than the divisor and takes the sign of the dividend. |
| IntExtensions.CsDivision | BlockViz.Application/Services/IntExtensions.cs:6 | C#'s truncating quotient and remainder recombine to the dividend. |
| IntExtensions.CheckedRem | BlockViz.Application/Services/IntExtensions.cs:6 | `%` by zero throws; otherwise, except for `int.MinValue % -1`, it yields the C# remainder. |
| IntExtensions.ModAsWritten | BlockViz.Application/Services/IntExtensions.cs:6 | `Mod` as written throws for a zero modulus. For a positive modulus it lands in `[0, m)` whenever the inner sum stays in range. |
| IntExtensions.ModAsWrittenOverflows | BlockViz.Application/Services/IntExtensions.cs:6 | `Mod(2147483646, 2147483647)` as written returns -3, a negative result for a positive modulus. |
| IntExtensions.Mod | BlockViz.Application/Services/IntExtensions.cs:6 | The intended `Mod`: for a positive modulus, the residue in `[0, m)` congruent to `x`. For a negative modulus, a value in `(m, 0]`. It throws only where `%` throws. |
| IntExtensions.ModAgreesWithoutOverflow | BlockViz.Application/Services/IntExtensions.cs:6 | Wherever the inner sum of the written `Mod` does not overflow, it equals the intended `Mod`. |
| ChangeCell.Set | BlockViz.Application/Services/SelectionService.cs:17-24 | The setter stores the value and raises an event exactly when the value differs from the stored one. Otherwise the state is unchanged. |
| ChangeCell.SetAllSpec | BlockViz.Application/Models/PieOptions.cs:13-24 | After any sequence of sets, the getter returns the last value set, and exactly one event was raised per actual change. |
| ChangeCell.SetIdempotent | BlockViz.Application/Models/PieOptions.cs:16-23 | Setting the same value twice raises no event the second time and changes nothing. |
| SelectionService.SetSelectedBlock | BlockViz.Application/Services/SelectionService.cs:14-25 | The selected block becomes the value. One `SelectedBlockChanged` fires when it differs by reference; none fires, and nothing changes, when it is the same. |
| PieOptions.SetShowLabels | BlockViz.Application/Models/PieOptions.cs:13-24 | The label switch takes the value, and a single `ShowLabels` change is raised exactly when it flips. |
| SimulationService.SetCurrentDate | BlockViz.Application/Services/SimulationService.cs:27-36 | The date is stored and announced only when it differs; direction, speed and timer are unchanged. |
| SimulationService.Start | BlockViz.Application/Services/SimulationService.cs:39-44 | Start jumps to the date, faces forward and starts the timer, keeping the speed and a valid clock. |
| SimulationService.Pause | BlockViz.Application/Services/SimulationService.cs:46 | Pause stops the timer and changes nothing else. |
| SimulationService.Resume | BlockViz.Application/Services/SimulationService.cs:49-53 | Resume plays forward at the same date and speed. |
| SimulationService.Rewind | BlockViz.Application/Services/SimulationService.cs:56-60 | Rewind plays backward at the same date and speed. |
| SimulationService.SetSpeed | BlockViz.Application/Services/SimulationService.cs:63-68 | The speed becomes the multiplier, or 1 when the multiplier is not positive. The timer ends up running; date and direction are kept. |
| SimulationService.Tick | BlockViz.Application/Services/SimulationService.cs:70-74 | A tick moves the date by `direction * speed` days (forward never earlier, backward never later). A change is announced exactly when the move is non-zero. |
| SimulationService.TimerFired | BlockViz.Application/Services/SimulationService.cs:23-24 | The timer ticks the clock only while it is enabled; a stopped clock is left as it is. |
| SimulationService.OperationsKeepValid | BlockViz.Application/Services/SimulationService.cs:39-74 | Every public operation and the tick keep the speed positive. |
| SimulationService.RewindUndoesResume | BlockViz.Application/Services/SimulationService.cs:49-74 | One tick forward followed by one tick backward at the same speed returns to the original date. |
| SimulationService.StoppedClockStays | BlockViz.Application/Services/SimulationService.cs:23-24 | However often the timer would fire, a stopped clock does not move. |
| SimulationService.TicksMoveLinearly | BlockViz.Application/Services/SimulationService.cs:70-74 | While running, `n` ticks move the date by `n` equal steps and change nothing else. |
| SimulationService.WholeSpeedMovesWholeDays | BlockViz.Application/Services/SimulationService.cs:63-74 | After `SetSpeed(k)` for whole `k` and resuming, `n` ticks move the date by exactly `n * k` days. |
| BlockColorService.StableHashIsPolynomial | BlockViz.Application/Services/BlockColorService.cs:98-109 | The loop visits the key's UTF-16 code units. Wrapping at every step gives the exact polynomial `17 * 31^n + sum of u_i * 31^(n-1-i)` over the n units, reduced to 32 bits once. For a key inside the Basic Multilingual Plane the units are its characters. |
| BlockColorService.StableHashOfSurrogatePair | BlockViz.Application/Services/BlockColorService.cs:98-109 | A character outside the Basic Multilingual Plane adds both of its surrogates: the hash of U+1F600 is `(17 * 31 + 0xD83D) * 31 + 0xDE00`, wrapped to 32 bits. |
| BlockColorService.Hue | BlockViz.Application/Services/BlockColorService.cs:89 | The hue expression never overflows for a modulus of 360: it yields the hash's residue modulo 360, in `[0, 360)`. |
| BlockColorService.CreateColor | BlockViz.Application/Services/BlockColorService.cs:85-96 | A hash colour has a hue in `[0, 360)`, saturation in `[0.55, 0.85)` and lightness in `[0.45, 0.75)`. |
| BlockColorService.TonesNeverClamped | BlockViz.Application/Services/BlockColorService.cs:90-93 | The caps at 0.85 and 0.75 never fire: six bits over 255 stay below them. |
| BlockColorService.GetColor | BlockViz.Application/Services/BlockColorService.cs:21-35 | A blank name gets the default gray and changes nothing. A known name, in any case, gets its cached colour. A new name gets its hash colour, which is cached. Cached brushes and chart colours stay consistent with cached colours. |
| BlockColorService.GetBrush | BlockViz.Application/Services/BlockColorService.cs:37-52 | A blank name gets the default brush. A name whose upper-cased key is cached gets the cached brush and changes nothing. Otherwise the brush is stored under that key, carries the colour `GetColor` gives, and leaves the chart-colour cache untouched. |
| BlockColorService.GetChartColor | BlockViz.Application/Services/BlockColorService.cs:54-69 | A blank name gets the default chart colour. A name whose upper-cased key is cached gets the cached colour and changes nothing. Otherwise the colour is stored under that key, carries the colour `GetColor` gives, and leaves the brush cache untouched. |
| BlockColorService.BrushFixesColour | BlockViz.Application/Services/BlockColorService.cs:13-69 | After a brush or chart colour is made for a name, every spelling of that name that differs only in case gets the same colour as the name itself. |
| BlockColorService.GetColorMemoisedIgnoringCase | BlockViz.Application/Services/BlockColorService.cs:13-35 | Once a name is coloured, any spelling equal to it ignoring case gets the same colour and leaves the caches as they are. |
| BlockColorService.Reset | BlockViz.Application/Services/BlockColorService.cs:71-76 | All three caches are emptied, so the next colour of every non-blank name is its hash colour. |
| Sorting.SortBy | BlockViz.Application/Services/BlockArrangementService.cs:87 | `OrderBy` returns a permutation of its input, ordered by the key comparison. |
| Sorting.SortBySorted | BlockViz.Application/Services/BlockArrangementService.cs:87 | The sort is stable on ordered input: an ordered sequence comes back unchanged. |
| Sorting.SortByStable | BlockViz.Application/Services/BlockArrangementService.cs:87 | `OrderBy` is stable: the elements equivalent to any given key come out in their input order. |
| Sorting.SortByKeepsPairwise | BlockViz.Application/Models/BlockPieSlice.cs:32-33 | A symmetric relation holding between every two input elements still holds between every two sorted elements. |
| BlockPieSlice.NonBlank | BlockViz.Application/Models/BlockPieSlice.cs:31 | Exactly the names that are neither null nor white space are kept. |
| BlockPieSlice.DistinctIgnoreCase | BlockViz.Application/Models/BlockPieSlice.cs:32 | The kept names are pairwise different ignoring case, and every input name has a kept spelling. Each kept name is the first spelling of its name in the input, as `Distinct` keeps the first occurrence. |
| BlockPieSlice.SortNamesSpec | BlockViz.Application/Models/BlockPieSlice.cs:33 | Sorting a case-insensitively distinct list keeps it distinct and keeps exactly its members. |
| BlockPieSlice.NormaliseList | BlockViz.Application/Models/BlockPieSlice.cs:30-34 | `BlockNames` holds only non-blank input names, distinct and ascending ignoring case. It covers every non-blank input name ignoring case. Each name is kept in the spelling under which the non-blank input first mentions it. |
| BlockPieSlice.NormaliseNames | BlockViz.Application/Models/BlockPieSlice.cs:24-39 | A null name list gives no names; otherwise the normalised list. |
| BlockPieSlice.NonNullBlocks | BlockViz.Application/Models/BlockPieSlice.cs:41-59 | Every kept block is a non-null entry, every non-null entry is kept, and nothing is dropped when no entry is null. |
| BlockPieSlice.NonNullBlocksCounts | BlockViz.Application/Models/BlockPieSlice.cs:41-59 | Each block is kept exactly as often as it occurs as a non-null entry. |
| BlockPieSlice.NonNullBlocksAppend | BlockViz.Application/Models/BlockPieSlice.cs:41-59 | Dropping nulls from two lists joined is joining the two lists with nulls dropped, so the kept blocks stay in input order. |
| BlockPieSlice.NewSlice | BlockViz.Application/Models/BlockPieSlice.cs:19-60 | The slice has an empty label and the given value. A null colour key becomes empty. The names and blocks are normalised as above. |
| BlockPieSlice.RepresentativeName | BlockViz.Application/Models/BlockPieSlice.cs:80 | For sorted names, the representative is a member that is least ignoring case; empty when there are none. |
| BlockPieSlice.SingleBlock | BlockViz.Application/Models/BlockPieSlice.cs:85 | There is a single block exactly when the slice holds one block, and it is that block. |
| Schedule.MinStart | BlockViz.Application/ViewModels/PiViewModel.cs:94 | The minimum start is attained by some block and no block starts earlier. |
| Schedule.MaxEnd | BlockViz.Application/ViewModels/GanttViewModel.cs:98 | The maximum raw end is attained by some block and no block ends later. |
| Schedule.InWorkplace | BlockViz.Application/ViewModels/PiViewModel.cs:103 | The selection keeps each block of the workplace exactly as often as it occurs, and no other block. |
| Schedule.InWorkplaceOfOne | BlockViz.Application/ViewModels/PiViewModel.cs:103 | Selecting the workplace all blocks belong to returns the blocks unchanged. |
| Schedule.WorkplaceBlocks | BlockViz.Application/ViewModels/PiViewModel.cs:103 | The workplace's blocks, each as often as in the schedule, ordered by start. |
| Schedule.WorkplaceKeys | BlockViz.Application/ViewModels/GanttViewModel.cs:106 | The group keys are the workplaces that occur, each once, the first block's workplace first. |
| Schedule.WorkplaceKeysFirstAppearance | BlockViz.Application/ViewModels/GanttViewModel.cs:106 | The workplace groups come in order of first appearance: an earlier group's workplace first occurs before a later group's. |
| RibbonViewModel.DeployableBlocks | BlockViz.Application/ViewModels/RibbonViewModel.cs:74-76 | Loading keeps exactly the blocks of workplaces 1 to 6, each as often as in the file. |
| RibbonViewModel.EndOrStart | BlockViz.Application/ViewModels/RibbonViewModel.cs:82 | `GetEffectiveEnd() ?? Start` is never before the start, and equals it exactly when there is no effective end. |
| RibbonViewModel.MaxEndOrStart | BlockViz.Application/ViewModels/RibbonViewModel.cs:82 | The range end candidate is attained by some block and bounds all of them. |
| RibbonViewModel.Range | BlockViz.Application/ViewModels/RibbonViewModel.cs:81-84 | The range is non-empty and holds every block's start and end. It starts at an actual start and ends at an actual end, or one day after the start. |
| RibbonViewModel.RangeWidenedOnlyForPointSchedules | BlockViz.Application/ViewModels/RibbonViewModel.cs:81-84 | The one-day widening happens exactly when no block has an effective end and all blocks start together. |
| RibbonViewModel.ExecuteNew | BlockViz.Application/ViewModels/RibbonViewModel.cs:69-86 | A cancelled dialog or a file without blocks of workplaces 1 to 6 changes nothing. Otherwise colours are reset, the kept blocks stored, and the clock started forward at the range start. |
| RibbonViewModel.LoadedScheduleInsideRange | BlockViz.Application/ViewModels/RibbonViewModel.cs:69-86 | After a load the clock runs forward from the start of a non-empty range holding every stored block. The stored blocks are exactly the file's blocks of workplaces 1 to 6. |
| RibbonViewModel.ShowPieLabels | BlockViz.Application/ViewModels/RibbonViewModel.cs:36 | The switch reads true exactly when options are attached and show labels. |
| RibbonViewModel.SetShowPieLabels | BlockViz.Application/ViewModels/RibbonViewModel.cs:37-43 | Without options, or with an unchanged value, nothing happens. Otherwise the options flip and both the options and the ribbon raise one change. |
| RibbonViewModel.ShowPieLabelsRoundTrip | BlockViz.Application/ViewModels/RibbonViewModel.cs:34-44 | With options attached the getter reads back what the setter wrote, and the ribbon raises a change exactly when the value read changes. |
| RibbonViewModel.CanExecute | BlockViz.Application/ViewModels/RibbonViewModel.cs:103-105 | A command can run when the predicate of its set action allows it, or when that action has no predicate. |
| RibbonViewModel.Execute | BlockViz.Application/ViewModels/RibbonViewModel.cs:107-108 | The parameterless action runs if set, else the parameter action, else nothing changes. |
| RibbonViewModel.NullActionIgnoresPredicate | BlockViz.Application/ViewModels/RibbonViewModel.cs:97-108 | A parameterless command built with a null action always reports it can run and does nothing, whatever predicate it was given. |
| RibbonViewModel.ClockButtons | BlockViz.Application/ViewModels/RibbonViewModel.cs:60-66 | Every clock button can always run. Each applies its clock operation (pause, resume, rewind, speed 2, 5 or 10) and leaves the schedule and colours alone. |
| PiViewModel.ClipBlock | BlockViz.Application/ViewModels/PiViewModel.cs:136-144 | A clip is exactly the non-empty part of the window the block covers. None is produced exactly when that part is empty. |
| PiViewModel.ClipAll | BlockViz.Application/ViewModels/PiViewModel.cs:134-144 | Every clip is a non-empty interval inside the window and is the clip of one of the blocks. Every block that meets the window keeps its clip. |
| PiViewModel.SurvivingFrom | BlockViz.Application/ViewModels/PiViewModel.cs:136-143 | The indices, from a given one on, of the blocks that meet the window: all of them, each once, in ascending order. |
| PiViewModel.ClipAllInBlockOrder | BlockViz.Application/ViewModels/PiViewModel.cs:134-144 | The clips come one per block that meets the window, in block order: clip k is the clip of the k-th such block. So `[a, late]` gives only the clip of `a`. |
| PiViewModel.ClipNameFromBlock | BlockViz.Application/ViewModels/PiViewModel.cs:134-144 | Every clip name is the name of a block. |
| PiViewModel.InsertTick | BlockViz.Application/ViewModels/PiViewModel.cs:155-156 | `SortedSet.Add` keeps the set strictly increasing and adds exactly the new element. |
| PiViewModel.CollectTicks | BlockViz.Application/ViewModels/PiViewModel.cs:155-157 | The ticks are strictly increasing: exactly the window ends and every clip bound. The first is the window start and the last the window end. |
| PiViewModel.AddShare | BlockViz.Application/ViewModels/PiViewModel.cs:180-181 | Adding a share raises exactly that name's duration and the total by the share, and adds the name to the keys. |
| PiViewModel.AddShareOrder | BlockViz.Application/ViewModels/PiViewModel.cs:180-181 | Dictionary insertion order: a new name is appended last with its share, and a known name leaves every entry where it was. |
| PiViewModel.AddSharesSplitsEqually | BlockViz.Application/ViewModels/PiViewModel.cs:170-183 | In a stretch, each name gains one equal share per active clip carrying it. |
| PiViewModel.AddShares | BlockViz.Application/ViewModels/PiViewModel.cs:178-182 | Crediting a share to each active clip raises the total by the share once per clip and adds exactly the active names to the dictionary keys. |
| PiViewModel.Active | BlockViz.Application/ViewModels/PiViewModel.cs:170 | Every active clip starts at or before the instant and ends after it, and every clip that does so is active. |
| PiViewModel.ActiveCounts | BlockViz.Application/ViewModels/PiViewModel.cs:170 | The active list holds exactly the clips that start at or before the instant and end after it, each as often as in the clip list. |
| PiViewModel.StepConserves | BlockViz.Application/ViewModels/PiViewModel.cs:165-183 | One stretch hands out exactly its own length, to the active clips or to idle time. |
| PiViewModel.StepKeepsShape | BlockViz.Application/ViewModels/PiViewModel.cs:165-183 | One stretch keeps one positive duration per name, each a clip's name, and non-negative idle time. |
| PiViewModel.Step | BlockViz.Application/ViewModels/PiViewModel.cs:165-183 | One stretch never lowers the idle time. It adds to the dictionary exactly the names of the clips active at its start, and adds none when the stretch is empty. |
| PiViewModel.StepSplits | BlockViz.Application/ViewModels/PiViewModel.cs:167-183 | An empty stretch changes nothing. A stretch with no active clip goes wholly to idle time. Otherwise idle time stays and each name gets `seg / active.Count` once per active clip of that name. |
| PiViewModel.StepCredit | BlockViz.Application/ViewModels/PiViewModel.cs:165-183 | One stretch raises a name's duration by exactly `StretchCredit`: one equal share of a positive stretch per clip carrying the name that is active at the stretch's start. |
| PiViewModel.StretchCreditExample | BlockViz.Application/ViewModels/PiViewModel.cs:170-181 | With clips a, a and b sharing one day, a gets two thirds of the day and b one third: the split is per active clip, not per name. |
| PiViewModel.SweepGivesCredit | BlockViz.Application/ViewModels/PiViewModel.cs:163-184 | After the sweep, every name's duration is what it started with plus `Credit`: over each stretch of positive length, one equal share of the stretch per active clip carrying the name. |
| PiViewModel.SweepConserves | BlockViz.Application/ViewModels/PiViewModel.cs:160-184 | The sweep hands out exactly the time between the first and last tick, as block time plus idle time. |
| PiViewModel.SweepKeepsShape | BlockViz.Application/ViewModels/PiViewModel.cs:160-184 | The sweep keeps one positive duration per name, each a clip's name, and non-negative idle time. |
| PiViewModel.Sweep | BlockViz.Application/ViewModels/PiViewModel.cs:163-184 | The sweep never lowers the idle time, keeps every name already in the dictionary, and adds only names of clips. |
| PiViewModel.SweepGrows | BlockViz.Application/ViewModels/PiViewModel.cs:163-184 | The sweep never lowers a name's duration. |
| PiViewModel.SweepCredits | BlockViz.Application/ViewModels/PiViewModel.cs:163-184 | A stretch of positive length in which a clip is active raises the duration of the clip's name. |
| PiViewModel.SweepTallyFacts | BlockViz.Application/ViewModels/PiViewModel.cs:155-184 | The sweep over a window's ticks hands out the whole window. It keeps positive durations, one per clip name, and non-negative idle time. |
| PiViewModel.ToSlices | BlockViz.Application/ViewModels/PiViewModel.cs:187-191 | At most one slice per entry, and every slice is a block slice with a positive value (which entries they are is stated by the next two rows). |
| PiViewModel.ToSlicesEntries | BlockViz.Application/ViewModels/PiViewModel.cs:187-191 | Every slice is an entry of the durations with its own name and value, and every positive entry becomes a slice. |
| PiViewModel.ToSlicesAppend | BlockViz.Application/ViewModels/PiViewModel.cs:187-191 | Converting two lists joined is joining their conversions, so the slices keep the order of their entries. |
| PiViewModel.SortKeepsTotal | BlockViz.Application/ViewModels/PiViewModel.cs:187 | Ordering durations by decreasing value keeps their total. |
| PiViewModel.BlockSlices | BlockViz.Application/ViewModels/PiViewModel.cs:187-191 | At most one slice per dictionary entry, and every slice is a block slice with a positive value. |
| PiViewModel.BlockSlicesFacts | BlockViz.Application/ViewModels/PiViewModel.cs:187-191 | For sweep durations the block slices carry the whole block total. They are in decreasing order, one per name, and each shows the duration recorded for its name. |
| PiViewModel.LookupOfMember | BlockViz.Application/ViewModels/PiViewModel.cs:160 | In a dictionary with distinct keys, looking up an entry's name gives that entry's value. |
| PiViewModel.BlockSlicesLookup | BlockViz.Application/ViewModels/PiViewModel.cs:187-191 | Every block slice shows the duration recorded for its name, so sorting cannot swap values between names. |
| PiViewModel.KeyHasBlockSlice | BlockViz.Application/ViewModels/PiViewModel.cs:187-191 | Every name with a positive duration gets a block slice. |
| PiViewModel.Assemble | BlockViz.Application/ViewModels/PiViewModel.cs:193-202 | Idle time goes last when positive. An empty pie becomes one idle slice of the whole window. |
| PiViewModel.AssembleFacts | BlockViz.Application/ViewModels/PiViewModel.cs:186-202 | Ordered block slices plus non-negative idle time make a pie of the whole window with idle last. |
| PiViewModel.SweepSlicesFacts | BlockViz.Application/ViewModels/PiViewModel.cs:154-202 | A clipped workplace's pie has positive slices summing to the window length. Block slices come first, decreasing, one per clip name, each showing its name's `Credit` over the ticks; at most one idle slice follows. |
| PiViewModel.SweepSlicesCredited | BlockViz.Application/ViewModels/PiViewModel.cs:163-191 | Every block slice of a swept workplace shows the time the equal split over the ticks gives its name. |
| PiViewModel.BlockSlicesCredited | BlockViz.Application/ViewModels/PiViewModel.cs:187-191 | When the dictionary records every name's credit, every block slice shows its name's credit. |
| PiViewModel.SweepSlicesCover | BlockViz.Application/ViewModels/PiViewModel.cs:154-202 | Every clip's name has a block slice in the workplace's pie. |
| PiViewModel.WorkplaceSlices | BlockViz.Application/ViewModels/PiViewModel.cs:114-132 | An empty window gives one idle slice of 1.0; a workplace without blocks gives one idle slice of the window length. |
| PiViewModel.WorkplaceSlicesFacts | BlockViz.Application/ViewModels/PiViewModel.cs:114-202 | Every workplace pie sums to the window length, or 1.0 for an empty window. Its block slices are decreasing, named after distinct blocks of that workplace and each worth `BlockTime` of its name, with idle last. |
| PiViewModel.WorkplaceSlicesTimed | BlockViz.Application/ViewModels/PiViewModel.cs:114-202 | Every block slice of a workplace pie is worth `BlockTime` of its name: the equal-split credit over the ticks of the blocks clipped to the window. |
| PiViewModel.WorkplaceSlicesCover | BlockViz.Application/ViewModels/PiViewModel.cs:114-202 | A block that covers some instant of a non-empty window has a block slice of its name. |
| PiViewModel.MaxEffectiveEnd | BlockViz.Application/ViewModels/PiViewModel.cs:96 | The global end is attained by some block's effective end (or now) and bounds all of them. |
| PiViewModel.ClampNow | BlockViz.Application/ViewModels/PiViewModel.cs:98-99 | The current date is raised to the global start, then lowered to the global end. It is unchanged inside the range, and never beyond the end. |
| PiViewModel.WindowStart | BlockViz.Application/ViewModels/PiViewModel.cs:105-108 | The global-start baseline always uses the global start. The workplace baseline uses the earliest start of the workplace's blocks when there are any. |
| PiViewModel.PiesOver | BlockViz.Application/ViewModels/PiViewModel.cs:101-206 | There is exactly one pie per workplace 1 to 6, in order, each over the same window. |
| PiViewModel.UpdatePie | BlockViz.Application/ViewModels/PiViewModel.cs:82-207 | `UpdatePie` always produces six pies, titled with workplaces 1 to 6. |
| PiViewModel.PieFacts | BlockViz.Application/ViewModels/PiViewModel.cs:101-206 | A workplace pie sums to the window length (1.0 when empty). Block slices come first, decreasing, one per block name of that workplace, each worth `BlockTime` of its name over that workplace's blocks; idle comes last. |
| PiViewModel.PieCoversBlocks | BlockViz.Application/ViewModels/PiViewModel.cs:101-206 | A block of the workplace that covers some instant of the window has a positive slice of its name in that workplace's pie. |
| PiViewModel.UpdatePieIdle | BlockViz.Application/ViewModels/PiViewModel.cs:86-92 | Without blocks every pie is one unlabelled idle slice of 1.0. |
| PiViewModel.UpdatePieWindow | BlockViz.Application/ViewModels/PiViewModel.cs:94-109 | With blocks the window runs from the earliest start to the current date clamped between that start and the latest effective end. |
| PiViewModel.PiesOverFacts | BlockViz.Application/ViewModels/PiViewModel.cs:101-206 | Pie `k` belongs to workplace `k + 1` and shows labels as asked. Its slices sum to the window length, follow the layout above, and each block slice is worth `BlockTime` of its name. |
| BlockArrangement.Live | BlockViz.Application/Services/BlockArrangementService.cs:61-63 | Exactly the blocks whose start and raw end enclose the date are kept, each as often as it occurs. |
| BlockArrangement.CentredFrom | BlockViz.Application/Services/BlockArrangementService.cs:66-69 | The workplaces from a bound to 6 among the keys, strictly ascending. |
| BlockArrangement.Workplaces | BlockViz.Application/Services/BlockArrangementService.cs:66-69 | The visited workplaces are exactly those of the live blocks that have a centre (1 to 6), strictly ascending. |
| BlockArrangement.NameKeys | BlockViz.Application/Services/BlockArrangementService.cs:79 | The name groups are the names that occur, each once. |
| BlockArrangement.NameKeysFirstAppearance | BlockViz.Application/Services/BlockArrangementService.cs:79 | The name groups come in order of first appearance: an earlier group's name first occurs before a later group's. |
| BlockArrangement.WithName | BlockViz.Application/Services/BlockArrangementService.cs:79 | A name group holds each block of that name as often as it occurs, and nothing else. |
| BlockArrangement.ProjectOf | BlockViz.Application/Services/BlockArrangementService.cs:80-86 | A project holds its name group's blocks ordered by start. |
| BlockArrangement.ProjectSpan | BlockViz.Application/Services/BlockArrangementService.cs:84-85 | A project spans from the earliest start to the latest raw end of its name's blocks, both attained. |
| BlockArrangement.NameGroups | BlockViz.Application/Services/BlockArrangementService.cs:78-86 | One project per name, each the group of its name, in the order of the name groups. |
| BlockArrangement.Projects | BlockViz.Application/Services/BlockArrangementService.cs:78-88 | The projects are exactly the name groups, with distinct names, ordered by their start. |
| BlockArrangement.ProjectsStable | BlockViz.Application/Services/BlockArrangementService.cs:78-88 | Projects with equal starts keep the order of their name groups, and the name groups come in order of first appearance of their names. |
| BlockArrangement.ProjectsAreGroups | BlockViz.Application/Services/BlockArrangementService.cs:78-88 | Every ordered project is the group of a name of the blocks. |
| BlockArrangement.EveryNameHasProject | BlockViz.Application/Services/BlockArrangementService.cs:78-88 | Every block's name has a project. |
| BlockArrangement.FirstFit | BlockViz.Application/Services/BlockArrangementService.cs:95-107 | The track chosen is the lowest free of overlaps; track 2 is the fallback when no lower track fits. |
| BlockArrangement.AssignTracks | BlockViz.Application/Services/BlockArrangementService.cs:91-110 | Each project, in order, gets one of tracks 0 to 2. |
| BlockArrangement.TracksAvoidOverlap | BlockViz.Application/Services/BlockArrangementService.cs:91-110 | On tracks 0 and 1 no two projects overlap. A project is on a higher track only because it overlaps an earlier project on every lower track. |
| BlockArrangement.FallbackTrackMayOverlap | BlockViz.Application/Services/BlockArrangementService.cs:95-109 | Four mutually overlapping projects take tracks 0, 1, 2 and 2, so the fallback track can hold overlapping projects. |
| BlockArrangement.FlattenGroups | BlockViz.Application/Services/BlockArrangementService.cs:78-86 | Distinct name groups together hold exactly the blocks with their names, with multiplicity. |
| BlockArrangement.WorkplaceLayout | BlockViz.Application/Services/BlockArrangementService.cs:78-110 | One workplace gets one track per project, in project order, and every track is one of the three. |
| BlockArrangement.Place | BlockViz.Application/Services/BlockArrangementService.cs:116-156 | The placed blocks are the projects' blocks in project order, and every placement is on the track of some project. |
| BlockArrangement.PlaceTracks | BlockViz.Application/Services/BlockArrangementService.cs:116-130 | Block m of project j is placed at position `Offset(j) + m`, on the track project j was given. |
| BlockArrangement.PlaceAll | BlockViz.Application/Services/BlockArrangementService.cs:66-156 | Across all workplaces, every placement is on one of the three tracks. |
| BlockArrangement.ProjectsHoldBlocks | BlockViz.Application/Services/BlockArrangementService.cs:78-88 | A workplace's projects together hold its blocks exactly, with multiplicity. |
| BlockArrangement.WorkplacePlacesItsBlocks | BlockViz.Application/Services/BlockArrangementService.cs:116-156 | One workplace's placements hold exactly its live blocks, with multiplicity. |
| BlockArrangement.PlaceAllBlocks | BlockViz.Application/Services/BlockArrangementService.cs:66-156 | Placing distinct workplaces places exactly the live blocks of those workplaces. |
| BlockArrangement.ArrangePlacesLiveBlocks | BlockViz.Application/Services/BlockArrangementService.cs:61-156 | The layout shows exactly the blocks live on the date in workplaces 1 to 6, each as often as in the schedule. |
| BlockArrangement.ProjectsSpanDate | BlockViz.Application/Services/BlockArrangementService.cs:61-88 | Every project of live blocks spans the date. |
| BlockArrangement.ArrangeByAscendingWorkplace | BlockViz.Application/Services/BlockArrangementService.cs:66-69 | Placed blocks come workplace by ascending workplace, all of workplaces 1 to 6. |
| BlockArrangement.Arrange | BlockViz.Application/Services/BlockArrangementService.cs:91-119 | Every placed block is on one of the three tracks. |
| BlockArrangement.WorkplaceLayoutFacts | BlockViz.Application/Services/BlockArrangementService.cs:78-110 | A workplace's projects are ordered by start and each spans the date. Tracks are assigned greedily as above. |
| GanttViewModel.GetColor | BlockViz.Application/ViewModels/GanttViewModel.cs:72-77 | A new name gets the next palette colour in turn and is remembered. A known name keeps its colour, and the colour is never gray. |
| GanttViewModel.GetColorKeepsColors | BlockViz.Application/ViewModels/GanttViewModel.cs:72-77 | A name, once coloured, keeps its colour through any later lookup. |
| GanttViewModel.FirstNineDiffer | BlockViz.Application/ViewModels/GanttViewModel.cs:24-29 | Among the first nine names coloured, different names get different colours. |
| GanttViewModel.Advance | BlockViz.Application/ViewModels/GanttViewModel.cs:141 | The cursor moves at least to the block's bar end. The corrected rule never moves it backwards. |
| GanttViewModel.Step | BlockViz.Application/ViewModels/GanttViewModel.cs:114-142 | One pass draws a gray bar from the cursor up to the block and the block's clipped bar. Every bar is non-empty and ends by the cut date. A block starting at or after the cut date changes neither cursor nor colours. |
| GanttViewModel.Walk | BlockViz.Application/ViewModels/GanttViewModel.cs:112-145 | Every bar of one workplace's walk is a non-empty interval ending by the cut date, in that workplace's row. |
| GanttViewModel.WalkColoursEveryBlock | BlockViz.Application/ViewModels/GanttViewModel.cs:112-145 | The coloured bars of a row are exactly the clipped blocks, in start order. |
| GanttViewModel.WalkBounds | BlockViz.Application/ViewModels/GanttViewModel.cs:110-145 | With the corrected cursor, gray bars start at or after the initial cursor. Block bars end by the final cursor. |
| GanttViewModel.WalkSeparates | BlockViz.Application/ViewModels/GanttViewModel.cs:110-145 | With the corrected cursor no gray bar overlaps a block bar of the row. |
| GanttViewModel.GroupBarsShape | BlockViz.Application/ViewModels/GanttViewModel.cs:106-155 | A row, with its trailing gray bar, colours exactly the clipped blocks of its workplace. |
| GanttViewModel.GroupBars | BlockViz.Application/ViewModels/GanttViewModel.cs:106-155 | Every bar of one workplace, tail bar included, is a non-empty interval ending by the cut date, in row `wp - 1`. |
| GanttViewModel.GroupBarsSeparated | BlockViz.Application/ViewModels/GanttViewModel.cs:106-155 | With the corrected cursor a row never draws gray over a block. |
| GanttViewModel.AsWrittenDrawsGrayOverBlock | BlockViz.Application/ViewModels/GanttViewModel.cs:110-155 | As written, blocks 1-10, 2-5 and 7-12 cut at 12 give a gray bar 5-7 over block 1-10. |
| GanttViewModel.AsWrittenChartDrawsGrayOverBlock | BlockViz.Application/ViewModels/GanttViewModel.cs:79-160 | The whole chart as written, for those blocks and any later simulation date, draws gray over a block. |
| GanttViewModel.CutDate | BlockViz.Application/ViewModels/GanttViewModel.cs:100-101 | The chart is cut at the simulation date, but no later than the latest raw end. |
| GanttViewModel.UpdateGantt | BlockViz.Application/ViewModels/GanttViewModel.cs:79-160 | Without blocks the series is cleared and the rest kept. With blocks the axis spans the earliest start to the latest end. |
| GanttViewModel.Render | BlockViz.Application/ViewModels/GanttViewModel.cs:79-104 | An empty schedule clears the series. Otherwise a series is drawn and the date axis runs from the earliest start to the latest raw end. |
| GanttViewModel.AllGroupsBounds | BlockViz.Application/ViewModels/GanttViewModel.cs:106-156 | Every bar of the groups lies in the row of one of the keys, between the overall start and the cut date. |
| GanttViewModel.AllGroups | BlockViz.Application/ViewModels/GanttViewModel.cs:106-156 | Every bar of the chart is a non-empty interval ending by the cut date, in the row of one of the workplace keys. |
| GanttViewModel.AllGroupsRows | BlockViz.Application/ViewModels/GanttViewModel.cs:106-156 | Each workplace's row colours exactly that workplace's clipped blocks, unaffected by the other rows. |
| GanttViewModel.AllGroupsSeparated | BlockViz.Application/ViewModels/GanttViewModel.cs:106-156 | No gray bar of the groups overlaps a block bar of its row. |
| GanttViewModel.UpdateGanttBounds | BlockViz.Application/ViewModels/GanttViewModel.cs:97-156 | Every bar is a non-empty interval from the earliest start to the cut date, in the row of a workplace that has blocks. |
| GanttViewModel.UpdateGanttRows | BlockViz.Application/ViewModels/GanttViewModel.cs:106-156 | The coloured bars of each workplace's row are exactly its blocks clipped to the cut date, in start order. |
| GanttViewModel.UpdateGanttSeparated | BlockViz.Application/ViewModels/GanttViewModel.cs:106-156 | With the corrected cursor no gray bar overlaps a block bar of its row. |

## Left out

- Blocks.BlockDisplayName: a block's `Name` is a plain string, never null (`Block.Name` starts as `string.Empty`, Block.cs:12), so the unnamed label for a block whose name was set to null is not stated; `Blocks.DisplayName` covers a null name on its own. A null name would also throw `ArgumentNullException` at GanttViewModel.cs:74, PiViewModel.cs:180 and BlockArrangementService.cs:109, and the model has no such path.
- PiViewModel.ToSlices: its own ensures give only the count bound and that each slice is a positive block slice. That the slices are the positive entries with their names and values is stated by `PiViewModel.ToSlicesEntries`, and their order by `PiViewModel.ToSlicesAppend`. These are lemmas because as ensures of `ToSlices` they sit in every proof that mentions it and exhaust the solver there.
- Time.DayTicks: assumes the `AddDays` of .NET Framework and .NET up to 6, which rounds to whole milliseconds. .NET 7 and later keep tick precision, which differs only for a move that is not a whole number of milliseconds.
- Floating point is not modelled. Durations and speeds are exact reals, and a tick rounds `days * 86 400 000` to whole milliseconds, half away from zero.
- `DateTime` range limits (year 1 to 9999) and the exceptions `AddDays` throws beyond them are not modelled: instants are unbounded integers.
- Case folding for `OrdinalIgnoreCase` covers ASCII letters only; non-ASCII case mappings are left out.
- The HSL-to-RGB conversion (`FromHsl`, BlockColorService.cs:111-151) is left out: colours stay in HSL terms, and WPF brush freezing is not modelled.
- The 3D scene is left out: lights, floor, factory model, workplace frames and labels, box sizes and coordinates (BlockArrangementService.cs:18-58, 113-155, 160-246). The model keeps which blocks are placed, in which order, on which track.
- `BlockArrangementService` colours boxes through `BlockColorMap`, which is not part of this model.
- Views, file dialogs, Excel/CSV import and `ScheduleService` are left out. The dialog's result is a parameter of `RibbonViewModel.ExecuteNew`, and the stored schedule is a sequence of blocks.
- Event wiring is left out: `INotifyPropertyChanged`, the subscriptions that re-run `UpdatePie` and `UpdateGantt`, the `PieOptions` setter of `PiViewModel` (PiViewModel.cs:34-52, 76-80), and `CanExecuteChanged`. Each setter reports the events it raises as part of its result.
- The `DispatcherTimer` is a boolean `running` plus an explicit `TimerFired` step; real time is not modelled.
- RibbonViewModel.ExecuteNew: `ExecuteNew` calls `Start(rangeStart, rangeEnd)` (RibbonViewModel.cs:85), but `SimulationService` defines only `Start(startDate)`. The model applies `Start(rangeStart)` and records `rangeEnd` only in the effect list; no range clamp is modelled.
- PiViewModel.WindowStart: the `WorkplaceFirstStart` baseline is modelled but unused, because the view model is built with the `GlobalStart` baseline.
- PiViewModel.CollectTicks: `c.S` and `c.E` (PiViewModel.cs:156) name no field of the clip tuple `(Name, Start, End)`. The model reads them as the clip's start and end.
- Pie slice fills (the colour service lookup per block name) and the percentage label format are not modelled beyond the `showLabels` flag; the colour caches that `UpdatePie` fills as a side effect are not tracked.
- BlockColorService.StableHash: the function itself only promises a 32-bit result; its meaning is stated by `StableHashIsPolynomial`.
- GanttViewModel.UpdateGantt: uses the corrected, never-backwards cursor (see Findings); the code as written is `GanttViewModel.Render` with the `AsWritten` rule.
- The Gantt chart draws the trailing gray bar twice when the walk stops at a block after the cut date (the gap bar of that block and the tail bar coincide). The model draws both, as the code does, and claims nothing about duplicates.

## Findings

| source | as written | input that shows it | evidently intended | confidence | as-written member | corrected member |
|---|---|---|---|---|---|---|
| BlockViz.Application/Services/IntExtensions.cs:6 | `(x % m + m) % m` in unchecked 32-bit arithmetic: the inner sum wraps around when `x % m + m` exceeds `int.MaxValue` | `x = 2147483646`, `m = 2147483647` gives -3 | a result in `[0, m)` congruent to `x` for every positive `m` | not executed | IntExtensions.ModAsWrittenOverflows | IntExtensions.ModAgreesWithoutOverflow |
| BlockViz.Application/ViewModels/GanttViewModel.cs:141 | `cursor = useEnd` moves the cursor backwards after a block that ends inside an earlier one | one workplace with blocks 1-10, 2-5 and 7-12, cut at 12: after block 2-5 the cursor is back at 5, so a gray bar 5-7 is drawn over block 1-10 | the cursor never moves backwards, so gray marks only time no block covers | not executed | GanttViewModel.AsWrittenChartDrawsGrayOverBlock | GanttViewModel.UpdateGanttSeparated |
