/** The ribbon's view-model: loading a schedule once the file dialog has produced blocks, the
    pie-label switch, and the command wrapper its buttons use. */
module RibbonViewModel {
  import opened Wrappers
  import opened Time
  import opened Blocks
  import opened Schedule
  import Sim = SimulationService
  import Colors = BlockColorService
  import PieOptions
  import ChangeCell

  // ---------------------------------------------------------------------------------------
  // Loading a schedule

  /** Only workplaces 1 to 6 are kept from a loaded file. */
  predicate Deployable(b: Block) {
    1 <= b.workplace <= 6
  }

  /** `.Where(b => b.DeployWorkplace >= 1 && b.DeployWorkplace <= 6)`, in input order. */
  function DeployableBlocks(blocks: seq<Block>): (r: seq<Block>)
    ensures forall x :: multiset(r)[x] == if Deployable(x) then multiset(blocks)[x] else 0
    ensures forall k :: 0 <= k < |r| ==> Deployable(r[k])
  {
    if |blocks| == 0 then []
    else
      assert blocks == [blocks[0]] + blocks[1..];
      if Deployable(blocks[0]) then [blocks[0]] + DeployableBlocks(blocks[1..])
      else DeployableBlocks(blocks[1..])
  }

  /** `b.GetEffectiveEnd() ?? b.Start`: never before the start, and equal to it exactly when the
      block has no effective end. */
  function EndOrStart(b: Block): (r: Instant)
    ensures r >= b.start
    ensures r == b.start <==> EffectiveEnd(b).None?
  {
    match EffectiveEnd(b)
    case None => b.start
    case Some(e) => e
  }

  /** `blocks.Select(b => b.GetEffectiveEnd() ?? b.Start).Max()`. */
  function MaxEndOrStart(blocks: seq<Block>): (r: Instant)
    requires |blocks| > 0
    ensures forall k :: 0 <= k < |blocks| ==> EndOrStart(blocks[k]) <= r
    ensures exists k :: 0 <= k < |blocks| && r == EndOrStart(blocks[k])
  {
    if |blocks| == 1 then EndOrStart(blocks[0])
    else
      var m := MaxEndOrStart(blocks[1..]);
      assert forall k :: 1 <= k < |blocks| ==> blocks[k] == blocks[1..][k - 1];
      if EndOrStart(blocks[0]) >= m then EndOrStart(blocks[0]) else m
  }

  /** The simulation range of a non-empty schedule: from the earliest start to the latest end (a
      block without an effective end counting as ending at its start), widened to one day when
      that would be empty. Every block lies inside it and it is never empty. */
  function Range(blocks: seq<Block>): (r: (Instant, Instant))
    requires |blocks| > 0
    ensures r.0 < r.1
    ensures forall k :: 0 <= k < |blocks| ==> r.0 <= blocks[k].start && EndOrStart(blocks[k]) <= r.1
    ensures exists k :: 0 <= k < |blocks| && r.0 == blocks[k].start
    ensures r.1 == r.0 + TicksPerDay || exists k :: 0 <= k < |blocks| && r.1 == EndOrStart(blocks[k])
  {
    var rangeStart := MinStart(blocks);
    var rangeEnd := MaxEndOrStart(blocks);
    if rangeEnd <= rangeStart then (rangeStart, AddWholeDays(rangeStart, 1)) else (rangeStart, rangeEnd)
  }

  /** The range is widened exactly when no block has an effective end and all start together. */
  lemma {:induction false} RangeWidenedOnlyForPointSchedules(blocks: seq<Block>)
    requires |blocks| > 0
    ensures MaxEndOrStart(blocks) <= MinStart(blocks)
            <==> forall k :: 0 <= k < |blocks| ==> EffectiveEnd(blocks[k]).None? && blocks[k].start == MinStart(blocks)
  {
    if MaxEndOrStart(blocks) <= MinStart(blocks) {
      forall k | 0 <= k < |blocks|
        ensures EffectiveEnd(blocks[k]).None? && blocks[k].start == MinStart(blocks)
      {
        assert MinStart(blocks) <= blocks[k].start <= EndOrStart(blocks[k]) <= MaxEndOrStart(blocks);
      }
    }
  }

  /** What loading asks of the other services, in order. */
  datatype Effect =
    | /** `colorService.Reset()` */ ResetColours
    | /** `scheduleService.SetAllBlocks(blocks)` */ StoreBlocks(blocks: seq<Block>)
    | /** `simulationService.Start(rangeStart, rangeEnd)` */ StartClock(start: Instant, end: Instant)

  /** The services the ribbon drives. */
  datatype Ribbon = Ribbon(colors: Colors.Caches, schedule: seq<Block>, clock: Sim.Clock)

  /** `ExecuteNew` after the file dialog: `dialog` is the loaded blocks, or none when the dialog was
      cancelled. A cancelled dialog or a file without a block of workplaces 1 to 6 changes
      nothing; otherwise the colours are reset, the blocks stored and the clock started at the
      range start. */
  function ExecuteNew(app: Ribbon, dialog: Option<seq<Block>>): (r: (Ribbon, seq<Effect>))
    ensures dialog.None? ==> r == (app, [])
    ensures dialog.Some? && |DeployableBlocks(dialog.value)| == 0 ==> r == (app, [])
    ensures dialog.Some? && |DeployableBlocks(dialog.value)| > 0 ==>
              var blocks := DeployableBlocks(dialog.value);
              && r.1 == [ResetColours, StoreBlocks(blocks), StartClock(Range(blocks).0, Range(blocks).1)]
              && r.0.schedule == blocks
              && r.0.colors == Colors.Empty
              && r.0.clock == Sim.Clock(Range(blocks).0, Sim.Forward, app.clock.speed, true)
  {
    if dialog.None? then (app, [])
    else
      var blocks := DeployableBlocks(dialog.value);
      if |blocks| == 0 then (app, [])
      else
        var (rangeStart, rangeEnd) := Range(blocks);
        var app1 := app.(colors := Colors.Reset(app.colors), schedule := blocks,
                         clock := Sim.Start(app.clock, rangeStart).clock);
        (app1, [ResetColours, StoreBlocks(blocks), StartClock(rangeStart, rangeEnd)])
  }

  /** After a load the clock runs forward from the start of a non-empty range that holds every
      stored block, and the stored blocks are exactly the loaded blocks of workplaces 1 to 6. */
  lemma {:induction false} LoadedScheduleInsideRange(app: Ribbon, loaded: seq<Block>)
    requires exists k :: 0 <= k < |loaded| && Deployable(loaded[k])
    ensures var r := ExecuteNew(app, Some(loaded));
      && |r.1| == 3 && r.1[2].StartClock?
      && r.0.clock.current == r.1[2].start < r.1[2].end
      && r.0.clock.running && r.0.clock.direction == Sim.Forward
      && (forall x :: multiset(r.0.schedule)[x] == if Deployable(x) then multiset(loaded)[x] else 0)
      && (forall k :: 0 <= k < |r.0.schedule| ==>
            r.1[2].start <= r.0.schedule[k].start && EndOrStart(r.0.schedule[k]) <= r.1[2].end)
  {
    var k :| 0 <= k < |loaded| && Deployable(loaded[k]);
    var blocks := DeployableBlocks(loaded);
    assert loaded[k] in multiset(loaded);
    assert multiset(blocks)[loaded[k]] > 0;
  }

  // ---------------------------------------------------------------------------------------
  // The pie-label switch

  /** The `ShowPieLabels` getter: false while no pie options are attached. */
  function ShowPieLabels(options: Option<PieOptions.Options>): (r: bool)
    ensures r <==> options.Some? && options.value.value
  {
    options.Some? && options.value.value
  }

  /** The `ShowPieLabels` setter: the options afterwards, the change names the options raise and
      the change names the view-model raises. Without options, or with the value already set,
      nothing happens. */
  function SetShowPieLabels(options: Option<PieOptions.Options>, value: bool): (r: (Option<PieOptions.Options>, seq<string>, seq<string>))
    ensures options.None? ==> r == (None, [], [])
    ensures options.Some? && options.value.value == value ==> r == (options, [], [])
    ensures options.Some? && options.value.value != value ==>
              r == (Some(ChangeCell.Cell(value)), ["ShowLabels"], ["ShowPieLabels"])
  {
    if options.None? then (options, [], [])
    else if options.value.value == value then (options, [], [])
    else
      var (o1, raised) := PieOptions.SetShowLabels(options.value, value);
      (Some(o1), raised, ["ShowPieLabels"])
  }

  /** With options attached the getter reads back what the setter wrote, and a change event is
      raised exactly when the value changed; without options it keeps reading false. */
  lemma {:induction false} ShowPieLabelsRoundTrip(options: Option<PieOptions.Options>, value: bool)
    ensures ShowPieLabels(SetShowPieLabels(options, value).0) == (options.Some? && value)
    ensures |SetShowPieLabels(options, value).2| > 0 <==> ShowPieLabels(options) != ShowPieLabels(SetShowPieLabels(options, value).0)
  {
  }

  // ---------------------------------------------------------------------------------------
  // Commands

  /** `DelegateCommand` over a state `S`, with either a parameterless action and predicate or
      ones that take the command parameter. Absent fields are null references. */
  datatype Command<!S, !P> = Command(
    execute: Option<S -> S>,
    canExecute: Option<S -> bool>,
    executeWithParam: Option<(S, P) -> S>,
    canExecuteWithParam: Option<(S, P) -> bool>)

  /** `new DelegateCommand(Action execute, Func<bool> canExecute = null)`. */
  function Parameterless<S, P>(execute: Option<S -> S>, canExecute: Option<S -> bool>): Command<S, P> {
    Command(execute, canExecute, None, None)
  }

  /** `new DelegateCommand(Action<object> execute, Func<object, bool> canExecute = null)`. */
  function WithParameter<S, P>(execute: Option<(S, P) -> S>, canExecute: Option<(S, P) -> bool>): Command<S, P> {
    Command(None, None, execute, canExecute)
  }

  /** `CanExecute`: the predicate of whichever action is set, and true when it has none. The
      parameterless branch is chosen only when its action is not null. */
  function CanExecute<S, P>(cmd: Command<S, P>, s: S, parameter: P): (r: bool)
    ensures cmd.execute.Some? && cmd.canExecute.None? ==> r
    ensures cmd.execute.None? && cmd.canExecuteWithParam.None? ==> r
    ensures cmd.execute.Some? && cmd.canExecute.Some? ==> r == cmd.canExecute.value(s)
    ensures cmd.execute.None? && cmd.canExecuteWithParam.Some? ==> r == cmd.canExecuteWithParam.value(s, parameter)
  {
    if cmd.execute.Some? then
      (if cmd.canExecute.Some? then cmd.canExecute.value(s) else true)
    else
      (if cmd.canExecuteWithParam.Some? then cmd.canExecuteWithParam.value(s, parameter) else true)
  }

  /** `Execute`: runs the parameterless action if set, else the parameter action if set, else
      does nothing. */
  function Execute<S, P>(cmd: Command<S, P>, s: S, parameter: P): (r: S)
    ensures cmd.execute.Some? ==> r == cmd.execute.value(s)
    ensures cmd.execute.None? && cmd.executeWithParam.Some? ==> r == cmd.executeWithParam.value(s, parameter)
    ensures cmd.execute.None? && cmd.executeWithParam.None? ==> r == s
  {
    if cmd.execute.Some? then cmd.execute.value(s)
    else if cmd.executeWithParam.Some? then cmd.executeWithParam.value(s, parameter)
    else s
  }

  /** A parameterless command built with a null action ignores its predicate: it always reports
      that it can run, and running it does nothing. */
  lemma {:induction false} NullActionIgnoresPredicate<S, P>(canExecute: Option<S -> bool>, s: S, parameter: P)
    ensures CanExecute(Parameterless<S, P>(None, canExecute), s, parameter)
    ensures Execute(Parameterless<S, P>(None, canExecute), s, parameter) == s
  {
  }

  /** The clock buttons of the ribbon, built without predicates. */
  function ClockCommand(op: Sim.Clock -> Sim.Clock): Command<Ribbon, ()> {
    Parameterless(Some((app: Ribbon) => app.(clock := op(app.clock))), None)
  }

  const PauseCommand: Command<Ribbon, ()> := ClockCommand(Sim.Pause)
  const ResumeCommand: Command<Ribbon, ()> := ClockCommand(Sim.Resume)
  const RewindCommand: Command<Ribbon, ()> := ClockCommand(Sim.Rewind)
  const Speed2Command: Command<Ribbon, ()> := ClockCommand((c: Sim.Clock) => Sim.SetSpeed(c, 2.0))
  const Speed5Command: Command<Ribbon, ()> := ClockCommand((c: Sim.Clock) => Sim.SetSpeed(c, 5.0))
  const Speed10Command: Command<Ribbon, ()> := ClockCommand((c: Sim.Clock) => Sim.SetSpeed(c, 10.0))

  /** Every clock button can always run, and running it applies its clock operation and leaves the
      colours and the schedule alone: pause stops the clock, resume and rewind play it forward
      and backward, and the speed buttons run it at 2, 5 and 10 days per tick. */
  lemma {:induction false} ClockButtons(app: Ribbon)
    ensures CanExecute(PauseCommand, app, ()) && CanExecute(ResumeCommand, app, ()) && CanExecute(RewindCommand, app, ())
    ensures CanExecute(Speed2Command, app, ()) && CanExecute(Speed5Command, app, ()) && CanExecute(Speed10Command, app, ())
    ensures !Execute(PauseCommand, app, ()).clock.running
    ensures Execute(ResumeCommand, app, ()).clock.running && Execute(ResumeCommand, app, ()).clock.direction == Sim.Forward
    ensures Execute(RewindCommand, app, ()).clock.running && Execute(RewindCommand, app, ()).clock.direction == Sim.Backward
    ensures Execute(Speed2Command, app, ()).clock.speed == 2.0 && Execute(Speed2Command, app, ()).clock.running
    ensures Execute(Speed5Command, app, ()).clock.speed == 5.0 && Execute(Speed5Command, app, ()).clock.running
    ensures Execute(Speed10Command, app, ()).clock.speed == 10.0 && Execute(Speed10Command, app, ()).clock.running
    ensures Execute(PauseCommand, app, ()) == app.(clock := Sim.Pause(app.clock))
    ensures Execute(ResumeCommand, app, ()) == app.(clock := Sim.Resume(app.clock))
    ensures Execute(RewindCommand, app, ()) == app.(clock := Sim.Rewind(app.clock))
    ensures Execute(Speed2Command, app, ()) == app.(clock := Sim.SetSpeed(app.clock, 2.0))
    ensures Execute(Speed5Command, app, ()) == app.(clock := Sim.SetSpeed(app.clock, 5.0))
    ensures Execute(Speed10Command, app, ()) == app.(clock := Sim.SetSpeed(app.clock, 10.0))
  {
    assert Execute(PauseCommand, app, ()) == app.(clock := Sim.Pause(app.clock));
    assert Execute(ResumeCommand, app, ()) == app.(clock := Sim.Resume(app.clock));
    assert Execute(RewindCommand, app, ()) == app.(clock := Sim.Rewind(app.clock));
    assert Execute(Speed2Command, app, ()) == app.(clock := Sim.SetSpeed(app.clock, 2.0));
    assert Execute(Speed5Command, app, ()) == app.(clock := Sim.SetSpeed(app.clock, 5.0));
    assert Execute(Speed10Command, app, ()) == app.(clock := Sim.SetSpeed(app.clock, 10.0));
  }
}
