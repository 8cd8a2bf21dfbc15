/** The install sequencer qi_install and its option table (installer/install.c, installer/install_cfg.inc). */
module InstallSequence {
  import opened Bytes

  datatype OptionIdx =
    | WriteMbrAndSetActive | FormatTargetPartition | BootSector | SkipLegacyDetection
    | InstallDriversBase | InstallDriversExtra | CopyExtras | Cregfix | Lba64 | Uefi
    | BaseOS | Mount | Registry

  const YES := 0
  const NO := 1

  datatype OptionItem = OptionItem(idx: OptionIdx, selected: nat, progressBarIdx: nat, partOfPreparation: bool)

  /** Options from BaseOS on are not offered in the menu: they are always YES. */
  predicate AlwaysOn(idx: OptionIdx) {
    idx.BaseOS? || idx.Mount? || idx.Registry?
  }

  function FixedBar(idx: OptionIdx): nat {
    if idx.BaseOS? then 1 else if idx.Registry? then 2 else 0
  }

  predicate Preparation(idx: OptionIdx) {
    idx in [WriteMbrAndSetActive, BootSector, FormatTargetPartition, Uefi, Mount]
  }

  /** The order of qi_options. */
  const TABLE: seq<OptionIdx> := [
    WriteMbrAndSetActive, BootSector, FormatTargetPartition, SkipLegacyDetection, InstallDriversBase,
    InstallDriversExtra, CopyExtras, Cregfix, Lba64, Uefi, BaseOS, Mount, Registry]

  /** The order in which qi_install runs its steps. */
  const STEPS: seq<OptionIdx> := [
    WriteMbrAndSetActive, FormatTargetPartition, BootSector, Mount, Uefi, BaseOS, Registry, Cregfix, Lba64,
    InstallDriversBase, InstallDriversExtra, CopyExtras]

  /** The optional copy steps, in the order in which they get their progress bars. */
  const COPY_STEPS: seq<OptionIdx> := [Cregfix, Lba64, InstallDriversBase, InstallDriversExtra, CopyExtras]

  /** The table holds every option once; the ones that are always on have their fixed bars. */
  ghost predicate TableOk(options: seq<OptionItem>) {
    && |options| == |TABLE|
    && forall i :: 0 <= i < |options| ==>
         && options[i].idx == TABLE[i]
         && options[i].selected <= NO
         && options[i].partOfPreparation == Preparation(TABLE[i])
         && (AlwaysOn(TABLE[i]) ==> options[i].selected == YES)
         && (TABLE[i] !in COPY_STEPS ==> options[i].progressBarIdx == FixedBar(TABLE[i]))
  }

  /** What was chosen, per option. */
  type Choice = OptionIdx -> bool

  // ----- what should happen

  /** The steps that run: the enabled ones in order, up to and including the first that fails. */
  function Executed(chosen: Choice, works: Choice, steps: seq<OptionIdx>): (ran: seq<OptionIdx>)
    decreases |steps|
  {
    if steps == [] then []
    else if !chosen(steps[0]) then Executed(chosen, works, steps[1..])
    else if works(steps[0]) then [steps[0]] + Executed(chosen, works, steps[1..])
    else [steps[0]]
  }

  function Enabled(chosen: Choice, steps: seq<OptionIdx>): seq<OptionIdx> {
    if steps == [] then [] else (if chosen(steps[0]) then [steps[0]] else []) + Enabled(chosen, steps[1..])
  }

  function Preparations(steps: seq<OptionIdx>): nat {
    if steps == [] then 0 else (if Preparation(steps[0]) then 1 else 0) + Preparations(steps[1..])
  }

  // ----- the installer

  /** State of one qi_install run. */
  datatype Run = Run(error: bool, errorIndex: OptionIdx, progress: nat, ran: seq<OptionIdx>)

  function Step(chosen: Choice, works: Choice, r: Run, idx: OptionIdx): Run {
    if !chosen(idx) || r.error then r
    else
      var progress := if Preparation(idx) then r.progress + 1 else r.progress;
      if works(idx) then Run(false, r.errorIndex, progress, r.ran + [idx])
      else Run(true, idx, progress, r.ran + [idx])
  }

  function Steps(chosen: Choice, works: Choice, r: Run, steps: seq<OptionIdx>): Run
    decreases |steps|
  {
    if steps == [] then r else Steps(chosen, works, Step(chosen, works, r, steps[0]), steps[1..])
  }

  class Installer {
    var options: seq<OptionItem>
    var error: bool
    var errorIndex: OptionIdx
    var preparationProgress: nat
    var barCount: nat
    /** Steps that ran, each with the progress bar it was given. */
    var trace: seq<OptionIdx>
    var traceBars: seq<nat>

    ghost predicate Valid()
      reads this
    {
      TableOk(options)
    }

    ghost predicate Chosen(idx: OptionIdx)
      reads this
      requires Valid()
    {
      options[Row(idx)].selected == YES
    }

    ghost function Bar(idx: OptionIdx): nat
      reads this
      requires Valid()
    {
      options[Row(idx)].progressBarIdx
    }

    /** The options as they come: drivers on, patches and extras off. */
    constructor (choice: Choice)
      requires forall idx :: AlwaysOn(idx) ==> choice(idx)
      ensures Valid() && !error && errorIndex == WriteMbrAndSetActive
      ensures forall idx :: Chosen(idx) == choice(idx)
    {
      options := seq(|TABLE|, i requires 0 <= i < |TABLE| =>
        OptionItem(TABLE[i], if choice(TABLE[i]) then YES else NO, FixedBar(TABLE[i]), Preparation(TABLE[i])));
      error, errorIndex, preparationProgress, barCount := false, WriteMbrAndSetActive, 0, 0;
      trace, traceBars := [], [];
      new;
      RowsAreRight();
    }

    /** qi_configGetItemByOptionIdx: the search always ends at the option's row. */
    method ConfigGetItem(idx: OptionIdx) returns (i: nat)
      requires Valid()
      ensures i == Row(idx) && i < |options| && options[i].idx == idx
    {
      RowsAreRight();
      i := 0;
      while options[i].idx != idx
        invariant i <= Row(idx)
        decreases Row(idx) - i
      {
        i := i + 1;
      }
      assert TABLE[i] == idx;
    }

    method PreparationStepCount() returns (count: nat)
      requires Valid()
      ensures count == Preparations(EnabledRows(options, |options|))
    {
      count := 0;
      var i := 0;
      assert EnabledRows(options, 0) == [];
      while i < |options|
        invariant i <= |options| && count == Preparations(EnabledRows(options, i))
      {
        if options[i].partOfPreparation && options[i].selected == YES {
          count := count + 1;
        }
        PreparationsOneMore(EnabledRows(options, i), options[i].idx);
        i := i + 1;
      }
    }

    /** qi_installAddToProgressBoxIfEnabled */
    method AddToProgressBoxIfEnabled(pbIndex: nat, idx: OptionIdx) returns (next: nat)
      requires Valid() && idx in COPY_STEPS && pbIndex == barCount
      modifies this`options, this`barCount
      ensures Valid() && next == barCount
      ensures forall k :: Chosen(k) == old(Chosen(k))
      ensures forall k :: k != idx ==> Bar(k) == old(Bar(k))
      ensures old(Chosen(idx)) ==> Bar(idx) == pbIndex && next == pbIndex + 1
      ensures !old(Chosen(idx)) ==> next == pbIndex
    {
      RowsAreRight();
      var i := ConfigGetItem(idx);
      next := pbIndex;
      if options[i].selected == YES {
        barCount := barCount + 1;
        options := options[i := options[i].(progressBarIdx := pbIndex)];
        next := pbIndex + 1;
      }
    }

    /** qi_installExecuteIfEnabled; `works` says how the step's function would answer. */
    method ExecuteIfEnabled(idx: OptionIdx, ghost chosen: Choice, works: Choice)
      requires Valid() && (forall k :: Chosen(k) == chosen(k)) && BarsRecorded()
      modifies this`error, this`errorIndex, this`preparationProgress, this`trace, this`traceBars
      ensures Now() == Step(chosen, works, old(Now()), idx)
      ensures BarsRecorded()
    {
      RowsAreRight();
      var i := ConfigGetItem(idx);
      if options[i].selected == NO || error {
        return;
      }
      trace := trace + [idx];
      traceBars := traceBars + [options[i].progressBarIdx];
      if Preparation(idx) {
        preparationProgress := preparationProgress + 1;
      }
      if !works(idx) {
        error := true;
        errorIndex := idx;
      }
    }

    /** Every step that ran was handed the progress bar of its option. */
    ghost predicate BarsRecorded()
      reads this
      requires Valid()
    {
      |traceBars| == |trace| && forall i :: 0 <= i < |trace| ==> traceBars[i] == Bar(trace[i])
    }

    /**
     qi_install: bars for the enabled copy steps, then every step in order. `maxProgress` is the maximum the
     preparation bar was given.
     */
    method Install(ghost chosen: Choice, works: Choice) returns (ok: bool, maxProgress: nat)
      requires Valid() && forall k :: Chosen(k) == chosen(k)
      modifies this
      ensures Valid() && (forall k :: Chosen(k) == chosen(k)) && BarsRecorded()
      ensures Now() == Steps(chosen, works, Run(false, old(errorIndex), 0, []), STEPS)
      ensures ok == !error
      ensures barCount == 3 + |Enabled(chosen, COPY_STEPS)|
      ensures forall k :: chosen(k) ==> Bar(k) == BarFor(chosen, k)
      ensures maxProgress == ChosenPreparations(chosen)
    {
      hide Steps, Step, Preparations, EnabledRows, Enabled, BarFor, ChosenPreparations, TableOk, BarsRecorded;
      Restart();
      var pb := AddAllBars(chosen);
      maxProgress := PreparationStepCount();
      ChosenByRow(options, chosen);
      CountedPreparations(options, chosen);
      preparationProgress := 0;
      NothingRecorded();
      RunAllSteps(chosen, works);
      ok := !error;
    }

    lemma StartBars()
      requires Valid()
      ensures forall k :: !Copies(k) || AlwaysOn(k) ==> Bar(k) == FixedBar(k)
    {
      FixedBars(options);
    }

    lemma NothingRecorded()
      requires Valid() && trace == [] && traceBars == []
      ensures BarsRecorded()
    {
    }

    method Restart()
      requires Valid()
      modifies this`error, this`trace, this`traceBars, this`barCount
      ensures !error && trace == [] && traceBars == [] && barCount == 3
    {
      error := false;
      trace, traceBars := [], [];
      barCount := 3;
    }

    method AddAllBars(ghost chosen: Choice) returns (pb: nat)
      requires Valid() && barCount == 3 && forall k :: Chosen(k) == chosen(k)
      modifies this`options, this`barCount
      ensures Valid() && forall k :: Chosen(k) == chosen(k)
      ensures pb == barCount == 3 + |Enabled(chosen, COPY_STEPS)|
      ensures forall k :: chosen(k) ==> Bar(k) == BarFor(chosen, k)
    {
      hide Enabled, TableOk, Row, Chosen, Bar, FixedBar;
      StartBars();
      pb := AddPatchBars(chosen, 3);
      pb := AddDriverBars(chosen, pb);
      EnabledCopySteps(chosen);
    }

    method AddPatchBars(ghost chosen: Choice, pb: nat) returns (next: nat)
      requires Valid() && barCount == pb && forall k :: Chosen(k) == chosen(k)
      modifies this`options, this`barCount
      ensures Valid() && forall k :: Chosen(k) == chosen(k)
      ensures next == barCount == pb + One(chosen(Cregfix)) + One(chosen(Lba64))
      ensures forall k: OptionIdx :: !k.Cregfix? && !k.Lba64? ==> Bar(k) == old(Bar(k))
      ensures chosen(Cregfix) ==> Bar(Cregfix) == pb
      ensures chosen(Lba64) ==> Bar(Lba64) == pb + One(chosen(Cregfix))
    {
      hide TableOk, Row, Chosen, Bar;
      next := AddToProgressBoxIfEnabled(pb, Cregfix);
      next := AddToProgressBoxIfEnabled(next, Lba64);
    }

    method AddDriverBars(ghost chosen: Choice, pb: nat) returns (next: nat)
      requires Valid() && barCount == pb && forall k :: Chosen(k) == chosen(k)
      modifies this`options, this`barCount
      ensures Valid() && forall k :: Chosen(k) == chosen(k)
      ensures next == barCount
           == pb + One(chosen(InstallDriversBase)) + One(chosen(InstallDriversExtra)) + One(chosen(CopyExtras))
      ensures forall k: OptionIdx :: !k.InstallDriversBase? && !k.InstallDriversExtra? && !k.CopyExtras? ==>
                Bar(k) == old(Bar(k))
      ensures chosen(InstallDriversBase) ==> Bar(InstallDriversBase) == pb
      ensures chosen(InstallDriversExtra) ==> Bar(InstallDriversExtra) == pb + One(chosen(InstallDriversBase))
      ensures chosen(CopyExtras) ==>
        Bar(CopyExtras) == pb + One(chosen(InstallDriversBase)) + One(chosen(InstallDriversExtra))
    {
      hide TableOk, Row, Chosen, Bar;
      next := AddToProgressBoxIfEnabled(pb, InstallDriversBase);
      next := AddToProgressBoxIfEnabled(next, InstallDriversExtra);
      next := AddToProgressBoxIfEnabled(next, CopyExtras);
    }

    method RunAllSteps(ghost chosen: Choice, works: Choice)
      requires Valid() && (forall k :: Chosen(k) == chosen(k)) && BarsRecorded()
      modifies this`error, this`errorIndex, this`preparationProgress, this`trace, this`traceBars
      ensures BarsRecorded() && Now() == Steps(chosen, works, old(Now()), STEPS)
    {
      hide Step, Steps, BarsRecorded, TableOk;
      TwelveSteps(chosen, works, Now());
      FourSteps(chosen, works, Now(), WriteMbrAndSetActive, FormatTargetPartition, BootSector, Mount);
      ExecuteIfEnabled(WriteMbrAndSetActive, chosen, works);
      ExecuteIfEnabled(FormatTargetPartition, chosen, works);
      ExecuteIfEnabled(BootSector, chosen, works);
      ExecuteIfEnabled(Mount, chosen, works);
      FourSteps(chosen, works, Now(), Uefi, BaseOS, Registry, Cregfix);
      ExecuteIfEnabled(Uefi, chosen, works);
      ExecuteIfEnabled(BaseOS, chosen, works);
      ExecuteIfEnabled(Registry, chosen, works);
      ExecuteIfEnabled(Cregfix, chosen, works);
      FourSteps(chosen, works, Now(), Lba64, InstallDriversBase, InstallDriversExtra, CopyExtras);
      ExecuteIfEnabled(Lba64, chosen, works);
      ExecuteIfEnabled(InstallDriversBase, chosen, works);
      ExecuteIfEnabled(InstallDriversExtra, chosen, works);
      ExecuteIfEnabled(CopyExtras, chosen, works);
    }

    ghost function Now(): Run
      reads this
    {
      Run(error, errorIndex, preparationProgress, trace)
    }
  }

  lemma FixedBars(options: seq<OptionItem>)
    requires TableOk(options)
    ensures forall idx :: idx !in COPY_STEPS ==>
              Row(idx) < |options| && options[Row(idx)].progressBarIdx == FixedBar(idx)
  {
    RowsAreRight();
  }

  lemma ChosenByRow(options: seq<OptionItem>, chosen: Choice)
    requires TableOk(options)
    requires forall idx :: Row(idx) < |options| ==> ((options[Row(idx)].selected == YES) == chosen(idx))
    ensures forall i :: 0 <= i < |options| ==> (options[i].selected == YES) == chosen(TABLE[i])
  {
    RowsAreRight();
    forall i | 0 <= i < |options|
      ensures (options[i].selected == YES) == chosen(TABLE[i])
    {
      assert Row(TABLE[i]) == i;
    }
  }

  /** The row of the table that holds an option. */
  function Row(idx: OptionIdx): nat {
    match idx
    case WriteMbrAndSetActive => 0
    case BootSector => 1
    case FormatTargetPartition => 2
    case SkipLegacyDetection => 3
    case InstallDriversBase => 4
    case InstallDriversExtra => 5
    case CopyExtras => 6
    case Cregfix => 7
    case Lba64 => 8
    case Uefi => 9
    case BaseOS => 10
    case Mount => 11
    case Registry => 12
  }

  lemma RowsAreRight()
    ensures |TABLE| == 13
    ensures forall idx :: Row(idx) < |TABLE| && TABLE[Row(idx)] == idx
    ensures forall i :: 0 <= i < |TABLE| ==> Row(TABLE[i]) == i
  {
  }

  /** The selected options among the first n rows. */
  function EnabledRows(options: seq<OptionItem>, n: nat): seq<OptionIdx>
    requires n <= |options|
  {
    if n == 0 then []
    else EnabledRows(options, n - 1) + (if options[n - 1].selected == YES then [options[n - 1].idx] else [])
  }

  lemma {:induction false} PreparationsOneMore(steps: seq<OptionIdx>, idx: OptionIdx)
    ensures Preparations(steps + [idx]) == Preparations(steps) + (if Preparation(idx) then 1 else 0)
    ensures steps + [] == steps
    decreases |steps|
  {
    if steps != [] {
      assert (steps + [idx])[1..] == steps[1..] + [idx];
      PreparationsOneMore(steps[1..], idx);
    }
  }

  // ----- bars

  /** The bar an enabled option gets: a fixed one, or the next free one in the order of the copy steps. */
  function BarFor(chosen: Choice, idx: OptionIdx): nat {
    match idx
    case Cregfix => 3
    case Lba64 => 3 + One(chosen(Cregfix))
    case InstallDriversBase => 3 + One(chosen(Cregfix)) + One(chosen(Lba64))
    case InstallDriversExtra => 3 + One(chosen(Cregfix)) + One(chosen(Lba64)) + One(chosen(InstallDriversBase))
    case CopyExtras =>
      3 + One(chosen(Cregfix)) + One(chosen(Lba64)) + One(chosen(InstallDriversBase)) + One(chosen(InstallDriversExtra))
    case _ => FixedBar(idx)
  }

  function One(b: bool): nat {
    if b then 1 else 0
  }

  lemma EnabledCopySteps(chosen: Choice)
    ensures |Enabled(chosen, COPY_STEPS)|
         == One(chosen(Cregfix)) + One(chosen(Lba64)) + One(chosen(InstallDriversBase))
            + One(chosen(InstallDriversExtra)) + One(chosen(CopyExtras))
  {
    assert COPY_STEPS[1..] == [Lba64, InstallDriversBase, InstallDriversExtra, CopyExtras];
    assert [Lba64, InstallDriversBase, InstallDriversExtra, CopyExtras][1..]
        == [InstallDriversBase, InstallDriversExtra, CopyExtras];
    assert [InstallDriversBase, InstallDriversExtra, CopyExtras][1..] == [InstallDriversExtra, CopyExtras];
    assert [InstallDriversExtra, CopyExtras][1..] == [CopyExtras];
    assert |Enabled(chosen, [CopyExtras])| == One(chosen(CopyExtras));
    assert |Enabled(chosen, [InstallDriversExtra, CopyExtras])|
        == One(chosen(InstallDriversExtra)) + One(chosen(CopyExtras));
  }

  /** A step that copies files, and so has a bar of its own. */
  predicate Copies(idx: OptionIdx) {
    match idx
    case BaseOS => true
    case Registry => true
    case Cregfix => true
    case Lba64 => true
    case InstallDriversBase => true
    case InstallDriversExtra => true
    case CopyExtras => true
    case _ => false
  }

  /** Enabled copy steps have distinct bars, all among those of the progress box and none the preparation bar. */
  lemma CopyBarsAreDistinct(chosen: Choice, a: OptionIdx, b: OptionIdx)
    requires Copies(a) && Copies(b) && chosen(a) && chosen(b)
    ensures 1 <= BarFor(chosen, a) < 3 + |Enabled(chosen, COPY_STEPS)|
    ensures a != b ==> BarFor(chosen, a) != BarFor(chosen, b)
  {
    hide Enabled;
    EnabledCopySteps(chosen);
  }

  /**
   The bars by number: one for all preparation, one for the OS, one for the registry, and from 3 on one for each
   other copy that is chosen, patches first, then drivers, then extras.
   */
  lemma BarNumbers(chosen: Choice)
    ensures BarFor(chosen, WriteMbrAndSetActive) == BarFor(chosen, FormatTargetPartition) == 0
    ensures BarFor(chosen, BootSector) == 0
    ensures BarFor(chosen, Mount) == BarFor(chosen, Uefi) == 0
    ensures BarFor(chosen, BaseOS) == 1 && BarFor(chosen, Registry) == 2
    ensures BarFor(chosen, Cregfix) == 3
    ensures BarFor(chosen, Lba64) == BarFor(chosen, Cregfix) + (if chosen(Cregfix) then 1 else 0)
    ensures BarFor(chosen, InstallDriversBase) == BarFor(chosen, Lba64) + (if chosen(Lba64) then 1 else 0)
    ensures BarFor(chosen, InstallDriversExtra)
         == BarFor(chosen, InstallDriversBase) + (if chosen(InstallDriversBase) then 1 else 0)
    ensures BarFor(chosen, CopyExtras)
         == BarFor(chosen, InstallDriversExtra) + (if chosen(InstallDriversExtra) then 1 else 0)
  {
  }

  // ----- sequencing

  /** Step a comes to its end before step b begins, whenever both run. */
  ghost predicate RunsBefore(ran: seq<OptionIdx>, a: OptionIdx, b: OptionIdx) {
    forall i, j :: 0 <= i < |ran| && 0 <= j < |ran| && ran[i] == a && ran[j] == b ==> i < j
  }

  /**
   What has to come before what, for any choice and any failures: the MBR before formatting, formatting before the
   boot sector, that before mounting, mounting before anything is copied, the OS before the registry, and both
   before patches, drivers and extras.
   */
  lemma StepsInTheRightOrder(chosen: Choice, works: Choice, b: OptionIdx)
    ensures var ran := Executed(chosen, works, STEPS);
      && RunsBefore(ran, WriteMbrAndSetActive, FormatTargetPartition)
      && RunsBefore(ran, FormatTargetPartition, BootSector) && RunsBefore(ran, BootSector, Mount)
      && (b in {Uefi, BaseOS, Registry, Cregfix, Lba64, InstallDriversBase, InstallDriversExtra, CopyExtras} ==>
            RunsBefore(ran, Mount, b))
      && RunsBefore(ran, BaseOS, Registry)
      && (b in {Cregfix, Lba64, InstallDriversBase, InstallDriversExtra, CopyExtras} ==> RunsBefore(ran, Registry, b))
  {
    hide Executed, InStepOrder, RunsBefore;
    var ran := Executed(chosen, works, STEPS);
    StepsInOrder();
    ExecutedInOrder(chosen, works, STEPS);
    OrderedRunsBefore(ran, WriteMbrAndSetActive, FormatTargetPartition);
    OrderedRunsBefore(ran, FormatTargetPartition, BootSector);
    OrderedRunsBefore(ran, BootSector, Mount);
    OrderedRunsBefore(ran, Mount, b);
    OrderedRunsBefore(ran, BaseOS, Registry);
    OrderedRunsBefore(ran, Registry, b);
  }

  lemma OrderedRunsBefore(ran: seq<OptionIdx>, a: OptionIdx, b: OptionIdx)
    requires InStepOrder(ran)
    ensures StepNumber(a) < StepNumber(b) ==> RunsBefore(ran, a, b)
  {
    hide StepNumber;
  }

  function ChosenPreparations(chosen: Choice): nat {
    One(chosen(WriteMbrAndSetActive)) + One(chosen(BootSector)) + One(chosen(FormatTargetPartition))
    + One(chosen(Uefi)) + One(chosen(Mount))
  }

  lemma {:induction false} StepsConcat(chosen: Choice, works: Choice, r: Run, a: seq<OptionIdx>, b: seq<OptionIdx>)
    ensures Steps(chosen, works, r, a + b) == Steps(chosen, works, Steps(chosen, works, r, a), b)
    decreases |a|
  {
    if a == [] {
      assert a + b == b;
    } else {
      assert (a + b)[1..] == a[1..] + b;
      StepsConcat(chosen, works, Step(chosen, works, r, a[0]), a[1..], b);
    }
  }

  lemma TwoSteps(chosen: Choice, works: Choice, r: Run, a: OptionIdx, b: OptionIdx)
    ensures Steps(chosen, works, r, [a, b]) == Step(chosen, works, Step(chosen, works, r, a), b)
  {
    assert [a, b][1..] == [b] && [b][1..] == [];
    assert Steps(chosen, works, Step(chosen, works, r, a), [b]) == Step(chosen, works, Step(chosen, works, r, a), b);
  }

  lemma FourSteps(chosen: Choice, works: Choice, r: Run, a: OptionIdx, b: OptionIdx, c: OptionIdx, d: OptionIdx)
    ensures Steps(chosen, works, r, [a, b, c, d])
      == Step(chosen, works, Step(chosen, works, Step(chosen, works, Step(chosen, works, r, a), b), c), d)
  {
    hide Step, Steps;
    assert [a, b, c, d] == [a, b] + [c, d];
    StepsConcat(chosen, works, r, [a, b], [c, d]);
    TwoSteps(chosen, works, r, a, b);
    TwoSteps(chosen, works, Step(chosen, works, Step(chosen, works, r, a), b), c, d);
  }

  lemma TwelveSteps(chosen: Choice, works: Choice, r: Run)
    ensures var first := Steps(chosen, works, r, [WriteMbrAndSetActive, FormatTargetPartition, BootSector, Mount]);
      var second := Steps(chosen, works, first, [Uefi, BaseOS, Registry, Cregfix]);
      Steps(chosen, works, r, STEPS)
        == Steps(chosen, works, second, [Lba64, InstallDriversBase, InstallDriversExtra, CopyExtras])
  {
    hide Steps;
    var a := [WriteMbrAndSetActive, FormatTargetPartition, BootSector, Mount];
    var b := [Uefi, BaseOS, Registry, Cregfix];
    var c := [Lba64, InstallDriversBase, InstallDriversExtra, CopyExtras];
    assert STEPS == a + (b + c);
    StepsConcat(chosen, works, r, a, b + c);
    StepsConcat(chosen, works, Steps(chosen, works, r, a), b, c);
  }

  /** Once there is an error, no step runs any more. */
  lemma {:induction false} NothingAfterAnError(chosen: Choice, works: Choice, r: Run, steps: seq<OptionIdx>)
    requires r.error
    ensures Steps(chosen, works, r, steps) == r
    decreases |steps|
  {
    if steps != [] {
      NothingAfterAnError(chosen, works, r, steps[1..]);
    }
  }

  /**
   Sequencing, for any options and any failing steps: the steps that run are the enabled ones in order up to
   and including the first that fails; the error is set exactly when one fails and names it; without an error
   all enabled steps ran.
   */
  lemma {:induction false} StopsAtFirstFailure(chosen: Choice, works: Choice, r: Run, steps: seq<OptionIdx>)
    requires !r.error
    ensures var end := Steps(chosen, works, r, steps);
      var ran := Executed(chosen, works, steps);
      && end.ran == r.ran + ran
      && end.progress == r.progress + Preparations(ran)
      && (end.error <==> ran != [] && !works(ran[|ran| - 1]))
      && (end.error ==> end.errorIndex == ran[|ran| - 1])
      && (forall i :: 0 <= i < |ran| - 1 ==> works(ran[i]))
      && (!end.error ==> ran == Enabled(chosen, steps))
    decreases |steps|
  {
    if steps != [] {
      var idx, rest := steps[0], steps[1..];
      var next := Step(chosen, works, r, idx);
      if !chosen(idx) {
        StopsAtFirstFailure(chosen, works, r, rest);
      } else if works(idx) {
        StopsAtFirstFailure(chosen, works, next, rest);
        var ran := Executed(chosen, works, rest);
        assert ([idx] + ran)[1..] == ran;
        assert r.ran + [idx] + ran == r.ran + ([idx] + ran);
      } else {
        NothingAfterAnError(chosen, works, next, rest);
        assert [idx][1..] == [];
      }
    }
  }

  /** The place of an option among the steps; legacy detection is not a step. */
  function StepNumber(idx: OptionIdx): nat {
    match idx
    case WriteMbrAndSetActive => 0 case FormatTargetPartition => 1 case BootSector => 2 case Mount => 3
    case Uefi => 4 case BaseOS => 5 case Registry => 6 case Cregfix => 7 case Lba64 => 8
    case InstallDriversBase => 9 case InstallDriversExtra => 10 case CopyExtras => 11
    case SkipLegacyDetection => 12
  }

  ghost predicate InStepOrder(ran: seq<OptionIdx>) {
    forall i, j :: 0 <= i < j < |ran| ==> StepNumber(ran[i]) < StepNumber(ran[j])
  }

  lemma StepsInOrder()
    ensures InStepOrder(STEPS)
  {
    assert forall i :: 0 <= i < |STEPS| ==> StepNumber(STEPS[i]) == i;
  }

  lemma {:induction false} ExecutedInOrder(chosen: Choice, works: Choice, steps: seq<OptionIdx>)
    requires InStepOrder(steps)
    ensures InStepOrder(Executed(chosen, works, steps))
    ensures forall idx :: idx in Executed(chosen, works, steps) ==> idx in steps
    decreases |steps|
  {
    hide StepNumber;
    if steps != [] {
      var first, rest := steps[0], Executed(chosen, works, steps[1..]);
      ExecutedInOrder(chosen, works, steps[1..]);
      forall idx | idx in rest
        ensures StepNumber(first) < StepNumber(idx)
      {
        var j :| 0 <= j < |steps| - 1 && steps[1..][j] == idx;
        assert steps[j + 1] == idx;
      }
      assert InStepOrder([first] + rest);
    }
  }

  /** No step runs twice in an installation: in particular, the OS file is unpacked and closed at most once. */
  lemma EachStepRunsAtMostOnce(chosen: Choice, works: Choice)
    ensures var ran := Executed(chosen, works, STEPS);
      forall i, j :: 0 <= i < j < |ran| ==> ran[i] != ran[j]
  {
    hide Executed, StepNumber;
    StepsInOrder();
    ExecutedInOrder(chosen, works, STEPS);
  }

  lemma {:induction false} PreparationsOfEnabled(chosen: Choice, steps: seq<OptionIdx>)
    ensures Preparations(Enabled(chosen, steps)) == PreparationCount(chosen, steps, |steps|)
    decreases |steps|
  {
    if steps != [] {
      var front, last := steps[..|steps| - 1], steps[|steps| - 1];
      assert steps == front + [last];
      EnabledOneMore(chosen, front, last);
      PreparationsOfEnabled(chosen, front);
      PreparationsOneMore(Enabled(chosen, front), last);
      PreparationCountPrefix(chosen, front, steps, |front|);
    }
  }

  lemma {:induction false} EnabledOneMore(chosen: Choice, steps: seq<OptionIdx>, idx: OptionIdx)
    ensures Enabled(chosen, steps + [idx]) == Enabled(chosen, steps) + (if chosen(idx) then [idx] else [])
    decreases |steps|
  {
    if steps != [] {
      assert (steps + [idx])[1..] == steps[1..] + [idx];
      EnabledOneMore(chosen, steps[1..], idx);
    } else {
      assert [idx][1..] == [];
    }
  }

  /** Enabled preparation steps among the first n. */
  function PreparationCount(chosen: Choice, steps: seq<OptionIdx>, n: nat): nat
    requires n <= |steps|
  {
    if n == 0 then 0
    else PreparationCount(chosen, steps, n - 1) + One(chosen(steps[n - 1]) && Preparation(steps[n - 1]))
  }

  lemma {:induction false} PreparationCountPrefix(chosen: Choice, a: seq<OptionIdx>, b: seq<OptionIdx>, n: nat)
    requires n <= |a| && a <= b
    ensures PreparationCount(chosen, a, n) == PreparationCount(chosen, b, n)
    decreases n
  {
    if n > 0 {
      PreparationCountPrefix(chosen, a, b, n - 1);
    }
  }

  /** The order of the table and the order of the steps count the same preparation steps. */
  lemma PreparationCountTotals(chosen: Choice)
    ensures |STEPS| == 12 && PreparationCount(chosen, STEPS, 12) == ChosenPreparations(chosen)
    ensures |TABLE| == 13 && PreparationCount(chosen, TABLE, 13) == ChosenPreparations(chosen)
  {
    CountSteps(chosen);
    CountTable(chosen);
  }

  lemma CountSteps(chosen: Choice)
    ensures |STEPS| == 12 && PreparationCount(chosen, STEPS, 12) == ChosenPreparations(chosen)
  {
    assert PreparationCount(chosen, STEPS, 3)
        == One(chosen(WriteMbrAndSetActive)) + One(chosen(FormatTargetPartition)) + One(chosen(BootSector));
    assert PreparationCount(chosen, STEPS, 5)
        == PreparationCount(chosen, STEPS, 3) + One(chosen(Mount)) + One(chosen(Uefi));
    assert PreparationCount(chosen, STEPS, 8) == PreparationCount(chosen, STEPS, 5);
    assert PreparationCount(chosen, STEPS, 10) == PreparationCount(chosen, STEPS, 8);
  }

  lemma CountTable(chosen: Choice)
    ensures |TABLE| == 13 && PreparationCount(chosen, TABLE, 13) == ChosenPreparations(chosen)
  {
    assert PreparationCount(chosen, TABLE, 3)
        == One(chosen(WriteMbrAndSetActive)) + One(chosen(BootSector)) + One(chosen(FormatTargetPartition));
    assert PreparationCount(chosen, TABLE, 6) == PreparationCount(chosen, TABLE, 3);
    assert PreparationCount(chosen, TABLE, 9) == PreparationCount(chosen, TABLE, 6);
    assert PreparationCount(chosen, TABLE, 11) == PreparationCount(chosen, TABLE, 9) + One(chosen(Uefi));
  }

  /** What qi_configGetPreparationStepCount counts over the table. */
  lemma CountedPreparations(options: seq<OptionItem>, chosen: Choice)
    requires TableOk(options) && forall i :: 0 <= i < |options| ==> (options[i].selected == YES) == chosen(TABLE[i])
    ensures Preparations(EnabledRows(options, |options|)) == ChosenPreparations(chosen)
  {
    hide Preparations, EnabledRows, PreparationCount;
    RowsCount(options, chosen, |options|);
    PreparationCountTotals(chosen);
  }

  lemma {:induction false} RowsCount(options: seq<OptionItem>, chosen: Choice, n: nat)
    requires TableOk(options) && n <= |options|
    requires forall i :: 0 <= i < |options| ==> (options[i].selected == YES) == chosen(TABLE[i])
    ensures Preparations(EnabledRows(options, n)) == PreparationCount(chosen, TABLE, n)
    decreases n
  {
    if n > 0 {
      RowsCount(options, chosen, n - 1);
      PreparationsOneMore(EnabledRows(options, n - 1), options[n - 1].idx);
    }
  }

  /** A successful installation has filled the preparation bar exactly: one unit for each counted step. */
  lemma ProgressMatchesCount(chosen: Choice, works: Choice, r: Run)
    requires !r.error && r.progress == 0
    ensures var end := Steps(chosen, works, r, STEPS);
      !end.error ==> end.progress == ChosenPreparations(chosen)
  {
    hide Steps, Executed, Enabled, Preparations, PreparationCount;
    StopsAtFirstFailure(chosen, works, r, STEPS);
    PreparationsOfEnabled(chosen, STEPS);
    PreparationCountTotals(chosen);
  }
}
