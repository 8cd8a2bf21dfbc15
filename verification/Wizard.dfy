/**
 The installer wizard qi_wizard (installer/install.c): screens, `state++` and `state--` over the enum,
 the OS file that is opened early, the disk array and the chosen destination. Menu results, answers and
 outcomes of system calls are inputs.
 */
module Wizard {
  import opened Bytes
  import opened InstallSequence

  // ----- disks

  datatype FileSystem =
    | None_ | Unsupported | Extended | Fat16 | Fat32 | Ntfs | Linux | Swap | Efi | GptBoot | GptVfat | ExFat

  datatype Partition = Partition(device: string, start: nat, size: nat, fileSystem: FileSystem, indexOnParent: nat)
  {
    /** The first four places are those of the partition table; a partition behind them is logical. */
    predicate IsLogical() {
      indexOnParent > 4
    }
  }

  datatype Disk = Disk(device: string, tableType: string, partitions: seq<Partition>)

  /** A partition together with its parent disk. */
  datatype Place = Place(disk: Disk, part: Partition)

  /** Every partition of the array, in menu order. */
  function Places(disks: seq<Disk>): seq<Place> {
    if disks == [] then [] else PlacesOf(disks[0], |disks[0].partitions|) + Places(disks[1..])
  }

  function PlacesOf(d: Disk, n: nat): (r: seq<Place>)
    requires n <= |d.partitions|
    ensures |r| == n && forall i :: 0 <= i < n ==> r[i] == Place(d, d.partitions[i])
  {
    seq(n, i requires 0 <= i < n => Place(d, d.partitions[i]))
  }

  /** util_getPartitionFromIndex: the menu's item number counts partitions across all disks. */
  method GetPartitionFromIndex(disks: seq<Disk>, index: nat) returns (p: Option<Place>)
    ensures p == PlaceAt(disks, index)
  {
    hide Places, PlaceAt;
    var curDisk := 0;
    var disk := 0;
    WholeArray(disks, index);
    while disk < |disks|
      invariant disk <= |disks| && curDisk <= index
      invariant PlaceAt(disks[disk..], index - curDisk) == PlaceAt(disks, index)
    {
      var part := 0;
      var parts := disks[disk].partitions;
      NextDisk(disks, disk, index - curDisk);
      ghost var atDisk := curDisk;
      while part < |parts|
        invariant part <= |parts| && curDisk == atDisk + part && curDisk <= index
      {
        if curDisk == index {
          return Some(Place(disks[disk], parts[part]));
        }
        curDisk := curDisk + 1;
        part := part + 1;
      }
      disk := disk + 1;
    }
    NoDisk(disks, index - curDisk);
    p := None;
  }

  function PlaceAt(disks: seq<Disk>, index: nat): Option<Place> {
    if index < |Places(disks)| then Some(Places(disks)[index]) else None
  }

  lemma WholeArray(disks: seq<Disk>, index: nat)
    ensures PlaceAt(disks[0..], index) == PlaceAt(disks, index)
  {
    assert disks[0..] == disks;
  }

  lemma NoDisk(disks: seq<Disk>, index: nat)
    ensures PlaceAt(disks[|disks|..], index) == None
  {
  }

  lemma NextDisk(disks: seq<Disk>, disk: nat, index: nat)
    requires disk < |disks|
    ensures var n := |disks[disk].partitions|;
      PlaceAt(disks[disk..], index)
        == if index < n then Some(Place(disks[disk], disks[disk].partitions[index]))
           else PlaceAt(disks[disk + 1..], index - n)
  {
    assert disks[disk..][1..] == disks[disk + 1..];
    assert disks[disk..][0] == disks[disk];
  }

  /** What qi_destinationSelect checks, in its order. */
  predicate Eligible(source: string, p: Place) {
    && p.part.device != source
    && p.disk.tableType == "dos"
    && p.part.fileSystem != Extended
    && (p.part.fileSystem == Fat16 || p.part.fileSystem == Fat32)
    && !p.part.IsLogical()
  }

  // ----- wizard states

  /** qi_WizardAction: wizard states and screen results in one enum. */
  datatype Action =
    | VariantSelect | MainMenu | DiskMgmt | Help | SelectPartition | Configure | DoInstall | TheEnd
    | RedoFromStart | ExitToShell | ExitError | Reboot
    | Back | Next | DoNothing

  const ACTIONS: seq<Action> := [
    VariantSelect, MainMenu, DiskMgmt, Help, SelectPartition, Configure, DoInstall, TheEnd,
    RedoFromStart, ExitToShell, ExitError, Reboot, Back, Next, DoNothing]

  function Ordinal(a: Action): nat {
    match a
    case VariantSelect => 0 case MainMenu => 1 case DiskMgmt => 2 case Help => 3
    case SelectPartition => 4 case Configure => 5 case DoInstall => 6 case TheEnd => 7
    case RedoFromStart => 8 case ExitToShell => 9 case ExitError => 10 case Reboot => 11
    case Back => 12 case Next => 13 case DoNothing => 14
  }

  /** The states that qi_wizard's switch knows; anything else is fatal. */
  predicate IsScreen(a: Action) {
    Ordinal(a) <= 11
  }

  // ----- inputs and state

  /** What a menu answers: an item, AD_CANCELED, or anything else. */
  datatype MenuResult = Item(i: nat) | Canceled | Other

  /** One round of the destination menu. */
  datatype Pick = Pick(menu: MenuResult, keepOversize: bool, mounted: bool, unmount: bool)

  /** What a round of the destination menu comes to. */
  datatype Decision = Again | Leave | Chosen(place: Place) | Fatal

  /** What one screen meets: menu results, the disks found, whether partitions are mounted, step outcomes. */
  datatype Input = Input(
    variants: nat,
    osFileOpens: bool,
    menu: MenuResult,
    disks: Option<seq<Disk>>,
    picks: seq<Pick>,
    choice: Choice,
    uefiAccepted: bool,           // the warnings about options, each asked only when its option is on
    cregfixAccepted: bool,
    lba64Accepted: bool,
    quirksDone: bool,             // inst_doHardwareQuirks
    works: Choice)

  /** One entry into qi_install. */
  datatype Installation =
    Installation(fileOpen: bool, disks: Option<seq<Disk>>, destination: Option<Place>, choice: Choice)

  datatype Context = Context(
    state: Action,
    fileOpen: bool,               // qi_wizData.osRootFile != NULL
    disks: Option<seq<Disk>>,     // qi_wizData.hda
    destination: Option<Place>,   // points into hda
    choice: Choice,
    variants: nat,
    running: bool,
    // history
    opens: nat,
    closes: nat,
    installations: seq<Installation>)

  const OVERSIZE: nat := 128 * 1024 * 1024 * 1024

  /** What a screen function leaves: a context and its result, or the program is over. */
  datatype Screen = Screen(ctx: Context, result: Action) | Over(ctx: Context)

  // ----- the screens

  function CloseFile(c: Context): Context {
    if c.fileOpen then c.(fileOpen := false, closes := c.closes + 1) else c
  }

  /** qi_cleanup */
  function Cleanup(c: Context): Context {
    CloseFile(c).(destination := None, disks := None)
  }

  /** qi_refreshDisks frees the old array, and with it what destination points into. */
  function RefreshDisks(c: Context, found: Option<seq<Disk>>): Context {
    c.(disks := found, destination := None)
  }

  function VariantScreen(c: Context, in_: Input): Screen {
    if in_.variants == 0 || !in_.osFileOpens then Over(c)
    else Screen(c.(fileOpen := true, opens := c.opens + 1, variants := in_.variants), Next)
  }

  function MainMenuScreen(c: Context, in_: Input): Screen {
    match in_.menu
    case Item(i) =>
      if i == 0 then Screen(c, SelectPartition)
      else if i == 1 then Screen(c, DiskMgmt)
      else if i == 2 then Screen(c, Help)
      else if i == 3 then Screen(c, ExitToShell)
      else if i == 4 then Screen(c, RedoFromStart)
      else Over(c)
    case Canceled => Screen(c, RedoFromStart)
    case Other => Over(c)
  }

  /** One round of the destination menu; an item without a partition is fatal. */
  function TryPick(source: string, disks: seq<Disk>, p: Pick): Decision {
    match p.menu
    case Canceled => Leave
    case Other => Fatal
    case Item(i) =>
      match PlaceAt(disks, i)
      case None => Fatal
      case Some(place) =>
        if !Eligible(source, place) then Again
        else if (place.part.size >= OVERSIZE || place.part.start + place.part.size > OVERSIZE)
            && !p.keepOversize then Again
        else if p.mounted && !p.unmount then Again
        else Chosen(place)
  }

  /** The loop of the destination menu; Again when it is never left. */
  function PickLoop(source: string, disks: seq<Disk>, picks: seq<Pick>): Decision
    decreases |picks|
  {
    if picks == [] then Again
    else
      var decision := TryPick(source, disks, picks[0]);
      if decision == Again then PickLoop(source, disks, picks[1..]) else decision
  }

  function DestinationScreen(source: string, c: Context, in_: Input): Screen {
    var c' := RefreshDisks(c, in_.disks);
    if c'.disks.None? || |c'.disks.value| == 0 then Screen(c', MainMenu)
    else if |Places(c'.disks.value)| == 0 then Screen(c', MainMenu)
    else
      match PickLoop(source, c'.disks.value, in_.picks)
      case Again => Over(c')
      case Fatal => Over(c')
      case Leave => Screen(c', MainMenu)
      case Chosen(place) => Screen(c'.(destination := Some(place)), Next)
  }

  /** The options from the menu; the ones that are always on stay on. */
  function Configured(choice: Choice): Choice {
    idx => AlwaysOn(idx) || choice(idx)
  }

  /** The warning dialogs and the hardware quirks, none of them refused. */
  predicate Settled(in_: Input) {
    && (in_.choice(Uefi) ==> in_.uefiAccepted)
    && (in_.choice(Cregfix) ==> in_.cregfixAccepted)
    && (in_.choice(Lba64) ==> in_.lba64Accepted)
    && in_.quirksDone
  }

  function ConfigScreen(c: Context, in_: Input): Screen {
    var c' := c.(choice := Configured(in_.choice));
    Screen(c', if in_.menu == Canceled then Back else if !Settled(in_) then DoNothing else Next)
  }

  function FreshRun(): Run {
    Run(false, WriteMbrAndSetActive, 0, [])
  }

  /** qi_install; the OS file is closed by the step that copies it, if it runs. */
  function InstallScreen(c: Context, in_: Input): Screen {
    var c1 := c.(installations := c.installations + [Installation(c.fileOpen, c.disks, c.destination, c.choice)]);
    var end := Steps(c.choice, in_.works, FreshRun(), STEPS);
    var c2 := if BaseOS in end.ran then c1.(fileOpen := false, closes := c1.closes + 1) else c1;
    Screen(c2, if end.error then RedoFromStart else Next)
  }

  function EndScreen(c: Context, in_: Input): Screen {
    if in_.menu == Item(0) then Screen(c, Reboot)
    else if in_.menu == Item(1) then Screen(c, RedoFromStart)
    else if in_.menu == Item(2) then Screen(c, ExitToShell)
    else Over(c)
  }

  /** The switch of qi_wizard. Leaving it runs qi_exit, which cleans up. */
  function ShowScreen(source: string, c: Context, in_: Input): Screen {
    match c.state
    case VariantSelect => VariantScreen(c, in_)
    case MainMenu => MainMenuScreen(c, in_)
    case Help => Screen(c, MainMenu)
    case SelectPartition => DestinationScreen(source, c, in_)
    case Configure => ConfigScreen(c, in_)
    case DoInstall => InstallScreen(c, in_)
    case DiskMgmt => Screen(RefreshDisks(c, in_.disks), MainMenu)
    case TheEnd => EndScreen(c, in_)
    case RedoFromStart => Screen(Cleanup(c), VariantSelect)
    case Reboot => Over(Cleanup(c))
    case ExitToShell => Over(Cleanup(c))
    case ExitError => Over(Cleanup(c))
    case _ => Over(c)
  }

  function Enter(c: Context, result: Action): Context {
    match result
    case Back => c.(state := if Ordinal(c.state) > 0 then ACTIONS[Ordinal(c.state) - 1] else DoNothing)
    case Next => c.(state := if Ordinal(c.state) + 1 < |ACTIONS| then ACTIONS[Ordinal(c.state) + 1] else DoNothing)
    case DoNothing => c
    case _ => c.(state := result)
  }

  /** One turn of the loop in qi_wizard. */
  function Turn(source: string, c: Context, in_: Input): Context {
    if !c.running then c
    else
      match ShowScreen(source, c, in_)
      case Over(c') => c'.(running := false)
      case Screen(c', result) => Enter(c', result)
  }

  function Turns(source: string, c: Context, inputs: seq<Input>): Context {
    if inputs == [] then c else Turn(source, Turns(source, c, inputs[..|inputs| - 1]), inputs[|inputs| - 1])
  }

  /** The wizard at its start, with the options as they come. */
  function StartContext(choice: Choice): Context {
    Context(VariantSelect, false, None, None, choice, 0, true, 0, 0, [])
  }

  // ----- the wizard as it runs

  /** qi_wizData and the local state of qi_wizard. A screen answers None when the program is over. */
  class QiWizard {
    const source: string
    var state: Action
    var fileOpen: bool
    var disks: Option<seq<Disk>>
    var destination: Option<Place>
    var choice: Choice
    var variants: nat
    var running: bool
    ghost var opens: nat
    ghost var closes: nat
    ghost var installations: seq<Installation>

    ghost function Ctx(): Context
      reads this
    {
      Context(state, fileOpen, disks, destination, choice, variants, running, opens, closes, installations)
    }

    constructor (source: string)
      ensures this.source == source && Ctx() == StartContext(choice)
      ensures forall idx :: AlwaysOn(idx) ==> choice(idx)
    {
      this.source := source;
      state, fileOpen, disks, destination := VariantSelect, false, None, None;
      choice, variants, running := idx => true, 0, true;
      opens, closes, installations := 0, 0, [];
    }

    method CloseOsFile()
      modifies this`fileOpen, this`closes
      ensures Ctx() == CloseFile(old(Ctx()))
    {
      if fileOpen {
        fileOpen := false;
        closes := closes + 1;
      }
    }

    method CleanUp()
      modifies this`fileOpen, this`closes, this`destination, this`disks
      ensures Ctx() == Cleanup(old(Ctx()))
    {
      CloseOsFile();
      destination := None;
      disks := None;
    }

    method Refresh(found: Option<seq<Disk>>)
      modifies this`disks, this`destination
      ensures Ctx() == RefreshDisks(old(Ctx()), found)
    {
      disks := found;
      destination := None;
    }

    method VariantSelectAndStartPrebuffering(in_: Input) returns (result: Option<Action>)
      modifies this`fileOpen, this`opens, this`variants
      ensures Left(result) == VariantScreen(old(Ctx()), in_)
    {
      if in_.variants == 0 || !in_.osFileOpens {
        return None;
      }
      variants := in_.variants;
      fileOpen := true;
      opens := opens + 1;
      result := Some(Next);
    }

    method DestinationSelect(in_: Input) returns (result: Option<Action>)
      modifies this`disks, this`destination
      ensures Left(result) == DestinationScreen(source, old(Ctx()), in_)
    {
      hide Places, PlaceAt, Eligible;
      Refresh(in_.disks);
      if disks.None? || |disks.value| == 0 || |Places(disks.value)| == 0 {
        return Some(MainMenu);
      }
      var round := 0;
      while round < |in_.picks|
        invariant round <= |in_.picks| && Ctx() == RefreshDisks(old(Ctx()), in_.disks)
        invariant PickLoop(source, disks.value, in_.picks[round..]) == PickLoop(source, disks.value, in_.picks)
      {
        var pick := in_.picks[round];
        assert in_.picks[round..][0] == pick && in_.picks[round..][1..] == in_.picks[round + 1..];
        if pick.menu.Canceled? {
          return Some(MainMenu);
        }
        if pick.menu.Other? {
          return None;
        }
        var place := GetPartitionFromIndex(disks.value, pick.menu.i);
        if place.None? {
          return None;
        }
        var part := place.value.part;
        var oversize := part.size >= OVERSIZE || part.start + part.size > OVERSIZE;
        if Eligible(source, place.value) && (!oversize || pick.keepOversize) && (!pick.mounted || pick.unmount) {
          destination := place;
          return Some(Next);
        }
        round := round + 1;
      }
      result := None;
    }

    /** qi_config; the options are read back from the menu even when it was cancelled. */
    method Config(in_: Input) returns (result: Option<Action>)
      modifies this`choice
      ensures Left(result) == ConfigScreen(old(Ctx()), in_)
    {
      choice := Configured(in_.choice);
      if in_.menu.Canceled? {
        return Some(Back);
      }
      if choice(Uefi) && !in_.uefiAccepted {
        return Some(DoNothing);
      }
      if choice(Cregfix) && !in_.cregfixAccepted {
        return Some(DoNothing);
      }
      if choice(Lba64) && !in_.lba64Accepted {
        return Some(DoNothing);
      }
      if !in_.quirksDone {
        return Some(DoNothing);
      }
      result := Some(Next);
    }

    /** qi_install, run by an Installer of its own. */
    method Install(in_: Input) returns (result: Option<Action>)
      requires forall idx :: AlwaysOn(idx) ==> choice(idx)
      modifies this`fileOpen, this`closes, this`installations
      ensures Left(result) == InstallScreen(old(Ctx()), in_)
    {
      hide Steps, TableOk, Row, Enabled, BarFor, ChosenPreparations;
      installations := installations + [Installation(fileOpen, disks, destination, choice)];
      var installer := new Installer(choice);
      var ok, maxProgress := installer.Install(choice, in_.works);
      if BaseOS in installer.trace {
        fileOpen := false;
        closes := closes + 1;
      }
      result := Some(if ok then Next else RedoFromStart);
    }

    ghost function Left(result: Option<Action>): Screen
      reads this
    {
      if result.None? then Over(Ctx()) else Screen(Ctx(), result.value)
    }

    /** The switch over the screens. */
    method Show(in_: Input) returns (result: Option<Action>)
      requires forall idx :: AlwaysOn(idx) ==> choice(idx)
      modifies this
      ensures Left(result) == ShowScreen(source, old(Ctx()), in_)
    {
      hide DestinationScreen, InstallScreen, VariantScreen, ConfigScreen;
      match state {
        case VariantSelect => result := VariantSelectAndStartPrebuffering(in_);
        case MainMenu =>
          match in_.menu {
            case Item(i) =>
              result := if i == 0 then Some(SelectPartition) else if i == 1 then Some(DiskMgmt)
                        else if i == 2 then Some(Help) else if i == 3 then Some(ExitToShell)
                        else if i == 4 then Some(RedoFromStart) else None;
            case Canceled => result := Some(RedoFromStart);
            case Other => result := None;
          }
        case Help => result := Some(MainMenu);
        case SelectPartition => result := DestinationSelect(in_);
        case Configure => result := Config(in_);
        case DoInstall => result := Install(in_);
        case DiskMgmt =>
          Refresh(in_.disks);
          result := Some(MainMenu);
        case TheEnd =>
          result := if in_.menu == Item(0) then Some(Reboot) else if in_.menu == Item(1) then Some(RedoFromStart)
                    else if in_.menu == Item(2) then Some(ExitToShell) else None;
        case RedoFromStart =>
          CleanUp();
          result := Some(VariantSelect);
        case Reboot => CleanUp(); result := None;
        case ExitToShell => CleanUp(); result := None;
        case ExitError => CleanUp(); result := None;
        case _ => result := None;
      }
    }

    /** qi_wizard, for as long as there are inputs. */
    method Run(inputs: seq<Input>)
      requires Ctx() == StartContext(choice) && forall idx :: AlwaysOn(idx) ==> choice(idx)
      modifies this
      ensures Ctx() == Turns(source, StartContext(old(choice)), inputs)
    {
      hide ShowScreen, Inv, Turns;
      ghost var c0 := Ctx();
      var i := 0;
      NoTurns(source, c0, inputs);
      InvStart(source, choice);
      while i < |inputs| && running
        invariant i <= |inputs| && Ctx() == Turns(source, c0, inputs[..i])
        invariant Inv(source, Ctx())
      {
        OneMoreTurn(source, c0, inputs, i);
        InvTurn(source, Ctx(), inputs[i]);
        InvAlwaysOn(source, Ctx());
        var result := Show(inputs[i]);
        if result.None? {
          running := false;
        } else {
          match result.value {
            case Back => state := if Ordinal(state) > 0 then ACTIONS[Ordinal(state) - 1] else DoNothing;
            case Next => state := if Ordinal(state) + 1 < |ACTIONS| then ACTIONS[Ordinal(state) + 1] else DoNothing;
            case DoNothing =>
            case _ => state := result.value;
          }
        }
        i := i + 1;
      }
      OverStaysOver(source, c0, inputs, i);
    }
  }

  lemma NoTurns(source: string, c: Context, inputs: seq<Input>)
    ensures Turns(source, c, inputs[..0]) == c
  {
  }

  lemma OneMoreTurn(source: string, c: Context, inputs: seq<Input>, i: nat)
    requires i < |inputs|
    ensures Turns(source, c, inputs[..i + 1]) == Turn(source, Turns(source, c, inputs[..i]), inputs[i])
  {
    assert inputs[..i + 1][..i] == inputs[..i];
  }

  lemma {:induction false} OverStaysOver(source: string, c: Context, inputs: seq<Input>, i: nat)
    requires i <= |inputs| && (i < |inputs| ==> !Turns(source, c, inputs[..i]).running)
    ensures Turns(source, c, inputs) == Turns(source, c, inputs[..i])
    decreases |inputs|
  {
    if i == |inputs| {
      assert inputs[..i] == inputs;
    } else {
      var front := inputs[..|inputs| - 1];
      assert front[..i] == inputs[..i];
      OverStaysOver(source, c, front, i);
    }
  }

  // ----- what every run keeps

  /** Screens that are only shown with the OS file open. */
  predicate NeedsFile(a: Action) {
    1 <= Ordinal(a) <= 6
  }

  ghost predicate DestinationOk(source: string, disks: Option<seq<Disk>>, destination: Option<Place>) {
    && disks.Some? && destination.Some?
    && destination.value in Places(disks.value)
    && Eligible(source, destination.value)
  }

  ghost predicate InstallationOk(source: string, i: Installation) {
    && i.fileOpen && DestinationOk(source, i.disks, i.destination)
    && i.choice(BaseOS) && i.choice(Mount) && i.choice(Registry)
  }

  ghost predicate Inv(source: string, c: Context) {
    && IsScreen(c.state)
    && (c.running && NeedsFile(c.state) ==> c.fileOpen)
    && (c.running && (c.state == VariantSelect || c.state == TheEnd) ==> !c.fileOpen)
    && (c.running && (c.state == Configure || c.state == DoInstall) ==> DestinationOk(source, c.disks, c.destination))
    && (c.destination.Some? ==> c.disks.Some? && c.destination.value in Places(c.disks.value))
    && (forall idx :: AlwaysOn(idx) ==> c.choice(idx))
    && c.opens == c.closes + (if c.fileOpen then 1 else 0)
    && (forall i :: 0 <= i < |c.installations| ==> InstallationOk(source, c.installations[i]))
  }

  lemma InvStart(source: string, choice: Choice)
    requires forall idx :: AlwaysOn(idx) ==> choice(idx)
    ensures Inv(source, StartContext(choice))
  {
  }

  lemma InvAlwaysOn(source: string, c: Context)
    requires Inv(source, c)
    ensures forall idx :: AlwaysOn(idx) ==> c.choice(idx)
  {
  }

  lemma PickIsEligible(source: string, disks: seq<Disk>, p: Pick)
    requires TryPick(source, disks, p).Chosen?
    ensures TryPick(source, disks, p).place in Places(disks)
    ensures Eligible(source, TryPick(source, disks, p).place)
  {
    hide Places;
  }

  lemma {:induction false} PickLoopIsEligible(source: string, disks: seq<Disk>, picks: seq<Pick>)
    requires PickLoop(source, disks, picks).Chosen?
    ensures PickLoop(source, disks, picks).place in Places(disks)
    ensures Eligible(source, PickLoop(source, disks, picks).place)
    decreases |picks|
  {
    hide Places, Eligible, TryPick;
    if TryPick(source, disks, picks[0]) == Again {
      PickLoopIsEligible(source, disks, picks[1..]);
    } else {
      PickIsEligible(source, disks, picks[0]);
    }
  }

  /** An installation in which nothing failed has copied, and so closed, the OS file. */
  lemma OsFileIsCopied(chosen: Choice, works: Choice)
    requires chosen(BaseOS)
    ensures var end := Steps(chosen, works, FreshRun(), STEPS);
      !end.error ==> BaseOS in end.ran
  {
    hide Executed, Steps, Enabled;
    StopsAtFirstFailure(chosen, works, FreshRun(), STEPS);
    BaseOSIsAStep();
    EnabledHas(chosen, STEPS, BaseOS);
    assert [] + Executed(chosen, works, STEPS) == Executed(chosen, works, STEPS);
  }

  lemma BaseOSIsAStep()
    ensures BaseOS in STEPS
  {
    assert STEPS[5] == BaseOS;
  }

  lemma {:induction false} EnabledHas(chosen: Choice, steps: seq<OptionIdx>, idx: OptionIdx)
    requires idx in steps && chosen(idx)
    ensures idx in Enabled(chosen, steps)
    decreases |steps|
  {
    if steps[0] != idx {
      EnabledHas(chosen, steps[1..], idx);
    }
  }

  lemma InvDestination(source: string, c: Context, in_: Input)
    requires Inv(source, c) && c.running && c.state == SelectPartition
    ensures Inv(source, Turn(source, c, in_))
  {
    hide Places, Eligible, PickLoop;
    if in_.disks.Some? {
      if PickLoop(source, in_.disks.value, in_.picks).Chosen? {
        PickLoopIsEligible(source, in_.disks.value, in_.picks);
      }
    }
  }

  lemma InvInstall(source: string, c: Context, in_: Input)
    requires Inv(source, c) && c.running && c.state == DoInstall
    ensures Inv(source, Turn(source, c, in_))
  {
    hide Places, Eligible, Steps;
    OsFileIsCopied(c.choice, in_.works);
    assert InstallationOk(source, Installation(c.fileOpen, c.disks, c.destination, c.choice));
  }

  lemma InvMenus(source: string, c: Context, in_: Input)
    requires Inv(source, c) && c.running && (c.state == MainMenu || c.state == Help || c.state == TheEnd)
    ensures Inv(source, Turn(source, c, in_))
  {
    hide Places, DestinationOk, InstallationOk, DestinationScreen, InstallScreen, ConfigScreen, VariantScreen, Cleanup;
  }

  lemma InvOther(source: string, c: Context, in_: Input)
    requires Inv(source, c) && c.running && c.state != SelectPartition && c.state != DoInstall
    requires c.state != MainMenu && c.state != Help && c.state != TheEnd
    ensures Inv(source, Turn(source, c, in_))
  {
    hide Places, DestinationOk, InstallationOk, DestinationScreen, InstallScreen, MainMenuScreen, EndScreen;
  }

  lemma {:induction false} InvTurns(source: string, c: Context, inputs: seq<Input>)
    requires Inv(source, c)
    ensures Inv(source, Turns(source, c, inputs))
    decreases |inputs|
  {
    hide Inv, Turn;
    if inputs != [] {
      var front, in_ := inputs[..|inputs| - 1], inputs[|inputs| - 1];
      InvTurns(source, c, front);
      InvTurn(source, Turns(source, c, front), in_);
    }
  }

  lemma InvTurn(source: string, c: Context, in_: Input)
    requires Inv(source, c)
    ensures Inv(source, Turn(source, c, in_))
  {
    hide ShowScreen, Enter, Places, Eligible, DestinationOk, InstallationOk;
    if c.running {
      if c.state == SelectPartition {
        InvDestination(source, c, in_);
      } else if c.state == DoInstall {
        InvInstall(source, c, in_);
      } else if c.state == MainMenu || c.state == Help || c.state == TheEnd {
        InvMenus(source, c, in_);
      } else {
        InvOther(source, c, in_);
      }
    }
  }

  /**
   Safety of whole runs, whatever the user and the machine do: qi_install is only entered with the OS file
   open and a destination from the current disk array that is on a "dos" table, FAT16 or FAT32, primary and
   not the source, and with the steps on that are not offered in the menu; the state is always one the switch
   knows; and every opening of the OS file but a current one has been closed exactly once.
   */
  lemma WizardIsSafe(source: string, choice: Choice, inputs: seq<Input>)
    requires forall idx :: AlwaysOn(idx) ==> choice(idx)
    ensures var c := Turns(source, StartContext(choice), inputs);
      && IsScreen(c.state)
      && c.opens == c.closes + (if c.fileOpen then 1 else 0)
      && (forall i :: 0 <= i < |c.installations| ==>
            var inst := c.installations[i];
            && inst.fileOpen && inst.disks.Some? && inst.destination.Some?
            && inst.destination.value in Places(inst.disks.value)
            && inst.destination.value.disk.tableType == "dos"
            && (inst.destination.value.part.fileSystem == Fat16 || inst.destination.value.part.fileSystem == Fat32)
            && inst.destination.value.part.indexOnParent <= 4
            && inst.destination.value.part.device != source
            && inst.choice(BaseOS) && inst.choice(Mount) && inst.choice(Registry))
  {
    hide Places, Turns;
    InvTurns(source, StartContext(choice), inputs);
    var c := Turns(source, StartContext(choice), inputs);
    forall i | 0 <= i < |c.installations|
      ensures InstallationOk(source, c.installations[i])
    {
    }
  }

  /** Leaving through the shell, the error exit or a reboot leaves no file open and no destination behind. */
  lemma ExitCleansUp(source: string, choice: Choice, inputs: seq<Input>, in_: Input)
    requires forall idx :: AlwaysOn(idx) ==> choice(idx)
    requires var c := Turns(source, StartContext(choice), inputs);
      c.running && (c.state == ExitToShell || c.state == ExitError || c.state == Reboot)
    ensures var c := Turns(source, StartContext(choice), inputs + [in_]);
      !c.running && !c.fileOpen && c.destination.None? && c.opens == c.closes
  {
    var c := Turns(source, StartContext(choice), inputs);
    assert (inputs + [in_])[..|inputs|] == inputs;
    hide Places;
    InvTurns(source, StartContext(choice), inputs);
  }
}
