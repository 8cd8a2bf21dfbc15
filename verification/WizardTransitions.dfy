/** Where each answer leads in the wizard, and what the user has to agree to before anything is installed. */
module WizardTransitions {
  import opened Bytes
  import opened InstallSequence
  import opened Wizard

  /** Counting up and down goes through the enum in its order. */
  lemma OrdinalsAreTheEnum(a: Action, i: nat)
    ensures Ordinal(a) < |ACTIONS| == 15 && ACTIONS[Ordinal(a)] == a
    ensures i < 15 ==> Ordinal(ACTIONS[i]) == i
  {
  }

  // ----- menus

  /** The main menu: install, disks, help, shell, OS variant; leaving it starts over. */
  lemma MainMenuLeads(source: string, c: Context, in_: Input)
    requires c.running && c.state == MainMenu
    ensures var c' := Turn(source, c, in_);
      && (in_.menu == Item(0) ==> c' == c.(state := SelectPartition))
      && (in_.menu == Item(1) ==> c' == c.(state := DiskMgmt))
      && (in_.menu == Item(2) ==> c' == c.(state := Help))
      && (in_.menu == Item(3) ==> c' == c.(state := ExitToShell))
      && (in_.menu == Item(4) || in_.menu == Canceled ==> c' == c.(state := RedoFromStart))
      && (in_.menu == Other || (in_.menu.Item? && in_.menu.i > 4) ==> c' == c.(running := false))
  {
  }

  /** The end menu: reboot, start over, shell; it cannot be cancelled. */
  lemma EndMenuLeads(source: string, c: Context, in_: Input)
    requires c.running && c.state == TheEnd
    ensures var c' := Turn(source, c, in_);
      && (in_.menu == Item(0) ==> c' == c.(state := Reboot))
      && (in_.menu == Item(1) ==> c' == c.(state := RedoFromStart))
      && (in_.menu == Item(2) ==> c' == c.(state := ExitToShell))
      && (in_.menu in {Item(0), Item(1), Item(2)} || c' == c.(running := false))
  {
  }

  /** The screens without a choice, and the ones that leave the wizard or start it over. */
  lemma OtherScreensLead(source: string, c: Context, in_: Input)
    requires c.running
    ensures var c' := Turn(source, c, in_);
      && (c.state == Help ==> c' == c.(state := MainMenu))
      && (c.state == DiskMgmt ==> c' == c.(state := MainMenu, disks := in_.disks, destination := None))
      && (c.state == VariantSelect && in_.variants > 0 && in_.osFileOpens ==>
            c'.running && c'.state == MainMenu && c'.fileOpen)
      && (c.state == VariantSelect && !(in_.variants > 0 && in_.osFileOpens) ==> !c'.running)
      && (c.state == RedoFromStart ==>
            c'.running && c'.state == VariantSelect && !c'.fileOpen && c'.disks == None && c'.destination == None)
      && (c.state == Reboot || c.state == ExitToShell || c.state == ExitError ==>
            !c'.running && !c'.fileOpen && c'.disks == None && c'.destination == None)
  {
  }

  // ----- configuration

  /**
   Leaving the configuration: cancelling leads back to the destination, refusing a warning about an option that is
   on, or failing quirks, show it again, and only otherwise the installation is next. The options are the menu's
   in every case, and the OS, mounting and the registry are always on.
   */
  lemma ConfigureLeads(source: string, c: Context, in_: Input)
    requires c.running && c.state == Configure
    ensures var c' := Turn(source, c, in_);
      && c'.running
      && (in_.menu == Canceled ==> c'.state == SelectPartition)
      && (in_.menu != Canceled && Refused(in_) ==> c'.state == Configure)
      && (in_.menu != Canceled && !Refused(in_) ==> c'.state == DoInstall)
      && (forall idx :: c'.choice(idx) == (idx == BaseOS || idx == Mount || idx == Registry || in_.choice(idx)))
      && c'.destination == c.destination && c'.disks == c.disks && c'.fileOpen == c.fileOpen
  {
    MenuChoiceIs(in_.choice);
    assert Turn(source, c, in_).choice == Configured(in_.choice);
  }

  lemma AlwaysOnIs(idx: OptionIdx)
    ensures AlwaysOn(idx) == (idx == BaseOS || idx == Mount || idx == Registry)
  {
  }

  lemma MenuChoiceIs(choice: Choice)
    ensures forall idx :: Configured(choice)(idx) == (idx == BaseOS || idx == Mount || idx == Registry || choice(idx))
  {
    hide AlwaysOn;
    forall idx
      ensures Configured(choice)(idx) == (idx == BaseOS || idx == Mount || idx == Registry || choice(idx))
    {
      AlwaysOnIs(idx);
      assert Configured(choice)(idx) == (AlwaysOn(idx) || choice(idx));
    }
  }

  predicate Refused(in_: Input) {
    || (in_.choice(Uefi) && !in_.uefiAccepted)
    || (in_.choice(Cregfix) && !in_.cregfixAccepted)
    || (in_.choice(Lba64) && !in_.lba64Accepted)
    || !in_.quirksDone
  }

  lemma InstallIsFollowed(source: string, c: Context, in_: Input)
    requires c.running && c.state == DoInstall
    ensures var c' := Turn(source, c, in_); c'.running && (c'.state == TheEnd || c'.state == RedoFromStart)
  {
    hide Steps;
  }

  lemma DestinationLeads(source: string, c: Context, in_: Input)
    requires c.running && c.state == SelectPartition
    ensures var c' := Turn(source, c, in_); c'.running ==> c'.state == MainMenu || c'.state == Configure
  {
    hide Places, PickLoop;
  }

  /**
   Over whole runs, a turn ends in the installation only from the configuration, whose menu was not cancelled and
   whose warnings and quirks were accepted, and with just the options of that menu and the ones that are always on.
   */
  lemma InstallsOnlyFromConfigure(source: string, choice: Choice, inputs: seq<Input>, in_: Input)
    requires forall idx :: AlwaysOn(idx) ==> choice(idx)
    ensures var c := Turns(source, StartContext(choice), inputs);
      var c' := Turns(source, StartContext(choice), inputs + [in_]);
      c.running && c'.running && c'.state == DoInstall ==>
        && c.state == Configure && in_.menu != Canceled && !Refused(in_)
        && forall idx :: c'.choice(idx) == (idx == BaseOS || idx == Mount || idx == Registry || in_.choice(idx))
  {
    hide Inv, Turn, Refused;
    InvStart(source, choice);
    InvTurns(source, StartContext(choice), inputs);
    assert (inputs + [in_])[..|inputs|] == inputs;
    var c := Turns(source, StartContext(choice), inputs);
    if c.running && Turn(source, c, in_).running && Turn(source, c, in_).state == DoInstall {
      OnlyConfigureLeadsToInstall(source, c, in_);
      ConfigureLeads(source, c, in_);
    }
  }

  lemma OnlyConfigureLeadsToInstall(source: string, c: Context, in_: Input)
    requires c.running && Inv(source, c) && Turn(source, c, in_).running && Turn(source, c, in_).state == DoInstall
    ensures c.state == Configure
  {
    hide Turn, DestinationOk, InstallationOk;
    if c.state == MainMenu {
      MainMenuLeads(source, c, in_);
    } else if c.state == TheEnd {
      EndMenuLeads(source, c, in_);
    } else if c.state == SelectPartition {
      DestinationLeads(source, c, in_);
    } else if c.state == DoInstall {
      InstallIsFollowed(source, c, in_);
    } else if c.state != Configure {
      OtherScreensLead(source, c, in_);
    }
  }

  /** An installation that fails starts over, one that does not fail leads to the end menu. */
  lemma InstallLeads(source: string, c: Context, in_: Input)
    requires c.running && c.state == DoInstall
    ensures var c' := Turn(source, c, in_);
      var ran := Executed(c.choice, in_.works, STEPS);
      && c'.running
      && c'.state == (if ran != [] && !in_.works(ran[|ran| - 1]) then RedoFromStart else TheEnd)
      && c'.installations == c.installations + [Installation(c.fileOpen, c.disks, c.destination, c.choice)]
  {
    hide Executed, Steps, Enabled;
    StopsAtFirstFailure(c.choice, in_.works, FreshRun(), STEPS);
  }

  // ----- destination

  /** 128 GB, in bytes */
  predicate Oversize(part: Partition) {
    part.size >= 0x20_0000_0000 || part.start + part.size > 0x20_0000_0000
  }

  /**
   A round of the destination menu chooses a partition if and only if it is the one picked, on a "dos" table, FAT16
   or FAT32, primary and not the source, and the user agreed when it is oversize or mounted.
   */
  lemma ChosenIff(source: string, disks: seq<Disk>, p: Pick, place: Place)
    ensures TryPick(source, disks, p) == Chosen(place) <==>
      && p.menu.Item? && p.menu.i < |Places(disks)| && Places(disks)[p.menu.i] == place
      && place.part.device != source
      && place.disk.tableType == "dos"
      && (place.part.fileSystem == Fat16 || place.part.fileSystem == Fat32)
      && place.part.indexOnParent <= 4
      && (Oversize(place.part) ==> p.keepOversize)
      && (p.mounted ==> p.unmount)
  {
    hide Places;
  }

  /** The destination menu is shown again until a round decides: the first that does. */
  lemma {:induction false} FirstDecision(source: string, disks: seq<Disk>, picks: seq<Pick>) returns (k: nat)
    requires PickLoop(source, disks, picks) != Again
    ensures k < |picks| && PickLoop(source, disks, picks) == TryPick(source, disks, picks[k])
    ensures forall j :: 0 <= j < k ==> TryPick(source, disks, picks[j]) == Again
    decreases |picks|
  {
    hide TryPick, Places;
    if TryPick(source, disks, picks[0]) == Again {
      k := FirstDecision(source, disks, picks[1..]);
      k := k + 1;
      assert forall j :: 0 < j < |picks| ==> picks[j] == picks[1..][j - 1];
    } else {
      k := 0;
    }
  }

  /** Leaving the destination menu: to the configuration with what was chosen and agreed to, or to the main menu. */
  lemma DestinationIsAgreed(source: string, c: Context, in_: Input)
    requires c.running && c.state == SelectPartition
    ensures var c' := Turn(source, c, in_);
      && (c'.running && c'.state == Configure ==>
            && in_.disks.Some? && c'.disks == in_.disks && c'.destination.Some?
            && exists k :: 0 <= k < |in_.picks|
                           && TryPick(source, in_.disks.value, in_.picks[k]) == Chosen(c'.destination.value))
      && (c'.running && c'.state != Configure ==> c'.state == MainMenu && c'.destination == None)
  {
    hide Places, TryPick;
    if in_.disks.Some? && PickLoop(source, in_.disks.value, in_.picks) != Again {
      var k := FirstDecision(source, in_.disks.value, in_.picks);
      assert PickLoop(source, in_.disks.value, in_.picks) == TryPick(source, in_.disks.value, in_.picks[k]);
    }
  }

  /** Cancelling the destination menu leads to the main menu. */
  lemma CancelledDestination(source: string, c: Context, in_: Input)
    requires c.running && c.state == SelectPartition && in_.picks != [] && in_.picks[0].menu == Canceled
    ensures Turn(source, c, in_) == c.(state := MainMenu, disks := in_.disks, destination := None)
  {
    hide Places;
  }

  // ----- item numbers

  function CountBefore(disks: seq<Disk>, d: nat): nat
    requires d <= |disks|
  {
    if d == 0 then 0 else CountBefore(disks, d - 1) + |disks[d - 1].partitions|
  }

  /** Partition k of disk d has the number of the partitions on all disks before it, and k. */
  lemma {:induction false} ItemNumber(disks: seq<Disk>, d: nat, k: nat)
    requires d < |disks| && k < |disks[d].partitions|
    ensures PlaceAt(disks, CountBefore(disks, d) + k) == Some(Place(disks[d], disks[d].partitions[k]))
    decreases |disks|
  {
    if d > 0 {
      CountShift(disks, d);
      ItemNumber(disks[1..], d - 1, k);
    }
  }

  lemma {:induction false} CountShift(disks: seq<Disk>, d: nat)
    requires 0 < d <= |disks|
    ensures CountBefore(disks, d) == |disks[0].partitions| + CountBefore(disks[1..], d - 1)
    decreases d
  {
    if d > 1 {
      CountShift(disks, d - 1);
      assert disks[1..][d - 2] == disks[d - 1];
    }
  }
}
