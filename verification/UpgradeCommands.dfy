/** The commands of `safe-upgrade` as they are carried out on a device, change by change. */
module UpgradeCommands {
  import opened Bytes
  import opened UpgradeProtocol
  import opened UpgradeOutcomes

  /** Exit codes. */
  datatype Exit = ExitOk | InvalidFirmware | AlreadyConfirmed | NotInstalled | InstallFromPart2 | AlreadyInstalled

  class Device {
    var stable: Option<Slot>
    var testing: Option<Slot>
    var scripts: Slots<bool>
    var addrs: Slots<bool>
    var version: bool
    var bootcmd: bool
    var flash: Slots<Flash>
    var overlay: Slots<Overlay>
    var power: Power
    var timer: bool
    ghost var todo: seq<Action>
    ghost var confirmed: Flash
    ghost var testsSet: nat
    ghost var testBoots: nat
    ghost var trail: seq<State>  // the states passed through, one for every change

    ghost function Snapshot(): State
      reads this
    {
      State(stable, testing, scripts, addrs, version, bootcmd, flash, overlay, power, timer, todo,
            confirmed, testsSet, testBoots)
    }

    /** The states passed through and those still to come. */
    ghost function History(): seq<State>
      reads this
    {
      trail + Trail(Snapshot())
    }

    /** The last recorded state is the present one. */
    ghost predicate UpToDate()
      reads this
    {
      trail != [] && trail[|trail| - 1] == Snapshot()
    }

    constructor (s: State)
      ensures Snapshot() == s && trail == []
    {
      stable, testing, scripts, addrs := s.stable, s.testing, s.scripts, s.addrs;
      version, bootcmd, flash, overlay := s.version, s.bootcmd, s.flash, s.overlay;
      power, timer, todo := s.power, s.timer, s.todo;
      confirmed, testsSet, testBoots, trail := s.confirmed, s.testsSet, s.testBoots, [];
    }

    /** The changes to come are those of the command. */
    ghost method Begin(c: Command)
      requires power.Running? && todo == []
      modifies this`todo
      ensures todo == Script(old(Snapshot()), c)
      ensures History() == old(trail) + Trail(Next(old(Snapshot()), Start(c)))
    {
      todo := Script(Snapshot(), c);
    }

    /** Nothing is to come, so what happened is all there is. */
    lemma Finished()
      requires todo == []
      ensures History() == trail
    {
      assert trail + [] == trail;
    }

    ghost method Record(before: State)
      requires before.todo != [] && Snapshot() == Exec(before)
      modifies this`trail
      ensures trail == old(trail) + [Snapshot()] && History() == old(trail) + Trail(before)
    {
      trail := trail + [Snapshot()];
      assert old(trail) + ([Snapshot()] + Trail(Snapshot())) == History();
    }

    /** set_uboot_env: fw_setenv of one variable. */
    method SetEnv(a: Action)
      requires todo != [] && todo[0] == a
      requires a.SetScript? || a.SetTesting? || a.SetStable? || a.SetAddr? || a.SetVersion? || a.SetBootcmd?
      modifies this
      ensures trail == old(trail) + [Snapshot()] && History() == old(History())
      ensures todo == old(todo)[1..]
    {
      ghost var before := Snapshot();
      todo := todo[1..];
      SetVariable(a);
      Record(before);
    }

    method SetVariable(a: Action)
      requires a.SetScript? || a.SetTesting? || a.SetStable? || a.SetAddr? || a.SetVersion? || a.SetBootcmd?
      modifies this`scripts, this`testing, this`testsSet, this`stable, this`confirmed, this`addrs,
               this`version, this`bootcmd
      ensures Snapshot() == Apply(old(Snapshot()), a)
    {
      match a {
        case SetScript(p) => scripts := scripts.Put(p, true);
        case SetTesting(t) =>
          testing := t;
          testsSet := testsSet + if t.Some? then 1 else 0;
        case SetStable(p) =>
          stable := Some(p);
          confirmed := flash.Get(p);
        case SetAddr(p) => addrs := addrs.Put(p, true);
        case SetVersion => version := true;
        case SetBootcmd => bootcmd := true;
      }
    }

    /** mtd erase */
    method MtdErase(p: Slot)
      requires todo != [] && todo[0] == Erase(p)
      modifies this
      ensures trail == old(trail) + [Snapshot()] && History() == old(History())
      ensures todo == old(todo)[1..]
    {
      ghost var before := Snapshot();
      todo := todo[1..];
      flash := flash.Put(p, Broken);
      overlay := overlay.Put(p, Overlay(false, false));
      Record(before);
    }

    /** mtd -j write: the image, and the files that are unpacked at its first boot. */
    method MtdWrite(p: Slot, image: Image, armed: bool)
      requires todo != [] && todo[0] == Write(p, image, armed)
      modifies this
      ensures trail == old(trail) + [Snapshot()] && History() == old(History())
      ensures todo == old(todo)[1..]
    {
      ghost var before := Snapshot();
      todo := todo[1..];
      flash := flash.Put(p, Holds(image));
      overlay := overlay.Put(p, Overlay(armed, true));
      Record(before);
    }

    /** `stop` of the init script: the timeout file goes first, the waiting process second. */
    method AutoRebootStop(p: Slot)
      requires |todo| >= 2 && todo[0] == RemoveTimeout(p) && todo[1] == KillTimer
      modifies this
      ensures UpToDate() && History() == old(History()) && todo == old(todo)[2..]
    {
      RemoveTimeoutFile(p);
      KillSleep();
    }

    method RemoveTimeoutFile(p: Slot)
      requires todo != [] && todo[0] == RemoveTimeout(p)
      modifies this
      ensures trail == old(trail) + [Snapshot()] && History() == old(History())
      ensures todo == old(todo)[1..]
    {
      ghost var before := Snapshot();
      todo := todo[1..];
      overlay := overlay.Put(p, overlay.Get(p).(file := false));
      Record(before);
    }

    method KillSleep()
      requires todo != [] && todo[0] == KillTimer
      modifies this
      ensures trail == old(trail) + [Snapshot()] && History() == old(History())
      ensures todo == old(todo)[1..]
    {
      ghost var before := Snapshot();
      todo := todo[1..];
      timer := false;
      Record(before);
    }

    /** `disable` of the init script. */
    method AutoRebootDisable(p: Slot)
      requires todo != [] && todo[0] == RemoveLink(p)
      modifies this
      ensures trail == old(trail) + [Snapshot()] && History() == old(History())
      ensures todo == old(todo)[1..]
    {
      ghost var before := Snapshot();
      todo := todo[1..];
      overlay := overlay.Put(p, overlay.Get(p).(link := false));
      Record(before);
    }

    method DoReboot()
      requires todo != [] && todo[0] == Reboot
      modifies this
      ensures trail == old(trail) + [Snapshot()] && History() == old(History())
      ensures todo == []
    {
      ghost var before := Snapshot();
      power, timer, todo := Off, false, [];
      Record(before);
    }

    /** get_current_partition */
    function CurrentPartition(): Slot
      requires power.Running?
      reads this
    {
      power.root
    }

    method Bootstrap() returns (exit: Exit)
      requires power.Running? && todo == []
      modifies this
      ensures trail == old(trail) + Trail(Next(old(Snapshot()), Start(Command.Bootstrap))) && todo == []
      ensures if exit == ExitOk then UpToDate() else Snapshot() == old(Snapshot())
      ensures exit == if old(version) then AlreadyInstalled
                      else if old(power.root) != One then InstallFromPart2 else ExitOk
    {
      if version {
        return AlreadyInstalled;
      }
      if CurrentPartition() != One {
        return InstallFromPart2;
      }
      Begin(Command.Bootstrap);
      InstallVariables();
      InstallScripts();
      Finished();
      exit := ExitOk;
    }

    method InstallVariables()
      requires |todo| >= 4 && todo[..4] == [SetStable(One), SetTesting(None), SetAddr(One), SetAddr(Two)]
      modifies this
      ensures UpToDate() && History() == old(History()) && todo == old(todo)[4..]
    {
      assert todo[0] == todo[..4][0] && todo[1] == todo[..4][1] && todo[2] == todo[..4][2] && todo[3] == todo[..4][3];
      SetEnv(SetStable(One));
      SetEnv(SetTesting(None));
      SetEnv(SetAddr(One));
      SetEnv(SetAddr(Two));
    }

    /** The boot command is the last variable: everything it uses is there by then. */
    method InstallScripts()
      requires todo == [SetScript(One), SetVersion, SetBootcmd]
      modifies this
      ensures UpToDate() && History() == old(History()) && todo == []
    {
      SetEnv(SetScript(One));
      SetEnv(SetVersion);
      SetEnv(SetBootcmd);
    }

    method Upgrade(image: Image, accepted: bool, armed: bool, noReboot: bool) returns (exit: Exit)
      requires power.Running? && todo == []
      modifies this
      ensures trail == old(trail) + Trail(Next(old(Snapshot()), Start(Command.Upgrade(image, accepted, armed, noReboot))))
      ensures todo == []
      ensures if exit == ExitOk then UpToDate() else Snapshot() == old(Snapshot())
      ensures exit == if !old(version) then NotInstalled else if !accepted then InvalidFirmware else ExitOk
    {
      if !version {
        return NotInstalled;
      }
      var other := CurrentPartition().Other();
      if !accepted {
        return InvalidFirmware;
      }
      Begin(Command.Upgrade(image, accepted, armed, noReboot));
      ReplaceImage(other, image, armed);
      AnnounceImage(other);
      if !noReboot {
        DoReboot();
      }
      Finished();
      exit := ExitOk;
    }

    method ReplaceImage(p: Slot, image: Image, armed: bool)
      requires |todo| >= 2 && todo[0] == Erase(p) && todo[1] == Write(p, image, armed)
      modifies this
      ensures UpToDate() && History() == old(History()) && todo == old(todo)[2..]
    {
      MtdErase(p);
      MtdWrite(p, image, armed);
    }

    method AnnounceImage(p: Slot)
      requires |todo| >= 2 && todo[0] == SetScript(p) && todo[1] == SetTesting(Some(p))
      modifies this
      ensures UpToDate() && History() == old(History()) && todo == old(todo)[2..]
    {
      SetEnv(SetScript(p));
      SetEnv(SetTesting(Some(p)));
    }

    method Confirm() returns (exit: Exit)
      requires power.Running? && todo == []
      modifies this
      ensures trail == old(trail) + Trail(Next(old(Snapshot()), Start(Command.Confirm))) && todo == []
      ensures if exit == ExitOk then UpToDate() else Snapshot() == old(Snapshot())
      ensures exit == if !old(version) then NotInstalled
                      else if old(stable) == Some(old(power.root)) then AlreadyConfirmed else ExitOk
    {
      if !version {
        return NotInstalled;
      }
      var cur := CurrentPartition();
      if Some(cur) == stable {
        return AlreadyConfirmed;
      }
      Begin(Command.Confirm);
      AutoRebootStop(cur);
      AutoRebootDisable(cur);
      SetEnv(SetStable(cur));
      Finished();
      exit := ExitOk;
    }

    method TestOtherPartition() returns (exit: Exit)
      requires power.Running? && todo == []
      modifies this
      ensures trail == old(trail) + Trail(Next(old(Snapshot()), Start(Command.TestOther))) && todo == []
      ensures if exit == ExitOk then UpToDate() else Snapshot() == old(Snapshot())
      ensures exit == if !old(version) then NotInstalled else ExitOk
    {
      if !version {
        return NotInstalled;
      }
      var other := CurrentPartition().Other();
      Begin(Command.TestOther);
      SetEnv(SetTesting(Some(other)));
      Finished();
      exit := ExitOk;
    }

    /** The boot loader script, from power-up to a running kernel or none. */
    method BootLoader()
      requires power.Off? && todo == []
      modifies this
      ensures Snapshot() == Boot(PowerUp(old(Snapshot()))) && trail == old(trail)
    {
      ChoosePartition();
      StartKernel();
    }

    /** The first part of the script, with the saved environment. */
    method ChoosePartition()
      requires power.Off?
      modifies this`power, this`testing
      ensures Snapshot() == PowerUp(old(Snapshot()))
    {
      var bootPart := One;
      if bootcmd {
        bootPart := if stable.Some? then stable.value else One;
        if testing.Some? {
          bootPart := testing.value;
          testing := None;
        }
      }
      power := Loading(bootPart);
    }

    /** The boot attempts, in order; `fw_addr` stays and the boot arguments are those set last. */
    method StartKernel()
      requires power.Loading?
      modifies this`power, this`timer, this`testBoots
      ensures Snapshot() == Boot(old(Snapshot()))
    {
      var addr := power.part;
      var args := One;
      var booted: Option<Slot> := None;
      if !bootcmd {
        booted := if flash.one.Boots() then Some(One) else None;
      } else {
        if scripts.Get(addr) {
          args := addr;
          booted := if Bootm(addr) then Some(addr) else None;
        }
        if booted.None? && scripts.one {
          args := One;
          booted := if Bootm(addr) then Some(addr) else None;
        }
        if booted.None? {
          booted := if Bootm(One) then Some(One) else None;
        }
      }
      assert booted.Some? ==> Outcome(Snapshot(), addr) == Running(booted.value, args);
      assert booted.None? ==> Outcome(Snapshot(), addr) == Dead;
      if booted.Some? {
        ghost var good := Good(Snapshot());
        power := Running(booted.value, args);
        timer := overlay.Get(args).file && overlay.Get(args).link;
        testBoots := testBoots + if booted.value != good then 1 else 0;
      } else {
        power := Dead;
      }
    }

    /** bootm at the address of a partition. */
    predicate Bootm(p: Slot)
      reads this
    {
      addrs.Get(p) && flash.Get(p).Boots()
    }
  }
}
