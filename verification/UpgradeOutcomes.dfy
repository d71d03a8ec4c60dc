/** What the commands of safe-upgrade leave behind, finished or interrupted. */
module UpgradeOutcomes {
  import opened Bytes
  import opened UpgradeProtocol

  // ----------------------------------------------------------------------------------------------
  // What the commands are for
  // ----------------------------------------------------------------------------------------------

  lemma {:induction false} EffectsConcat(s: State, a: seq<Action>, b: seq<Action>)
    ensures Effects(s, a + b) == Effects(Effects(s, a), b)
    decreases |a|
  {
    if a == [] {
      assert a + b == b;
    } else {
      assert (a + b)[1..] == a[1..] + b;
      EffectsConcat(Apply(s, a[0]), a[1..], b);
    }
  }

  /** What an upgrade writes. */
  function Upgraded(s: State, image: Image, armed: bool): State
    requires s.power.Running?
  {
    var other := Current(s).Other();
    s.(flash := s.flash.Put(other, Holds(image)), overlay := s.overlay.Put(other, Overlay(armed, true)),
       scripts := s.scripts.Put(other, true), testing := Some(other), testsSet := s.testsSet + 1)
  }

  lemma UpgradeWrites(s: State, image: Image, armed: bool)
    requires s.power.Running?
    ensures var other := Current(s).Other();
            Effects(s, [Erase(other)] + [Write(other, image, armed), SetScript(other), SetTesting(Some(other))])
            == Upgraded(s, image, armed)
  {
    var other := Current(s).Other();
    EffectsStep(s, Erase(other), [Write(other, image, armed), SetScript(other), SetTesting(Some(other))]);
    EffectsOfThree(Apply(s, Erase(other)), Write(other, image, armed), SetScript(other), SetTesting(Some(other)));
  }

  /** What an upgrade leaves behind. */
  lemma UpgradeLeaves(s: State, image: Image, armed: bool, noReboot: bool)
    requires s.power.Running? && s.version
    ensures var done := Upgraded(s, image, armed);
            Effects(s, Script(s, Upgrade(image, true, armed, noReboot))) == if noReboot then done else PowerDown(done)
  {
    var other := Current(s).Other();
    var last := [Write(other, image, armed), SetScript(other), SetTesting(Some(other))];
    var tail := if noReboot then [] else [Reboot];
    var done := Upgraded(s, image, armed);
    assert Script(s, Upgrade(image, true, armed, noReboot)) == ([Erase(other)] + last) + tail;
    UpgradeWrites(s, image, armed);
    EffectsConcat(s, [Erase(other)] + last, tail);
    if !noReboot {
      EffectsStep(done, Reboot, []);
    }
  }

  lemma CycleTests(s: State)
    requires Inv(s) && s.bootcmd && s.testing == Some(Good(s).Other()) && s.scripts.Get(Good(s).Other())
    ensures PowerCycle(s).power == Running(Good(s).Other(), Good(s).Other())
            <==> s.flash.Get(Good(s).Other()).Boots()
  {
  }

  /** An upgrade from the stable partition, whether it reboots by itself or not, is tried at the next power-up, exactly if its
      image boots, and at the one behind it the device is back on the stable partition. */
  lemma UpgradeIsTriedOnce(s: State, image: Image, armed: bool, noReboot: bool)
    requires Inv(s) && s.bootcmd && s.power.Running? && s.todo == []
    requires FromStable(s, Start(Upgrade(image, true, armed, noReboot)))
    ensures var done := Effects(s, Script(s, Upgrade(image, true, armed, noReboot)));
            var other := Good(s).Other();
            && (PowerCycle(done).power == Running(other, other) <==> image.boots)
            && PowerCycle(PowerCycle(done)).power == Running(Good(s), Good(s))
  {
    var c := Upgrade(image, true, armed, noReboot);
    var a := Script(s, c);
    UpgradeLeaves(s, image, armed, noReboot);
    ScriptHarmless(s, c);
    EffectsKeepInv(s, a);
    TriedOnce(Effects(s, a));
  }

  /** From the second partition an upgrade with an image that does not boot makes the device stand still until
      power is cut once more; from the first one the first power-up already falls back to it. */
  lemma FailedUpgrade(s: State, image: Image, armed: bool, noReboot: bool)
    requires Inv(s) && s.bootcmd && s.power.Running? && s.todo == []
    requires FromStable(s, Start(Upgrade(image, true, armed, noReboot))) && !image.boots
    ensures var done := Effects(s, Script(s, Upgrade(image, true, armed, noReboot)));
            && PowerCycle(done).power == (if Good(s) == Two then Dead else Running(One, One))
            && PowerCycle(PowerCycle(done)).power == Running(Good(s), Good(s))
  {
    var c := Upgrade(image, true, armed, noReboot);
    UpgradeLeaves(s, image, armed, noReboot);
    ScriptHarmless(s, c);
    EffectsKeepInv(s, Script(s, c));
    UpgradeIsTriedOnce(s, image, armed, noReboot);
    FirstPowerUp(Effects(s, Script(s, c)));
  }

  /** The new image, once it runs, reboots by itself exactly if the upgrade did not disable that. */
  lemma UpgradeArms(s: State, image: Image, armed: bool, noReboot: bool)
    requires Inv(s) && s.bootcmd && s.power.Running? && s.todo == []
    requires FromStable(s, Start(Upgrade(image, true, armed, noReboot))) && image.boots
    ensures var tested := PowerCycle(Effects(s, Script(s, Upgrade(image, true, armed, noReboot))));
            tested.power == Running(Good(s).Other(), Good(s).Other()) && (Enabled(tested, AutoReboot) <==> armed)
  {
    UpgradeLeaves(s, image, armed, noReboot);
    UpgradeIsTriedOnce(s, image, armed, noReboot);
  }

  /** A command changes something exactly in these cases. */
  lemma CommandActsIff(s: State, c: Command)
    requires s.power.Running?
    ensures c.Bootstrap? ==> (Script(s, c) != [] <==> !s.version && s.power.root == One)
    ensures c.Upgrade? ==> (Script(s, c) != [] <==> s.version && c.accepted)
    ensures c.Confirm? ==> (Script(s, c) != [] <==> s.version && s.stable != Some(s.power.root))
    ensures c.TestOther? ==> (Script(s, c) != [] <==> s.version)
  {
  }

  lemma TriedOnce(s: State)
    requires Inv(s) && s.bootcmd && s.testing == Some(Good(s).Other()) && s.scripts.Get(Good(s).Other())
    ensures PowerCycle(s).power == Running(Good(s).Other(), Good(s).Other())
            <==> s.flash.Get(Good(s).Other()).Boots()
    ensures PowerCycle(PowerCycle(s)).power == Running(Good(s), Good(s))
  {
    CycleTests(s);
    CycleKeepsInv(s);
    NoTestAfterCycle(s);
    CycleWithoutTest(PowerCycle(s));
  }

  lemma {:induction false} EffectsKeepInv(s: State, actions: seq<Action>)
    requires Core(s) && s.todo == [] && AllHarmless(s, actions) && RebootsLast(actions)
    requires actions != [] ==> s.power.Running?
    ensures Inv(Effects(s, actions)) && Effects(s, actions).todo == []
    decreases |actions|
  {
    if actions != [] {
      HarmlessKeepsCore(s, actions[0]);
      RebootsLastTail(actions);
      EffectsKeepInv(Apply(s, actions[0]), actions[1..]);
    }
  }

  /** Confirming makes the running partition the stable one for good: it is what every later power-up ends
      with, and it does not reboot by itself. */
  lemma ConfirmTakesOver(s: State)
    requires Inv(s) && s.bootcmd && s.power.Running? && s.todo == [] && s.stable != Some(Current(s))
    ensures var done := Effects(s, Script(s, Confirm));
            && Good(done) == Current(s) && done.confirmed == s.flash.Get(Current(s))
            && !Enabled(done, AutoReboot)
            && PowerCycle(PowerCycle(done)).power == Running(Current(s), Current(s))
  {
    var cur := Current(s);
    var a := Script(s, Confirm);
    ConfirmLeaves(s);
    ScriptHarmless(s, Confirm);
    EffectsKeepInv(s, a);
    RecoversInTwo(Effects(s, a));
  }

  lemma ConfirmLeaves(s: State)
    requires s.power.Running? && s.version && s.stable != Some(Current(s))
    ensures var cur := Current(s);
            Effects(s, Script(s, Confirm))
            == s.(overlay := s.overlay.Put(cur, Overlay(false, false)), timer := false,
                  stable := Some(cur), confirmed := s.flash.Get(cur))
  {
    var cur := Current(s);
    var last := [KillTimer, RemoveLink(cur), SetStable(cur)];
    assert Script(s, Confirm) == [RemoveTimeout(cur)] + last;
    EffectsStep(s, RemoveTimeout(cur), last);
    EffectsOfThree(Apply(s, RemoveTimeout(cur)), KillTimer, RemoveLink(cur), SetStable(cur));
  }

  lemma RecoversInTwo(s: State)
    requires Inv(s)
    ensures PowerCycle(PowerCycle(s)).power == Running(Good(s), Good(s))
  {
    CycleKeepsInv(s);
    NoTestAfterCycle(s);
    CycleWithoutTest(PowerCycle(s));
  }

  // ----------------------------------------------------------------------------------------------
  // A bootstrap that is interrupted
  // ----------------------------------------------------------------------------------------------

  /** The version is set and the boot command is not, and no running bootstrap is about to set it. */
  predicate HalfInstalled(s: State) {
    && s.version && !s.bootcmd && SetBootcmd !in s.todo
    && (s.power.Loading? ==> s.power.part == One)
    && (s.power.Running? ==> s.power == Running(One, One))
  }

  lemma HalfInstalledStep(s: State, e: Event)
    requires HalfInstalled(s) && Enabled(s, e)
    ensures HalfInstalled(Next(s, e))
  {
    if e.Change? && !s.todo[0].Reboot? {
      ChangeApplies(s);
      assert s.todo[0] in s.todo;
    }
  }

  /** Such a device never gets the boot command, whatever is done with it: bootstrap takes itself for
      installed, upgrades are written, and every kernel is that of the first partition. */
  lemma {:induction false} HalfInstalledForGood(s: State, events: seq<Event>)
    requires HalfInstalled(s) && IsRun(s, events, AnyUse)
    ensures HalfInstalled(RunFrom(s, events))
    decreases |events|
  {
    if events != [] {
      HalfInstalledStep(s, events[0]);
      HalfInstalledForGood(Next(s, events[0]), events[1..]);
    }
  }

  /** Bootstrap after `n` of its seven changes. */
  predicate Installing(s: State, n: nat) {
    && n <= 7 && s.power == Running(One, One) && s.todo == INSTALL[n..] && s.flash.one.Boots()
    && (s.version <==> n >= 6) && (s.bootcmd <==> n >= 7)
  }

  /** An action that sets one variable of the environment. */
  predicate IsSetting(a: Action) {
    a.SetStable? || a.SetTesting? || a.SetScript? || a.SetAddr? || a.SetVersion? || a.SetBootcmd?
  }

  lemma SettingApplies(s: State, a: Action)
    requires IsSetting(a)
    ensures var next := Apply(s, a);
            && next.power == s.power && next.flash == s.flash && next.todo == s.todo
            && next.version == (s.version || a.SetVersion?) && next.bootcmd == (s.bootcmd || a.SetBootcmd?)
  {
  }

  lemma InstallAction(n: nat)
    requires n < 7
    ensures var a := INSTALL[n];
            IsSetting(a) && (a.SetVersion? <==> n == 5) && (a.SetBootcmd? <==> n == 6)
    ensures INSTALL[n..][0] == INSTALL[n] && INSTALL[n..][1..] == INSTALL[n + 1..]
  {
  }

  lemma InstallingStep(s: State, n: nat)
    requires Installing(s, n) && n < 7
    ensures Installing(Exec(s), n + 1)
  {
    InstallAction(n);
    SettingApplies(s.(todo := s.todo[1..]), INSTALL[n]);
  }

  lemma {:induction false} InstallingRuns(s: State, n: nat, m: nat)
    requires Installing(s, n) && n + m <= 7
    ensures IsRun(s, Changes(m), AnyUse) && Installing(RunFrom(s, Changes(m)), n + m)
    decreases m
  {
    if m > 0 {
      InstallingStep(s, n);
      InstallingRuns(Exec(s), n + 1, m - 1);
      RunFirst(s, Change, Changes(m - 1));
    }
  }

  /** A device that may be bootstrapped. */
  predicate NotInstalled(s: State) {
    s.power == Running(One, One) && s.todo == [] && s.flash.one.Boots() && !s.version && !s.bootcmd
  }

  /** Bootstrap up to its n-th change. */
  function InstallEvents(n: nat): seq<Event> {
    [Start(Bootstrap)] + Changes(n)
  }

  lemma InstallRuns(s: State, n: nat)
    requires NotInstalled(s) && n <= 7
    ensures IsRun(s, InstallEvents(n), AnyUse) && Installing(RunFrom(s, InstallEvents(n)), n)
  {
    var started := Next(s, Start(Bootstrap));
    assert started.todo == INSTALL == INSTALL[0..];
    InstallingRuns(started, 0, n);
    RunFirst(s, Start(Bootstrap), Changes(n));
  }

  ghost predicate CanBeInstalled(s: State) {
    exists events: seq<Event> :: IsRun(s, events, AnyUse) && RunFrom(s, events).bootcmd
  }

  /** Power may fail at any moment of a bootstrap but one: with all changes done or with none to five of them
      the device is or can be installed, and behind the sixth, the version, it never can. */
  lemma InterruptedBootstrap(s: State, n: nat)
    requires NotInstalled(s) && n <= 7
    ensures IsRun(s, InstallEvents(n), AnyUse)
    ensures CanBeInstalled(PowerDown(RunFrom(s, InstallEvents(n)))) <==> n != 6
  {
    InstallRuns(s, n);
    var off := PowerDown(RunFrom(s, InstallEvents(n)));
    if n == 6 {
      forall events | IsRun(off, events, AnyUse) ensures !RunFrom(off, events).bootcmd {
        HalfInstalledForGood(off, events);
      }
    } else if n == 7 {
      assert IsRun(off, [], AnyUse) && RunFrom(off, []).bootcmd;
    } else {
      InstalledAgain(off);
    }
  }

  lemma FactoryCycle(off: State)
    requires off.flash.one.Boots() && off.todo == [] && !off.version && !off.bootcmd
    ensures NotInstalled(PowerCycle(off))
  {
  }

  lemma InstalledAgain(off: State)
    requires off.power.Off? && off.flash.one.Boots() && off.todo == [] && !off.version && !off.bootcmd
    ensures CanBeInstalled(off)
  {
    CycleIsRun(off);
    FactoryCycle(off);
    InstallRuns(PowerCycle(off), 7);
    InstalledBehind(off, [PowerLoss, PowerOn, BootKernel], InstallEvents(7));
  }

  lemma InstalledBehind(s: State, before: seq<Event>, events: seq<Event>)
    requires IsRun(s, before, AnyUse) && IsRun(RunFrom(s, before), events, AnyUse)
    requires RunFrom(RunFrom(s, before), events).bootcmd
    ensures CanBeInstalled(s)
  {
    RunConcat(s, before, events);
  }

  // ----------------------------------------------------------------------------------------------
  // The states a command passes through
  // ----------------------------------------------------------------------------------------------

  /** The state after every change of the running command. */
  function Trail(s: State): seq<State>
    decreases |s.todo|
  {
    if s.todo == [] then [] else
      assert |Exec(s).todo| < |s.todo|;
      [Exec(s)] + Trail(Exec(s))
  }

  lemma TrailNext(s: State, i: nat)
    requires i < |Trail(s)|
    ensures s.todo != []
    ensures if i == 0 then Trail(s)[i] == Exec(s) else i - 1 < |Trail(Exec(s))| && Trail(s)[i] == Trail(Exec(s))[i - 1]
  {
    assert |Trail(s)| == 1 + |Trail(Exec(s))|;
    Behind(Exec(s), Trail(Exec(s)), i);
  }

  lemma Behind(first: State, tail: seq<State>, i: nat)
    requires i <= |tail|
    ensures ([first] + tail)[i] == if i == 0 then first else tail[i - 1]
  {
  }

  lemma TodoMeansRunning(s: State)
    requires Inv(s) && s.todo != []
    ensures s.power.Running?
  {
  }

  lemma ExecKeepsInv(s: State)
    requires Inv(s) && s.todo != []
    ensures Inv(Exec(s))
  {
    TodoMeansRunning(s);
    ChangeKeepsInv(s);
  }

  /** At most n changes on. */
  function After(s: State, n: nat): State
    decreases n
  {
    if n == 0 || s.todo == [] then s else After(Exec(s), n - 1)
  }

  lemma {:induction false} AfterKeepsInv(s: State, n: nat)
    requires Inv(s)
    ensures Inv(After(s, n))
    decreases n
  {
    if n > 0 && s.todo != [] {
      ExecKeepsInv(s);
      AfterKeepsInv(Exec(s), n - 1);
    }
  }

  lemma {:induction false} TrailIsAfter(s: State, i: nat)
    requires i < |Trail(s)|
    ensures Trail(s)[i] == After(s, i + 1)
    decreases i
  {
    TrailNext(s, i);
    if i > 0 {
      TrailIsAfter(Exec(s), i - 1);
    }
  }

  /** Power may fail in any of them. */
  lemma TrailIsSafe(s: State, i: nat)
    requires Inv(s) && i < |Trail(s)|
    ensures Inv(Trail(s)[i])
    ensures PowerCycle(PowerCycle(Trail(s)[i])).power == Running(Good(Trail(s)[i]), Good(Trail(s)[i]))
  {
    TrailIsAfter(s, i);
    AfterKeepsInv(s, i + 1);
    RecoversInTwo(Trail(s)[i]);
  }
}
