/** The dual-partition upgrade protocol: `safe-upgrade` and the boot loader script of bootscript_gen.py, as
    steps between which power can fail. */
module UpgradeProtocol {
  import opened Bytes

  // ----------------------------------------------------------------------------------------------
  // The device
  // ----------------------------------------------------------------------------------------------

  datatype Slot = One | Two {
    function Other(): Slot {
      if One? then Two else One
    }
  }

  /** One value for each partition. */
  datatype Slots<T> = Slots(one: T, two: T) {
    function Get(p: Slot): T {
      if p.One? then one else two
    }

    function Put(p: Slot, v: T): (r: Slots<T>)
      ensures r.Get(p) == v && r.Get(p.Other()) == Get(p.Other())
    {
      if p.One? then this.(one := v) else this.(two := v)
    }
  }

  /** A firmware image; `boots` tells whether bootm can start it. */
  datatype Image = Image(id: nat, boots: bool)

  /** An erased or half-written partition holds nothing that boots. */
  datatype Flash = Broken | Holds(image: Image) {
    predicate Boots() {
      Holds? && image.boots
    }
  }

  /** The auto-reboot timeout file and the start link in the file system of a partition. */
  datatype Overlay = Overlay(file: bool, link: bool)

  /** `kernel` is the partition the kernel came from, `root` the one its boot arguments name. */
  datatype Power = Off | Loading(part: Slot) | Running(kernel: Slot, root: Slot) | Dead

  /** What the commands do, one persistent change at a time. */
  datatype Action =
    | Erase(p: Slot)
    | Write(p: Slot, image: Image, armed: bool)
    | SetScript(p: Slot)              // boot_1, boot_2
    | SetTesting(t: Option<Slot>)     // testing_part; None is 0
    | SetStable(p: Slot)              // stable_part
    | SetAddr(p: Slot)                // fw1_addr, fw2_addr
    | SetVersion                      // su_version
    | SetBootcmd
    | RemoveTimeout(p: Slot)
    | KillTimer
    | RemoveLink(p: Slot)
    | Reboot

  /** The environment, the flash, what is running, the rest of the running command, and three history
      variables: the last confirmed contents, how often testing was set, and how many boots went to a
      partition that was not the stable one. */
  datatype State = State(
    stable: Option<Slot>, testing: Option<Slot>, scripts: Slots<bool>, addrs: Slots<bool>,
    version: bool, bootcmd: bool,
    flash: Slots<Flash>, overlay: Slots<Overlay>,
    power: Power, timer: bool, todo: seq<Action>,
    confirmed: Flash, testsSet: nat, testBoots: nat)

  /** A device as it leaves the factory runs from the first partition; the second may hold anything. */
  function Initial(first: Image, second: Flash): State {
    State(None, None, Slots(false, false), Slots(false, false), false, false,
          Slots(Holds(first), second), Slots(Overlay(false, false), Overlay(false, false)),
          Running(One, One), false, [], Holds(first), 0, 0)
  }

  // ----------------------------------------------------------------------------------------------
  // The commands of safe-upgrade
  // ----------------------------------------------------------------------------------------------

  /** `accepted` is the outcome of the firmware check or the force option. */
  datatype Command =
    | Bootstrap
    | Upgrade(image: Image, accepted: bool, armed: bool, noReboot: bool)
    | Confirm
    | TestOther

  /** `get_current_partition` looks at the partition table of the running kernel, which its arguments set. */
  function Current(s: State): Slot
    requires s.power.Running?
  {
    s.power.root
  }

  /** The changes of bootstrap: the version goes before the boot command. */
  const INSTALL: seq<Action> :=
    [SetStable(One), SetTesting(None), SetAddr(One), SetAddr(Two), SetScript(One), SetVersion, SetBootcmd]

  /** The changes a command makes, all from the partitions it reads at its start; none when it aborts. */
  function Script(s: State, c: Command): seq<Action>
    requires s.power.Running?
  {
    var cur := Current(s);
    match c
    case Bootstrap =>
      if s.version || cur != One then [] else INSTALL
    case Upgrade(image, accepted, armed, noReboot) =>
      if !s.version || !accepted then [] else
        [Erase(cur.Other()), Write(cur.Other(), image, armed), SetScript(cur.Other()),
         SetTesting(Some(cur.Other()))] + if noReboot then [] else [Reboot]
    case Confirm =>
      if !s.version || s.stable == Some(cur) then [] else
        [RemoveTimeout(cur), KillTimer, RemoveLink(cur), SetStable(cur)]
    case TestOther =>
      if !s.version then [] else [SetTesting(Some(cur.Other()))]
  }

  function Apply(s: State, a: Action): State {
    match a
    case Erase(p) => s.(flash := s.flash.Put(p, Broken), overlay := s.overlay.Put(p, Overlay(false, false)))
    case Write(p, image, armed) =>
      s.(flash := s.flash.Put(p, Holds(image)), overlay := s.overlay.Put(p, Overlay(armed, true)))
    case SetScript(p) => s.(scripts := s.scripts.Put(p, true))
    case SetTesting(t) => s.(testing := t, testsSet := s.testsSet + if t.Some? then 1 else 0)
    case SetStable(p) => s.(stable := Some(p), confirmed := s.flash.Get(p))
    case SetAddr(p) => s.(addrs := s.addrs.Put(p, true))
    case SetVersion => s.(version := true)
    case SetBootcmd => s.(bootcmd := true)
    case RemoveTimeout(p) => s.(overlay := s.overlay.Put(p, s.overlay.Get(p).(file := false)))
    case KillTimer => s.(timer := false)
    case RemoveLink(p) => s.(overlay := s.overlay.Put(p, s.overlay.Get(p).(link := false)))
    case Reboot => PowerDown(s)
  }

  /** Whatever ends a run: only the flash and the environment stay. */
  function PowerDown(s: State): State {
    s.(power := Off, timer := false, todo := [])
  }

  /** One more change of the running command. */
  function Exec(s: State): State
    requires s.todo != []
  {
    Apply(s.(todo := s.todo[1..]), s.todo[0])
  }

  // ----------------------------------------------------------------------------------------------
  // The boot loader
  // ----------------------------------------------------------------------------------------------

  /** The partition that counts as good: before the first bootstrap the first one. */
  function Good(s: State): Slot {
    if s.stable.Some? then s.stable.value else One
  }

  /** The script up to the saved environment: a partition under test is tried once. The factory script boots
      the first partition. */
  function PowerUp(s: State): State {
    if s.bootcmd then s.(power := Loading(if s.testing.Some? then s.testing.value else Good(s)), testing := None)
    else s.(power := Loading(One))
  }

  /** bootm at the address of a partition; without the address variable it fails. */
  predicate BootsAt(s: State, p: Slot) {
    s.addrs.Get(p) && s.flash.Get(p).Boots()
  }

  /** The rest of the script: `run boot_N`, `run boot_1` with the same fw_addr, `bootm ${fw1_addr}` with the
      boot arguments that were set last. */
  function Outcome(s: State, part: Slot): Power {
    if !s.bootcmd then if s.flash.one.Boots() then Running(One, One) else Dead
    else if s.scripts.Get(part) && BootsAt(s, part) then Running(part, part)
    else if s.scripts.one && BootsAt(s, part) then Running(part, One)
    else if BootsAt(s, One) then
      Running(One, if s.scripts.one then One else if s.scripts.Get(part) then part else One)
    else Dead
  }

  /** A kernel starts; its init script arms the timer if the link and the timeout file are there. */
  function Boot(s: State): State
    requires s.power.Loading?
  {
    var out := Outcome(s, s.power.part);
    if out.Running? then
      s.(power := out,
         timer := s.overlay.Get(out.root).file && s.overlay.Get(out.root).link,
         testBoots := s.testBoots + if out.kernel != Good(s) then 1 else 0)
    else s.(power := out)
  }

  // ----------------------------------------------------------------------------------------------
  // Steps and runs
  // ----------------------------------------------------------------------------------------------

  datatype Event = Start(c: Command) | Change | PowerLoss | AutoReboot | PowerOn | BootKernel

  predicate Enabled(s: State, e: Event) {
    match e
    case Start(_) => s.power.Running? && s.todo == []
    case Change => s.power.Running? && s.todo != []
    case PowerLoss => true
    case AutoReboot => s.power.Running? && s.timer && s.overlay.Get(s.power.root).file
    case PowerOn => s.power.Off?
    case BootKernel => s.power.Loading?
  }

  function Next(s: State, e: Event): State
    requires Enabled(s, e)
  {
    match e
    case Start(c) => s.(todo := Script(s, c))
    case Change => Exec(s)
    case PowerLoss => PowerDown(s)
    case AutoReboot => PowerDown(s)
    case PowerOn => PowerUp(s)
    case BootKernel => Boot(s)
  }

  /** The rule of use under which the protocol is safe: upgrade from the stable partition. */
  predicate FromStable(s: State, e: Event) {
    e.Start? && s.power.Running? && e.c.Upgrade? ==> s.stable == Some(Current(s))
  }

  /** The rule under which commands always know the partition they run from: test the other partition only
      once it has a boot script. */
  predicate WithScript(s: State, e: Event) {
    e.Start? && s.power.Running? && e.c.TestOther? ==> s.scripts.Get(Current(s).Other())
  }

  datatype Rules = AnyUse | UpgradeRule | BothRules {
    predicate Allow(s: State, e: Event) {
      (AnyUse? || FromStable(s, e)) && (BothRules? ==> WithScript(s, e))
    }
  }

  /** All events happen where they can and where the rules allow them. */
  predicate IsRun(s: State, events: seq<Event>, rules: Rules)
    decreases |events|
  {
    events != [] ==>
      && Enabled(s, events[0]) && rules.Allow(s, events[0])
      && IsRun(Next(s, events[0]), events[1..], rules)
  }

  function RunFrom(s: State, events: seq<Event>): State
    requires IsRun(s, events, AnyUse)
    decreases |events|
  {
    if events == [] then s else RunFrom(Next(s, events[0]), events[1..])
  }

  // ----------------------------------------------------------------------------------------------
  // The invariant
  // ----------------------------------------------------------------------------------------------

  /** The good partition holds what was confirmed last, it boots, and it does not reboot by itself. */
  predicate GoodKept(s: State) {
    && s.flash.Get(Good(s)) == s.confirmed
    && s.confirmed.Boots()
    && !s.overlay.Get(Good(s)).file
  }

  predicate Consistent(s: State) {
    && (s.bootcmd ==> s.version && s.stable.Some? && s.scripts.one && s.scripts.Get(Good(s)) && s.addrs.one && s.addrs.two)
    && (!s.bootcmd ==> Good(s) == One)
    && (s.version ==> s.stable.Some? && s.scripts.one && s.addrs.one && s.addrs.two)
  }

  /** The kernel may have booted with the arguments of the first partition if that is the good one. */
  predicate PowerOk(s: State) {
    match s.power
    case Off => s.todo == []
    case Dead => s.todo == [] && s.bootcmd
    case Loading(p) => s.todo == [] && (s.bootcmd || p == One)
    case Running(k, r) => (k == r || (r == One && Good(s) == One)) && s.flash.Get(r).Boots()
                          && (s.bootcmd || k == One) && (s.bootcmd ==> s.scripts.Get(r))
  }

  /** Boots into another than the stable partition are paid for by settings of testing_part. */
  predicate TestsCounted(s: State) {
    s.testBoots + (if s.testing.Some? then 1 else 0)
    + (if s.power.Loading? && s.power.part != Good(s) then 1 else 0) <= s.testsSet
  }

  /** An action that keeps the invariant in this state. */
  predicate Harmless(s: State, a: Action) {
    match a
    case Erase(p) => p != Good(s) && s.power.Running? && p != s.power.root
    case Write(p, _, _) => p != Good(s) && s.power.Running? && p != s.power.root
    case SetStable(p) => s.power == Running(p, p) && !s.overlay.Get(p).file
    case SetVersion => s.stable.Some? && s.scripts.one && s.addrs.one && s.addrs.two
    case SetBootcmd => s.version
    case _ => true
  }

  /** The rest of the command is harmless, action by action. */
  predicate AllHarmless(s: State, actions: seq<Action>)
    decreases |actions|
  {
    actions != [] ==> Harmless(s, actions[0]) && AllHarmless(Apply(s, actions[0]), actions[1..])
  }

  predicate Core(s: State) {
    GoodKept(s) && Consistent(s) && PowerOk(s) && TestsCounted(s)
  }

  predicate Inv(s: State) {
    Core(s) && AllHarmless(s.(todo := []), s.todo)
  }

  lemma InitialInv(first: Image, second: Flash)
    requires first.boots
    ensures Inv(Initial(first, second))
  {
  }

  lemma HarmlessKeepsCore(s: State, a: Action)
    requires Core(s) && s.todo == [] && s.power.Running? && Harmless(s, a)
    ensures Core(Apply(s, a)) && Apply(s, a).todo == []
  {
  }

  /** The commands, started by the rule, do nothing harmful. */
  lemma ScriptHarmless(s: State, c: Command)
    requires Core(s) && s.todo == [] && s.power.Running? && FromStable(s, Start(c))
    ensures AllHarmless(s, Script(s, c))
  {
    var acts := Script(s, c);
    match c
    case Bootstrap => BootstrapHarmless(s);
    case Upgrade(_, _, _, _) => UpgradeHarmless(s, c);
    case Confirm => ConfirmHarmless(s);
    case TestOther => if acts != [] { assert acts[1..] == []; }
  }

  lemma HarmlessFirst(s: State, a: Action, rest: seq<Action>)
    requires Harmless(s, a) && AllHarmless(Apply(s, a), rest)
    ensures AllHarmless(s, [a] + rest)
  {
    assert ([a] + rest)[1..] == rest;
  }

  lemma InstallEnds(s: State)
    requires s.stable.Some? && s.addrs.one && s.addrs.two
    ensures AllHarmless(s, [SetScript(One)] + ([SetVersion] + ([SetBootcmd] + [])))
  {
    var s1 := Apply(s, SetScript(One));
    HarmlessFirst(Apply(s1, SetVersion), SetBootcmd, []);
    HarmlessFirst(s1, SetVersion, [SetBootcmd] + []);
    HarmlessFirst(s, SetScript(One), [SetVersion] + ([SetBootcmd] + []));
  }

  lemma InstallStarts(s: State, end: seq<Action>)
    requires s.power == Running(One, One) && !s.overlay.one.file
    requires AllHarmless(FirstFour(s), end)
    ensures AllHarmless(s, [SetStable(One)] + ([SetTesting(None)] + ([SetAddr(One)] + ([SetAddr(Two)] + end))))
  {
    var s1 := Apply(s, SetStable(One));
    var s2 := Apply(s1, SetTesting(None));
    var s3 := Apply(s2, SetAddr(One));
    HarmlessFirst(s3, SetAddr(Two), end);
    HarmlessFirst(s2, SetAddr(One), [SetAddr(Two)] + end);
    HarmlessFirst(s1, SetTesting(None), [SetAddr(One)] + ([SetAddr(Two)] + end));
    HarmlessFirst(s, SetStable(One), [SetTesting(None)] + ([SetAddr(One)] + ([SetAddr(Two)] + end)));
  }

  lemma InstallParts()
    ensures INSTALL == [SetStable(One)] + ([SetTesting(None)] + ([SetAddr(One)] + ([SetAddr(Two)] +
                       ([SetScript(One)] + ([SetVersion] + ([SetBootcmd] + []))))))
  {
  }

  lemma InstallHarmless(s: State, actions: seq<Action>)
    requires s.power == Running(One, One) && !s.overlay.one.file
    requires actions == [SetStable(One)] + ([SetTesting(None)] + ([SetAddr(One)] + ([SetAddr(Two)] +
                        ([SetScript(One)] + ([SetVersion] + ([SetBootcmd] + []))))))
    ensures AllHarmless(s, actions)
  {
    InstallEnds(FirstFour(s));
    InstallStarts(s, [SetScript(One)] + ([SetVersion] + ([SetBootcmd] + [])));
  }

  lemma BootstrapHarmless(s: State)
    requires Core(s) && s.todo == [] && s.power.Running?
    ensures AllHarmless(s, Script(s, Bootstrap))
  {
    if Script(s, Bootstrap) != [] {
      InstallParts();
      InstallHarmless(s, INSTALL);
    }
  }

  lemma UpgradeHarmless(s: State, c: Command)
    requires Core(s) && s.todo == [] && s.power.Running? && c.Upgrade? && FromStable(s, Start(c))
    ensures AllHarmless(s, Script(s, c))
  {
    var a := Script(s, c);
    if a != [] {
      var other := Current(s).Other();
      var tail := if c.noReboot then [] else [Reboot];
      var s1 := Apply(s, Erase(other));
      var s2 := Apply(s1, Write(other, c.image, c.armed));
      var s3 := Apply(s2, SetScript(other));
      var s4 := Apply(s3, SetTesting(Some(other)));
      assert AllHarmless(s4, tail);
      assert ([SetTesting(Some(other))] + tail)[1..] == tail;
      assert AllHarmless(s3, [SetTesting(Some(other))] + tail);
      assert a[3..] == [SetTesting(Some(other))] + tail;
      assert a[2..][1..] == a[3..] && AllHarmless(s2, a[2..]);
      assert a[1..][1..] == a[2..] && AllHarmless(s1, a[1..]);
    }
  }

  lemma ConfirmHarmless(s: State)
    requires Core(s) && s.todo == [] && s.power.Running?
    ensures AllHarmless(s, Script(s, Confirm))
  {
    var a := Script(s, Confirm);
    if a != [] {
      var cur := Current(s);
      var s1 := Apply(s, a[0]);
      var s2 := Apply(s1, a[1]);
      var s3 := Apply(s2, a[2]);
      assert AllHarmless(s3, [SetStable(cur)]);
      assert AllHarmless(s2, [RemoveLink(cur), SetStable(cur)]);
      assert AllHarmless(s1, [KillTimer, RemoveLink(cur), SetStable(cur)]);
    }
  }

  /** But for a reboot, a change does not look at the rest of the command. */
  lemma ChangeApplies(s: State)
    requires s.power.Running? && s.todo != [] && !s.todo[0].Reboot?
    ensures var next := Exec(s);
            && next.power == s.power && next.todo == s.todo[1..]
            && next.(todo := []) == Apply(s.(todo := []), s.todo[0])
  {
    ApplyIgnoresTodo(s, s.todo[0], s.todo[1..]);
    ApplyIgnoresTodo(s, s.todo[0], []);
  }

  lemma ApplyIgnoresTodo(s: State, a: Action, rest: seq<Action>)
    requires !a.Reboot?
    ensures Apply(s.(todo := rest), a) == Apply(s, a).(todo := rest) && Apply(s, a).power == s.power
  {
  }

  lemma ChangeKeepsInv(s: State)
    requires Inv(s) && s.power.Running? && s.todo != []
    ensures Inv(Exec(s))
  {
    var a, rest, idle := s.todo[0], s.todo[1..], s.(todo := []);
    HarmlessKeepsCore(idle, a);
    if a.Reboot? {
      assert Exec(s) == Apply(idle, a);
    } else {
      ChangeApplies(s);
      CoreIgnoresTodo(Apply(idle, a), rest);
      assert Exec(s) == Apply(idle, a).(todo := rest);
    }
  }

  lemma CoreIgnoresTodo(s: State, rest: seq<Action>)
    requires Core(s) && s.todo == [] && AllHarmless(s, rest) && s.power.Running?
    ensures Inv(s.(todo := rest))
  {
    assert s.(todo := rest).(todo := []) == s;
  }

  lemma BootKeepsInv(s: State)
    requires Inv(s) && s.power.Loading?
    ensures Inv(Boot(s))
  {
  }

  /** Every step of a run that keeps the upgrade rule keeps the invariant, power loss between any two changes included. */
  lemma StepKeepsInv(s: State, e: Event)
    requires Inv(s) && Enabled(s, e) && FromStable(s, e)
    ensures Inv(Next(s, e))
  {
    match e
    case Start(c) =>
      ScriptHarmless(s, c);
      assert s.(todo := Script(s, c)).(todo := []) == s;
    case Change => ChangeKeepsInv(s);
    case BootKernel => BootKeepsInv(s);
    case _ =>
  }

  lemma {:induction false} RunKeepsInv(s: State, events: seq<Event>)
    requires Inv(s) && IsRun(s, events, UpgradeRule)
    ensures IsRun(s, events, AnyUse) && Inv(RunFrom(s, events))
    decreases |events|
  {
    if events != [] {
      StepKeepsInv(s, events[0]);
      RunKeepsInv(Next(s, events[0]), events[1..]);
    }
  }

  // ----------------------------------------------------------------------------------------------
  // Safety over all runs
  // ----------------------------------------------------------------------------------------------

  /** A state some run of a new device ends in that keeps the upgrade rule. */
  ghost predicate Reachable(s: State) {
    exists first: Image, second: Flash, events: seq<Event> ::
      first.boots && IsRun(Initial(first, second), events, UpgradeRule) && IsRun(Initial(first, second), events, AnyUse)
      && s == RunFrom(Initial(first, second), events)
  }

  lemma ReachableInv(s: State)
    requires Reachable(s)
    ensures Inv(s)
  {
    var first: Image, second: Flash, events: seq<Event> :|
      first.boots && IsRun(Initial(first, second), events, UpgradeRule) && IsRun(Initial(first, second), events, AnyUse)
      && s == RunFrom(Initial(first, second), events);
    InitialInv(first, second);
    RunKeepsInv(Initial(first, second), events);
  }

  /** The good partition always holds the image that was confirmed last. */
  lemma ConfirmedImageIsKept(s: State)
    requires Reachable(s)
    ensures s.flash.Get(Good(s)) == s.confirmed && s.confirmed.Boots()
  {
    ReachableInv(s);
  }

  /** Switching the device off and on again. */
  function PowerCycle(s: State): State {
    Boot(PowerUp(PowerDown(s)))
  }

  /** From every state the second power-up ends with the good partition running, and already the first one
      does unless a partition is to be tested. */
  lemma TwoPowerUpsRecover(s: State)
    requires Reachable(s)
    ensures Good(PowerCycle(s)) == Good(s) == Good(PowerCycle(PowerCycle(s)))
    ensures s.testing.None? ==> PowerCycle(s).power == Running(Good(s), Good(s))
    ensures PowerCycle(PowerCycle(s)).power == Running(Good(s), Good(s))
  {
    ReachableInv(s);
    CycleKeepsInv(s);
    if s.testing.None? {
      CycleWithoutTest(s);
    }
    var once := PowerCycle(s);
    NoTestAfterCycle(s);
    CycleWithoutTest(once);
  }

  lemma CycleKeepsInv(s: State)
    requires Inv(s)
    ensures Inv(PowerCycle(s)) && Good(PowerCycle(s)) == Good(s)
  {
    StepKeepsInv(s, PowerLoss);
    StepKeepsInv(PowerDown(s), PowerOn);
    BootKeepsInv(PowerUp(PowerDown(s)));
  }

  lemma NoTestAfterCycle(s: State)
    requires Inv(s)
    ensures PowerCycle(s).bootcmd ==> PowerCycle(s).testing.None?
  {
  }

  lemma CycleWithoutTest(s: State)
    requires Inv(s) && (s.bootcmd ==> s.testing.None?)
    ensures PowerCycle(s).power == Running(Good(s), Good(s))
  {
  }

  /** One-shot testing: no more boots into another than the stable partition than testing was set. */
  lemma TestBootsArePaid(s: State)
    requires Reachable(s)
    ensures s.testBoots <= s.testsSet
  {
    ReachableInv(s);
  }

  /** The stable partition never carries the timeout file, so running from it the device never reboots by
      itself; a partition under test runs with the timer only until it is confirmed. */
  lemma StableNeverReboots(s: State)
    requires Reachable(s)
    ensures !s.overlay.Get(Good(s)).file
    ensures s.power.Running? && s.power.root == Good(s) ==> !Enabled(s, AutoReboot)
  {
    ReachableInv(s);
  }

  /** Exactly what runs behind a power-up. With the boot command the partition under test, or else the good one,
      runs if it boots, without boot script with the arguments of the first partition; if it does not, the
      script falls back to the first partition and to no other. */
  lemma FirstPowerUp(s: State)
    requires Inv(s)
    ensures PowerCycle(s).power
            == if !s.bootcmd || s.testing.None? then Running(Good(s), Good(s))
               else
                 var p := s.testing.value;
                 if s.flash.Get(p).Boots() then Running(p, if s.scripts.Get(p) then p else One)
                 else if s.flash.one.Boots() then Running(One, One)
                 else Dead
  {
    TestedPowerUp(s);
    if !s.bootcmd || s.testing.None? {
      CycleWithoutTest(s);
    }
  }

  lemma TestedPowerUp(s: State)
    requires Inv(s)
    ensures s.bootcmd && s.testing.Some? ==>
              var p := s.testing.value;
              PowerCycle(s).power
              == if s.flash.Get(p).Boots() then Running(p, if s.scripts.Get(p) then p else One)
                 else if s.flash.one.Boots() then Running(One, One)
                 else Dead
  {
  }

  /** A power-up ends with nothing running exactly if the first partition is under test, does not boot, and is
      not the good one. */
  lemma StandsStillIff(s: State)
    requires Inv(s) && s.bootcmd
    ensures PowerCycle(s).power == Dead <==> s.testing == Some(One) && Good(s) == Two && !s.flash.one.Boots()
  {
    FirstPowerUp(s);
  }

  // ----------------------------------------------------------------------------------------------
  // The guards are needed
  // ----------------------------------------------------------------------------------------------

  /** Erasing leaves the confirmed image alone exactly when the upgrade was started from the stable
      partition: the condition is the one a caller can read off before starting. */
  lemma UpgradeSafeIff(s: State, image: Image, armed: bool, noReboot: bool)
    requires Inv(s) && s.power.Running? && s.todo == [] && s.version
    ensures var c := Upgrade(image, true, armed, noReboot);
            var started := Next(s, Start(c));
            && started.todo != []
            && (GoodKept(Next(started, Change)) <==> FromStable(s, Start(c)))
  {
    assert Good(s) == s.stable.value;
  }

  /** A device whose good partition is broken and where nothing is to be tested: if the first partition does
      not boot either, no number of power-ups helps. */
  lemma {:induction false} DeadForGood(s: State, n: nat)
    requires s.bootcmd && s.stable == Some(One) && s.testing.None? && !s.flash.one.Boots()
    ensures Cycles(s, n + 1).power == Dead
    decreases n
  {
    var next := PowerCycle(s);
    assert next.power == Dead;
    if n > 0 {
      DeadForGood(next, n - 1);
    }
  }

  function Cycles(s: State, n: nat): State
    decreases n
  {
    if n == 0 then s else Cycles(PowerCycle(s), n - 1)
  }

  lemma RunFirst(s: State, e: Event, rest: seq<Event>)
    requires Enabled(s, e) && IsRun(Next(s, e), rest, AnyUse)
    ensures IsRun(s, [e] + rest, AnyUse) && RunFrom(s, [e] + rest) == RunFrom(Next(s, e), rest)
  {
    assert ([e] + rest)[1..] == rest;
  }

  lemma {:induction false} RunConcat(s: State, a: seq<Event>, b: seq<Event>)
    requires IsRun(s, a, AnyUse) && IsRun(RunFrom(s, a), b, AnyUse)
    ensures IsRun(s, a + b, AnyUse) && RunFrom(s, a + b) == RunFrom(RunFrom(s, a), b)
    decreases |a|
  {
    if a == [] {
      assert a + b == b;
    } else {
      assert (a + b)[1..] == a[1..] + b;
      RunConcat(Next(s, a[0]), a[1..], b);
    }
  }

  /** All changes of a command. */
  function Changes(n: nat): seq<Event> {
    if n == 0 then [] else [Change] + Changes(n - 1)
  }

  lemma {:induction false} ChangesStartNothing(n: nat, c: Command)
    ensures OnlyStarts(Changes(n), c, c)
  {
    if n > 0 {
      ChangesStartNothing(n - 1, c);
    }
  }

  function Effects(s: State, actions: seq<Action>): State
    decreases |actions|
  {
    if actions == [] then s else Effects(Apply(s, actions[0]), actions[1..])
  }

  /** A reboot ends the command. */
  predicate RebootsLast(actions: seq<Action>) {
    forall i | 0 <= i < |actions| - 1 :: !actions[i].Reboot?
  }

  lemma RebootsLastTail(actions: seq<Action>)
    requires RebootsLast(actions) && actions != []
    ensures RebootsLast(actions[1..]) && (actions[0].Reboot? ==> actions[1..] == [])
  {
    forall i | 0 <= i < |actions| - 2 ensures !actions[1..][i].Reboot? {
      assert actions[1..][i] == actions[i + 1];
    }
  }

  lemma {:induction false} RunChanges(s: State, actions: seq<Action>)
    requires (actions != [] ==> s.power.Running?) && s.todo == actions && RebootsLast(actions)
    ensures IsRun(s, Changes(|actions|), AnyUse)
    ensures RunFrom(s, Changes(|actions|)) == Effects(s.(todo := []), actions)
    decreases |actions|
  {
    if actions != [] {
      var rest := actions[1..];
      var next := Next(s, Change);
      RebootsLastTail(actions);
      if !actions[0].Reboot? {
        ChangeApplies(s);
      }
      RunChanges(next, rest);
      RunFirst(s, Change, Changes(|rest|));
    }
  }

  /** A whole command as a run. */
  lemma RunCommand(s: State, c: Command) returns (events: seq<Event>)
    requires s.power.Running? && s.todo == [] && RebootsLast(Script(s, c))
    ensures IsRun(s, events, AnyUse) && RunFrom(s, events) == Effects(s, Script(s, c))
    ensures OnlyStarts(events, c, c)
  {
    var started := Next(s, Start(c));
    RunChanges(started, Script(s, c));
    events := [Start(c)] + Changes(|Script(s, c)|);
    RunFirst(s, Start(c), Changes(|Script(s, c)|));
    ChangesStartNothing(|Script(s, c)|, c);
    assert started.(todo := []) == s;
  }

  /** After bootstrap and one upgrade the new image runs from the second partition, not confirmed. */
  function UnderTest(first: Image, image: Image): State {
    State(Some(One), None, Slots(true, true), Slots(true, true), true, true,
          Slots(Holds(first), Holds(image)), Slots(Overlay(false, false), Overlay(true, true)),
          Running(Two, Two), true, [], Holds(first), 1, 1)
  }

  lemma EffectsOfFour(s: State, a: Action, b: Action, c: Action, d: Action, end: seq<Action>)
    ensures Effects(s, [a] + ([b] + ([c] + ([d] + end)))) == Effects(Apply(Apply(Apply(Apply(s, a), b), c), d), end)
  {
    EffectsStep(s, a, [b] + ([c] + ([d] + end)));
    EffectsStep(Apply(s, a), b, [c] + ([d] + end));
    EffectsStep(Apply(Apply(s, a), b), c, [d] + end);
    EffectsStep(Apply(Apply(Apply(s, a), b), c), d, end);
  }

  function FirstFour(s: State): (r: State)
    ensures r == s.(stable := Some(One), testing := None, addrs := s.addrs.Put(One, true).Put(Two, true),
                    confirmed := s.flash.one)
  {
    Apply(Apply(Apply(Apply(s, SetStable(One)), SetTesting(None)), SetAddr(One)), SetAddr(Two))
  }

  function LastThree(s: State): (r: State)
    ensures r == s.(scripts := s.scripts.Put(One, true), version := true, bootcmd := true)
  {
    Apply(Apply(Apply(s, SetScript(One)), SetVersion), SetBootcmd)
  }

  lemma InstallEffects(s: State)
    ensures Effects(s, INSTALL) == LastThree(FirstFour(s))
  {
    EffectsOfFour(s, SetStable(One), SetTesting(None), SetAddr(One), SetAddr(Two), [SetScript(One), SetVersion, SetBootcmd]);
    EffectsOfThree(FirstFour(s), SetScript(One), SetVersion, SetBootcmd);
    InstallInTwo();
  }

  lemma InstallInTwo()
    ensures INSTALL == [SetStable(One)] + ([SetTesting(None)] + ([SetAddr(One)] + ([SetAddr(Two)] +
                       [SetScript(One), SetVersion, SetBootcmd])))
  {
  }

  lemma BootstrapEffects(first: Image, second: Flash)
    ensures Effects(Initial(first, second), Script(Initial(first, second), Bootstrap))
            == Initial(first, second).(stable := Some(One), scripts := Slots(true, false), addrs := Slots(true, true),
                                       version := true, bootcmd := true)
  {
    InstallEffects(Initial(first, second));
  }

  lemma EffectsStep(s: State, a: Action, rest: seq<Action>)
    ensures Effects(s, [a] + rest) == Effects(Apply(s, a), rest)
  {
    assert ([a] + rest)[1..] == rest;
  }

  lemma EffectsOfThree(s: State, a: Action, b: Action, c: Action)
    ensures Effects(s, [a, b, c]) == Apply(Apply(Apply(s, a), b), c)
  {
    assert [a, b, c][1..] == [b, c] && [b, c][1..] == [c];
    assert Effects(Apply(Apply(s, a), b), [c]) == Apply(Apply(Apply(s, a), b), c);
  }

  lemma UpgradeEffects(s: State, image: Image)
    requires s.power == Running(One, One) && s.version
    ensures Effects(s, Script(s, Upgrade(image, true, true, true)))
            == s.(flash := s.flash.(two := Holds(image)), overlay := s.overlay.(two := Overlay(true, true)),
                  scripts := s.scripts.(two := true), testing := Some(Two), testsSet := s.testsSet + 1)
  {
    var a := Script(s, Upgrade(image, true, true, true));
    assert a[1..] == [Write(Two, image, true), SetScript(Two), SetTesting(Some(Two))];
    EffectsOfThree(Apply(s, Erase(Two)), Write(Two, image, true), SetScript(Two), SetTesting(Some(Two)));
  }

  /** Both commands, one after the other. */
  lemma RunTwo(s: State, c: Command, d: Command) returns (events: seq<Event>)
    requires s.power.Running? && s.todo == [] && RebootsLast(Script(s, c))
    requires var mid := Effects(s, Script(s, c));
             mid.power.Running? && mid.todo == [] && RebootsLast(Script(mid, d))
    ensures IsRun(s, events, AnyUse)
    ensures var mid := Effects(s, Script(s, c)); RunFrom(s, events) == Effects(mid, Script(mid, d))
    ensures OnlyStarts(events, c, d)
  {
    var first := RunCommand(s, c);
    var next := RunCommand(RunFrom(s, first), d);
    RunConcat(s, first, next);
    events := first + next;
  }

  /** And then switching off and on. */
  lemma CycleBehind(s: State, before: seq<Event>, c: Command, d: Command) returns (events: seq<Event>)
    requires IsRun(s, before, AnyUse) && OnlyStarts(before, c, d)
    ensures IsRun(s, events, AnyUse) && RunFrom(s, events) == PowerCycle(RunFrom(s, before))
    ensures OnlyStarts(events, c, d)
  {
    var cycle := [PowerLoss, PowerOn, BootKernel];
    CycleIsRun(RunFrom(s, before));
    RunConcat(s, before, cycle);
    events := before + cycle;
  }

  lemma UpgradedCycle(first: Image, second: Flash, image: Image)
    requires first.boots && image.boots
    ensures var s := Initial(first, second);
            var installed, c := Effects(s, Script(s, Bootstrap)), Upgrade(image, true, true, true);
            && installed.power == Running(One, One) && installed.todo == []
            && RebootsLast(Script(installed, c))
            && PowerCycle(Effects(installed, Script(installed, c))) == UnderTest(first, image)
  {
    var s := Initial(first, second);
    BootstrapEffects(first, second);
    UpgradeEffects(Effects(s, Script(s, Bootstrap)), image);
  }

  lemma ReachesTest(first: Image, second: Flash, image: Image) returns (events: seq<Event>)
    requires first.boots && image.boots
    ensures IsRun(Initial(first, second), events, AnyUse)
    ensures RunFrom(Initial(first, second), events) == UnderTest(first, image)
  {
    var s, c := Initial(first, second), Upgrade(image, true, true, true);
    UpgradedCycle(first, second, image);
    assert RebootsLast(Script(s, Bootstrap));
    var upgraded := RunTwo(s, Bootstrap, c);
    events := CycleBehind(s, upgraded, Bootstrap, c);
  }

  lemma CycleIsRun(s: State)
    ensures var cycle := [PowerLoss, PowerOn, BootKernel];
            IsRun(s, cycle, AnyUse) && RunFrom(s, cycle) == PowerCycle(s)
  {
    var off := PowerDown(s);
    var loading := PowerUp(off);
    var none: seq<Event> := [];
    RunFirst(loading, BootKernel, none);
    RunFirst(off, PowerOn, [BootKernel] + none);
    RunFirst(s, PowerLoss, [PowerOn] + ([BootKernel] + none));
    assert [PowerLoss, PowerOn, BootKernel] == [PowerLoss] + ([PowerOn] + ([BootKernel] + none));
  }

  /** Without the upgrade rule a run bricks every device: upgrade, run the new image without confirming it, upgrade
      again from there, and lose power behind the erasure. No number of power-ups brings it back. */
  lemma UnguardedUpgradeBricks(first: Image, second: Flash, image: Image) returns (events: seq<Event>)
    requires first.boots && image.boots
    ensures IsRun(Initial(first, second), events, AnyUse)
    ensures forall n | n >= 1 :: Cycles(RunFrom(Initial(first, second), events), n).power == Dead
  {
    var s0, test := Initial(first, second), UnderTest(first, image);
    var before := ReachesTest(first, second, image);
    var c := Upgrade(image, true, true, true);
    var fatal := [Start(c), Change];
    var started := Next(test, Start(c));
    var erased := Next(started, Change);
    assert fatal[1..] == [Change] && fatal[1..][1..] == [];
    assert IsRun(started, [Change], AnyUse) && RunFrom(started, [Change]) == erased;
    RunConcat(s0, before, fatal);
    events := before + fatal;
    assert started.todo[0] == Erase(One);
    forall n | n >= 1 ensures Cycles(erased, n).power == Dead {
      DeadForGood(erased, n - 1);
    }
  }

  /** Testing a bootable partition runs it with its own boot arguments exactly if it has a boot script; without
      one its kernel gets those of the first partition, and commands take the wrong partition for the current
      one. */
  lemma TestWithoutScriptMixes(s: State)
    requires Inv(s) && s.bootcmd && s.power.Running? && s.todo == [] && s.flash.Get(Current(s).Other()).Boots()
    ensures var other, tested := Current(s).Other(), PowerCycle(Effects(s, Script(s, TestOther)));
            tested.power == Running(other, if WithScript(s, Start(TestOther)) then other else One)
    ensures !WithScript(s, Start(TestOther)) ==> Current(s) == One
  {
    var a := Script(s, TestOther);
    assert a[1..] == [];
    assert Effects(s, a) == Apply(s, a[0]);
  }

  // ----------------------------------------------------------------------------------------------
  // Under both rules the commands know where they run
  // ----------------------------------------------------------------------------------------------

  /** Only partitions with a boot script are selected, now and in the rest of the command. */
  predicate Scripted(s: State, actions: seq<Action>)
    decreases |actions|
  {
    actions != [] ==>
      && (actions[0].SetTesting? && actions[0].t.Some? ==> s.scripts.Get(actions[0].t.value))
      && Scripted(Apply(s, actions[0]), actions[1..])
  }

  predicate Matched(s: State) {
    && (s.testing.Some? ==> s.scripts.Get(s.testing.value))
    && (s.power.Loading? && s.bootcmd ==> s.scripts.Get(s.power.part))
    && (s.power.Running? ==> s.power.kernel == s.power.root)
    && Scripted(s.(todo := []), s.todo)
  }

  lemma ScriptedFirst(s: State, a: Action, rest: seq<Action>)
    requires a.SetTesting? && a.t.Some? ==> s.scripts.Get(a.t.value)
    requires Scripted(Apply(s, a), rest)
    ensures Scripted(s, [a] + rest)
  {
    assert ([a] + rest)[1..] == rest;
  }

  predicate SelectsNothing(actions: seq<Action>) {
    forall i | 0 <= i < |actions| :: actions[i].SetTesting? ==> actions[i].t.None?
  }

  lemma {:induction false} SelectsNothingScripted(s: State, actions: seq<Action>)
    requires SelectsNothing(actions)
    ensures Scripted(s, actions)
    decreases |actions|
  {
    if actions != [] {
      var rest := actions[1..];
      forall i | 0 <= i < |rest| ensures rest[i].SetTesting? ==> rest[i].t.None? {
        assert rest[i] == actions[i + 1];
      }
      SelectsNothingScripted(Apply(s, actions[0]), rest);
    }
  }

  lemma UpgradeScripted(s: State, p: Slot, image: Image, armed: bool, tail: seq<Action>)
    requires SelectsNothing(tail)
    ensures Scripted(s, [Erase(p)] + ([Write(p, image, armed)] + ([SetScript(p)] + ([SetTesting(Some(p))] + tail))))
  {
    var s1 := Apply(s, Erase(p));
    var s2 := Apply(s1, Write(p, image, armed));
    var s3 := Apply(s2, SetScript(p));
    SelectsNothingScripted(Apply(s3, SetTesting(Some(p))), tail);
    ScriptedFirst(s3, SetTesting(Some(p)), tail);
    ScriptedFirst(s2, SetScript(p), [SetTesting(Some(p))] + tail);
    ScriptedFirst(s1, Write(p, image, armed), [SetScript(p)] + ([SetTesting(Some(p))] + tail));
    ScriptedFirst(s, Erase(p), [Write(p, image, armed)] + ([SetScript(p)] + ([SetTesting(Some(p))] + tail)));
  }

  lemma ScriptScripted(s: State, c: Command)
    requires s.power.Running? && WithScript(s, Start(c))
    ensures Scripted(s, Script(s, c))
  {
    var acts := Script(s, c);
    match c
    case Upgrade(image, accepted, armed, noReboot) =>
      if acts != [] {
        var p, tail := Current(s).Other(), if noReboot then [] else [Reboot];
        UpgradeScripted(s, p, image, armed, tail);
        assert acts == [Erase(p)] + ([Write(p, image, armed)] + ([SetScript(p)] + ([SetTesting(Some(p))] + tail)));
      }
    case TestOther =>
      if acts != [] {
        ScriptedFirst(s, acts[0], []);
        assert acts == [acts[0]] + [];
      }
    case _ => SelectsNothingScripted(s, acts);
  }

  lemma ApplyMatched(s: State, a: Action)
    requires Matched(s) && s.todo == [] && s.power.Running?
    requires a.SetTesting? && a.t.Some? ==> s.scripts.Get(a.t.value)
    ensures var next := Apply(s, a); next.testing.Some? ==> next.scripts.Get(next.testing.value)
  {
  }

  lemma ChangeKeepsMatched(s: State)
    requires Matched(s) && s.power.Running? && s.todo != []
    ensures Matched(Exec(s))
  {
    ApplyMatched(s.(todo := []), s.todo[0]);
    if !s.todo[0].Reboot? {
      ChangeApplies(s);
    }
  }

  lemma BootKeepsMatched(s: State)
    requires Inv(s) && Matched(s) && s.power.Loading?
    ensures Matched(Boot(s))
  {
  }

  lemma MatchedStep(s: State, e: Event)
    requires Inv(s) && Matched(s) && Enabled(s, e) && BothRules.Allow(s, e)
    ensures Matched(Next(s, e))
  {
    match e
    case Start(c) =>
      ScriptScripted(s, c);
      assert s.(todo := Script(s, c)).(todo := []) == s;
    case Change => ChangeKeepsMatched(s);
    case BootKernel => BootKeepsMatched(s);
    case _ =>
  }

  lemma {:induction false} RunKeepsMatched(s: State, events: seq<Event>)
    requires Inv(s) && Matched(s) && IsRun(s, events, BothRules)
    ensures IsRun(s, events, AnyUse) && Matched(RunFrom(s, events))
    decreases |events|
  {
    if events != [] {
      StepKeepsInv(s, events[0]);
      MatchedStep(s, events[0]);
      RunKeepsMatched(Next(s, events[0]), events[1..]);
    }
  }

  /** In every state a run under both rules ends in, the kernel runs with its own partition's arguments. */
  lemma KernelIsRoot(first: Image, second: Flash, events: seq<Event>)
    requires first.boots && IsRun(Initial(first, second), events, BothRules)
    ensures IsRun(Initial(first, second), events, AnyUse)
    ensures var s := RunFrom(Initial(first, second), events); s.power.Running? ==> s.power.kernel == s.power.root
  {
    InitialInv(first, second);
    RunKeepsMatched(Initial(first, second), events);
  }

  predicate OnlyStarts(events: seq<Event>, c: Command, d: Command) {
    forall i | 0 <= i < |events| :: events[i].Start? ==> events[i].c == c || events[i].c == d
  }

  lemma {:induction false} NoUpgradeKeepsRule(s: State, events: seq<Event>, c: Command, d: Command)
    requires IsRun(s, events, AnyUse) && OnlyStarts(events, c, d) && !c.Upgrade? && !d.Upgrade?
    ensures IsRun(s, events, UpgradeRule)
    decreases |events|
  {
    if events != [] {
      assert events[0].Start? ==> events[0].c == c || events[0].c == d;
      forall i | 0 <= i < |events| - 1 ensures events[1..][i].Start? ==> events[1..][i].c == c || events[1..][i].c == d {
        assert events[1..][i] == events[i + 1];
      }
      NoUpgradeKeepsRule(Next(s, events[0]), events[1..], c, d);
    }
  }

  lemma TestEffects(s: State)
    requires s.power == Running(One, One) && s.version
    ensures Script(s, TestOther) == [SetTesting(Some(Two))]
    ensures Effects(s, Script(s, TestOther)) == s.(testing := Some(Two), testsSet := s.testsSet + 1)
  {
    EffectsStep(s, SetTesting(Some(Two)), []);
  }

  lemma TestedCycle(first: Image, second: Image)
    requires first.boots && second.boots
    ensures var s := Initial(first, Holds(second));
            var installed := Effects(s, Script(s, Bootstrap));
            && installed.power == Running(One, One) && installed.version && installed.todo == []
            && PowerCycle(Effects(installed, Script(installed, TestOther))).power == Running(Two, One)
  {
    var s := Initial(first, Holds(second));
    BootstrapEffects(first, Holds(second));
    TestEffects(Effects(s, Script(s, Bootstrap)));
  }

  /** Without the second rule a run that keeps the first one ends with the wrong arguments: bootstrap, test the
      other partition at once, and switch off and on. */
  lemma ScriptRuleIsNeeded(first: Image, second: Image) returns (events: seq<Event>)
    requires first.boots && second.boots
    ensures IsRun(Initial(first, Holds(second)), events, AnyUse) && IsRun(Initial(first, Holds(second)), events, UpgradeRule)
    ensures RunFrom(Initial(first, Holds(second)), events).power == Running(Two, One)
  {
    var s := Initial(first, Holds(second));
    TestedCycle(first, second);
    TestEffects(Effects(s, Script(s, Bootstrap)));
    var tested := RunTwo(s, Bootstrap, TestOther);
    events := CycleBehind(s, tested, Bootstrap, TestOther);
    NoUpgradeKeepsRule(s, events, Bootstrap, TestOther);
  }
}
