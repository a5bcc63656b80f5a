/**
  The posture file (`devmode.py`): switch levels, emergency levels that carry an expiry, and the
  cascade that settles an incoherent posture after an expiry.
*/
module ModeState {
  import opened Common

  const DEFAULT_TTL := 3600
  const MAX_TTL := 8 * 3600

  type Mode = map<string, string>

  /** One switch: its levels (the first is the resting one) and which of them are emergency levels. */
  datatype Switch = Switch(levels: seq<string>, emergency: set<string>)

  /** The active switches; none of them rests at an emergency level. */
  type Switches = map<string, Switch>

  predicate ValidSwitch(switch: Switch) {
    switch.levels != [] && switch.levels[0] !in switch.emergency
  }

  ghost predicate ValidSwitches(switches: Switches) {
    forall axis :: axis in switches ==> ValidSwitch(switches[axis])
  }

  function Resting(switch: Switch): string {
    if switch.levels == [] then "" else switch.levels[0]
  }

  function Defaults(switches: Switches): Mode {
    map axis | axis in switches :: Resting(switches[axis])
  }

  predicate IsEmergency(switches: Switches, axis: string, level: string) {
    axis in switches && level in switches[axis].emergency
  }

  /** The file: levels and expiries (`None` where one does not parse); it may hold keys no switch has. */
  datatype ModeFile = ModeFile(mode: Mode, expires: map<string, Option<int>>)

  const NO_FILE := ModeFile(map[], map[])

  // ---------------------------------------------------------------------------------------------
  // Reading
  // ---------------------------------------------------------------------------------------------

  /** The level a switch has in the file, expiry aside. */
  function Stored(switches: Switches, file: ModeFile, axis: string): string
    requires axis in switches
  {
    if axis in file.mode && file.mode[axis] in switches[axis].levels then file.mode[axis] else Resting(switches[axis])
  }

  /** An expiry that does not parse counts as passed. */
  predicate Passed(expiry: Option<int>, now: int) {
    expiry.None? || expiry.value <= now
  }

  predicate Lapsed(file: ModeFile, axis: string, now: int) {
    axis in file.expires && Passed(file.expires[axis], now)
  }

  function LevelAt(switches: Switches, file: ModeFile, axis: string, now: int): string
    requires axis in switches
  {
    if Lapsed(file, axis, now) then Resting(switches[axis]) else Stored(switches, file, axis)
  }

  function ReadMode(switches: Switches, file: ModeFile, now: int): Mode {
    map axis | axis in switches :: LevelAt(switches, file, axis, now)
  }

  function ReadExpires(switches: Switches, file: ModeFile, now: int): map<string, Option<int>> {
    map axis | axis in file.expires && axis in switches && !Lapsed(file, axis, now) :: file.expires[axis]
  }

  /**
    A switch shows a level other than its resting one exactly when the file has that level for it, it
    is one of the switch's own, and an expiry, if there is one, can be read and is still to come.
  */
  lemma ShowsRaisedExactly(switches: Switches, file: ModeFile, now: int, axis: string, level: string)
    requires axis in switches && ValidSwitch(switches[axis]) && level != switches[axis].levels[0]
    ensures ReadMode(switches, file, now)[axis] == level <==>
      && axis in file.mode && file.mode[axis] == level && level in switches[axis].levels
      && (axis in file.expires ==> file.expires[axis].Some? && now < file.expires[axis].value)
    ensures ReadMode(switches, file, now)[axis] in switches[axis].levels
    ensures axis in ReadExpires(switches, file, now) <==>
      axis in file.expires && file.expires[axis].Some? && now < file.expires[axis].value
  {
  }

  // ---------------------------------------------------------------------------------------------
  // Setting
  // ---------------------------------------------------------------------------------------------

  predicate ValidUpdates(switches: Switches, updates: Mode) {
    forall axis :: axis in updates ==> axis in switches && updates[axis] in switches[axis].levels
  }

  /** The emergency levels among `updates`, each with the same expiry. */
  function Armed(switches: Switches, updates: Mode, expiry: int): map<string, Option<int>> {
    map axis | axis in updates && IsEmergency(switches, axis, updates[axis]) :: Some(expiry)
  }

  function ModeSet(switches: Switches, file: ModeFile, updates: Mode, ttl: int, now: int): ModeFile {
    ModeFile(
      ReadMode(switches, file, now) + updates,
      (ReadExpires(switches, file, now) - updates.Keys) + Armed(switches, updates, now + ttl))
  }

  function Ttl(ttl: Option<int>): int {
    if ttl.None? || ttl.value == 0 then DEFAULT_TTL else ttl.value
  }

  /** Whether a command goes through: valid updates, and a coherent result unless forced. */
  predicate Admissible(switches: Switches, errors: Mode -> nat, file: ModeFile, updates: Mode, force: bool, now: int) {
    ValidUpdates(switches, updates) && (force || errors(ReadMode(switches, file, now) + updates) == 0)
  }

  /** The level the file gives a switch, valid or not. */
  function Raw(switches: Switches, file: ModeFile, axis: string): string
    requires axis in switches
  {
    if axis in file.mode then file.mode[axis] else Resting(switches[axis])
  }

  /** `read`, the levels: every switch's recorded level, invalid ones replaced in place. */
  method ReadLevels(switches: Switches, file: ModeFile) returns (mode: Mode)
    ensures mode == map axis | axis in switches :: Stored(switches, file, axis)
  {
    mode := map axis | axis in switches :: Raw(switches, file, axis);
    var axes := switches.Keys;
    while axes != {}
      invariant axes <= switches.Keys && mode.Keys == switches.Keys
      invariant forall axis :: axis in switches && axis in axes ==> mode[axis] == Raw(switches, file, axis)
      invariant forall axis :: axis in switches && axis !in axes ==> mode[axis] == Stored(switches, file, axis)
      decreases axes
    {
      var axis :| axis in axes;
      if mode[axis] !in switches[axis].levels {
        mode := mode[axis := Resting(switches[axis])];
      }
      axes := axes - {axis};
    }
  }

  /** The expiries of `running` that have not passed, or are still to be looked at. */
  function StillRunning(running: map<string, Option<int>>, left: set<string>, now: int): map<string, Option<int>> {
    map axis | axis in running && (axis in left || !Passed(running[axis], now)) :: running[axis]
  }

  /** `read`, the expiries: switches whose expiry has passed go back to rest. */
  method DropLapsed(stored: Mode, running: map<string, Option<int>>, resting: Mode, now: int)
    returns (mode: Mode, expires: map<string, Option<int>>)
    requires running.Keys <= resting.Keys == stored.Keys
    ensures mode == map axis | axis in stored ::
              if axis in running && Passed(running[axis], now) then resting[axis] else stored[axis]
    ensures expires == StillRunning(running, {}, now)
  {
    mode, expires := stored, running;
    var left := running.Keys;
    while left != {}
      invariant left <= running.Keys && mode.Keys == stored.Keys
      invariant forall axis :: axis in stored && axis in left ==> mode[axis] == stored[axis]
      invariant forall axis :: axis in stored && axis !in left ==>
                  mode[axis] == if axis in running && Passed(running[axis], now) then resting[axis] else stored[axis]
      invariant expires == StillRunning(running, left, now)
      decreases left
    {
      var axis :| axis in left;
      left := left - {axis};
      if expires[axis].None? || expires[axis].value <= now {
        mode := mode[axis := resting[axis]];
        expires := expires - {axis};
      }
    }
  }

  /** What the updates outside `left` have done to the expiries `running`. */
  function ArmedSoFar(switches: Switches, updates: Mode, expiry: int, running: map<string, Option<int>>,
      left: set<string>): map<string, Option<int>>
  {
    (running - (updates.Keys - left)) + (Armed(switches, updates, expiry) - left)
  }

  lemma ArmOne(switches: Switches, updates: Mode, expiry: int, running: map<string, Option<int>>, left: set<string>,
      axis: string)
    requires axis in left && left <= updates.Keys
    ensures var soFar := ArmedSoFar(switches, updates, expiry, running, left);
      ArmedSoFar(switches, updates, expiry, running, left - {axis})
        == if IsEmergency(switches, axis, updates[axis]) then soFar[axis := Some(expiry)] else soFar - {axis}
  {
  }

  lemma SetOne(before: Mode, updates: Mode, left: set<string>, axis: string)
    requires axis in left && left <= updates.Keys
    ensures before + (updates - (left - {axis})) == (before + (updates - left))[axis := updates[axis]]
  {
  }

  lemma NothingSetYet(before: Mode, updates: Mode)
    ensures before + (updates - updates.Keys) == before
  {
  }

  lemma NothingArmedYet(switches: Switches, updates: Mode, expiry: int, running: map<string, Option<int>>)
    ensures ArmedSoFar(switches, updates, expiry, running, updates.Keys) == running
  {
  }

  lemma AllArmed(switches: Switches, updates: Mode, expiry: int, running: map<string, Option<int>>)
    ensures ArmedSoFar(switches, updates, expiry, running, {})
              == (running - updates.Keys) + Armed(switches, updates, expiry)
  {
    assert updates.Keys - {} == updates.Keys;
    assert Armed(switches, updates, expiry) - {} == Armed(switches, updates, expiry);
  }

  /** `set_mode`, the updates: each sets its switch, and arms or disarms it. */
  method ApplyUpdates(switches: Switches, updates: Mode, expiry: int, before: Mode, running: map<string, Option<int>>)
    returns (mode: Mode, expires: map<string, Option<int>>)
    ensures mode == before + updates
    ensures expires == (running - updates.Keys) + Armed(switches, updates, expiry)
  {
    mode, expires := before, running;
    var axes := updates.Keys;
    NothingSetYet(before, updates);
    NothingArmedYet(switches, updates, expiry, running);
    while axes != {}
      invariant axes <= updates.Keys
      invariant mode == before + (updates - axes)
      invariant expires == ArmedSoFar(switches, updates, expiry, running, axes)
      decreases axes
    {
      var axis :| axis in axes;
      SetOne(before, updates, axes, axis);
      ArmOne(switches, updates, expiry, running, axes, axis);
      axes := axes - {axis};
      mode := mode[axis := updates[axis]];
      expires := if IsEmergency(switches, axis, updates[axis]) then expires[axis := Some(expiry)] else expires - {axis};
    }
    assert updates - {} == updates;
    AllArmed(switches, updates, expiry, running);
  }

  lemma LevelAfterSetting(switches: Switches, file: ModeFile, updates: Mode, ttl: int, now: int, axis: string)
    requires ttl > 0 && ValidUpdates(switches, updates) && axis in switches
    ensures LevelAt(switches, ModeSet(switches, file, updates, ttl, now), axis, now)
         == if axis in updates then updates[axis] else LevelAt(switches, file, axis, now)
  {
    var after := ModeSet(switches, file, updates, ttl, now);
    assert axis in after.expires <==>
      if axis in updates then IsEmergency(switches, axis, updates[axis])
      else axis in ReadExpires(switches, file, now);
  }

  /** What was set is what a reader sees at once, and nothing else changes, if it is to last at all. */
  lemma SettingReadsBack(switches: Switches, file: ModeFile, updates: Mode, ttl: int, now: int)
    ensures ttl > 0 && ValidUpdates(switches, updates) ==>
      ReadMode(switches, ModeSet(switches, file, updates, ttl, now), now) == ReadMode(switches, file, now) + updates
  {
    var before, after := ReadMode(switches, file, now), ModeSet(switches, file, updates, ttl, now);
    if ttl > 0 && ValidUpdates(switches, updates) {
      forall axis | axis in switches
        ensures LevelAt(switches, after, axis, now) == if axis in updates then updates[axis] else before[axis]
      {
        LevelAfterSetting(switches, file, updates, ttl, now, axis);
      }
      hide ModeSet, LevelAt;
    }
  }

  class PostureFile {
    const switches: Switches
    var file: ModeFile

    constructor (switches: Switches)
      ensures this.switches == switches && file == NO_FILE
    {
      this.switches := switches;
      file := NO_FILE;
    }

    /** `read`: the levels a reader sees, and the expiries still running. */
    method Read(now: int) returns (mode: Mode, expires: map<string, Option<int>>)
      ensures mode == ReadMode(switches, file, now) && expires == ReadExpires(switches, file, now)
    {
      var stored := ReadLevels(switches, file);
      var running := map axis | axis in file.expires && axis in switches :: file.expires[axis];
      mode, expires := DropLapsed(stored, running, Defaults(switches), now);
    }

    /** `set_mode`: apply the updates, unless one is invalid or the result is incoherent. */
    method SetMode(updates: Mode, ttl: Option<int>, force: bool, errors: Mode -> nat, now: int) returns (applied: bool)
      modifies this`file
      ensures applied == Admissible(switches, errors, old(file), updates, force, now)
      ensures applied && !force && Ttl(ttl) > 0 ==> errors(ReadMode(switches, file, now)) == 0
      ensures file == if applied then ModeSet(switches, old(file), updates, Ttl(ttl), now) else old(file)
    {
      hide ValidUpdates, ReadMode, ReadExpires, Armed;
      if !ValidUpdates(switches, updates) {
        return false;
      }
      var mode, expires := Read(now);
      mode, expires := ApplyUpdates(switches, updates, now + Ttl(ttl), mode, expires);
      if errors(mode) > 0 && !force {
        return false;
      }
      file := ModeFile(mode, expires);
      SettingReadsBack(switches, old(file), updates, Ttl(ttl), now);
      return true;
    }

    /** The command line: nothing to set, a lifetime no level takes, or one of no length, is refused. */
    method SetFromCommandLine(updates: Mode, asked: Option<int>, errors: Mode -> nat, now: int) returns (applied: bool)
      modifies this`file
      ensures applied == CommandAccepted(switches, errors, old(file), updates, asked, now)
      ensures applied ==> errors(ReadMode(switches, file, now)) == 0
      ensures file == if applied then ModeSet(switches, old(file), updates, Ttl(Clamped(asked)), now) else old(file)
    {
      if updates == map[] || (asked.Some? && (asked.value <= 0 || !TakesTtl(switches, updates))) {
        return false;
      }
      applied := SetMode(updates, Clamped(asked), false, errors, now);
    }
  }

  /** `parse_ttl` after the text is read: at most the maximum. */
  function Clamped(asked: Option<int>): Option<int> {
    if asked.Some? && asked.value > MAX_TTL then Some(MAX_TTL) else asked
  }

  /** Some switch is being set to an emergency level, so a lifetime has something to limit. */
  predicate TakesTtl(switches: Switches, updates: Mode) {
    exists axis :: axis in updates && IsEmergency(switches, axis, updates[axis])
  }

  predicate CommandAccepted(switches: Switches, errors: Mode -> nat, file: ModeFile, updates: Mode,
      asked: Option<int>, now: int)
  {
    && updates != map[]
    && (asked.Some? ==> asked.value > 0 && TakesTtl(switches, updates))
    && Admissible(switches, errors, file, updates, false, now)
  }

  /** Why a command is refused: each reason by itself is enough, and there is no other. */
  lemma RefusedExactly(switches: Switches, errors: Mode -> nat, file: ModeFile, updates: Mode, asked: Option<int>,
      now: int)
    ensures !CommandAccepted(switches, errors, file, updates, asked, now) <==>
      || updates == map[]
      || (asked.Some? && asked.value <= 0)
      || (asked.Some? && forall axis :: axis in updates && axis in switches ==>
            updates[axis] !in switches[axis].emergency)
      || (exists axis :: axis in updates && (axis !in switches || updates[axis] !in switches[axis].levels))
      || errors(ReadMode(switches, file, now) + updates) > 0
  {
    hide ReadMode;
  }

  // ---------------------------------------------------------------------------------------------
  // Runs: each switch as a register of its own
  // ---------------------------------------------------------------------------------------------

  /** The last level a switch was set to, when, and until when if it is an emergency level. */
  datatype Setting = Setting(level: string, at: int, expiry: Option<int>)

  /** What a switch set this way shows at `now`. */
  function Shows(switches: Switches, axis: string, setting: Option<Setting>, now: int): string
    requires axis in switches
  {
    if setting.None? || (setting.value.expiry.Some? && setting.value.expiry.value <= now) then Resting(switches[axis])
    else setting.value.level
  }

  /** A command-line setting, the supervisor's forced write of resting levels, or time passing. */
  datatype Op = Set(updates: Mode, asked: Option<int>) | Rest(axes: set<string>) | Wait(seconds: nat)

  /** The file, the time, and the settings an observer of the accepted commands knows. */
  datatype World = World(file: ModeFile, now: int, settings: map<string, Setting>)

  function Step(switches: Switches, errors: Mode -> nat, world: World, op: Op): World {
    match op
    case Wait(seconds) => world.(now := world.now + seconds)
    case Set(updates, asked) =>
      if !CommandAccepted(switches, errors, world.file, updates, asked, world.now) then world
      else Accept(switches, world, updates, Ttl(Clamped(asked)))
    case Rest(axes) =>
      Accept(switches, world, map axis | axis in axes && axis in switches :: Resting(switches[axis]), DEFAULT_TTL)
  }

  function Accept(switches: Switches, world: World, updates: Mode, ttl: int): World {
    World(ModeSet(switches, world.file, updates, ttl, world.now), world.now,
          world.settings + (map axis | axis in updates ::
            Setting(updates[axis], world.now,
                    if IsEmergency(switches, axis, updates[axis]) then Some(world.now + ttl) else None)))
  }

  function StepAll(switches: Switches, errors: Mode -> nat, world: World, ops: seq<Op>): World
    decreases ops
  {
    if ops == [] then world else StepAll(switches, errors, Step(switches, errors, world, ops[0]), ops[1..])
  }

  function RunOf(switches: Switches, errors: Mode -> nat, t0: int, ops: seq<Op>): World {
    StepAll(switches, errors, World(NO_FILE, t0, map[]), ops)
  }

  function SettingOf(world: World, axis: string): Option<Setting> {
    if axis in world.settings then Some(world.settings[axis]) else None
  }

  /** In the file, exactly the switches at an emergency level carry an expiry. */
  ghost predicate ExpiriesExact(switches: Switches, file: ModeFile) {
    && file.expires.Keys <= file.mode.Keys <= switches.Keys
    && forall axis :: axis in file.mode ==>
         && file.mode[axis] in switches[axis].levels
         && (axis in file.expires <==> IsEmergency(switches, axis, file.mode[axis]))
  }

  /** From now on the file shows for every switch what that switch's own last setting shows. */
  ghost predicate ShowsSettings(switches: Switches, world: World) {
    forall axis, t :: axis in switches && world.now <= t ==>
      LevelAt(switches, world.file, axis, t) == Shows(switches, axis, SettingOf(world, axis), t)
  }

  ghost predicate SettingsBounded(switches: Switches, world: World) {
    forall axis :: axis in world.settings ==>
      var setting := world.settings[axis];
      && setting.at <= world.now
      && (IsEmergency(switches, axis, setting.level) ==>
            setting.expiry.Some? && setting.at < setting.expiry.value <= setting.at + MAX_TTL)
  }

  ghost predicate Inv(switches: Switches, world: World) {
    ExpiriesExact(switches, world.file) && ShowsSettings(switches, world) && SettingsBounded(switches, world)
  }

  /** Setting some switches leaves what every other switch shows, at every later time, as it was. */
  lemma OthersUntouched(switches: Switches, file: ModeFile, updates: Mode, ttl: int, now: int, axis: string, t: int)
    requires ValidSwitches(switches) && ValidUpdates(switches, updates)
    requires axis in switches && axis !in updates && now <= t
    ensures LevelAt(switches, ModeSet(switches, file, updates, ttl, now), axis, t) == LevelAt(switches, file, axis, t)
  {
    assert ValidSwitch(switches[axis]);
  }

  lemma AcceptShows(switches: Switches, world: World, updates: Mode, ttl: int, axis: string, t: int)
    requires ValidSwitches(switches) && ShowsSettings(switches, world)
    requires ValidUpdates(switches, updates) && axis in switches && world.now <= t
    ensures var next := Accept(switches, world, updates, ttl);
      LevelAt(switches, next.file, axis, t) == Shows(switches, axis, SettingOf(next, axis), t)
  {
    if axis !in updates {
      OthersUntouched(switches, world.file, updates, ttl, world.now, axis, t);
    }
  }

  lemma InvAccept(switches: Switches, world: World, updates: Mode, ttl: int)
    requires ValidSwitches(switches) && Inv(switches, world)
    requires ValidUpdates(switches, updates) && 1 <= ttl <= MAX_TTL
    ensures Inv(switches, Accept(switches, world, updates, ttl))
  {
    var next := Accept(switches, world, updates, ttl);
    assert ShowsSettings(switches, next) by {
      forall axis, t | axis in switches && next.now <= t
        ensures LevelAt(switches, next.file, axis, t) == Shows(switches, axis, SettingOf(next, axis), t)
      {
        AcceptShows(switches, world, updates, ttl, axis, t);
      }
    }
    ExpiriesExactStep(switches, world.file, updates, ttl, world.now);
  }

  lemma InvStep(switches: Switches, errors: Mode -> nat, world: World, op: Op)
    requires ValidSwitches(switches) && Inv(switches, world)
    ensures Inv(switches, Step(switches, errors, world, op))
  {
    match op
    case Wait(_) =>
    case Set(updates, asked) =>
      if CommandAccepted(switches, errors, world.file, updates, asked, world.now) {
        InvAccept(switches, world, updates, Ttl(Clamped(asked)));
      }
    case Rest(axes) =>
      var updates := map axis | axis in axes && axis in switches :: Resting(switches[axis]);
      forall axis | axis in updates ensures ValidSwitch(switches[axis]) {
      }
      InvAccept(switches, world, updates, DEFAULT_TTL);
  }

  lemma ExpiriesExactStep(switches: Switches, file: ModeFile, updates: Mode, ttl: int, now: int)
    requires ValidSwitches(switches) && ValidUpdates(switches, updates) && ExpiriesExact(switches, file)
    ensures ExpiriesExact(switches, ModeSet(switches, file, updates, ttl, now))
  {
    forall axis | axis in switches ensures ValidSwitch(switches[axis]) {
    }
  }

  lemma {:induction false} InvAlong(switches: Switches, errors: Mode -> nat, world: World, ops: seq<Op>)
    requires ValidSwitches(switches) && Inv(switches, world)
    ensures Inv(switches, StepAll(switches, errors, world, ops))
    decreases ops
  {
    if ops != [] {
      InvStep(switches, errors, world, ops[0]);
      InvAlong(switches, errors, Step(switches, errors, world, ops[0]), ops[1..]);
    }
  }

  lemma InvInitially(switches: Switches, t0: int)
    requires ValidSwitches(switches)
    ensures Inv(switches, World(NO_FILE, t0, map[]))
  {
  }

  /**
    Over every run of command-line settings and waiting: what a reader sees of a switch is that
    switch's own last accepted setting until it expires, whatever else was set in between.
  */
  lemma ReaderSeesLastSetting(switches: Switches, errors: Mode -> nat, t0: int, ops: seq<Op>, axis: string)
    requires ValidSwitches(switches) && axis in switches
    ensures var world := RunOf(switches, errors, t0, ops);
      ReadMode(switches, world.file, world.now)[axis] == Shows(switches, axis, SettingOf(world, axis), world.now)
  {
    InvInitially(switches, t0);
    InvAlong(switches, errors, World(NO_FILE, t0, map[]), ops);
  }

  /** An emergency level shows only before the expiry of its own last arming, at most eight hours after it. */
  lemma EmergencyIsBounded(switches: Switches, errors: Mode -> nat, t0: int, ops: seq<Op>, axis: string)
    requires ValidSwitches(switches) && axis in switches
    requires var world := RunOf(switches, errors, t0, ops);
      IsEmergency(switches, axis, ReadMode(switches, world.file, world.now)[axis])
    ensures var world := RunOf(switches, errors, t0, ops);
      && axis in world.settings && world.settings[axis].expiry.Some?
      && world.settings[axis].level == ReadMode(switches, world.file, world.now)[axis]
      && world.settings[axis].at <= world.now < world.settings[axis].expiry.value <= world.settings[axis].at + MAX_TTL
  {
    InvInitially(switches, t0);
    InvAlong(switches, errors, World(NO_FILE, t0, map[]), ops);
    ReaderSeesLastSetting(switches, errors, t0, ops, axis);
    assert ValidSwitch(switches[axis]);
  }

  /** Nothing sets this switch or puts it to rest. */
  predicate LeavesTheSwitch(ops: seq<Op>, axis: string) {
    forall i :: 0 <= i < |ops| ==>
      (ops[i].Set? ==> axis !in ops[i].updates) && (ops[i].Rest? ==> axis !in ops[i].axes)
  }

  lemma {:induction false} SettingStays(switches: Switches, errors: Mode -> nat, world: World, ops: seq<Op>,
      axis: string)
    requires LeavesTheSwitch(ops, axis)
    ensures SettingOf(StepAll(switches, errors, world, ops), axis) == SettingOf(world, axis)
    ensures world.now <= StepAll(switches, errors, world, ops).now
    decreases ops
  {
    if ops != [] {
      hide CommandAccepted, ModeSet, Ttl, Clamped;
      assert forall i :: 0 <= i < |ops[1..]| ==> ops[1..][i] == ops[i + 1];
      SettingStays(switches, errors, Step(switches, errors, world, ops[0]), ops[1..], axis);
    }
  }

  lemma {:induction false} StepAllAppend(switches: Switches, errors: Mode -> nat, world: World, ops: seq<Op>,
      more: seq<Op>)
    ensures StepAll(switches, errors, world, ops + more)
         == StepAll(switches, errors, StepAll(switches, errors, world, ops), more)
    decreases ops
  {
    if ops == [] {
      assert ops + more == more;
    } else {
      hide Step;
      assert (ops + more)[1..] == ops[1..] + more;
      StepAllAppend(switches, errors, Step(switches, errors, world, ops[0]), ops[1..], more);
    }
  }

  /** The lifetime an emergency level gets: an hour if none is asked, what is asked up to eight hours. */
  predicate LifetimeGiven(asked: Option<int>, lifetime: int) {
    match asked
    case None => lifetime == 3600
    case Some(seconds) => if seconds <= 28800 then lifetime == seconds else lifetime == 28800
  }

  /**
    Once a command is accepted, the posture has no errors, and each switch it set shows its level: an
    emergency level for exactly its lifetime and then the resting one, any other level without end,
    through everything that does not touch the switch.
  */
  lemma SettingShowsExactly(switches: Switches, errors: Mode -> nat, t0: int, ops: seq<Op>, updates: Mode,
      asked: Option<int>, lifetime: int, more: seq<Op>, axis: string)
    requires ValidSwitches(switches) && axis in updates && LeavesTheSwitch(more, axis)
    requires var before := RunOf(switches, errors, t0, ops);
      CommandAccepted(switches, errors, before.file, updates, asked, before.now)
    requires LifetimeGiven(asked, lifetime)
    ensures var before := RunOf(switches, errors, t0, ops);
      var settled := RunOf(switches, errors, t0, ops + [Set(updates, asked)]);
      var after := RunOf(switches, errors, t0, ops + [Set(updates, asked)] + more);
      && axis in switches && errors(ReadMode(switches, settled.file, settled.now)) == 0
      && ReadMode(switches, after.file, after.now)[axis] ==
           if updates[axis] !in switches[axis].emergency || after.now < before.now + lifetime then updates[axis]
           else switches[axis].levels[0]
  {
    var start := World(NO_FILE, t0, map[]);
    var before := RunOf(switches, errors, t0, ops);
    var here := Step(switches, errors, before, Set(updates, asked));
    OneStep(switches, errors, before, Set(updates, asked));
    StepAllAppend(switches, errors, start, ops, [Set(updates, asked)]);
    StepAllAppend(switches, errors, start, ops + [Set(updates, asked)], more);
    AcceptedSetting(switches, errors, before, updates, asked, lifetime, axis);
    SettingStays(switches, errors, here, more, axis);
    ReaderSeesLastSetting(switches, errors, t0, ops + [Set(updates, asked)] + more, axis);
    assert ValidSwitch(switches[axis]);
    hide ReadMode, CommandAccepted, Step, ModeSet;
  }

  lemma OneStep(switches: Switches, errors: Mode -> nat, world: World, op: Op)
    ensures StepAll(switches, errors, world, [op]) == Step(switches, errors, world, op)
  {
    hide Step;
    assert [op][1..] == [];
  }

  /** What an accepted command leaves. */
  lemma AcceptedSetting(switches: Switches, errors: Mode -> nat, world: World, updates: Mode, asked: Option<int>,
      lifetime: int, axis: string)
    requires CommandAccepted(switches, errors, world.file, updates, asked, world.now)
    requires axis in updates && LifetimeGiven(asked, lifetime)
    ensures var next := Step(switches, errors, world, Set(updates, asked));
      && next.now == world.now && axis in switches
      && errors(ReadMode(switches, next.file, next.now)) == 0
      && SettingOf(next, axis) == Some(Setting(updates[axis], world.now,
            if updates[axis] in switches[axis].emergency then Some(world.now + lifetime) else None))
  {
    hide ReadMode, ModeSet;
    SettingReadsBack(switches, world.file, updates, lifetime, world.now);
  }

  /** A switch carries an expiry in the file exactly when its level there is an emergency one. */
  lemma ExpiryIffEmergency(switches: Switches, errors: Mode -> nat, t0: int, ops: seq<Op>)
    requires ValidSwitches(switches)
    ensures ExpiriesExact(switches, RunOf(switches, errors, t0, ops).file)
  {
    InvInitially(switches, t0);
    InvAlong(switches, errors, World(NO_FILE, t0, map[]), ops);
  }

  // ---------------------------------------------------------------------------------------------
  // The settle cascade
  // ---------------------------------------------------------------------------------------------

  function LevelOf(mode: Mode, defaults: Mode, axis: string): string
    requires axis in defaults
  {
    if axis in mode then mode[axis] else defaults[axis]
  }

  predicate Raised(mode: Mode, defaults: Mode, axis: string) {
    axis in defaults && LevelOf(mode, defaults, axis) != defaults[axis]
  }

  function Lowered(mode: Mode, defaults: Mode, axis: string): Mode
    requires axis in defaults
  {
    mode[axis := defaults[axis]]
  }

  /** No single switch put to rest brings the error count down. */
  ghost predicate NoSingleDowngradeHelps(mode: Mode, defaults: Mode, errors: Mode -> nat) {
    forall axis :: Raised(mode, defaults, axis) ==> errors(Lowered(mode, defaults, axis)) >= errors(mode)
  }

  /** `flips` puts switches of `mode` that are not at rest to rest, and does nothing else. */
  ghost predicate OnlyDowngrades(mode: Mode, defaults: Mode, flips: Mode) {
    forall axis :: axis in flips ==> Raised(mode, defaults, axis) && flips[axis] == defaults[axis]
  }

  /** The `for` loop of `settle_incoherent`: the first switch whose downgrade reduces the errors. */
  method FirstHelpfulDowngrade(current: Mode, axes: seq<string>, defaults: Mode, errors: Mode -> nat)
    returns (found: Option<string>)
    requires forall axis :: axis in axes <==> axis in defaults
    ensures found.Some? ==> Raised(current, defaults, found.value)
    ensures found.Some? ==> errors(Lowered(current, defaults, found.value)) < errors(current)
    ensures found.None? ==> NoSingleDowngradeHelps(current, defaults, errors)
  {
    for i := 0 to |axes|
      invariant forall j :: 0 <= j < i && Raised(current, defaults, axes[j])
                  ==> errors(Lowered(current, defaults, axes[j])) >= errors(current)
    {
      var axis := axes[i];
      if LevelOf(current, defaults, axis) == defaults[axis] {
        continue;
      }
      if errors(Lowered(current, defaults, axis)) < errors(current) {
        return Some(axis);
      }
    }
    return None;
  }

  lemma DowngradeMore(mode: Mode, defaults: Mode, flips: Mode, axis: string)
    requires OnlyDowngrades(mode, defaults, flips) && Raised(mode + flips, defaults, axis)
    ensures OnlyDowngrades(mode, defaults, flips[axis := defaults[axis]])
    ensures mode + flips[axis := defaults[axis]] == Lowered(mode + flips, defaults, axis)
  {
  }

  /** The flips that put every switch still raised in `current` to rest. */
  function AllToRest(current: Mode, defaults: Mode): Mode {
    map axis | axis in defaults && LevelOf(current, defaults, axis) != defaults[axis] :: defaults[axis]
  }

  lemma AllToRestIsDefaults(mode: Mode, defaults: Mode, flips: Mode)
    requires OnlyDowngrades(mode, defaults, flips)
    ensures OnlyDowngrades(mode, defaults, flips + AllToRest(mode + flips, defaults))
    ensures mode.Keys == defaults.Keys ==> mode + (flips + AllToRest(mode + flips, defaults)) == defaults
  {
  }

  /**
    `settle_incoherent`: extra flips to the default that make the posture coherent.  `errors` counts
    the errors of a posture and may be any function; `axes` are the switches in their own order.
  */
  method SettleIncoherent(mode: Mode, axes: seq<string>, defaults: Mode, errors: Mode -> nat) returns (flips: Mode)
    requires forall axis :: axis in axes <==> axis in defaults
    ensures OnlyDowngrades(mode, defaults, flips)
    ensures errors(mode) == 0 ==> flips == map[]
    ensures mode.Keys == defaults.Keys ==> errors(mode + flips) <= errors(mode)
    ensures mode.Keys == defaults.Keys ==> (errors(mode + flips) == 0 || errors(defaults) > 0)
    ensures errors(mode + flips) == 0 || mode.Keys != defaults.Keys
              || NoSingleDowngradeHelps(mode + flips, defaults, errors)
  {
    flips := map[];
    assert mode + flips == mode;
    while errors(mode + flips) > 0
      invariant OnlyDowngrades(mode, defaults, flips)
      invariant errors(mode) == 0 ==> flips == map[]
      invariant errors(mode + flips) <= errors(mode)
      decreases errors(mode + flips)
    {
      var found := FirstHelpfulDowngrade(mode + flips, axes, defaults, errors);
      if found.None? {
        if errors(defaults) == 0 {
          AllToRestIsDefaults(mode, defaults, flips);
          flips := flips + AllToRest(mode + flips, defaults);
        }
        break;
      }
      DowngradeMore(mode, defaults, flips, found.value);
      flips := flips[found.value := defaults[found.value]];
    }
  }

  /** The switches whose running level has just lapsed. */
  function LapsedFlips(switches: Switches, file: ModeFile, now: int): Mode {
    map axis | axis in switches && Stored(switches, file, axis) != LevelAt(switches, file, axis, now) ::
        Resting(switches[axis])
  }

  lemma RestingReadsBack(switches: Switches, file: ModeFile, flips: Mode, ttl: int, now: int)
    requires ValidSwitches(switches)
    requires forall axis :: axis in flips ==> axis in switches && flips[axis] == Resting(switches[axis])
    ensures ValidUpdates(switches, flips)
    ensures ReadMode(switches, ModeSet(switches, file, flips, ttl, now), now) == ReadMode(switches, file, now) + flips
  {
    forall axis | axis in switches ensures ValidSwitch(switches[axis]) {
    }
  }

  /** Writing back what lapsed and what settled: readers see the live levels with the settled ones at rest. */
  lemma SettledReadsBack(switches: Switches, file: ModeFile, settled: Mode, now: int)
    requires ValidSwitches(switches)
    requires OnlyDowngrades(ReadMode(switches, file, now), Defaults(switches), settled)
    ensures var flips := LapsedFlips(switches, file, now) + settled;
      && ValidUpdates(switches, flips)
      && ReadMode(switches, ModeSet(switches, file, flips, DEFAULT_TTL, now), now)
          == ReadMode(switches, file, now) + settled
  {
    var flips := LapsedFlips(switches, file, now) + settled;
    assert ReadMode(switches, file, now) + flips == ReadMode(switches, file, now) + settled;
    RestingReadsBack(switches, file, flips, DEFAULT_TTL, now);
  }

  /** Every switch of `after` is as in `before`, or at rest. */
  ghost predicate NothingRaised(switches: Switches, before: Mode, after: Mode) {
    forall axis :: axis in after ==>
      axis in switches && (after[axis] == Resting(switches[axis]) || (axis in before && after[axis] == before[axis]))
  }

  method FlipsOf(switches: Switches, file: ModeFile, live: Mode, now: int) returns (flips: Mode)
    requires live == ReadMode(switches, file, now)
    ensures flips == LapsedFlips(switches, file, now)
  {
    var stored := ReadLevels(switches, file);
    flips := map axis | axis in switches && stored[axis] != live[axis] :: Resting(switches[axis]);
  }

  /**
    The supervisor's expiry: lapsed switches are written back at rest together with what the settle
    cascade adds.  A lapse lands on a coherent posture whenever everything at rest is coherent, and
    nothing is ever raised by it.
  */
  method ExpireUserModes(posture: PostureFile, axes: seq<string>, errors: Mode -> nat, now: int) returns (mode: Mode)
    requires ValidSwitches(posture.switches)
    requires forall axis :: axis in axes <==> axis in Defaults(posture.switches)
    modifies posture`file
    ensures mode == ReadMode(posture.switches, posture.file, now)
    ensures LapsedFlips(posture.switches, old(posture.file), now) == map[] ==> posture.file == old(posture.file)
    ensures LapsedFlips(posture.switches, old(posture.file), now) == map[] || errors(mode) == 0
              || errors(Defaults(posture.switches)) > 0
    ensures errors(mode) <= errors(ReadMode(posture.switches, old(posture.file), now))
    ensures NothingRaised(posture.switches, ReadMode(posture.switches, old(posture.file), now), mode)
  {
    var live, _ := posture.Read(now);
    var flips := FlipsOf(posture.switches, posture.file, live, now);
    if flips == map[] {
      return live;
    }
    var settled := SettleIncoherent(live, axes, Defaults(posture.switches), errors);
    SettledReadsBack(posture.switches, posture.file, settled, now);
    var _ := posture.SetMode(flips + settled, None, true, errors, now);
    return live + settled;
  }
}
