/**
  Runs of the egress allow-store: every interleaving of its operations with the passing of time and
  with deaths between an operation's two writes, of the store and of the effective file.  What a run
  keeps: no observed second drops out of review, an open learn window is always bounded and always
  followed by enforcement, and the effective file agrees with the store unless a death tore the two
  apart, which the next sweep mends in exactly the cases given.
*/
module AllowRuns {
  import opened Common
  import opened AllowStore

  datatype Op =
    | DoGrant(host: string, level: Level, ttl: Option<int>, build: bool)
    | DoRevoke(host: string)
    | DoDecline(host: string)
    | DoSetWall(on: bool)
    | DoStartLearning(seconds: int)
    | DoMarkReviewed
    | DoSweep
    | DoClearEphemeral
    | DoSeedLearning
    | Tick

  /** One move of a run: an operation to its end, or one whose process dies after saving the store. */
  datatype Move = Whole(op: Op) | Torn(op: Op)

  /**
    The store and the effective file at a moment, with what only an observer knows: the seconds at
    which a window was seen open, when the file was last written, whether a death has come between
    the two writes since, when the current window was opened, and how often the first-run seed has
    opened one.
  */
  datatype Run = Run(
    store: Store,
    file: Option<Payload>,
    now: int,
    openSeconds: set<int>,
    wroteAt: int,
    torn: bool,
    openedAt: int,
    seeded: nat)

  function StoreStep(seed: Seed, store: Store, now: int, op: Op): Store {
    match op
    case DoGrant(host, level, ttl, build) => GrantMade(store, host, level, ttl, build, now)
    case DoRevoke(host) => HostRevoked(store, host, now)
    case DoDecline(host) => HostDeclined(store, host, now)
    case DoSetWall(on) => WallSet(store, on, now)
    case DoStartLearning(seconds) => LearningStarted(store, seconds, now)
    case DoMarkReviewed => Reviewed(store, now)
    case DoSweep => Swept(store, now)
    case DoClearEphemeral => EphemeralCleared(store, now)
    case DoSeedLearning =>
      if seed == Learn && NeverAnswered(store) then LearningStarted(store, LEARN_DEFAULT_SECONDS, now) else store
    case Tick => store
  }

  /** Does the operation rewrite the effective file? */
  predicate Writes(seed: Seed, store: Store, now: int, op: Op) {
    match op
    case DoGrant(host, level, ttl, build) => GrantAnswered(store, host, level, ttl, build, now) != Refused
    case DoRevoke(_) => true
    case DoSetWall(_) => true
    case DoStartLearning(_) => true
    case DoClearEphemeral => true
    case DoSweep => SweepNeeded(store, now)
    case DoSeedLearning => seed == Learn && NeverAnswered(store)
    case DoDecline(_) => false
    case DoMarkReviewed => false
    case Tick => false
  }

  predicate OpensWindow(seed: Seed, store: Store, op: Op) {
    op.DoStartLearning? || (op.DoSeedLearning? && seed == Learn && NeverAnswered(store))
  }

  function Step(seed: Seed, run: Run, move: Move): Run {
    var op := move.op;
    var now := if op.Tick? then run.now + 1 else run.now;
    var store := StoreStep(seed, run.store, run.now, op);
    var due := Writes(seed, run.store, run.now, op);
    var writes := due && move.Whole?;
    Run(store,
        if writes then Some(Effective(store, now, seed)) else run.file,
        now,
        run.openSeconds + (if OpenWindow(store, now).Some? then {now} else {}),
        if writes then now else run.wroteAt,
        !writes && (run.torn || due),
        if OpensWindow(seed, run.store, op) then now else run.openedAt,
        run.seeded + (if op.DoSeedLearning? && OpensWindow(seed, run.store, op) then 1 else 0))
  }

  function StepAll(seed: Seed, run: Run, moves: seq<Move>): Run
    decreases moves
  {
    if moves == [] then run else StepAll(seed, Step(seed, run, moves[0]), moves[1..])
  }

  function Start(t0: int): Run {
    Run(EMPTY_STORE, None, t0, {}, t0, false, t0, 0)
  }

  /** A run from an empty store that nothing has been written for, starting at time `t0`. */
  function RunOf(seed: Seed, t0: int, moves: seq<Move>): Run {
    StepAll(seed, Start(t0), moves)
  }

  /** The operations of the store files are exactly these steps. */
  method Perform(files: StoreFiles, op: Op, now: int)
    modifies files`doc, files`effective
    ensures files.doc == StoreStep(files.seed, old(files.doc), now, op)
    ensures files.effective == if Writes(files.seed, old(files.doc), now, op)
                               then Some(Effective(files.doc, now, files.seed)) else old(files.effective)
  {
    match op {
      case DoGrant(host, level, ttl, build) => var _ := files.Grant(host, level, ttl, build, now);
      case DoRevoke(host) => files.Revoke(host, now);
      case DoDecline(host) => files.Decline(host, now);
      case DoSetWall(on) => files.SetWall(on, now);
      case DoStartLearning(seconds) => var _ := files.StartLearning(seconds, now);
      case DoMarkReviewed => files.MarkReviewed(now);
      case DoSweep => var _ := files.Sweep(now);
      case DoClearEphemeral => files.ClearEphemeral(now);
      case DoSeedLearning => var _ := files.SeedLearning(now);
      case Tick =>
    }
  }

  // ---------------------------------------------------------------------------------------------
  // The invariant
  // ---------------------------------------------------------------------------------------------

  predicate InWindow(window: Option<Window>, t: int) {
    window.Some? && window.value.since <= t <= window.value.until
  }

  predicate ReviewedBy(store: Store, t: int) {
    store.reviewed.Some? && t <= store.reviewed.value
  }

  /** Every second a window was open has been reviewed, or is inside the window the next review reads. */
  predicate NothingUnseen(run: Run) {
    forall t :: t in run.openSeconds ==> t <= run.now && Seen(run.store, t)
  }

  /** An open window has a deadline at most eight hours after it was opened, and enforcement behind it. */
  predicate WindowBounded(run: Run) {
    && (LastWindow(run.store).Some? ==> LastWindow(run.store).value.since <= run.now)
    && (run.store.learn.Some? ==>
          && run.store.defaultDeny == Some(true)
          && run.openedAt <= run.now
          && run.openedAt < run.store.learn.value.until <= run.openedAt + LEARN_MAX_SECONDS)
  }

  /** The effective file is what the current store meant when the file was last written. */
  predicate Cached(seed: Seed, run: Run) {
    run.file.Some? && !run.torn ==> run.wroteAt <= run.now && run.file.value == Effective(run.store, run.wroteAt, seed)
  }

  predicate SeededOnce(run: Run) {
    run.seeded <= 1 && (run.seeded == 1 ==> run.store.defaultDeny.Some?)
  }

  predicate EntriesWellFormed(run: Run) {
    forall host :: host in run.store.hosts ==> WellFormed(run.store.hosts[host])
  }

  predicate Inv(seed: Seed, run: Run) {
    NothingUnseen(run) && WindowBounded(run) && Cached(seed, run) && SeededOnce(run) && EntriesWellFormed(run)
  }

  predicate Seen(store: Store, t: int) {
    ReviewedBy(store, t) || InWindow(LastWindow(store), t)
  }

  lemma SeenStays(seed: Seed, store: Store, now: int, op: Op, t: int)
    requires t <= now && Seen(store, t)
    ensures Seen(StoreStep(seed, store, now, op), t)
  {
    hide Pruned;
    if OpensWindow(seed, store, op) {
      ReplacedWindowReachesBack(store, now, t);
    }
  }

  /** A window that is open after an operation is the one a review would read. */
  lemma OpenSecondIsSeen(seed: Seed, store: Store, now: int, op: Op, later: int)
    requires now <= later && (LastWindow(store).Some? ==> LastWindow(store).value.since <= now)
    requires OpenWindow(StoreStep(seed, store, now, op), later).Some?
    ensures Seen(StoreStep(seed, store, now, op), later)
  {
    hide Pruned;
  }

  lemma NothingUnseenStep(seed: Seed, run: Run, move: Move)
    requires NothingUnseen(run) && WindowBounded(run)
    ensures NothingUnseen(Step(seed, run, move))
  {
    hide Effective, Writes, StoreStep, OpenWindow;
    var next := Step(seed, run, move);
    forall t | t in next.openSeconds ensures t <= next.now && Seen(next.store, t) {
      if t in run.openSeconds {
        assert t <= run.now && Seen(run.store, t);
        SeenStays(seed, run.store, run.now, move.op, t);
      } else {
        OpenSecondIsSeen(seed, run.store, run.now, move.op, next.now);
      }
    }
  }

  /** A window that replaces another takes over every second of it that was not reviewed. */
  lemma ReplacedWindowReachesBack(store: Store, now: int, t: int)
    requires t <= now && Seen(store, t)
    ensures ReviewedBy(store, t) || (UnreviewedSince(store, now).Some? && UnreviewedSince(store, now).value <= t)
  {
  }

  lemma CachedStep(seed: Seed, run: Run, move: Move)
    requires Cached(seed, run)
    ensures Cached(seed, Step(seed, run, move))
  {
    var next := Step(seed, run, move);
    if move.op.DoSweep? && !Writes(seed, run.store, run.now, move.op) {
      assert next.store == run.store;
    }
  }

  /** An operation opens a window of a second to eight hours with enforcement behind it, or leaves it, or closes it. */
  lemma WindowAfter(seed: Seed, store: Store, now: int, op: Op)
    requires LastWindow(store).Some? ==> LastWindow(store).value.since <= now
    ensures var next := StoreStep(seed, store, now, op);
      && (LastWindow(next).Some? ==> LastWindow(next).value.since <= now)
      && (next.learn.Some? ==>
            if OpensWindow(seed, store, op)
            then next.defaultDeny == Some(true) && now < next.learn.value.until <= now + LEARN_MAX_SECONDS
            else next.learn == store.learn && next.defaultDeny == store.defaultDeny)
  {
    hide Pruned, OpenWindow, SweepNeeded;
  }

  lemma WindowBoundedStep(seed: Seed, run: Run, move: Move)
    requires WindowBounded(run)
    ensures WindowBounded(Step(seed, run, move))
  {
    hide Effective, Writes, StoreStep, OpenWindow, OpensWindow;
    WindowAfter(seed, run.store, run.now, move.op);
    TickOpensNothing(seed, run.store);
  }

  lemma TickOpensNothing(seed: Seed, store: Store)
    ensures !OpensWindow(seed, store, Tick)
  {
  }

  lemma SeededOnceStep(seed: Seed, run: Run, move: Move)
    requires SeededOnce(run)
    ensures SeededOnce(Step(seed, run, move))
  {
    hide OpenWindow, Pruned;
    hide Effective, Writes;
  }

  lemma EntriesStep(seed: Seed, run: Run, move: Move)
    requires EntriesWellFormed(run)
    ensures EntriesWellFormed(Step(seed, run, move))
  {
    hide Effective, Writes;
  }

  lemma InvStep(seed: Seed, run: Run, move: Move)
    requires Inv(seed, run)
    ensures Inv(seed, Step(seed, run, move))
  {
    hide Step, NothingUnseen, WindowBounded, Cached, SeededOnce, EntriesWellFormed;
    NothingUnseenStep(seed, run, move);
    WindowBoundedStep(seed, run, move);
    CachedStep(seed, run, move);
    SeededOnceStep(seed, run, move);
    EntriesStep(seed, run, move);
  }

  lemma {:induction false} InvAlong(seed: Seed, run: Run, moves: seq<Move>)
    requires Inv(seed, run)
    ensures Inv(seed, StepAll(seed, run, moves))
    decreases moves
  {
    if moves != [] {
      InvStep(seed, run, moves[0]);
      InvAlong(seed, Step(seed, run, moves[0]), moves[1..]);
    }
  }

  // ---------------------------------------------------------------------------------------------
  // What every run keeps
  // ---------------------------------------------------------------------------------------------

  /**
    Each second a learn window was open is at or before the last review or inside the window a
    review reads, whatever windows were replaced or closed since.
  */
  lemma NoObservationLost(seed: Seed, t0: int, moves: seq<Move>, t: int)
    requires t in RunOf(seed, t0, moves).openSeconds
    ensures Seen(RunOf(seed, t0, moves).store, t)
  {
    InvAlong(seed, Start(t0), moves);
  }

  lemma {:induction false} OpenSecondsStay(seed: Seed, run: Run, moves: seq<Move>)
    ensures run.openSeconds <= StepAll(seed, run, moves).openSeconds
    decreases moves
  {
    if moves != [] {
      hide StoreStep, Effective, Writes;
      OpenSecondsStay(seed, Step(seed, run, moves[0]), moves[1..]);
    }
  }

  /**
    The same without an observer: a second at which a window is open, anywhere in a run, stays
    accounted for to its end.
  */
  lemma OpenSecondIsAccountedFor(seed: Seed, t0: int, moves: seq<Move>, n: nat)
    requires n <= |moves|
    requires var there := RunOf(seed, t0, moves[..n]);
      OpenWindow(there.store, there.now).Some?
    ensures Seen(RunOf(seed, t0, moves).store, RunOf(seed, t0, moves[..n]).now)
  {
    var there := RunOf(seed, t0, moves[..n]);
    assert moves == moves[..n] + moves[n..];
    StepAllAppend(seed, Start(t0), moves[..n], moves[n..]);
    OpenSecondsStay(seed, there, moves[n..]);
    if n > 0 {
      OneMove(seed, t0, moves, n - 1);
    }
    NoObservationLost(seed, t0, moves, there.now);
  }

  /** An open window implies stored enforcement and ends within eight hours of its opening. */
  lemma WindowAlwaysBounded(seed: Seed, t0: int, moves: seq<Move>)
    ensures WindowBounded(RunOf(seed, t0, moves))
  {
    InvAlong(seed, Start(t0), moves);
  }

  /** The first-run seed opens a window at the move `i`: there is none before it, and one after. */
  predicate SeedOpensAt(seed: Seed, t0: int, moves: seq<Move>, i: nat)
    requires i < |moves|
  {
    && moves[i].op.DoSeedLearning?
    && RunOf(seed, t0, moves[..i]).store.learn.None? && RunOf(seed, t0, moves[..i + 1]).store.learn.Some?
  }

  lemma AnsweredStays(seed: Seed, store: Store, now: int, op: Op)
    requires store.defaultDeny.Some?
    ensures StoreStep(seed, store, now, op).defaultDeny.Some?
  {
    hide Pruned, OpenWindow, SweepNeeded;
  }

  lemma {:induction false} AnsweredForGood(seed: Seed, run: Run, moves: seq<Move>)
    requires run.store.defaultDeny.Some?
    ensures StepAll(seed, run, moves).store.defaultDeny.Some?
    decreases moves
  {
    if moves != [] {
      hide Effective, Writes, OpenWindow, StoreStep;
      AnsweredStays(seed, run.store, run.now, moves[0].op);
      AnsweredForGood(seed, Step(seed, run, moves[0]), moves[1..]);
    }
  }

  /** The first-run seed opens a window at most once per store, by the count and by the moves themselves. */
  lemma SeedOpensOnce(seed: Seed, t0: int, moves: seq<Move>)
    ensures RunOf(seed, t0, moves).seeded <= 1
    ensures forall i, j :: 0 <= i < j < |moves| && SeedOpensAt(seed, t0, moves, i) ==> !SeedOpensAt(seed, t0, moves, j)
  {
    InvAlong(seed, Start(t0), moves);
    forall i, j | 0 <= i < j < |moves| && SeedOpensAt(seed, t0, moves, i) ensures !SeedOpensAt(seed, t0, moves, j) {
      NoneOpensAfter(seed, t0, moves, i, j);
    }
  }

  lemma NoneOpensAfter(seed: Seed, t0: int, moves: seq<Move>, i: nat, j: nat)
    requires i < j < |moves| && SeedOpensAt(seed, t0, moves, i)
    ensures !SeedOpensAt(seed, t0, moves, j)
  {
    hide StepAll, Step, Start;
    WindowAlwaysBounded(seed, t0, moves[..i + 1]);
    assert moves[..j] == moves[..i + 1] + moves[i + 1..j];
    StepAllAppend(seed, Start(t0), moves[..i + 1], moves[i + 1..j]);
    AnsweredForGood(seed, RunOf(seed, t0, moves[..i + 1]), moves[i + 1..j]);
    OneMove(seed, t0, moves, j);
    if moves[j].op.DoSeedLearning? {
      AnsweredIsNotSeeded(seed, RunOf(seed, t0, moves[..j]), moves[j]);
    }
  }

  lemma OneMove(seed: Seed, t0: int, moves: seq<Move>, j: nat)
    requires j < |moves|
    ensures RunOf(seed, t0, moves[..j + 1]) == Step(seed, RunOf(seed, t0, moves[..j]), moves[j])
  {
    hide Step;
    assert moves[..j + 1] == moves[..j] + [moves[j]] && [moves[j]][1..] == [];
    StepAllAppend(seed, Start(t0), moves[..j], [moves[j]]);
    assert StepAll(seed, RunOf(seed, t0, moves[..j]), [moves[j]])
        == StepAll(seed, Step(seed, RunOf(seed, t0, moves[..j]), moves[j]), []);
  }

  lemma AnsweredIsNotSeeded(seed: Seed, run: Run, move: Move)
    requires run.store.defaultDeny.Some? && move.op.DoSeedLearning?
    ensures Step(seed, run, move).store == run.store
  {
  }

  predicate KeepsEnforcement(seed: Seed, moves: seq<Move>) {
    forall i :: 0 <= i < |moves| ==> moves[i].op != DoSetWall(false) && !moves[i].op.DoStartLearning?
  }

  lemma {:induction false} EnforcementStays(seed: Seed, run: Run, moves: seq<Move>, deadline: int)
    requires run.store.defaultDeny == Some(true) && KeepsEnforcement(seed, moves)
    requires run.store.learn.Some? ==> run.store.learn.value.until <= deadline
    ensures var after := StepAll(seed, run, moves);
      deadline <= after.now ==> DefaultDeny(after.store, after.now, seed)
    decreases moves
  {
    if moves != [] {
      var next := Step(seed, run, moves[0]);
      forall i | 0 <= i < |moves[1..]| ensures moves[1..][i] == moves[i + 1] {
      }
      EnforcementStays(seed, next, moves[1..], deadline);
    }
  }

  /**
    From any reachable open window, once its deadline has passed the wall enforces, with no further
    step needed and through any steps but switching it off or opening another window.
  */
  lemma EnforcementResumes(seed: Seed, t0: int, moves: seq<Move>, more: seq<Move>)
    requires OpenWindow(RunOf(seed, t0, moves).store, RunOf(seed, t0, moves).now).Some?
    requires KeepsEnforcement(seed, more)
    ensures var atOpen := RunOf(seed, t0, moves);
      var later := StepAll(seed, atOpen, more);
      atOpen.store.learn.value.until <= later.now ==> DefaultDeny(later.store, later.now, seed)
  {
    var atOpen := RunOf(seed, t0, moves);
    WindowAlwaysBounded(seed, t0, moves);
    EnforcementStays(seed, atOpen, more, atOpen.store.learn.value.until);
  }

  // ---------------------------------------------------------------------------------------------
  // What the wall is, by what was last said of it
  // ---------------------------------------------------------------------------------------------

  /** Nobody sets the wall or starts a learn window. */
  predicate LeavesTheWall(moves: seq<Move>) {
    forall i :: 0 <= i < |moves| ==> !moves[i].op.DoSetWall? && !moves[i].op.DoStartLearning?
  }

  /** And the first launch opens no window: it has not come, or the seed does not ask for one. */
  predicate NothingSaid(seed: Seed, moves: seq<Move>) {
    LeavesTheWall(moves) && forall i :: 0 <= i < |moves| ==> moves[i].op.DoSeedLearning? ==> seed == On || seed == Off
  }

  /** The file, if there is one, has this answer to whether to enforce. */
  predicate FileEnforces(run: Run, enforces: bool) {
    run.file.Some? ==> run.file.value.defaultDeny == enforces
  }

  /** Left alone, the wall's answer stays, and a window stays or is closed past its deadline. */
  lemma WallLeftAlone(seed: Seed, store: Store, now: int, op: Op)
    requires !op.DoSetWall? && !op.DoStartLearning?
    requires op.DoSeedLearning? ==> seed != Learn || !NeverAnswered(store)
    ensures var next := StoreStep(seed, store, now, op);
      && next.defaultDeny == store.defaultDeny
      && ((next.learn == store.learn && next.learned == store.learned)
          || (store.learn.Some? && store.learn.value.until <= now && next.learn.None?))
  {
    hide Pruned, SweepNeeded;
  }

  lemma {:induction false} UnansweredStays(seed: Seed, run: Run, moves: seq<Move>)
    requires NeverAnswered(run.store) && NothingSaid(seed, moves)
    requires (seed == On ==> FileEnforces(run, true)) && (seed == Learn ==> FileEnforces(run, true))
    requires seed == Off ==> FileEnforces(run, false)
    ensures var after := StepAll(seed, run, moves);
      && NeverAnswered(after.store)
      && (seed == On ==> DefaultDeny(after.store, after.now, seed) && FileEnforces(after, true))
      && (seed == Learn ==> DefaultDeny(after.store, after.now, seed) && FileEnforces(after, true))
      && (seed == Off ==> !DefaultDeny(after.store, after.now, seed) && FileEnforces(after, false))
    decreases moves
  {
    if moves != [] {
      hide HostsOf, Pruned, StoreStep;
      WallLeftAlone(seed, run.store, run.now, moves[0].op);
      assert forall i :: 0 <= i < |moves[1..]| ==> moves[1..][i] == moves[i + 1];
      UnansweredStays(seed, Step(seed, run, moves[0]), moves[1..]);
    }
  }

  /**
    Before anybody has set the wall, the seed decides: it enforces for `on` and for `learn` until the
    first launch, and not for `off`; and every file written by then says so.
  */
  lemma SeedDecidesUntilAnswered(seed: Seed, t0: int, moves: seq<Move>)
    requires NothingSaid(seed, moves)
    ensures var run := RunOf(seed, t0, moves);
      match seed
      case On => DefaultDeny(run.store, run.now, seed) && FileEnforces(run, true)
      case Learn => DefaultDeny(run.store, run.now, seed) && FileEnforces(run, true)
      case Off => !DefaultDeny(run.store, run.now, seed) && FileEnforces(run, false)
  {
    UnansweredStays(seed, Start(t0), moves);
  }

  lemma {:induction false} AnswerStays(seed: Seed, run: Run, moves: seq<Move>, on: bool)
    requires run.store.defaultDeny == Some(on) && run.store.learn == None && LeavesTheWall(moves)
    ensures var after := StepAll(seed, run, moves);
      && after.store.defaultDeny == Some(on) && after.store.learn == None
      && (FileEnforces(run, on) ==> FileEnforces(after, on))
    decreases moves
  {
    if moves != [] {
      hide HostsOf, Pruned, StoreStep;
      WallLeftAlone(seed, run.store, run.now, moves[0].op);
      assert forall i :: 0 <= i < |moves[1..]| ==> moves[1..][i] == moves[i + 1];
      AnswerStays(seed, Step(seed, run, moves[0]), moves[1..], on);
    }
  }

  /** Once set, the wall is as set through everything else, whatever the seed; so is the file it was written to. */
  lemma AnswerOutlivesTheSeed(seed: Seed, t0: int, moves: seq<Move>, on: bool, torn: bool, more: seq<Move>)
    requires LeavesTheWall(more)
    ensures var told := Step(seed, RunOf(seed, t0, moves), if torn then Torn(DoSetWall(on)) else Whole(DoSetWall(on)));
      var after := StepAll(seed, told, more);
      DefaultDeny(after.store, after.now, seed) == on && (!torn ==> FileEnforces(after, on))
  {
    var told := Step(seed, RunOf(seed, t0, moves), if torn then Torn(DoSetWall(on)) else Whole(DoSetWall(on)));
    AnswerStays(seed, told, more, on);
  }

  /** A window with this deadline is open or was closed past it, with enforcement behind it. */
  predicate LearningUntil(run: Run, deadline: int) {
    && run.store.defaultDeny == Some(true)
    && if run.store.learn.Some? then run.store.learn.value.until == deadline else deadline <= run.now
  }

  /** The file was written in the window and has enforcement off, or past its deadline and has it on. */
  predicate FileFollows(run: Run, deadline: int) {
    run.wroteAt <= run.now && FileEnforces(run, deadline <= run.wroteAt)
  }

  lemma {:induction false} LearningStays(seed: Seed, run: Run, moves: seq<Move>, deadline: int)
    requires LearningUntil(run, deadline) && LeavesTheWall(moves)
    ensures LearningUntil(StepAll(seed, run, moves), deadline)
    ensures FileFollows(run, deadline) ==> FileFollows(StepAll(seed, run, moves), deadline)
    decreases moves
  {
    if moves != [] {
      hide HostsOf, Pruned, StoreStep;
      WallLeftAlone(seed, run.store, run.now, moves[0].op);
      assert forall i :: 0 <= i < |moves[1..]| ==> moves[1..][i] == moves[i + 1];
      LearningStays(seed, Step(seed, run, moves[0]), moves[1..], deadline);
    }
  }

  /** The length a window asked for gets: at least a second, at most eight hours. */
  predicate LengthGiven(asked: int, length: int) {
    if asked < 1 then length == 1 else if asked <= 28800 then length == asked else length == 28800
  }

  /**
    A learn window, started by hand or by the first launch under the `learn` seed (for an hour),
    suspends enforcement for exactly its length, through everything but setting the wall or starting
    another; and each file written meanwhile says what held when it was written.
  */
  lemma LearningSuspendsExactly(seed: Seed, t0: int, moves: seq<Move>, op: Op, length: int, more: seq<Move>)
    requires LeavesTheWall(more)
    requires (op.DoStartLearning? && LengthGiven(op.seconds, length))
          || (op.DoSeedLearning? && seed == Learn && NothingSaid(seed, moves) && length == 3600)
    ensures var before := RunOf(seed, t0, moves);
      var after := StepAll(seed, Step(seed, before, Whole(op)), more);
      && (DefaultDeny(after.store, after.now, seed) <==> before.now + length <= after.now)
      && (after.file.Some? ==> (after.file.value.defaultDeny <==> before.now + length <= after.wroteAt))
  {
    var before := RunOf(seed, t0, moves);
    if op.DoSeedLearning? {
      UnansweredStays(seed, Start(t0), moves);
    }
    LearningStays(seed, Step(seed, before, Whole(op)), more, before.now + length);
  }

  // ---------------------------------------------------------------------------------------------
  // What a grant is good for, through everything that is not about it
  // ---------------------------------------------------------------------------------------------

  /** Nobody grants or revokes this host, or clears the entries its grant is one of. */
  predicate LeavesTheGrant(moves: seq<Move>, host: string, level: Level) {
    forall i :: 0 <= i < |moves| ==>
      && !(moves[i].op.DoGrant? && moves[i].op.host == host) && moves[i].op != DoRevoke(host)
      && (moves[i].op.DoClearEphemeral? ==> level == Permanent)
  }

  /** The store has this entry for the host, or has dropped it, expired. */
  predicate HasOrHadExpired(store: Store, host: string, entry: Entry, now: int) {
    if host in store.hosts then store.hosts[host] == entry else !Live(entry, now)
  }

  lemma EntryLeftAlone(seed: Seed, run: Run, move: Move, host: string, entry: Entry)
    requires HasOrHadExpired(run.store, host, entry, run.now)
    requires !(move.op.DoGrant? && move.op.host == host) && move.op != DoRevoke(host)
    requires move.op.DoClearEphemeral? ==> entry.level == Permanent
    ensures var next := Step(seed, run, move);
      HasOrHadExpired(next.store, host, entry, next.now) && run.now <= next.now
  {
    hide Writes, Effective, OpensWindow, OpenWindow, SweepNeeded;
  }

  lemma {:induction false} EntryStays(seed: Seed, run: Run, moves: seq<Move>, host: string, entry: Entry)
    requires HasOrHadExpired(run.store, host, entry, run.now) && LeavesTheGrant(moves, host, entry.level)
    ensures var after := StepAll(seed, run, moves);
      HasOrHadExpired(after.store, host, entry, after.now) && run.now <= after.now
    decreases moves
  {
    if moves != [] {
      hide Step, Live, HasOrHadExpired;
      assert forall i :: 0 <= i < |moves[1..]| ==> moves[1..][i] == moves[i + 1];
      EntryLeftAlone(seed, run, moves[0], host, entry);
      EntryStays(seed, Step(seed, run, moves[0]), moves[1..], host, entry);
    }
  }

  /** How long a grant of this level is good for: `once` for the seconds asked, two minutes if none were. */
  predicate GoodFor(level: Level, asked: Option<int>, elapsed: int) {
    match level
    case Once => elapsed < (if asked.Some? && asked.value != 0 then asked.value else 120)
    case Session => true
    case Permanent => true
  }

  /**
    A host granted in any run is allowed for its scope, and for no other, exactly as long as its grant
    is good for, through every later step that neither grants nor revokes that host nor clears its entry.
  */
  lemma GrantStandsExactly(seed: Seed, t0: int, moves: seq<Move>, op: Op, torn: bool, more: seq<Move>)
    requires op.DoGrant? && LeavesTheGrant(more, op.host, op.level)
    requires var before := RunOf(seed, t0, moves);
      GrantAnswered(before.store, op.host, op.level, op.ttl, op.build, before.now) == Granted
    ensures var before := RunOf(seed, t0, moves);
      var after := StepAll(seed, Step(seed, before, if torn then Torn(op) else Whole(op)), more);
      var allowed := Effective(after.store, after.now, seed);
      && (op.host in allowed.allow <==> !op.build && GoodFor(op.level, op.ttl, after.now - before.now))
      && (op.host in allowed.buildAllow <==> op.build && GoodFor(op.level, op.ttl, after.now - before.now))
  {
    hide StepAll, Step, Start, Effective, GrantAnswered, HasOrHadExpired;
    var before := RunOf(seed, t0, moves);
    var entry := Requested(op.level, op.ttl, op.build, before.now);
    var move := if torn then Torn(op) else Whole(op);
    GrantedEntry(seed, before, move);
    EntryStays(seed, Step(seed, before, move), more, op.host, entry);
    var after := StepAll(seed, Step(seed, before, move), more);
    EntryAllows(seed, after, op.host, entry);
    assert Live(entry, after.now) <==> GoodFor(op.level, op.ttl, after.now - before.now);
  }

  lemma GrantedEntry(seed: Seed, run: Run, move: Move)
    requires var op := move.op;
      op.DoGrant? && GrantAnswered(run.store, op.host, op.level, op.ttl, op.build, run.now) == Granted
    ensures var op, next := move.op, Step(seed, run, move);
      && HasOrHadExpired(next.store, op.host, Requested(op.level, op.ttl, op.build, run.now), next.now)
      && next.now == run.now
  {
    hide Effective, Writes, GrantAnswered, OpenWindow, Pruned;
  }

  /** An entry that was not touched allows its host, for its scope and no other, exactly while it lives. */
  lemma EntryAllows(seed: Seed, run: Run, host: string, entry: Entry)
    requires HasOrHadExpired(run.store, host, entry, run.now)
    ensures var allowed := Effective(run.store, run.now, seed);
      && (host in allowed.allow <==> entry.scope == Runtime && Live(entry, run.now))
      && (host in allowed.buildAllow <==> entry.scope == Build && Live(entry, run.now))
  {
  }

  /** The effective file is always what the current store meant at the file's last write. */
  lemma FileIsStoreAtLastWrite(seed: Seed, t0: int, moves: seq<Move>)
    ensures Cached(seed, RunOf(seed, t0, moves))
  {
    InvAlong(seed, Start(t0), moves);
  }

  /** After a sweep the file is the effective allowlist of that very moment, written or not. */
  lemma SweepMakesFileCurrent(seed: Seed, t0: int, moves: seq<Move>)
    requires RunOf(seed, t0, moves).file.Some? && !RunOf(seed, t0, moves).torn
    ensures var after := Step(seed, RunOf(seed, t0, moves), Whole(DoSweep));
      after.file == Some(Effective(after.store, after.now, seed))
  {
    FileIsStoreAtLastWrite(seed, t0, moves);
    var run := RunOf(seed, t0, moves);
    PrunedSize(run.store.hosts, run.now);
    if !SweepNeeded(run.store, run.now) {
      forall host | host in run.store.hosts ensures Live(run.store.hosts[host], run.now) {
        assert host in Pruned(run.store.hosts, run.now);
      }
      assert HostsOf(run.store, run.wroteAt, Runtime) == HostsOf(run.store, run.now, Runtime);
      assert HostsOf(run.store, run.wroteAt, Build) == HostsOf(run.store, run.now, Build);
    }
  }

  predicate LapsedBetween(store: Store, host: string, from: int, to: int) {
    && host in store.hosts && store.hosts[host].expires.Some?
    && from < store.hosts[host].expires.value <= to
  }

  /** Between sweeps the file differs from the store only by what lapsed since it was written. */
  lemma FileDiffersOnlyByLapses(seed: Seed, t0: int, moves: seq<Move>)
    requires RunOf(seed, t0, moves).file.Some? && !RunOf(seed, t0, moves).torn
    ensures var run := RunOf(seed, t0, moves);
      var file, current := run.file.value, Effective(run.store, run.now, seed);
      && current.allow <= file.allow && current.buildAllow <= file.buildAllow
      && (forall host :: host in (file.allow - current.allow) + (file.buildAllow - current.buildAllow) ==>
            LapsedBetween(run.store, host, run.wroteAt, run.now))
      && (file.defaultDeny != current.defaultDeny ==>
            run.store.learn.Some? && run.wroteAt < run.store.learn.value.until <= run.now && !file.defaultDeny)
  {
    FileIsStoreAtLastWrite(seed, t0, moves);
    WindowAlwaysBounded(seed, t0, moves);
  }

  /** A sweep changes nothing any reader sees, then or later. */
  lemma SweepIsInvisible(seed: Seed, store: Store, now: int, later: int)
    requires now <= later
    ensures DefaultDeny(Swept(store, now), later, seed) == DefaultDeny(store, later, seed)
    ensures Pruned(Swept(store, now).hosts, later) == Pruned(store.hosts, later)
    ensures LastWindow(Swept(store, now)) == LastWindow(store)
    ensures OpenWindow(Swept(store, now), later) == OpenWindow(store, later)
  {
  }

  // ---------------------------------------------------------------------------------------------
  // Deaths between the two writes
  // ---------------------------------------------------------------------------------------------

  predicate StillLive(run: Run, host: string) {
    host in run.store.hosts && Live(run.store.hosts[host], run.now)
  }

  predicate EntryLapsed(run: Run) {
    exists host :: host in run.store.hosts && !Live(run.store.hosts[host], run.now)
  }

  predicate WindowLapsed(run: Run) {
    run.store.learn.Some? && run.store.learn.value.until <= run.now
  }

  /** Every host the file lists is still granted. */
  predicate NoListedLapse(run: Run, file: Payload) {
    forall host :: host in file.allow + file.buildAllow ==> StillLive(run, host)
  }

  /** The file already says of `host` what the grant would make it say, and nothing else it lists has lapsed. */
  predicate AlreadyListed(run: Run, file: Payload, host: string, build: bool) {
    && (host in file.allow <==> !build) && (host in file.buildAllow <==> build)
    && forall h :: h in file.allow + file.buildAllow && h != host ==> StillLive(run, h)
  }

  /**
    What an operator can see, before the operation, of whether a sweep right after a death between
    its two writes would mend the file.
  */
  predicate SweepWouldMend(seed: Seed, run: Run, op: Op)
    requires run.file.Some?
  {
    var file := run.file.value;
    match op
    case DoGrant(host, level, ttl, build) =>
      || GrantAnswered(run.store, host, level, ttl, build, run.now) != Granted
      || WindowLapsed(run) || !Live(Requested(level, ttl, build, run.now), run.now)
      || AlreadyListed(run, file, host, build)
    case DoRevoke(host) => WindowLapsed(run) || !StillLive(run, host)
    case DoDecline(_) => true
    case DoSetWall(on) => EntryLapsed(run) || file.defaultDeny == on
    case DoStartLearning(_) => EntryLapsed(run) || !file.defaultDeny
    case DoMarkReviewed => true
    case DoSweep =>
      || !SweepNeeded(run.store, run.now)
      || (NoListedLapse(run, file) && file.defaultDeny == DefaultDeny(run.store, run.now, seed))
    case DoClearEphemeral =>
      || WindowLapsed(run)
      || (NoListedLapse(run, file) && forall h :: h in file.allow + file.buildAllow ==>
          run.store.hosts[h].level == Permanent)
    case DoSeedLearning => seed != Learn || !NeverAnswered(run.store) || EntryLapsed(run) || !file.defaultDeny
    case Tick => true
  }

  /** The file is the effective allowlist of this moment. */
  predicate Current(seed: Seed, run: Run) {
    run.file == Some(Effective(run.store, run.now, seed))
  }

  /**
    From any state with a file, a sweep leaves it current exactly when it has something to expire, or
    it already was.
  */
  lemma SweepMendsExactly(seed: Seed, run: Run)
    requires run.file.Some?
    ensures Current(seed, Step(seed, run, Whole(DoSweep))) <==> SweepNeeded(run.store, run.now) || Current(seed, run)
  {
  }

  lemma SweepNeededMeans(store: Store, now: int)
    ensures SweepNeeded(store, now) <==>
              ((exists host :: host in store.hosts && !Live(store.hosts[host], now))
               || (store.learn.Some? && store.learn.value.until <= now))
  {
    PrunedSize(store.hosts, now);
    if host :| host in store.hosts && !Live(store.hosts[host], now) {
      assert host !in Pruned(store.hosts, now) && Pruned(store.hosts, now) != store.hosts;
    } else {
      assert Pruned(store.hosts, now) == store.hosts;
    }
  }

  /** What an untorn file says, host by host. */
  lemma FileSays(seed: Seed, run: Run)
    requires Cached(seed, run) && run.file.Some? && !run.torn
    ensures var file := run.file.value;
      && (forall h :: h in file.allow + file.buildAllow ==> h in run.store.hosts)
      && (forall h :: StillLive(run, h) ==>
            (h in file.allow <==> run.store.hosts[h].scope == Runtime)
                && (h in file.buildAllow <==> run.store.hosts[h].scope == Build))
      && (!WindowLapsed(run) ==> file.defaultDeny == DefaultDeny(run.store, run.now, seed))
  {
  }

  lemma UntornIsMended(seed: Seed, run: Run)
    requires Cached(seed, run) && run.file.Some? && !run.torn
    ensures SweepNeeded(run.store, run.now) || Current(seed, run)
    ensures Mended(seed, run, run.store)
  {
    FileSays(seed, run);
    SweepNeededMeans(run.store, run.now);
    if !SweepNeeded(run.store, run.now) {
      assert forall h :: h in run.store.hosts ==> StillLive(run, h);
      assert run.file.value.allow == HostsOf(run.store, run.now, Runtime);
      assert run.file.value.buildAllow == HostsOf(run.store, run.now, Build);
    }
  }

  /** A file whose every line is as the store would have it is the store's. */
  lemma SameLines(seed: Seed, run: Run, store: Store)
    requires run.file.Some?
    ensures run.file == Some(Effective(store, run.now, seed)) <==>
              (&& run.file.value.defaultDeny == DefaultDeny(store, run.now, seed)
               && (forall h :: h in run.file.value.allow <==> h in HostsOf(store, run.now, Runtime))
               && (forall h :: h in run.file.value.buildAllow <==> h in HostsOf(store, run.now, Build)))
  {
    var file := run.file.value;
    assert (forall h :: h in file.allow <==> h in HostsOf(store, run.now, Runtime)) ==>
        file.allow == HostsOf(store, run.now, Runtime);
    assert (forall h :: h in file.buildAllow <==> h in HostsOf(store, run.now, Build)) ==>
        file.buildAllow == HostsOf(store, run.now, Build);
  }

  /** With this store saved and the file as it was, a sweep leaves the file current. */
  predicate Mended(seed: Seed, run: Run, store: Store) {
    SweepNeeded(store, run.now) || run.file == Some(Effective(store, run.now, seed))
  }

  /** `store` has the hosts of the run that are still live, with `host` granted anew. */
  ghost predicate GrantedOver(run: Run, store: Store, host: string, entry: Entry) {
    && host in store.hosts && store.hosts[host] == entry
    && (forall h :: h != host ==> (h in store.hosts <==> StillLive(run, h)))
    && (forall h :: h != host && h in store.hosts ==> store.hosts[h] == run.store.hosts[h])
    && store.learn == run.store.learn && store.defaultDeny == run.store.defaultDeny
  }

  lemma GrantIsOver(run: Run, host: string, level: Level, ttl: Option<int>, build: bool)
    requires GrantAnswered(run.store, host, level, ttl, build, run.now) == Granted
    ensures GrantedOver(run, GrantMade(run.store, host, level, ttl, build, run.now), host,
                        Requested(level, ttl, build, run.now))
  {
  }

  lemma TornGrant(seed: Seed, run: Run, host: string, level: Level, ttl: Option<int>, build: bool)
    requires Cached(seed, run) && run.file.Some? && !run.torn
    requires GrantAnswered(run.store, host, level, ttl, build, run.now) == Granted
    ensures var store := GrantMade(run.store, host, level, ttl, build, run.now);
      Mended(seed, run, store) <==> SweepWouldMend(seed, run, DoGrant(host, level, ttl, build))
  {
    hide GrantMade, GrantAnswered, Expiry;
    GrantIsOver(run, host, level, ttl, build);
    var store := GrantMade(run.store, host, level, ttl, build, run.now);
    TornOver(seed, run, store, host, Requested(level, ttl, build, run.now));
  }

  lemma TornOver(seed: Seed, run: Run, store: Store, host: string, entry: Entry)
    requires Cached(seed, run) && run.file.Some? && !run.torn && GrantedOver(run, store, host, entry)
    ensures Mended(seed, run, store) <==>
              (WindowLapsed(run) || !Live(entry, run.now)
               || AlreadyListed(run, run.file.value, host, entry.scope == Build))
  {
    hide SweepNeeded;
    FileSays(seed, run);
    SweepNeededMeans(store, run.now);
    SameLines(seed, run, store);
  }

  lemma TornRevoke(seed: Seed, run: Run, host: string)
    requires Cached(seed, run) && run.file.Some? && !run.torn
    ensures var store := HostRevoked(run.store, host, run.now);
      Mended(seed, run, store) <==> SweepWouldMend(seed, run, DoRevoke(host))
  {
    var store := HostRevoked(run.store, host, run.now);
    if StillLive(run, host) {
      FileSays(seed, run);
      SweepNeededMeans(store, run.now);
      assert host !in store.hosts;
      assert host in run.file.value.allow + run.file.value.buildAllow;
    } else {
      UntornIsMended(seed, run);
    }
  }

  /** `store` has exactly the hosts of the run that are still live and permanent. */
  ghost predicate ClearedOver(run: Run, store: Store) {
    && (forall h :: h in store.hosts <==> StillLive(run, h) && run.store.hosts[h].level == Permanent)
    && (forall h :: h in store.hosts ==> store.hosts[h] == run.store.hosts[h])
    && store.learn == run.store.learn && store.defaultDeny == run.store.defaultDeny
  }

  lemma TornClear(seed: Seed, run: Run)
    requires Cached(seed, run) && run.file.Some? && !run.torn
    ensures var store := EphemeralCleared(run.store, run.now);
      Mended(seed, run, store) <==> SweepWouldMend(seed, run, DoClearEphemeral)
  {
    hide EphemeralCleared;
    ClearIsOver(run);
    TornCleared(seed, run, EphemeralCleared(run.store, run.now));
  }

  lemma ClearIsOver(run: Run)
    ensures ClearedOver(run, EphemeralCleared(run.store, run.now))
  {
  }

  lemma TornCleared(seed: Seed, run: Run, store: Store)
    requires Cached(seed, run) && run.file.Some? && !run.torn && ClearedOver(run, store)
    ensures Mended(seed, run, store) <==> SweepWouldMend(seed, run, DoClearEphemeral)
  {
    hide SweepNeeded;
    FileSays(seed, run);
    SweepNeededMeans(store, run.now);
    SameLines(seed, run, store);
  }

  lemma TornSweep(seed: Seed, run: Run)
    requires Cached(seed, run) && run.file.Some? && !run.torn
    ensures var store := Swept(run.store, run.now);
      Mended(seed, run, store) <==> SweepWouldMend(seed, run, DoSweep)
  {
    var store := Swept(run.store, run.now);
    if SweepNeeded(run.store, run.now) {
      FileSays(seed, run);
      SweepNeededMeans(store, run.now);
      SameLines(seed, run, store);
      SweepIsInvisible(seed, run.store, run.now, run.now);
      assert store.hosts == Pruned(run.store.hosts, run.now);
      assert forall h :: h in store.hosts <==> StillLive(run, h);
    } else {
      UntornIsMended(seed, run);
    }
  }

  /** A new answer of the wall, by an operator or a window, over unchanged hosts. */
  lemma TornAnswer(seed: Seed, run: Run, store: Store, answer: bool)
    requires Cached(seed, run) && run.file.Some? && !run.torn
    requires store.hosts == run.store.hosts && DefaultDeny(store, run.now, seed) == answer
    requires store.learn.None? || run.now < store.learn.value.until
    ensures Mended(seed, run, store) <==> EntryLapsed(run) || run.file.value.defaultDeny == answer
  {
    FileSays(seed, run);
    SweepNeededMeans(store, run.now);
    SameLines(seed, run, store);
    assert !EntryLapsed(run) ==> forall h :: h in run.store.hosts ==> StillLive(run, h);
  }

  /**
    In every run whose file agrees with the store, a death between the two writes of any operation
    leaves a sweep in that same second a current file exactly when the operator's condition holds.
  */
  lemma SweepAtOnceMendsExactly(seed: Seed, t0: int, moves: seq<Move>, op: Op)
    requires RunOf(seed, t0, moves).file.Some? && !RunOf(seed, t0, moves).torn
    ensures var run := RunOf(seed, t0, moves);
      Current(seed, Step(seed, Step(seed, run, Torn(op)), Whole(DoSweep))) <==> SweepWouldMend(seed, run, op)
  {
    var run := RunOf(seed, t0, moves);
    var torn := Step(seed, run, Torn(op));
    FileIsStoreAtLastWrite(seed, t0, moves);
    SweepMendsExactly(seed, torn);
    if torn.torn {
      TornStore(seed, run, op);
    } else {
      CachedStep(seed, run, Torn(op));
      UntornIsMended(seed, torn);
    }
  }

  /** Moves that neither sweep nor write the effective file: time, declines and reviews. */
  predicate IsQuiet(moves: seq<Move>) {
    forall i :: 0 <= i < |moves| ==> moves[i].op.Tick? || moves[i].op.DoDecline? || moves[i].op.DoMarkReviewed?
  }

  /** Quiet moves leave all that the effective file and a sweep go by. */
  lemma {:induction false} QuietKeeps(seed: Seed, run: Run, quiet: seq<Move>)
    requires IsQuiet(quiet)
    ensures var later := StepAll(seed, run, quiet);
      && run.now <= later.now && later.file == run.file
      && later.store.hosts == run.store.hosts && later.store.learn == run.store.learn
      && later.store.defaultDeny == run.store.defaultDeny
    decreases quiet
  {
    if quiet != [] {
      assert forall i :: 0 <= i < |quiet[1..]| ==> quiet[1..][i] == quiet[i + 1];
      QuietKeeps(seed, Step(seed, run, quiet[0]), quiet[1..]);
    }
  }

  /** Until something lapses, a store means the same and needs no sweep. */
  lemma NothingLapsedMeansTheSame(seed: Seed, store: Store, now: int, later: int)
    requires now <= later && !SweepNeeded(store, later)
    ensures !SweepNeeded(store, now) && Effective(store, now, seed) == Effective(store, later, seed)
  {
    SweepNeededMeans(store, now);
    SweepNeededMeans(store, later);
    assert forall host :: host in store.hosts ==> Live(store.hosts[host], later) && Live(store.hosts[host], now);
    assert HostsOf(store, now, Runtime) == HostsOf(store, later, Runtime);
    assert HostsOf(store, now, Build) == HostsOf(store, later, Build);
  }

  lemma SameHostsSameSweep(seed: Seed, store: Store, other: Store, now: int)
    requires store.hosts == other.hosts && store.learn == other.learn && store.defaultDeny == other.defaultDeny
    ensures SweepNeeded(store, now) == SweepNeeded(other, now)
    ensures Effective(store, now, seed) == Effective(other, now, seed)
  {
  }

  /**
    The next sweep, however much later and whatever declines and reviews come first: it leaves a
    current file exactly when a sweep at once would have, or something the death left in the store has
    lapsed by then.
  */
  lemma TornOperationMendsExactly(seed: Seed, t0: int, moves: seq<Move>, op: Op, quiet: seq<Move>)
    requires RunOf(seed, t0, moves).file.Some? && !RunOf(seed, t0, moves).torn && IsQuiet(quiet)
    ensures var run := RunOf(seed, t0, moves);
      var later := StepAll(seed, Step(seed, run, Torn(op)), quiet);
      Current(seed, Step(seed, later, Whole(DoSweep))) <==>
        (SweepWouldMend(seed, run, op) || SweepNeeded(StoreStep(seed, run.store, run.now, op), later.now))
  {
    hide SweepNeeded, Effective, StepAll, StoreStep, SweepWouldMend;
    var run := RunOf(seed, t0, moves);
    var torn := Step(seed, run, Torn(op));
    var later := StepAll(seed, torn, quiet);
    QuietKeeps(seed, torn, quiet);
    SweepAtOnceMendsExactly(seed, t0, moves, op);
    SweepMendsExactly(seed, torn);
    SweepMendsExactly(seed, later);
    SameHostsSameSweep(seed, torn.store, later.store, later.now);
    if !SweepNeeded(torn.store, later.now) {
      NothingLapsedMeansTheSame(seed, torn.store, torn.now, later.now);
    }
  }

  /**
    For a revoke: the next sweep drops the host from the file exactly when the host held no live grant
    to begin with, or by then the window has ended or another grant that was live has expired.
  */
  lemma TornRevokeMendsExactly(seed: Seed, t0: int, moves: seq<Move>, host: string, quiet: seq<Move>)
    requires RunOf(seed, t0, moves).file.Some? && !RunOf(seed, t0, moves).torn && IsQuiet(quiet)
    ensures var run := RunOf(seed, t0, moves);
      var later := StepAll(seed, Step(seed, run, Torn(DoRevoke(host))), quiet);
      Current(seed, Step(seed, later, Whole(DoSweep))) <==>
        (|| !StillLive(run, host)
         || (run.store.learn.Some? && run.store.learn.value.until <= later.now)
         || (exists h :: h != host && StillLive(run, h) && !Live(run.store.hosts[h], later.now)))
  {
    var run := RunOf(seed, t0, moves);
    var torn := Step(seed, run, Torn(DoRevoke(host)));
    var later := StepAll(seed, torn, quiet);
    TornOperationMendsExactly(seed, t0, moves, DoRevoke(host), quiet);
    QuietKeeps(seed, torn, quiet);
    if StillLive(run, host) {
      RevokedNeedsSweep(run, host, later.now);
    }
  }

  lemma RevokedNeedsSweep(run: Run, host: string, later: int)
    requires StillLive(run, host)
    ensures SweepNeeded(HostRevoked(run.store, host, run.now), later) <==>
              ((run.store.learn.Some? && run.store.learn.value.until <= later)
               || exists h :: h != host && StillLive(run, h) && !Live(run.store.hosts[h], later))
  {
    var store := HostRevoked(run.store, host, run.now);
    SweepNeededMeans(store, later);
    assert forall h :: h in store.hosts <==> h != host && StillLive(run, h);
    assert forall h :: h in store.hosts ==> store.hosts[h] == run.store.hosts[h];
  }

  lemma TornStore(seed: Seed, run: Run, op: Op)
    requires Cached(seed, run) && run.file.Some? && !run.torn && Writes(seed, run.store, run.now, op)
    ensures Mended(seed, run, StoreStep(seed, run.store, run.now, op)) <==> SweepWouldMend(seed, run, op)
  {
    hide Mended, Effective, SweepNeeded;
    match op
    case DoGrant(host, level, ttl, build) =>
      if GrantAnswered(run.store, host, level, ttl, build, run.now) == Granted {
        TornGrant(seed, run, host, level, ttl, build);
      } else {
        UntornIsMended(seed, run);
      }
    case DoRevoke(host) => TornRevoke(seed, run, host);
    case DoSetWall(on) => TornAnswer(seed, run, WallSet(run.store, on, run.now), on);
    case DoStartLearning(seconds) => TornAnswer(seed, run, LearningStarted(run.store, seconds, run.now), false);
    case DoSeedLearning => TornAnswer(seed, run, LearningStarted(run.store, LEARN_DEFAULT_SECONDS, run.now), false);
    case DoSweep => TornSweep(seed, run);
    case DoClearEphemeral => TornClear(seed, run);
  }

  /**
    A run in which it does not: a session grant under an enforcing wall is revoked, the process dies
    between the two writes, and after the sweep the host is still in the file.
  */
  lemma InterruptedRevokeOutlivesSweep(seed: Seed, t0: int, host: string)
    ensures var after := RunOf(seed, t0,
        [Whole(DoSetWall(true)), Whole(DoGrant(host, Session, None, false)), Torn(DoRevoke(host)), Whole(DoSweep)]);
      && after.file.Some? && host in after.file.value.allow && after.file.value.defaultDeny
      && host !in after.store.hosts && !Current(seed, after)
  {
    hide Step, StepAll, Effective, OneGrant;
    var moves := [Whole(DoSetWall(true)), Whole(DoGrant(host, Session, None, false))];
    var more := [Torn(DoRevoke(host)), Whole(DoSweep)];
    GrantUnderWall(seed, t0, host);
    RevokeTorn(seed, RunOf(seed, t0, moves), host);
    StepAllOfTwo(seed, RunOf(seed, t0, moves), more[0], more[1]);
    StepAllAppend(seed, Start(t0), moves, more);
    assert moves + more ==
      [Whole(DoSetWall(true)), Whole(DoGrant(host, Session, None, false)), Torn(DoRevoke(host)), Whole(DoSweep)];
  }

  /** A session grant of this one host, listed by an untorn file under an enforcing wall. */
  predicate OneGrant(seed: Seed, run: Run, host: string) {
    && run.store.learn.None? && run.store.defaultDeny == Some(true)
    && run.store.hosts.Keys == {host} && run.store.hosts[host] == Entry(Session, None, run.now, Runtime)
    && run.file == Some(Effective(run.store, run.now, seed)) && run.wroteAt == run.now && !run.torn
  }

  lemma RevokeTorn(seed: Seed, run: Run, host: string)
    requires OneGrant(seed, run, host)
    ensures var after := Step(seed, Step(seed, run, Torn(DoRevoke(host))), Whole(DoSweep));
      && after.file.Some? && host in after.file.value.allow && after.file.value.defaultDeny
      && host !in after.store.hosts && !Current(seed, after)
  {
    var torn := Step(seed, run, Torn(DoRevoke(host)));
    assert StillLive(run, host) && torn.store.hosts == map[];
    TornRevoke(seed, run, host);
    SweepMendsExactly(seed, torn);
  }

  lemma StepAllOfTwo(seed: Seed, run: Run, first: Move, second: Move)
    ensures StepAll(seed, run, [first, second]) == Step(seed, Step(seed, run, first), second)
  {
    hide Step;
    assert [first, second][1..] == [second] && [second][1..] == [];
    var next := Step(seed, run, first);
    assert StepAll(seed, next, [second]) == StepAll(seed, Step(seed, next, second), []);
  }

  lemma GrantUnderWall(seed: Seed, t0: int, host: string)
    ensures OneGrant(seed, RunOf(seed, t0, [Whole(DoSetWall(true)), Whole(DoGrant(host, Session, None, false))]), host)
  {
    StepAllOfTwo(seed, Start(t0), Whole(DoSetWall(true)), Whole(DoGrant(host, Session, None, false)));
  }

  lemma {:induction false} StepAllAppend(seed: Seed, run: Run, moves: seq<Move>, more: seq<Move>)
    ensures StepAll(seed, run, moves + more) == StepAll(seed, StepAll(seed, run, moves), more)
    decreases moves
  {
    if moves == [] {
      assert moves + more == more;
    } else {
      assert (moves + more)[1..] == moves[1..] + more;
      StepAllAppend(seed, Step(seed, run, moves[0]), moves[1..], more);
    }
  }
}
