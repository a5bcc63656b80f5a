/**
  The adoption protocol (`configpin.py`): the host runs an adopted copy of two files that a box may
  rewrite at any moment.  An adoption stages a directory, renames it into place, swings one marker
  and prunes what it supersedes; a supervisor reads the copy from another process without a lock.
  One host command runs at a time, and it may die between any two file operations.
*/
module AdoptionProtocol {
  import opened Common
  import opened Digest
  import ConfigMerge

  /** A generation, by name; names never repeat. */
  type Gen = nat

  datatype Name = Shared | Local

  function Get(files: FileSet, name: Name): Option<Bytes> {
    if name.Shared? then files.shared else files.local
  }

  function Put(files: FileSet, name: Name, data: Option<Bytes>): FileSet {
    if name.Shared? then files.(shared := data) else files.(local := data)
  }

  const NO_FILES := FileSet(None, None)

  /** A generation directory: its files, and when an entry was last added or removed. */
  datatype Dir = Dir(files: FileSet, stamp: int)

  type Gens = map<Gen, Dir>

  /** The files of the generation the marker names; a marker that names none there selects nothing. */
  function SelectedFiles(marker: Option<Gen>, gens: Gens): Option<FileSet> {
    if marker.Some? && marker.value in gens then Some(gens[marker.value].files) else None
  }

  // ---------------------------------------------------------------------------------------------
  // What a prune deletes
  // ---------------------------------------------------------------------------------------------

  predicate NewerOther(gens: Gens, keep: Gen, h: Gen)
    requires h in gens
  {
    exists k :: k in gens && k != keep && gens[h].stamp < gens[k].stamp
  }

  /** Neither the generation to keep nor the newest of the others. */
  function Superseded(gens: Gens, keep: Gen): set<Gen> {
    set h | h in gens && h != keep && NewerOther(gens, keep, h)
  }

  /** No generation but `keep` is newer than `g`. */
  ghost predicate NewestBut(gens: Gens, keep: Gen, g: Gen) {
    g in gens && forall h :: h in gens && h != keep && h != g ==> gens[h].stamp < gens[g].stamp
  }

  ghost predicate DistinctStamps(gens: Gens) {
    forall g, h :: g in gens && h in gens && g != h ==> gens[g].stamp != gens[h].stamp
  }

  /** A generation outlives the prune exactly when it is the one kept or the newest other. */
  lemma SurvivesPruneExactly(gens: Gens, keep: Gen, g: Gen)
    requires DistinctStamps(gens) && g in gens
    ensures g !in Superseded(gens, keep) <==> g == keep || NewestBut(gens, keep, g)
  {
  }

  // ---------------------------------------------------------------------------------------------
  // The system
  // ---------------------------------------------------------------------------------------------

  /** Where the host command stands. */
  datatype Host =
    | Idle
    | Reading(shown: Option<FileSet>)
    | HalfRead(shown: Option<FileSet>, shared: Option<Bytes>)
    | Read(shown: Option<FileSet>, read: FileSet)
    | Staging(shown: Option<FileSet>, read: FileSet, gen: Gen, staged: FileSet, next: Option<Name>, stamp: int)
    | Renamed(gen: Gen)
    | Switched(gen: Gen)
    | Pruning(gen: Gen, victims: set<Gen>)
    | Forgetting
    | RevertReading(pinned: FileSet)
    | RevertHalfRead(pinned: FileSet, shared: Option<Bytes>)
    | Reverting(pinned: FileSet, tree: FileSet, next: Option<Name>)
    | RevertAside(pinned: FileSet, tree: FileSet, name: Name)

  /** Where the supervisor's pass stands; `chosen` is the generation its marker read named. */
  datatype Reader =
    | Outside
    | Marked(chosen: Gen)
    | Found(chosen: Gen)
    | HalfSeen(chosen: Gen, shared: Option<Bytes>)
    | Done(named: Option<Gen>, files: Option<FileSet>)

  /** What happened since the pass read the marker. */
  datatype Pass = Pass(switches: nat, forgot: bool, stray: bool)

  /** What an adopt call read, and what its operator had been shown, if anything. */
  datatype Adoption = Adoption(read: FileSet, shown: Option<FileSet>)

  datatype System = System(
    marker: Option<Gen>,
    gens: Gens,
    tree: FileSet,
    aside: FileSet,
    clock: int,
    host: Host,
    reader: Reader,
    pass: Pass,
    adoptions: map<Gen, Adoption>)

  /**
    `Check` compares what was read with what was shown; `mainMoved` says that a comparison with main's
    adopted copy was shown and that copy is another by now.  `FinishPrune` may come early: deletions
    that fail are passed over.
  */
  datatype Action =
    | EditTree(tree: FileSet)
    | BeginAdopt(shown: Option<FileSet>)
    | ReadTree
    | Check(gen: Gen, mainMoved: bool)
    | StageFile
    | Rename
    | SwitchMarker
    | ListSuperseded
    | Unlink(gen: Gen, name: Name)
    | RemoveDir(gen: Gen)
    | FinishPrune
    | BeginForget
    | FinishForget
    | BeginRevert
    | RevertFile
    | Crash
    | ReadMarker
    | ReadDir
    | ReadFile

  predicate Deleting(host: Host, gen: Gen) {
    host.Forgetting? || (host.Pruning? && gen in host.victims)
  }

  predicate Enabled(s: System, a: Action) {
    match a
    case EditTree(_) => true
    case BeginAdopt(_) => s.host.Idle?
    case ReadTree => s.host.Reading? || s.host.HalfRead? || s.host.RevertReading? || s.host.RevertHalfRead?
    case Check(gen, _) => s.host.Read? && gen !in s.adoptions && gen !in s.gens
    case StageFile => s.host.Staging? && s.host.next.Some?
    case Rename => s.host.Staging? && s.host.next.None?
    case SwitchMarker => s.host.Renamed?
    case ListSuperseded => s.host.Switched?
    case Unlink(gen, name) => Deleting(s.host, gen) && gen in s.gens && Get(s.gens[gen].files, name).Some?
    case RemoveDir(gen) => Deleting(s.host, gen) && gen in s.gens && s.gens[gen].files == NO_FILES
    case FinishPrune => s.host.Pruning?
    case BeginForget => s.host.Idle?
    case FinishForget => s.host.Forgetting? && s.gens == map[]
    case BeginRevert => s.host.Idle? && Selected(s).Some?
    case RevertFile => s.host.Reverting? || s.host.RevertAside?
    case Crash => true
    case ReadMarker => s.reader.Outside? || s.reader.Done?
    case ReadDir => s.reader.Marked?
    case ReadFile => s.reader.Found? || s.reader.HalfSeen?
  }

  /** What a read of the adopted copy in one go finds: the marker's generation, whatever is in it. */
  function Selected(s: System): Option<FileSet> {
    SelectedFiles(s.marker, s.gens)
  }

  /** A file read from a directory that may be gone: absent either way. */
  function FileIn(gens: Gens, gen: Gen, name: Name): Option<Bytes> {
    if gen in gens then Get(gens[gen].files, name) else None
  }

  /** The tree is no longer what the operator was shown. */
  predicate Stale(hash: Bytes -> string, shown: Option<FileSet>, read: FileSet) {
    shown.Some? && Fingerprint(hash, read) != Fingerprint(hash, shown.value)
  }

  /** Some generation besides the selected one and `gen` is newer than the selected one. */
  ghost predicate StrayIsNewer(s: System, gen: Gen) {
    s.marker.Some? && s.marker.value != gen && !NewestBut(s.gens, gen, s.marker.value)
  }

  function Advance(next: Name): Option<Name> {
    if next.Shared? then Some(Local) else None
  }

  function ReadTreeStep(s: System): Host {
    match s.host
    case Reading(shown) => HalfRead(shown, s.tree.shared)
    case HalfRead(shown, shared) => Read(shown, FileSet(shared, s.tree.local))
    case RevertReading(pinned) => RevertHalfRead(pinned, s.tree.shared)
    case RevertHalfRead(pinned, shared) => Reverting(pinned, FileSet(shared, s.tree.local), Some(Shared))
    case _ => s.host
  }

  function StageFileStep(s: System): Host
    requires s.host.Staging? && s.host.next.Some?
  {
    var name := s.host.next.value;
    var data := Get(s.host.read, name);
    s.host.(staged := Put(s.host.staged, name, data),
            stamp := if data.Some? then s.clock else s.host.stamp,
            next := Advance(name))
  }

  /** One file operation of a revert: a file is put back, or copied aside and then removed. */
  function RevertStep(s: System): System
    requires s.host.Reverting? || s.host.RevertAside?
  {
    if s.host.RevertAside? then
      s.(tree := Put(s.tree, s.host.name, None), host := Reverting(s.host.pinned, s.host.tree, Advance(s.host.name)))
    else if s.host.next.None? then s.(host := Idle)
    else
      var name := s.host.next.value;
      var wanted, found := Get(s.host.pinned, name), Get(s.host.tree, name);
      if wanted == found then s.(host := s.host.(next := Advance(name)))
      else if wanted.None? then
        s.(aside := Put(s.aside, name, found), host := RevertAside(s.host.pinned, s.host.tree, name))
      else s.(tree := Put(s.tree, name, wanted), host := s.host.(next := Advance(name)))
  }

  function ReadFileStep(s: System): Reader {
    match s.reader
    case Found(g) => HalfSeen(g, FileIn(s.gens, g, Shared))
    case HalfSeen(g, shared) => Done(Some(g), Some(FileSet(shared, FileIn(s.gens, g, Local))))
    case _ => s.reader
  }

  /** One action; time passes with each. */
  ghost function Step(hash: Bytes -> string, s: System, a: Action): System
    requires Enabled(s, a)
  {
    Act(hash, s.(clock := s.clock + 1), a)
  }

  ghost function Act(hash: Bytes -> string, s: System, a: Action): System
    requires Enabled(s, a)
  {
    match a
    case EditTree(tree) => s.(tree := tree)
    case BeginAdopt(shown) => s.(host := Reading(shown))
    case ReadTree => s.(host := ReadTreeStep(s))
    case Check(gen, mainMoved) =>
      s.(host := if mainMoved || Stale(hash, s.host.shown, s.host.read) then Idle
                 else Staging(s.host.shown, s.host.read, gen, NO_FILES, Some(Shared), s.clock))
    case StageFile => s.(host := StageFileStep(s))
    case Rename =>
      s.(gens := s.gens[s.host.gen := Dir(s.host.staged, s.host.stamp)],
         adoptions := s.adoptions[s.host.gen := Adoption(s.host.read, s.host.shown)],
         host := Renamed(s.host.gen))
    case SwitchMarker =>
      s.(marker := Some(s.host.gen), host := Switched(s.host.gen),
         pass := s.pass.(switches := s.pass.switches + 1, stray := s.pass.stray || StrayIsNewer(s, s.host.gen)))
    case ListSuperseded => s.(host := Pruning(s.host.gen, Superseded(s.gens, s.host.gen)))
    case Unlink(gen, name) => s.(gens := s.gens[gen := Dir(Put(s.gens[gen].files, name, None), s.clock)])
    case RemoveDir(gen) => s.(gens := s.gens - {gen})
    case FinishPrune => s.(host := Idle)
    case BeginForget => s.(marker := None, host := Forgetting, pass := s.pass.(forgot := true))
    case FinishForget => s.(host := Idle, aside := NO_FILES)
    case BeginRevert => s.(host := RevertReading(Selected(s).value))
    case RevertFile => RevertStep(s)
    case Crash => s.(host := Idle)
    case ReadMarker =>
      s.(reader := if s.marker.Some? then Marked(s.marker.value) else Done(None, None), pass := Pass(0, false, false))
    case ReadDir =>
      s.(reader := if s.reader.chosen in s.gens then Found(s.reader.chosen) else Done(Some(s.reader.chosen), None))
    case ReadFile => s.(reader := ReadFileStep(s))
  }

  function Start(tree: FileSet): System {
    System(None, map[], tree, NO_FILES, 0, Idle, Outside, Pass(0, false, false), map[])
  }

  /** Every action of the run is enabled where it is taken. */
  ghost predicate Possible(hash: Bytes -> string, tree: FileSet, run: seq<Action>)
    decreases run, 0
  {
    run == [] ||
    (Possible(hash, tree, run[..|run| - 1]) && Enabled(After(hash, tree, run[..|run| - 1]), run[|run| - 1]))
  }

  /** The system a possible run leads to, from nothing adopted. */
  ghost function After(hash: Bytes -> string, tree: FileSet, run: seq<Action>): System
    requires Possible(hash, tree, run)
    decreases run, 1
  {
    if run == [] then Start(tree)
    else Step(hash, After(hash, tree, run[..|run| - 1]), run[|run| - 1])
  }

  // ---------------------------------------------------------------------------------------------
  // What every action keeps
  // ---------------------------------------------------------------------------------------------

  /** The generation still holds exactly the files its adoption read. */
  ghost predicate Intact(s: System, g: Gen) {
    g in s.gens && g in s.adoptions && s.gens[g].files == s.adoptions[g].read
  }

  ghost predicate StoreInv(s: System) {
    s.gens.Keys <= s.adoptions.Keys && (s.marker.Some? ==> Intact(s, s.marker.value))
  }

  /** The files of `read` that are staged once `next` is the next to write. */
  function StagedSoFar(read: FileSet, next: Option<Name>): FileSet {
    match next
    case Some(Shared) => NO_FILES
    case Some(Local) => FileSet(read.shared, None)
    case None => read
  }

  ghost predicate HostInv(s: System) {
    match s.host
    case Staging(_, read, gen, staged, next, _) =>
      gen !in s.adoptions && gen !in s.gens && staged == StagedSoFar(read, next)
    case Renamed(gen) => Intact(s, gen) && s.marker != Some(gen)
    case Switched(gen) => s.marker == Some(gen)
    case Pruning(gen, victims) => s.marker == Some(gen) && gen !in victims
    case Forgetting => s.marker.None?
    case _ => true
  }

  /** What was adopted over a review is what was shown. */
  ghost predicate ReviewInv(s: System) {
    && (forall g :: g in s.adoptions && s.adoptions[g].shown.Some? ==>
            s.adoptions[g].read == s.adoptions[g].shown.value)
    && (s.host.Staging? && s.host.shown.Some? ==> s.host.read == s.host.shown.value)
  }

  ghost predicate StampInv(s: System) {
    && (forall g :: g in s.gens ==> s.gens[g].stamp <= s.clock)
    && DistinctStamps(s.gens)
    && (s.host.Staging? ==> s.host.stamp <= s.clock && forall g :: g in s.gens ==> s.gens[g].stamp < s.host.stamp)
  }

  /** The pass saw at most one switch, no forget, and no stray newer than the selected generation. */
  predicate PassSafe(pass: Pass) {
    pass.switches <= 1 && !pass.forgot && !pass.stray
  }

  /** Why the files of `g` are safe from deletion for the rest of a safe pass. */
  ghost predicate Protected(s: System, g: Gen) {
    && Intact(s, g)
    && !Deleting(s.host, g)
    && (s.pass.switches == 0 ==> s.marker == Some(g))
    && (s.pass.switches == 1 && s.host.Switched? ==> g !in Superseded(s.gens, s.host.gen))
  }

  ghost predicate ReaderInv(s: System) {
    PassSafe(s.pass) ==>
      match s.reader
      case Outside => true
      case Marked(g) => Protected(s, g)
      case Found(g) => Protected(s, g)
      case HalfSeen(g, shared) => Protected(s, g) && shared == s.adoptions[g].read.shared
      case Done(None, files) => files.None?
      case Done(Some(g), files) => g in s.adoptions && files == Some(s.adoptions[g].read)
  }

  ghost predicate Inv(s: System) {
    StoreInv(s) && HostInv(s) && ReviewInv(s) && StampInv(s) && ReaderInv(s)
  }

  lemma StoreStep(hash: Bytes -> string, s: System, a: Action)
    requires Enabled(s, a) && StoreInv(s) && HostInv(s)
    ensures StoreInv(Step(hash, s, a)) && HostInv(Step(hash, s, a))
  {
  }

  lemma ReviewStep(hash: Bytes -> string, s: System, a: Action)
    requires CollisionFree(hash)
    requires Enabled(s, a) && ReviewInv(s)
    ensures ReviewInv(Step(hash, s, a))
  {
    if a.Check? && s.host.shown.Some? {
      FingerprintIdentifies(hash, s.host.read, s.host.shown.value);
    }
  }

  lemma StampStep(hash: Bytes -> string, s: System, a: Action)
    requires Enabled(s, a) && StampInv(s)
    ensures StampInv(Step(hash, s, a))
  {
  }

  lemma ProtectedStep(hash: Bytes -> string, s: System, a: Action, g: Gen)
    requires Enabled(s, a) && StoreInv(s) && HostInv(s) && StampInv(s)
    requires Protected(s, g) && PassSafe(s.pass)
    requires !a.ReadMarker? && PassSafe(Step(hash, s, a).pass)
    ensures Protected(Step(hash, s, a), g)
  {
    if a.SwitchMarker? {
      SurvivesPruneExactly(s.gens, s.host.gen, g);
    }
  }

  lemma ReaderStep(hash: Bytes -> string, s: System, a: Action)
    requires Enabled(s, a) && Inv(s)
    ensures ReaderInv(Step(hash, s, a))
  {
    var next := Step(hash, s, a);
    if PassSafe(next.pass) && !a.ReadMarker? && (s.reader.Marked? || s.reader.Found? || s.reader.HalfSeen?) {
      assert PassSafe(s.pass);
      ProtectedStep(hash, s, a, s.reader.chosen);
    }
  }

  lemma {:induction false} InvReached(hash: Bytes -> string, tree: FileSet, run: seq<Action>)
    requires CollisionFree(hash) && Possible(hash, tree, run)
    ensures Inv(After(hash, tree, run))
    decreases run
  {
    if run != [] {
      var before, a := After(hash, tree, run[..|run| - 1]), run[|run| - 1];
      InvReached(hash, tree, run[..|run| - 1]);
      StoreStep(hash, before, a);
      ReviewStep(hash, before, a);
      StampStep(hash, before, a);
      ReaderStep(hash, before, a);
    }
  }

  // ---------------------------------------------------------------------------------------------
  // A pass without a lock
  // ---------------------------------------------------------------------------------------------

  /**
    Whatever the box edits and wherever commands die, a pass over which at most one switch fell, no
    forget, and no stray newer than the selected generation, returns exactly the files one adoption
    read, and nothing only when nothing was adopted as it began.
  */
  lemma PassSeesOneAdoption(hash: Bytes -> string, tree: FileSet, run: seq<Action>)
    requires CollisionFree(hash) && Possible(hash, tree, run)
    requires After(hash, tree, run).reader.Done? && PassSafe(After(hash, tree, run).pass)
    ensures var s := After(hash, tree, run);
      match s.reader.named
      case None => s.reader.files == None
      case Some(g) => g in s.adoptions && s.reader.files == Some(s.adoptions[g].read)
                        && (s.adoptions[g].shown.Some? ==> s.reader.files == s.adoptions[g].shown)
  {
    InvReached(hash, tree, run);
  }

  /** The action does not stop an adoption between rename and marker write, or a prune short of its end. */
  predicate EndsCleanly(s: System, a: Action) {
    && (a.Crash? ==> !s.host.Renamed? && !s.host.Pruning?)
    && (a.FinishPrune? && s.host.Pruning? ==> s.host.victims !! s.gens.Keys)
  }

  /** From the action at `n` on, no adoption was stopped like that. */
  ghost predicate CleanSince(hash: Bytes -> string, tree: FileSet, run: seq<Action>, n: nat)
    requires Possible(hash, tree, run)
    decreases run
  {
    |run| <= n ||
    (CleanSince(hash, tree, run[..|run| - 1], n) && EndsCleanly(After(hash, tree, run[..|run| - 1]), run[|run| - 1]))
  }

  /** `later` is a possible run that begins as `run` and goes on cleanly. */
  ghost predicate Leads(hash: Bytes -> string, tree: FileSet, run: seq<Action>, later: seq<Action>) {
    run <= later && Possible(hash, tree, run) && Possible(hash, tree, later) && CleanSince(hash, tree, later, |run|)
  }

  /** The selected generation is the newest, but for one about to be selected or those being deleted. */
  ghost predicate SelectedIsNewest(s: System) {
    && (s.marker.Some? && s.marker.value in s.gens ==>
          forall h :: h in s.gens && h != s.marker.value ==>
            || s.gens[h].stamp < s.gens[s.marker.value].stamp
            || s.host == Renamed(h)
            || (s.host.Pruning? && h in s.host.victims))
    && (s.host.Renamed? && s.host.gen in s.gens ==> NewestBut(s.gens, s.host.gen, s.host.gen))
  }

  lemma NewestStep(hash: Bytes -> string, s: System, a: Action)
    requires Enabled(s, a) && StoreInv(s) && HostInv(s) && StampInv(s) && SelectedIsNewest(s)
    requires EndsCleanly(s, a)
    ensures SelectedIsNewest(Step(hash, s, a))
    ensures a.ReadMarker? || !s.pass.stray ==> !Step(hash, s, a).pass.stray
  {
  }

  predicate PassBegunSince(run: seq<Action>, n: nat) {
    exists i :: n <= i < |run| && run[i].ReadMarker?
  }

  lemma {:induction false} NewestReached(hash: Bytes -> string, tree: FileSet, run: seq<Action>, later: seq<Action>)
    requires CollisionFree(hash) && Leads(hash, tree, run, later) && SelectedIsNewest(After(hash, tree, run))
    ensures SelectedIsNewest(After(hash, tree, later))
    ensures PassBegunSince(later, |run|) ==> !After(hash, tree, later).pass.stray
    decreases later
  {
    if later == run {
    } else {
      var init := later[..|later| - 1];
      assert PassBegunSince(later, |run|) ==> PassBegunSince(init, |run|) || later[|later| - 1].ReadMarker?;
      InvReached(hash, tree, init);
      NewestReached(hash, tree, run, init);
      NewestStep(hash, After(hash, tree, init), later[|later| - 1]);
    }
  }

  /** No host command is under way, and no pass. */
  predicate Resting(s: System) {
    s.host.Idle? && (s.reader.Outside? || s.reader.Done?)
  }

  /** What can be seen on disk at rest: the selected generation, if any, is the newest. */
  ghost predicate NoStray(s: System) {
    s.marker.Some? ==> NewestBut(s.gens, s.marker.value, s.marker.value)
  }

  /** A pass begun at or after `n` has finished, over at most one switch and no forget. */
  ghost predicate BriefPass(hash: Bytes -> string, tree: FileSet, run: seq<Action>, n: nat)
    requires Possible(hash, tree, run)
  {
    var s := After(hash, tree, run);
    PassBegunSince(run, n) && s.reader.Done? && s.pass.switches <= 1 && !s.pass.forgot
  }

  /**
    The finished pass returned what the generation it was sent to had been given, or nothing when it
    was sent nowhere.
  */
  predicate WholePass(s: System)
    requires s.reader.Done?
  {
    match s.reader.named
    case None => s.reader.files == None
    case Some(g) => g in s.adoptions && s.reader.files == Some(s.adoptions[g].read)
  }

  /** From rest with no stray, every brief pass of a clean continuation is whole, whatever came before. */
  lemma CarefulPassSeesOneAdoption(hash: Bytes -> string, tree: FileSet, run: seq<Action>, later: seq<Action>)
    requires CollisionFree(hash) && Leads(hash, tree, run, later) && BriefPass(hash, tree, later, |run|)
    requires Resting(After(hash, tree, run)) && NoStray(After(hash, tree, run))
    ensures var s := After(hash, tree, later);
      && WholePass(s)
      && (s.reader.named.Some? && s.adoptions[s.reader.named.value].shown.Some? ==>
            s.reader.files == s.adoptions[s.reader.named.value].shown)
  {
    NewestReached(hash, tree, run, later);
    PassSeesOneAdoption(hash, tree, later);
  }

  // ---------------------------------------------------------------------------------------------
  // What the host runs
  // ---------------------------------------------------------------------------------------------

  /** One file's table: nothing when it is absent, empty or (by `parse`) malformed. */
  function ParseFile(parse: Bytes -> ConfigMerge.Doc, data: Option<Bytes>): ConfigMerge.Doc {
    if data.None? || data.value == [] then map[] else parse(data.value)
  }

  function MergedToml(parse: Bytes -> ConfigMerge.Doc, files: FileSet): ConfigMerge.Doc {
    ConfigMerge.MergeConfig(ParseFile(parse, files.shared), ParseFile(parse, files.local))
  }

  /** What `effective` makes of the files a read of the adopted copy found: their config, or the empty one. */
  function ConfigOf(parse: Bytes -> ConfigMerge.Doc, files: Option<FileSet>): ConfigMerge.Doc {
    match files
    case None => map[]
    case Some(found) => MergedToml(parse, found)
  }

  /** The config of the selected copy, as a read finds it that nothing interleaves with. */
  function Effective(parse: Bytes -> ConfigMerge.Doc, s: System): ConfigMerge.Doc {
    ConfigOf(parse, Selected(s))
  }

  /**
    `effective` as the supervisor computes it, file by file without a lock: from rest with no stray,
    a brief pass of a clean continuation gives the empty config if nothing was adopted as it read the
    marker, and otherwise that of one complete file set a single adopt call read, which is what was
    shown if anything was.
  */
  lemma PassConfigIsOneAdoption(hash: Bytes -> string, parse: Bytes -> ConfigMerge.Doc, tree: FileSet,
                                run: seq<Action>, later: seq<Action>)
    requires CollisionFree(hash) && Leads(hash, tree, run, later) && BriefPass(hash, tree, later, |run|)
    requires Resting(After(hash, tree, run)) && NoStray(After(hash, tree, run))
    ensures var s := After(hash, tree, later);
      match s.reader.named
      case None => ConfigOf(parse, s.reader.files) == map[]
      case Some(g) =>
        && g in s.adoptions
        && ConfigOf(parse, s.reader.files) == MergedToml(parse, s.adoptions[g].read)
        && (s.adoptions[g].shown.Some? ==>
              ConfigOf(parse, s.reader.files) == MergedToml(parse, s.adoptions[g].shown.value))
  {
    CarefulPassSeesOneAdoption(hash, tree, run, later);
  }

  /**
    However edits, adoptions, reverts, forgets and crashes interleave, the host runs the empty
    config or that of one complete file set a single adopt call read; and that is byte for byte what
    its operator was shown, if anything was.
  */
  lemma EffectiveIsOneAdoption(hash: Bytes -> string, parse: Bytes -> ConfigMerge.Doc, tree: FileSet, run: seq<Action>)
    requires CollisionFree(hash) && Possible(hash, tree, run)
    ensures var s := After(hash, tree, run);
      match s.marker
      case None => Effective(parse, s) == map[]
      case Some(g) =>
        && g in s.adoptions
        && Effective(parse, s) == MergedToml(parse, s.adoptions[g].read)
        && (s.adoptions[g].shown.Some? ==> Effective(parse, s) == MergedToml(parse, s.adoptions[g].shown.value))
  {
    InvReached(hash, tree, run);
  }

  /** What `config` holds at a top-level key: the local file's value, otherwise the shared one's, otherwise none. */
  predicate LocalFirst(parse: Bytes -> ConfigMerge.Doc, files: FileSet, key: string, config: ConfigMerge.Doc) {
    var inLocal := files.local.Some? && files.local.value != [] && key in parse(files.local.value);
    var inShared := files.shared.Some? && files.shared.value != [] && key in parse(files.shared.value);
    && (inLocal && ConfigMerge.Plain(parse(files.local.value)[key]) ==>
          key in config && config[key] == parse(files.local.value)[key])
    && (!inLocal && inShared && ConfigMerge.Plain(parse(files.shared.value)[key]) ==>
          key in config && config[key] == parse(files.shared.value)[key])
    && (!inLocal && !inShared ==> key !in config)
  }

  /**
    The same at any path past the renamed keys: the local file's value, or the shared one's where the
    local file is silent, unless a table above is marked disabled.
  */
  predicate LocalFirstAt(parse: Bytes -> ConfigMerge.Doc, files: FileSet, path: ConfigMerge.Path,
                         value: ConfigMerge.Value, config: ConfigMerge.Doc) {
    var local := if files.local.Some? && files.local.value != [] then parse(files.local.value) else map[];
    var shared := if files.shared.Some? && files.shared.value != [] then parse(files.shared.value) else map[];
    && (ConfigMerge.ValueAt(local, path) == Some(value)
        || (ConfigMerge.Silent(local, path) && ConfigMerge.ValueAt(shared, path) == Some(value)) ==>
          (ConfigMerge.ValueAt(config, path) == Some(value) <==>
             ConfigMerge.NoMarkerAbove(ConfigMerge.ApplyRenames(shared), ConfigMerge.ApplyRenames(local), path)))
    && (ConfigMerge.Silent(local, path) && ConfigMerge.Silent(shared, path) ==> ConfigMerge.Silent(config, path))
  }

  /** A setting: a plain value at a path that is no spelling of a renamed key and no marker. */
  predicate Setting(path: ConfigMerge.Path, value: ConfigMerge.Value) {
    path != [] && ConfigMerge.PastRenames(path) && path[|path| - 1] != "disabled" && ConfigMerge.Plain(value)
  }

  lemma MergedTomlTakesLocalFirst(parse: Bytes -> ConfigMerge.Doc, files: FileSet, path: ConfigMerge.Path,
                                  value: ConfigMerge.Value)
    requires Setting(path, value)
    ensures LocalFirstAt(parse, files, path, value, MergedToml(parse, files))
    ensures LocalFirst(parse, files, path[|path| - 1], MergedToml(parse, files))
  {
    var shared, local := ParseFile(parse, files.shared), ParseFile(parse, files.local);
    ConfigMerge.LocalOverShared(shared, local, path, value);
    ConfigMerge.LocalOverSharedAtTop(shared, local, path[|path| - 1]);
  }

  /**
    What the host runs after any run, setting by setting: nothing when nothing is selected, and
    otherwise, of the files the selected adoption read, the local one's setting before the shared one's.
  */
  lemma EffectiveTakesLocalFirst(hash: Bytes -> string, parse: Bytes -> ConfigMerge.Doc, tree: FileSet,
                                 run: seq<Action>, path: ConfigMerge.Path, value: ConfigMerge.Value)
    requires CollisionFree(hash) && Possible(hash, tree, run) && Setting(path, value)
    ensures var s := After(hash, tree, run);
      match s.marker
      case None => Effective(parse, s) == map[]
      case Some(g) =>
        && g in s.adoptions
        && LocalFirst(parse, s.adoptions[g].read, path[|path| - 1], Effective(parse, s))
        && LocalFirstAt(parse, s.adoptions[g].read, path, value, Effective(parse, s))
  {
    EffectiveIsOneAdoption(hash, parse, tree, run);
    var s := After(hash, tree, run);
    if s.marker.Some? {
      MergedTomlTakesLocalFirst(parse, s.adoptions[s.marker.value].read, path, value);
    }
  }

  /** The same of the config a supervisor's finished brief pass computes, file by file without a lock. */
  lemma PassConfigTakesLocalFirst(hash: Bytes -> string, parse: Bytes -> ConfigMerge.Doc, tree: FileSet,
                                  run: seq<Action>, later: seq<Action>, path: ConfigMerge.Path,
                                  value: ConfigMerge.Value)
    requires CollisionFree(hash) && Leads(hash, tree, run, later) && BriefPass(hash, tree, later, |run|)
    requires Resting(After(hash, tree, run)) && NoStray(After(hash, tree, run)) && Setting(path, value)
    ensures var s := After(hash, tree, later);
      match s.reader.named
      case None => ConfigOf(parse, s.reader.files) == map[]
      case Some(g) =>
        && g in s.adoptions
        && LocalFirst(parse, s.adoptions[g].read, path[|path| - 1], ConfigOf(parse, s.reader.files))
        && LocalFirstAt(parse, s.adoptions[g].read, path, value, ConfigOf(parse, s.reader.files))
  {
    PassConfigIsOneAdoption(hash, parse, tree, run, later);
    var s := After(hash, tree, later);
    if s.reader.named.Some? {
      MergedTomlTakesLocalFirst(parse, s.adoptions[s.reader.named.value].read, path, value);
    }
  }

  lemma SelectedStep(hash: Bytes -> string, s: System, a: Action)
    requires Enabled(s, a) && StoreInv(s) && HostInv(s)
    requires !a.SwitchMarker? && !a.BeginForget?
    ensures Selected(Step(hash, s, a)) == Selected(s)
  {
  }

  /**
    An adopt goes no further, and leaves everything as it is, exactly when main's copy has moved or the
    tree it read is not the one shown.
  */
  lemma StaleReviewStopsExactly(hash: Bytes -> string, s: System, gen: Gen, mainMoved: bool)
    requires CollisionFree(hash) && Enabled(s, Check(gen, mainMoved))
    ensures var next := Step(hash, s, Check(gen, mainMoved));
      && next == s.(clock := next.clock, host := next.host)
      && (next.host == Idle <==> mainMoved || (s.host.shown.Some? && s.host.read != s.host.shown.value))
      && (next.host != Idle ==> next.host.Staging? && next.host.read == s.host.read && next.host.gen == gen)
      && (next.host != Idle ==> next.host.staged == NO_FILES && next.host.next == Some(Shared))
  {
    if s.host.shown.Some? {
      FingerprintIdentifies(hash, s.host.read, s.host.shown.value);
    }
  }

  /** Only the marker's switch and its removal change what the host runs: not an edit, prune, revert or crash. */
  lemma OnlyTheMarkerChangesEffective(hash: Bytes -> string, parse: Bytes -> ConfigMerge.Doc, tree: FileSet,
      run: seq<Action>, a: Action)
    requires CollisionFree(hash) && Possible(hash, tree, run) && Enabled(After(hash, tree, run), a)
    requires !a.SwitchMarker? && !a.BeginForget?
    ensures Effective(parse, Step(hash, After(hash, tree, run), a)) == Effective(parse, After(hash, tree, run))
  {
    InvReached(hash, tree, run);
    SelectedStep(hash, After(hash, tree, run), a);
  }

  // ---------------------------------------------------------------------------------------------
  // Where adopted bytes come from
  // ---------------------------------------------------------------------------------------------

  /** The tree held `data` under this name at some moment of the run. */
  ghost predicate WasInTree(hash: Bytes -> string, tree: FileSet, run: seq<Action>, name: Name, data: Option<Bytes>)
    requires Possible(hash, tree, run)
    decreases run
  {
    || Get(After(hash, tree, run).tree, name) == data
    || (run != [] && WasInTree(hash, tree, run[..|run| - 1], name, data))
  }

  ghost predicate BothWereInTree(hash: Bytes -> string, tree: FileSet, run: seq<Action>, files: FileSet)
    requires Possible(hash, tree, run)
  {
    WasInTree(hash, tree, run, Shared, files.shared) && WasInTree(hash, tree, run, Local, files.local)
  }

  /** Everything adopted, and everything on its way, was in the tree. */
  ghost predicate FromTree(hash: Bytes -> string, tree: FileSet, run: seq<Action>, s: System)
    requires Possible(hash, tree, run)
  {
    && (forall g :: g in s.adoptions ==> BothWereInTree(hash, tree, run, s.adoptions[g].read))
    && (s.host.HalfRead? ==> WasInTree(hash, tree, run, Shared, s.host.shared))
    && (s.host.Read? || s.host.Staging? ==> BothWereInTree(hash, tree, run, s.host.read))
  }

  lemma WasInTreeStays(hash: Bytes -> string, tree: FileSet, run: seq<Action>, s: System)
    requires run != [] && Possible(hash, tree, run) && Possible(hash, tree, run[..|run| - 1])
    requires FromTree(hash, tree, run[..|run| - 1], s)
    ensures FromTree(hash, tree, run, s)
  {
    forall g | g in s.adoptions ensures BothWereInTree(hash, tree, run, s.adoptions[g].read) {
      assert BothWereInTree(hash, tree, run[..|run| - 1], s.adoptions[g].read);
    }
  }

  lemma FromTreeStep(hash: Bytes -> string, tree: FileSet, run: seq<Action>, s: System, a: Action)
    requires Enabled(s, a) && Possible(hash, tree, run) && After(hash, tree, run) == Step(hash, s, a)
    requires FromTree(hash, tree, run, s)
    ensures FromTree(hash, tree, run, Step(hash, s, a))
  {
    assert a.ReadTree? ==> Step(hash, s, a).tree == s.tree;
  }

  /** Each adopted file is, byte for byte, one the tree held at some moment. */
  lemma {:induction false} AdoptedFilesWereInTree(hash: Bytes -> string, tree: FileSet, run: seq<Action>)
    requires Possible(hash, tree, run)
    ensures FromTree(hash, tree, run, After(hash, tree, run))
    decreases run
  {
    if run != [] {
      var before := After(hash, tree, run[..|run| - 1]);
      AdoptedFilesWereInTree(hash, tree, run[..|run| - 1]);
      WasInTreeStays(hash, tree, run, before);
      FromTreeStep(hash, tree, run, before, run[|run| - 1]);
    }
  }

  // ---------------------------------------------------------------------------------------------
  // What a revert keeps of a file it removes
  // ---------------------------------------------------------------------------------------------

  ghost predicate AsideInv(s: System) {
    s.host.RevertAside? ==> Get(s.aside, s.host.name) == Get(s.host.tree, s.host.name)
  }

  lemma AsideStep(hash: Bytes -> string, s: System, a: Action)
    requires Enabled(s, a) && AsideInv(s)
    ensures AsideInv(Step(hash, s, a))
  {
  }

  lemma {:induction false} AsideHoldsWhatWasRead(hash: Bytes -> string, tree: FileSet, run: seq<Action>)
    requires Possible(hash, tree, run)
    ensures AsideInv(After(hash, tree, run))
    decreases run
  {
    if run != [] {
      AsideHoldsWhatWasRead(hash, tree, run[..|run| - 1]);
      AsideStep(hash, After(hash, tree, run[..|run| - 1]), run[|run| - 1]);
    }
  }

  /** The action that reads this file of the tree for a revert. */
  predicate ReadsForRevert(s: System, a: Action, name: Name) {
    a.ReadTree? && (if name.Shared? then s.host.RevertReading? else s.host.RevertHalfRead?)
  }

  /** The revert that read this file is still to deal with it, or has been given up. */
  predicate Remembers(s: System, name: Name, data: Option<Bytes>) {
    match s.host
    case RevertReading(_) => false
    case RevertHalfRead(_, shared) => name.Shared? && shared == data
    case Reverting(_, found, _) => Get(found, name) == data
    case RevertAside(_, found, _) => Get(found, name) == data
    case _ => true
  }

  lemma RemembersStep(hash: Bytes -> string, s: System, a: Action, name: Name, data: Option<Bytes>)
    requires Enabled(s, a) && Remembers(s, name, data) && !a.BeginRevert?
    requires s.host.RevertHalfRead? ==> name.Shared?
    ensures Remembers(Step(hash, s, a), name, data)
  {
  }

  lemma {:induction false} RevertRemembers(hash: Bytes -> string, tree: FileSet, run: seq<Action>, i: nat, name: Name)
    requires Possible(hash, tree, run) && i < |run| && BeginRevert !in run[i + 1..]
    requires Possible(hash, tree, run[..i]) && ReadsForRevert(After(hash, tree, run[..i]), run[i], name)
    ensures Remembers(After(hash, tree, run), name, Get(After(hash, tree, run[..i]).tree, name))
    decreases run
  {
    var init := run[..|run| - 1];
    if i < |init| {
      hide Act;
      assert init[..i] == run[..i] && init[i] == run[i];
      assert run[i + 1..] == init[i + 1..] + [run[|run| - 1]];
      RevertRemembers(hash, tree, init, i, name);
      RemembersStep(hash, After(hash, tree, init), run[|run| - 1], name, Get(After(hash, tree, run[..i]).tree, name));
    } else {
      assert init == run[..i];
    }
  }

  /** No edit from `i` on changes the file. */
  ghost predicate NotEditedSince(hash: Bytes -> string, tree: FileSet, run: seq<Action>, i: nat, name: Name)
    requires Possible(hash, tree, run)
    decreases run
  {
    |run| <= i ||
    (var before, a := After(hash, tree, run[..|run| - 1]), run[|run| - 1];
     && NotEditedSince(hash, tree, run[..|run| - 1], i, name)
     && (a.EditTree? ==> Get(a.tree, name) == Get(before.tree, name)))
  }

  /** The file's turn has not come, so the revert has not touched it. */
  predicate TurnToCome(s: System, name: Name) {
    match s.host
    case RevertHalfRead(_, _) => true
    case Reverting(_, _, next) => next == Some(name) || next == Some(Shared)
    case RevertAside(_, _, turn) => turn == name || turn == Shared
    case _ => false
  }

  lemma UneditedStep(hash: Bytes -> string, s: System, a: Action, name: Name)
    requires Enabled(s, a) && !a.BeginRevert? && !s.host.RevertReading?
    requires a.EditTree? ==> Get(a.tree, name) == Get(s.tree, name)
    requires TurnToCome(Step(hash, s, a), name)
    ensures TurnToCome(s, name) && Get(Step(hash, s, a).tree, name) == Get(s.tree, name)
  {
  }

  lemma {:induction false} UneditedStays(hash: Bytes -> string, tree: FileSet, run: seq<Action>, i: nat, name: Name)
    requires Possible(hash, tree, run) && i < |run| && BeginRevert !in run[i + 1..]
    requires Possible(hash, tree, run[..i]) && ReadsForRevert(After(hash, tree, run[..i]), run[i], name)
    requires NotEditedSince(hash, tree, run, i, name) && TurnToCome(After(hash, tree, run), name)
    ensures Get(After(hash, tree, run).tree, name) == Get(After(hash, tree, run[..i]).tree, name)
    decreases run
  {
    var init := run[..|run| - 1];
    if i < |init| {
      hide Act;
      assert init[..i] == run[..i] && init[i] == run[i];
      assert run[i + 1..] == init[i + 1..] + [run[|run| - 1]];
      RevertRemembers(hash, tree, init, i, name);
      UneditedStep(hash, After(hash, tree, init), run[|run| - 1], name);
      UneditedStays(hash, tree, init, i, name);
    } else {
      assert init == run[..i];
    }
  }

  /**
    Over every run from the read of a file by a revert to its removal: what is kept aside is what the
    file held when it was read, so its last contents are kept exactly when they are those, and always
    when no edit changed it in between.
  */
  lemma RemovedFileIsKeptOverRun(hash: Bytes -> string, tree: FileSet, run: seq<Action>, i: nat)
    requires Possible(hash, tree, run) && After(hash, tree, run).host.RevertAside?
    requires i < |run| && BeginRevert !in run[i + 1..] && Possible(hash, tree, run[..i])
    requires ReadsForRevert(After(hash, tree, run[..i]), run[i], After(hash, tree, run).host.name)
    ensures var s, name := After(hash, tree, run), After(hash, tree, run).host.name;
      var read := Get(After(hash, tree, run[..i]).tree, name);
      var next := Step(hash, s, RevertFile);
      && Get(next.tree, name) == None && Get(next.aside, name) == read
      && (Get(next.aside, name) == Get(s.tree, name) <==> Get(s.tree, name) == read)
      && (NotEditedSince(hash, tree, run, i, name) ==> Get(next.aside, name) == Get(s.tree, name))
  {
    hide After, Possible, NotEditedSince;
    var name := After(hash, tree, run).host.name;
    AsideHoldsWhatWasRead(hash, tree, run);
    RevertRemembers(hash, tree, run, i, name);
    if NotEditedSince(hash, tree, run, i, name) {
      UneditedStays(hash, tree, run, i, name);
    }
  }

  /**
    A file a revert removes is kept aside exactly when the box left it alone since the revert read
    it: what is written in between goes without a copy.
  */
  lemma RemovedFileIsKeptExactly(hash: Bytes -> string, tree: FileSet, run: seq<Action>)
    requires Possible(hash, tree, run) && After(hash, tree, run).host.RevertAside?
    ensures var s := After(hash, tree, run);
      var next := Step(hash, s, RevertFile);
      && Get(next.tree, s.host.name) == None
      && (Get(next.aside, s.host.name) == Get(s.tree, s.host.name) <==>
          Get(s.tree, s.host.name) == Get(s.host.tree, s.host.name))
  {
    AsideHoldsWhatWasRead(hash, tree, run);
  }
}
