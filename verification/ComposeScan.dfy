/**
  The walk over compose files (`composeguard.py`): which paths a compose client would open, every
  file included or extended along the way, each opened once, cycles and all.
*/
module ComposeScan {
  import opened Common

  /** An absolute path, as its components. */
  type Path = seq<string>

  /** A value in a document: a string, or something else and how it prints. */
  datatype Value = Text(text: string) | Other(shown: string)

  function Shown(value: Value): string {
    if value.Text? then value.text else value.shown
  }

  datatype Include = Include(paths: seq<Value>, projectDirectory: Option<Value>, envFiles: seq<Value>)

  datatype Build =
    | NoBuild
    | BuildAt(context: string)
    | BuildTable(contextPath: Option<Value>, dockerfile: Option<Value>, additional: seq<(string, Value)>,
        ssh: seq<string>)

  datatype Service = Service(envFiles: seq<Value>, labelFiles: seq<Value>, extendsFile: Option<Value>, build: Build)

  datatype Document = Document(includes: seq<Include>, services: seq<(string, Service)>, topLevel: seq<(string, Value)>)

  datatype Load = Unreadable | NotATable | Loaded(doc: Document)

  /**
    The file system as it stands during the walk: where a path really is, what a text names from a
    directory, the real paths that are files, and what loading one gives.
  */
  datatype Env = Env(resolve: Path -> Path, at: (Path, string) -> Path, files: set<Path>, load: Path -> Load,
      roots: seq<Path>)

  function Real(env: Env, path: Path): Path {
    (env.resolve)(path)
  }

  function At(env: Env, base: Path, text: string): Path {
    (env.at)(base, text)
  }

  function Parent(path: Path): Path {
    if path == [] then [] else path[..|path| - 1]
  }

  predicate IsFile(env: Env, path: Path) {
    Real(env, path) in env.files
  }

  /** The path, every link resolved, is one of the roots or below one. */
  predicate Inside(env: Env, path: Path) {
    exists r :: r in env.roots && r <= Real(env, path)
  }

  // ---------------------------------------------------------------------------------------------
  // One path
  // ---------------------------------------------------------------------------------------------

  predicate Contains(text: string, part: string) {
    exists i :: 0 <= i <= |text| && part <= text[i..]
  }

  predicate Interpolated(value: Value) {
    value.Text? && '$' in value.text
  }

  /** A build source the client would fetch. */
  predicate Remote(text: string) {
    Contains(text, "://") || "git@" <= text || Contains(text, ".git#") || EndsWith(text, ".git")
  }

  datatype Why = NotAPath | UsesInterpolation | IsRemote | IsOutside | IsUnreadable | LinkOutside

  datatype Where = Where(file: Path, service: Option<string>)

  datatype Problem = Problem(at: Where, key: string, value: Value, why: Why)

  /** What a value names from each of the bases. */
  function Candidates(env: Env, text: string, bases: seq<Path>): seq<Path> {
    seq(|bases|, i requires 0 <= i < |bases| => At(env, bases[i], text))
  }

  predicate AllInside(env: Env, paths: seq<Path>) {
    forall p :: p in paths ==> Inside(env, p)
  }

  /** Why a path value is refused, if it is. */
  function Refusal(env: Env, key: string, value: Value, bases: seq<Path>, literalOnly: bool): Option<Why> {
    if !value.Text? || value.text == "" then Some(NotAPath)
    else if literalOnly && '$' in value.text then Some(UsesInterpolation)
    else if "build" <= key && Remote(value.text) then Some(IsRemote)
    else if !AllInside(env, Candidates(env, value.text, bases)) then Some(IsOutside)
    else None
  }

  /** The path an accepted value stands for: from the first base. */
  function Named(env: Env, value: Value, bases: seq<Path>): Path
    requires bases != []
  {
    At(env, bases[0], Shown(value))
  }

  function Got(env: Env, key: string, value: Value, bases: seq<Path>, literalOnly: bool): Option<Path>
    requires bases != []
  {
    if Refusal(env, key, value, bases, literalOnly).None? then Some(Named(env, value, bases)) else None
  }

  function Refused(env: Env, at: Where, key: string, value: Value, bases: seq<Path>, literalOnly: bool): seq<Problem> {
    match Refusal(env, key, value, bases, literalOnly)
    case None => []
    case Some(why) => [Problem(at, key, value, why)]
  }

  /** A path is accepted exactly when it is one, and every base it may be taken from keeps it inside. */
  lemma AcceptedExactly(env: Env, key: string, value: Value, bases: seq<Path>, literalOnly: bool)
    requires bases != []
    ensures Got(env, key, value, bases, literalOnly).Some? <==>
              (&& value.Text? && value.text != "" && !(literalOnly && Interpolated(value))
               && !("build" <= key && Remote(value.text))
               && forall base :: base in bases ==> Inside(env, At(env, base, value.text)))
    ensures Got(env, key, value, bases, literalOnly).Some? ==>
              Inside(env, Got(env, key, value, bases, literalOnly).value)
  {
    if value.Text? {
      var named := Candidates(env, value.text, bases);
      assert forall i :: 0 <= i < |bases| ==> named[i] == At(env, bases[i], value.text) && named[i] in named;
    }
  }

  // ---------------------------------------------------------------------------------------------
  // One service
  // ---------------------------------------------------------------------------------------------

  /** What a relative value is relative to. */
  datatype Kind = FromDir | FromContext | FromAny

  datatype PathUse = PathUse(key: string, value: Value, kind: Kind)

  const IMAGE_REFS := ["docker-image://", "container-image://", "oci-layout://", "service:", "target:"]

  function All(key: string, values: seq<Value>): seq<PathUse> {
    seq(|values|, i requires 0 <= i < |values| => PathUse(key, values[i], FromDir))
  }

  function AdditionalContexts(entries: seq<(string, Value)>): seq<PathUse> {
    if entries == [] then []
    else
      var (name, value) := entries[0];
      (if exists r :: r in IMAGE_REFS && r <= Shown(value) then []
       else [PathUse("build.additional_contexts." + name, value, FromAny)])
        + AdditionalContexts(entries[1..])
  }

  function AfterEquals(text: string): string {
    if text == "" then "" else if text[0] == '=' then text[1..] else AfterEquals(text[1..])
  }

  /** The key file an `ssh` entry names, if any. */
  function SshPath(entry: string): string {
    if '=' in entry then AfterEquals(entry) else if entry == "default" then "" else entry
  }

  function SshKeys(entries: seq<string>): seq<PathUse> {
    if entries == [] then []
    else
      (if SshPath(entries[0]) == "" then [] else [PathUse("build.ssh", Text(SshPath(entries[0])), FromDir)])
        + SshKeys(entries[1..])
  }

  function BuildPaths(build: Build): seq<PathUse> {
    match build
    case NoBuild => []
    case BuildAt(context) => [PathUse("build", Text(context), FromDir)]
    case BuildTable(context, dockerfile, additional, ssh) =>
      [PathUse("build.context", context.GetOr(Text(".")), FromDir)]
        + (if dockerfile.Some? then [PathUse("build.dockerfile", dockerfile.value, FromContext)] else [])
        + AdditionalContexts(additional) + SshKeys(ssh)
  }

  /** Each path a service names, in order. */
  function ServicePaths(service: Service): seq<PathUse> {
    All("env_file", service.envFiles) + All("label_file", service.labelFiles)
      + (if service.extendsFile.Some? then [PathUse("extends.file", service.extendsFile.value, FromDir)] else [])
      + BuildPaths(service.build)
  }

  lemma {:induction false} AdditionalContextsComplete(entries: seq<(string, Value)>, k: nat)
    requires k < |entries|
    ensures (forall r :: r in IMAGE_REFS ==> !(r <= Shown(entries[k].1))) ==>
              PathUse("build.additional_contexts." + entries[k].0, entries[k].1, FromAny) in AdditionalContexts(entries)
    decreases entries
  {
    if k > 0 {
      AdditionalContextsComplete(entries[1..], k - 1);
    }
  }

  lemma {:induction false} SshKeysComplete(entries: seq<string>, k: nat)
    requires k < |entries|
    ensures SshPath(entries[k]) != "" ==> PathUse("build.ssh", Text(SshPath(entries[k])), FromDir) in SshKeys(entries)
    decreases entries
  {
    if k > 0 {
      SshKeysComplete(entries[1..], k - 1);
    }
  }

  predicate NamesPath(service: Service, use: PathUse) {
    use in ServicePaths(service)
  }

  /** Every place a service can name a host path in is among its uses, with what it is relative to. */
  lemma EveryPlaceIsListed(service: Service)
    ensures forall v :: v in service.envFiles ==> NamesPath(service, PathUse("env_file", v, FromDir))
    ensures forall v :: v in service.labelFiles ==> NamesPath(service, PathUse("label_file", v, FromDir))
    ensures service.extendsFile.Some? ==>
              NamesPath(service, PathUse("extends.file", service.extendsFile.value, FromDir))
    ensures match service.build
      case NoBuild => true
      case BuildAt(context) => NamesPath(service, PathUse("build", Text(context), FromDir))
      case BuildTable(context, dockerfile, additional, ssh) =>
        && NamesPath(service, PathUse("build.context", context.GetOr(Text(".")), FromDir))
        && (dockerfile.Some? ==> NamesPath(service, PathUse("build.dockerfile", dockerfile.value, FromContext)))
        && (forall k :: 0 <= k < |additional| && (forall r :: r in IMAGE_REFS ==> !(r <= Shown(additional[k].1))) ==>
              NamesPath(service, PathUse("build.additional_contexts." + additional[k].0, additional[k].1, FromAny)))
        && (forall k :: 0 <= k < |ssh| && SshPath(ssh[k]) != "" ==>
                NamesPath(service, PathUse("build.ssh", Text(SshPath(ssh[k])), FromDir)))
  {
    AllLists("env_file", service.envFiles);
    AllLists("label_file", service.labelFiles);
    var building := BuildPaths(service.build);
    assert forall use :: use in building ==> NamesPath(service, use);
    if service.build.BuildTable? {
      var additional, ssh := service.build.additional, service.build.ssh;
      forall k | 0 <= k < |additional| && (forall r :: r in IMAGE_REFS ==> !(r <= Shown(additional[k].1)))
        ensures PathUse("build.additional_contexts." + additional[k].0, additional[k].1, FromAny) in building
      {
        AdditionalContextsComplete(additional, k);
      }
      forall k | 0 <= k < |ssh| && SshPath(ssh[k]) != ""
        ensures PathUse("build.ssh", Text(SshPath(ssh[k])), FromDir) in building
      {
        SshKeysComplete(ssh, k);
      }
    }
  }

  lemma AllLists(key: string, values: seq<Value>)
    ensures forall v :: v in values ==> PathUse(key, v, FromDir) in All(key, values)
  {
    forall v | v in values ensures PathUse(key, v, FromDir) in All(key, values) {
      var i :| 0 <= i < |values| && values[i] == v;
      assert All(key, values)[i] == PathUse(key, v, FromDir);
    }
  }

  /** How a service's paths are checked: where from, and whether `$` is refused or left to the render. */
  datatype Mode = Mode(base: Path, cwd: Path, literalOnly: bool, skipInterpolated: bool)

  function Bases(kind: Kind, context: Path, mode: Mode): (bases: seq<Path>)
    ensures bases != []
  {
    match kind
    case FromDir => [mode.base]
    case FromContext => [context]
    case FromAny => [context, mode.base, mode.cwd]
  }

  predicate Literal(use: PathUse, mode: Mode) {
    mode.literalOnly || use.key == "extends.file"
  }

  predicate LeftToRender(use: PathUse, mode: Mode) {
    mode.skipInterpolated && !Literal(use, mode) && Interpolated(use.value)
  }

  /** The path of a use checked with this build context; nothing when it is skipped or refused. */
  function GotUse(env: Env, use: PathUse, context: Path, mode: Mode): Option<Path> {
    if LeftToRender(use, mode) then None
    else Got(env, use.key, use.value, Bases(use.kind, context, mode), Literal(use, mode))
  }

  function RefusedUse(env: Env, at: Where, use: PathUse, context: Path, mode: Mode): seq<Problem> {
    if LeftToRender(use, mode) then []
    else Refused(env, at, use.key, use.value, Bases(use.kind, context, mode), Literal(use, mode))
  }

  function NextContext(env: Env, use: PathUse, context: Path, mode: Mode): Path {
    var got := GotUse(env, use, context, mode);
    if got.Some? && (use.key == "build" || use.key == "build.context") then got.value else context
  }

  /** The build context in force before the use at `n`. */
  function ContextAt(env: Env, uses: seq<PathUse>, n: nat, mode: Mode): Path
    requires n <= |uses|
  {
    if n == 0 then mode.base else NextContext(env, uses[n - 1], ContextAt(env, uses, n - 1, mode), mode)
  }

  /** What the first `n` uses are refused for, and the extended files among them. */
  function ServiceProblems(env: Env, at: Where, uses: seq<PathUse>, n: nat, mode: Mode): seq<Problem>
    requires n <= |uses|
  {
    if n == 0 then []
    else
      ServiceProblems(env, at, uses, n - 1, mode)
        + RefusedUse(env, at, uses[n - 1], ContextAt(env, uses, n - 1, mode), mode)
  }

  function Extended(env: Env, uses: seq<PathUse>, n: nat, mode: Mode): seq<Path>
    requires n <= |uses|
  {
    if n == 0 then []
    else
      var got := GotUse(env, uses[n - 1], ContextAt(env, uses, n - 1, mode), mode);
      Extended(env, uses, n - 1, mode) + (if got.Some? && uses[n - 1].key == "extends.file" then [got.value] else [])
  }

  /** Until a build context is met, the context is the file's own base. */
  lemma {:induction false} ContextUntilBuild(env: Env, uses: seq<PathUse>, n: nat, mode: Mode)
    requires n <= |uses| && forall i :: 0 <= i < n ==> uses[i].key != "build" && uses[i].key != "build.context"
    ensures ContextAt(env, uses, n, mode) == mode.base
  {
    if n > 0 {
      ContextUntilBuild(env, uses, n - 1, mode);
    }
  }

  /**
    A Dockerfile is checked from the service's own build context when that was accepted, and from
    the file's base otherwise.
  */
  lemma DockerfileFromBuildContext(env: Env, service: Service, mode: Mode)
    requires service.build.BuildTable? && service.build.dockerfile.Some?
    ensures var uses := ServicePaths(service);
      var n := |uses| - |BuildPaths(service.build)|;
      && 0 <= n && n + 1 < |uses|
      && uses[n] == PathUse("build.context", service.build.contextPath.GetOr(Text(".")), FromDir)
      && uses[n + 1] == PathUse("build.dockerfile", service.build.dockerfile.value, FromContext)
      && ContextAt(env, uses, n + 1, mode) == GotUse(env, uses[n], mode.base, mode).GetOr(mode.base)
  {
    var uses := ServicePaths(service);
    var n := |uses| - |BuildPaths(service.build)|;
    assert uses[n..] == BuildPaths(service.build);
    assert uses[n] == uses[n..][0] && uses[n + 1] == uses[n..][1];
    ContextUntilBuild(env, uses, n, mode);
  }

  /**
    Nothing a service names slips by: each use is left to the rendered pass, or reported, or inside
    from every base; and an extended file that is inside is handed on to be opened.
  */
  lemma {:induction false} EveryUseIsAccountedFor(env: Env, at: Where, uses: seq<PathUse>, n: nat, mode: Mode, k: nat)
    requires k < n <= |uses|
    ensures var context := ContextAt(env, uses, k, mode);
      match GotUse(env, uses[k], context, mode)
      case None =>
        || LeftToRender(uses[k], mode)
        || exists why :: Problem(at, uses[k].key, uses[k].value, why) in ServiceProblems(env, at, uses, n, mode)
      case Some(got) =>
        && (forall base :: base in Bases(uses[k].kind, context, mode) ==>
                Inside(env, At(env, base, Shown(uses[k].value))))
        && (uses[k].key == "extends.file" ==> got in Extended(env, uses, n, mode))
    decreases n
  {
    if k == n - 1 {
      var context := ContextAt(env, uses, k, mode);
      AcceptedExactly(env, uses[k].key, uses[k].value, Bases(uses[k].kind, context, mode), Literal(uses[k], mode));
      var why := Refusal(env, uses[k].key, uses[k].value, Bases(uses[k].kind, context, mode), Literal(uses[k], mode));
      if !LeftToRender(uses[k], mode) && why.Some? {
        assert Problem(at, uses[k].key, uses[k].value, why.value) in ServiceProblems(env, at, uses, n, mode);
      }
    } else {
      EveryUseIsAccountedFor(env, at, uses, n - 1, mode, k);
      if why :| Problem(at, uses[k].key, uses[k].value, why) in ServiceProblems(env, at, uses, n - 1, mode) {
        assert Problem(at, uses[k].key, uses[k].value, why) in ServiceProblems(env, at, uses, n, mode);
      }
    }
  }

  lemma {:induction false} ExtendedAreInside(env: Env, uses: seq<PathUse>, n: nat, mode: Mode)
    requires n <= |uses|
    ensures forall p :: p in Extended(env, uses, n, mode) ==> Inside(env, p)
  {
    if n > 0 {
      ExtendedAreInside(env, uses, n - 1, mode);
      var context := ContextAt(env, uses, n - 1, mode);
      AcceptedExactly(env, uses[n - 1].key, uses[n - 1].value, Bases(uses[n - 1].kind, context, mode),
          Literal(uses[n - 1], mode));
    }
  }

  // ---------------------------------------------------------------------------------------------
  // One document
  // ---------------------------------------------------------------------------------------------

  /** A file to be opened, and what its relative paths are taken from, when that is not its own place. */
  datatype Target = Target(path: Path, base: Option<Path>)

  /** One opening of a file, as a compose file given by name or as one included or extended. */
  datatype Visit = Visit(path: Path, top: bool, base: Option<Path>)

  function VisitOf(target: Target): Visit {
    Visit(target.path, false, Some(target.base.GetOr(Parent(target.path))))
  }

  function BaseOf(visit: Visit, projectDir: Path): Path {
    visit.base.GetOr(if visit.top then projectDir else Parent(visit.path))
  }

  /** What the first `n` of some literal paths from one directory are refused for, and what they name. */
  function RefusedAll(env: Env, at: Where, key: string, values: seq<Value>, n: nat, base: Path): seq<Problem>
    requires n <= |values|
  {
    if n == 0 then []
    else
      RefusedAll(env, at, key, values, n - 1, base)
        + Refused(env, at, key, values[n - 1], [base], true)
  }

  function GotAll(env: Env, key: string, values: seq<Value>, n: nat, base: Path): seq<Path>
    requires n <= |values|
  {
    if n == 0 then []
    else
      var got := Got(env, key, values[n - 1], [base], true);
      GotAll(env, key, values, n - 1, base) + (if got.Some? then [got.value] else [])
  }

  function Targets(paths: seq<Path>, base: Option<Path>): seq<Target> {
    seq(|paths|, i requires 0 <= i < |paths| => Target(paths[i], base))
  }

  function Rebase(env: Env, dir: Path, clause: Include): Option<Path> {
    if clause.projectDirectory.None? then None
    else Got(env, "include.project_directory", clause.projectDirectory.value, [dir], true)
  }

  function RebaseProblems(env: Env, at: Where, dir: Path, clause: Include): seq<Problem> {
    if clause.projectDirectory.None? then []
    else Refused(env, at, "include.project_directory", clause.projectDirectory.value, [dir], true)
  }

  function IncludeProblems(env: Env, at: Where, dir: Path, clause: Include): seq<Problem> {
    RebaseProblems(env, at, dir, clause) + RefusedAll(env, at, "include", clause.paths, |clause.paths|, dir)
      + RefusedAll(env, at, "include.env_file", clause.envFiles, |clause.envFiles|, dir)
  }

  function IncludeTargets(env: Env, dir: Path, clause: Include): seq<Target> {
    Targets(GotAll(env, "include", clause.paths, |clause.paths|, dir), Rebase(env, dir, clause))
  }

  function ModeOf(visit: Visit, projectDir: Path): Mode {
    var base := BaseOf(visit, projectDir);
    Mode(base, base, !visit.top, visit.top)
  }

  function TopLevelProblems(env: Env, at: Where, entry: (string, Value), visit: Visit, projectDir: Path): seq<Problem> {
    if visit.top && Interpolated(entry.1) then []
    else Refused(env, at, entry.0, entry.1, [BaseOf(visit, projectDir)], !visit.top)
  }

  /** The parts of a document in the order they are checked. */
  datatype Part = Included(clause: Include) | Serves(name: string, service: Service) | Lists(entry: (string, Value))

  function Parts(doc: Document): seq<Part> {
    seq(|doc.includes|, i requires 0 <= i < |doc.includes| => Included(doc.includes[i]))
      + seq(|doc.services|, i requires 0 <= i < |doc.services| => Serves(doc.services[i].0, doc.services[i].1))
      + seq(|doc.topLevel|, i requires 0 <= i < |doc.topLevel| => Lists(doc.topLevel[i]))
  }

  function PartProblems(env: Env, part: Part, visit: Visit, projectDir: Path): seq<Problem> {
    match part
    case Included(clause) => IncludeProblems(env, Where(visit.path, None), Parent(visit.path), clause)
    case Serves(name, service) =>
      var uses := ServicePaths(service);
      ServiceProblems(env, Where(visit.path, Some(name)), uses, |uses|, ModeOf(visit, projectDir))
    case Lists(entry) => TopLevelProblems(env, Where(visit.path, None), entry, visit, projectDir)
  }

  function PartTargets(env: Env, part: Part, visit: Visit, projectDir: Path): seq<Target> {
    match part
    case Included(clause) => IncludeTargets(env, Parent(visit.path), clause)
    case Serves(_, service) =>
      var uses := ServicePaths(service);
      Targets(Extended(env, uses, |uses|, ModeOf(visit, projectDir)), None)
    case Lists(_) => []
  }

  function PartsProblems(env: Env, parts: seq<Part>, n: nat, visit: Visit, projectDir: Path): seq<Problem>
    requires n <= |parts|
  {
    if n == 0 then []
    else
      PartsProblems(env, parts, n - 1, visit, projectDir)
        + PartProblems(env, parts[n - 1], visit, projectDir)
  }

  function PartsTargets(env: Env, parts: seq<Part>, n: nat, visit: Visit, projectDir: Path): seq<Target>
    requires n <= |parts|
  {
    if n == 0 then []
    else
      PartsTargets(env, parts, n - 1, visit, projectDir)
        + PartTargets(env, parts[n - 1], visit, projectDir)
  }

  /** What reading the file of a visit gives. */
  function LoadOf(env: Env, visit: Visit): Load {
    if IsFile(env, visit.path) then (env.load)(Real(env, visit.path)) else Unreadable
  }

  function PartsOf(env: Env, visit: Visit): seq<Part> {
    if LoadOf(env, visit).Loaded? then Parts(LoadOf(env, visit).doc) else []
  }

  function VisitProblems(env: Env, visit: Visit, projectDir: Path): seq<Problem> {
    if LoadOf(env, visit).Unreadable? then [Problem(Where(visit.path, None), "", Text(""), IsUnreadable)]
    else PartsProblems(env, PartsOf(env, visit), |PartsOf(env, visit)|, visit, projectDir)
  }

  function VisitTargets(env: Env, visit: Visit, projectDir: Path): seq<Target> {
    PartsTargets(env, PartsOf(env, visit), |PartsOf(env, visit)|, visit, projectDir)
  }

  function ProblemsOf(env: Env, visits: seq<Visit>, projectDir: Path): seq<Problem> {
    if visits == [] then []
    else ProblemsOf(env, visits[..|visits| - 1], projectDir) + VisitProblems(env, visits[|visits| - 1], projectDir)
  }

  lemma {:induction false} GotAllInside(env: Env, key: string, values: seq<Value>, n: nat, base: Path)
    requires n <= |values|
    ensures forall p :: p in GotAll(env, key, values, n, base) ==> Inside(env, p)
  {
    if n > 0 {
      GotAllInside(env, key, values, n - 1, base);
      AcceptedExactly(env, key, values[n - 1], [base], true);
    }
  }

  lemma PartTargetsInside(env: Env, part: Part, visit: Visit, projectDir: Path, t: Target)
    requires t in PartTargets(env, part, visit, projectDir)
    ensures Inside(env, t.path)
  {
    match part
    case Included(clause) => GotAllInside(env, "include", clause.paths, |clause.paths|, Parent(visit.path));
    case Serves(_, service) =>
      ExtendedAreInside(env, ServicePaths(service), |ServicePaths(service)|, ModeOf(visit, projectDir));
  }

  /** Whatever a visit hands on to be opened is inside the roots. */
  lemma {:induction false} TargetsInside(env: Env, parts: seq<Part>, n: nat, visit: Visit, projectDir: Path, t: Target)
    requires n <= |parts| && t in PartsTargets(env, parts, n, visit, projectDir)
    ensures Inside(env, t.path)
  {
    hide PartTargets;
    if t in PartsTargets(env, parts, n - 1, visit, projectDir) {
      TargetsInside(env, parts, n - 1, visit, projectDir, t);
    } else {
      PartTargetsInside(env, parts[n - 1], visit, projectDir, t);
    }
  }

  // ---------------------------------------------------------------------------------------------
  // The walk
  // ---------------------------------------------------------------------------------------------

  /** No two visits open the same real path, and all of them stay inside. */
  ghost predicate OncePerFile(env: Env, visits: seq<Visit>) {
    forall i, j :: 0 <= i < j < |visits| ==> Real(env, visits[i].path) != Real(env, visits[j].path)
  }

  ghost predicate AllVisitsInside(env: Env, visits: seq<Visit>) {
    forall i :: 0 <= i < |visits| ==> Inside(env, visits[i].path)
  }

  /** Every file a visit hands on has been opened. */
  ghost predicate ClosedAt(env: Env, visit: Visit, projectDir: Path, seen: set<Path>) {
    AllOpened(env, VisitTargets(env, visit, projectDir), seen)
  }

  ghost predicate AllOpened(env: Env, targets: seq<Target>, seen: set<Path>) {
    forall t :: t in targets && IsFile(env, t.path) ==> Real(env, t.path) in seen
  }

  lemma OneMoreOpened(env: Env, targets: seq<Target>, i: nat, seen: set<Path>, more: set<Path>)
    requires i < |targets| && seen <= more && AllOpened(env, targets[..i], seen)
    requires IsFile(env, targets[i].path) ==> Real(env, targets[i].path) in more
    ensures AllOpened(env, targets[..i + 1], more)
  {
    assert targets[..i + 1] == targets[..i] + [targets[i]];
  }

  /**
    `next` opens a file that `visit` hands on: as no file given by name, and from the base it asks or
    its own place.
  */
  ghost predicate HandsOn(env: Env, visit: Visit, projectDir: Path, next: Visit) {
    exists t :: t in VisitTargets(env, visit, projectDir) && next.path == t.path && !next.top
      && match t.base
         case Some(asked) => next.base == Some(asked)
         case None => next.base == Some(if t.path == [] then [] else t.path[..|t.path| - 1])
  }

  /** A visit handed on by an earlier one. */
  ghost predicate NamedBy(env: Env, visits: seq<Visit>, projectDir: Path, visit: Visit) {
    exists j :: 0 <= j < |visits| && HandsOn(env, visits[j], projectDir, visit)
  }

  /** A compose file given by name, its relative paths taken from the project's directory. */
  ghost predicate GivenByName(given: set<Path>, visit: Visit) {
    visit.top && visit.base.None? && visit.path in given
  }

  /** Every visit opens a compose file given by name, or one that an earlier visit handed on. */
  ghost predicate AllNamed(env: Env, visits: seq<Visit>, projectDir: Path, given: set<Path>) {
    forall i :: 0 <= i < |visits| ==>
      GivenByName(given, visits[i]) || NamedBy(env, visits[..i], projectDir, visits[i])
  }

  /** The visits from `first` on have had everything they hand on opened. */
  ghost predicate ClosedFrom(env: Env, visits: seq<Visit>, first: int, projectDir: Path, seen: set<Path>) {
    forall i :: 0 <= first <= i < |visits| ==> ClosedAt(env, visits[i], projectDir, seen)
  }

  lemma AppendVisit(env: Env, visits: seq<Visit>, visit: Visit, projectDir: Path, given: set<Path>)
    requires OncePerFile(env, visits) && AllVisitsInside(env, visits) && AllNamed(env, visits, projectDir, given)
    requires Inside(env, visit.path) && forall v :: v in visits ==> Real(env, v.path) != Real(env, visit.path)
    requires GivenByName(given, visit) || NamedBy(env, visits, projectDir, visit)
    ensures var more := visits + [visit];
      OncePerFile(env, more) && AllVisitsInside(env, more) && AllNamed(env, more, projectDir, given)
  {
    var more := visits + [visit];
    forall i | 0 <= i < |more| 
      ensures GivenByName(given, more[i]) || NamedBy(env, more[..i], projectDir, more[i])
    {
      assert more[..i] == visits[..i];
    }
  }

  lemma {:induction false} ProblemsConcat(env: Env, a: seq<Visit>, b: seq<Visit>, projectDir: Path)
    ensures ProblemsOf(env, a + b, projectDir) == ProblemsOf(env, a, projectDir) + ProblemsOf(env, b, projectDir)
    decreases b
  {
    hide VisitProblems;
    if b == [] {
      assert a + b == a;
    } else {
      assert (a + b)[..|a + b| - 1] == a + b[..|b| - 1];
      ProblemsConcat(env, a, b[..|b| - 1], projectDir);
    }
  }

  lemma ProblemsAppend(env: Env, before: seq<Visit>, after: seq<Visit>, first: nat, projectDir: Path)
    requires first <= |before| && before <= after
    ensures ProblemsOf(env, after[first..], projectDir)
              == ProblemsOf(env, before[first..], projectDir) + ProblemsOf(env, after[|before|..], projectDir)
  {
    assert after[first..] == before[first..] + after[|before|..];
    ProblemsConcat(env, before[first..], after[|before|..], projectDir);
  }

  /** What the walk has done: the real paths opened, how, and what was reported. */
  datatype Walk = Walk(seen: set<Path>, visits: seq<Visit>, problems: seq<Problem>)

  /**
    From one point of a walk to a later one: more is opened, exactly the problems of what was opened
    since are reported, and all that those visits hand on is opened too.
  */
  ghost predicate Walked(env: Env, projectDir: Path, before: Walk, after: Walk) {
    && before.seen <= after.seen && before.visits <= after.visits
    && after.problems == before.problems + ProblemsOf(env, after.visits[|before.visits|..], projectDir)
    && ClosedFrom(env, after.visits, |before.visits|, projectDir, after.seen)
  }

  lemma WalkedNowhere(env: Env, projectDir: Path, walk: Walk)
    ensures Walked(env, projectDir, walk, walk)
  {
    assert walk.visits[|walk.visits|..] == [];
  }

  lemma ClosedTransitive(env: Env, projectDir: Path, first: int, b: Walk, c: Walk)
    requires 0 <= first <= |b.visits| && b.visits <= c.visits && b.seen <= c.seen
    requires ClosedFrom(env, b.visits, first, projectDir, b.seen)
              && ClosedFrom(env, c.visits, |b.visits|, projectDir, c.seen)
    ensures ClosedFrom(env, c.visits, first, projectDir, c.seen)
  {
    forall i | first <= i < |c.visits| ensures ClosedAt(env, c.visits[i], projectDir, c.seen) {
      if i < |b.visits| {
        assert c.visits[i] == b.visits[i] && ClosedAt(env, b.visits[i], projectDir, b.seen);
        ClosedGrows(env, b.visits[i], projectDir, b.seen, c.seen);
      }
    }
  }

  lemma ClosedGrows(env: Env, visit: Visit, projectDir: Path, seen: set<Path>, more: set<Path>)
    requires seen <= more && ClosedAt(env, visit, projectDir, seen)
    ensures ClosedAt(env, visit, projectDir, more)
  {
  }

  lemma WalkedTransitive(env: Env, projectDir: Path, a: Walk, b: Walk, c: Walk)
    requires Walked(env, projectDir, a, b) && Walked(env, projectDir, b, c)
    ensures Walked(env, projectDir, a, c)
  {
    ProblemsAppend(env, b.visits, c.visits, |a.visits|, projectDir);
    Reassociate(a.problems, ProblemsOf(env, b.visits[|a.visits|..], projectDir),
        ProblemsOf(env, c.visits[|b.visits|..], projectDir));
    ClosedTransitive(env, projectDir, |a.visits|, b, c);
  }

  lemma StillVisited(env: Env, projectDir: Path, visit: Visit, before: Walk, after: Walk)
    requires Walked(env, projectDir, before, after) && visit in before.visits
    ensures visit in after.visits
  {
    var i :| 0 <= i < |before.visits| && before.visits[i] == visit;
    assert after.visits[i] == visit;
  }

  /** Opening one file, then walking on until what it hands on is opened too. */
  lemma OpenedAndWalked(env: Env, projectDir: Path, visit: Visit, a: Walk, b: Walk, c: Walk)
    requires b.seen == a.seen + {Real(env, visit.path)} && b.visits == a.visits + [visit]
    requires b.problems == a.problems + VisitProblems(env, visit, projectDir)
    requires Walked(env, projectDir, b, c) && ClosedAt(env, visit, projectDir, c.seen)
    ensures Walked(env, projectDir, a, c)
  {
    ProblemsAppend(env, b.visits, c.visits, |a.visits|, projectDir);
    assert b.visits[|a.visits|..] == [visit];
    assert ProblemsOf(env, [visit], projectDir) == VisitProblems(env, visit, projectDir);
    Reassociate(a.problems, VisitProblems(env, visit, projectDir), ProblemsOf(env, c.visits[|b.visits|..], projectDir));
    forall i | |a.visits| <= i < |c.visits| ensures ClosedAt(env, c.visits[i], projectDir, c.seen) {
      if i == |a.visits| {
        assert c.visits[i] == b.visits[i];
      }
    }
  }

  lemma Reassociate(p: seq<Problem>, q: seq<Problem>, r: seq<Problem>)
    ensures (p + q) + r == p + (q + r)
  {
  }

  lemma HandedOn(env: Env, visits: seq<Visit>, projectDir: Path, visit: Visit, target: Target)
    requires visit in visits && target in VisitTargets(env, visit, projectDir)
    ensures Inside(env, target.path) && NamedBy(env, visits, projectDir, VisitOf(target))
  {
    TargetsInside(env, PartsOf(env, visit), |PartsOf(env, visit)|, visit, projectDir, target);
    assert HandsOn(env, visit, projectDir, VisitOf(target));
  }

  /** A compose file given by name that only a link takes out of the roots. */
  predicate LinkedOut(env: Env, file: Path, absolute: Path -> Path) {
    !Inside(env, file) && exists r :: r in env.roots && r < absolute(file)
  }

  /** Some file has a path that is written inside a root, and is outside once its links are resolved. */
  ghost predicate SomeLinkedOut(env: Env, files: seq<Path>, absolute: Path -> Path) {
    exists f, root, rest: Path :: f in files && root in env.roots && rest != [] && absolute(f) == root + rest
      && !Inside(env, f)
  }

  ghost predicate AllNamedOpened(env: Env, files: seq<Path>, seen: set<Path>) {
    forall f :: f in files && Inside(env, f) ==> Real(env, f) in seen
  }

  lemma OneMoreNamed(env: Env, files: seq<Path>, i: nat, absolute: Path -> Path, seen: set<Path>, more: set<Path>)
    requires i < |files|
    requires AllNamedOpened(env, files[..i], seen) && seen <= more
    requires Inside(env, files[i]) ==> Real(env, files[i]) in more
    ensures AllNamedOpened(env, files[..i + 1], more)
    ensures SomeLinkedOut(env, files[..i + 1], absolute) <==>
              SomeLinkedOut(env, files[..i], absolute) || LinkedOut(env, files[i], absolute)
  {
    var file := files[i];
    assert files[..i + 1] == files[..i] + [file];
    if root :| root in env.roots && root < absolute(file) {
      assert absolute(file) == root + absolute(file)[|root|..];
    }
    assert SomeLinkedOut(env, [file], absolute) <==> LinkedOut(env, file, absolute);
    assert SomeLinkedOut(env, files[..i + 1], absolute) <==>
      SomeLinkedOut(env, files[..i], absolute) || SomeLinkedOut(env, [file], absolute);
  }

  /** A link out of the roots, as it is reported. */
  function LinkProblem(projectDir: Path, key: string): Problem {
    Problem(Where(projectDir, None), key, Text(""), LinkOutside)
  }

  /** The problems are those of the visits, and of the links that lead out. */
  ghost predicate AllReported(env: Env, projectDir: Path, walk: Walk, dotenvOut: bool, linkedOut: bool) {
    forall p :: p in walk.problems <==>
      || ReportedOf(env, projectDir, walk.visits, p)
      || (dotenvOut && p == LinkProblem(projectDir, ".env")) || (linkedOut && p == LinkProblem(projectDir, "-f"))
  }

  ghost predicate ReportedOf(env: Env, projectDir: Path, visits: seq<Visit>, p: Problem) {
    exists v :: v in visits && p in VisitProblems(env, v, projectDir)
  }

  lemma {:induction false} ProblemsOfMembers(env: Env, visits: seq<Visit>, projectDir: Path, p: Problem)
    ensures p in ProblemsOf(env, visits, projectDir) <==> ReportedOf(env, projectDir, visits, p)
    decreases visits
  {
    hide VisitProblems;
    if visits != [] {
      var init, last := visits[..|visits| - 1], visits[|visits| - 1];
      assert visits == init + [last];
      ProblemsOfMembers(env, init, projectDir, p);
    }
  }

  /** A further stretch of the walk adds its own problems and no others. */
  lemma ReportedOn(env: Env, projectDir: Path, a: Walk, b: Walk, dotenvOut: bool, linkedOut: bool)
    requires Walked(env, projectDir, a, b) && AllReported(env, projectDir, a, dotenvOut, linkedOut)
    ensures AllReported(env, projectDir, b, dotenvOut, linkedOut)
  {
    hide VisitProblems;
    var since := b.visits[|a.visits|..];
    assert b.visits == a.visits + since;
    forall p ensures p in b.problems <==>
        || ReportedOf(env, projectDir, b.visits, p)
        || (dotenvOut && p == LinkProblem(projectDir, ".env")) || (linkedOut && p == LinkProblem(projectDir, "-f"))
    {
      ProblemsOfMembers(env, since, projectDir, p);
    }
  }

  class Scanner {
    const env: Env
    const projectDir: Path
    var problems: seq<Problem>
    var seen: set<Path>
    ghost var visits: seq<Visit>
    ghost var given: set<Path>

    /** What was opened, once each, only inside, only because it was named; and all its problems. */
    ghost predicate Valid()
      reads this
    {
      && seen == (set v | v in visits :: Real(env, v.path))
      && OncePerFile(env, visits) && AllVisitsInside(env, visits)
      && AllNamed(env, visits, projectDir, given)
    }

    ghost function Now(): Walk
      reads this
    {
      Walk(seen, visits, problems)
    }

    constructor (env: Env, projectDir: Path)
      ensures this.env == env && this.projectDir == projectDir
      ensures Valid() && problems == [] && visits == []
    {
      this.env, this.projectDir := env, projectDir;
      problems, seen, visits, given := [], {}, [], {};
    }

    /** `path`: one value checked against its bases. */
    method Check(at: Where, key: string, value: Value, bases: seq<Path>, literalOnly: bool) returns (got: Option<Path>)
      requires bases != []
      modifies this`problems
      ensures got == Got(env, key, value, bases, literalOnly)
      ensures problems == old(problems) + Refused(env, at, key, value, bases, literalOnly)
    {
      if !value.Text? || value.text == "" {
        problems := problems + [Problem(at, key, value, NotAPath)];
        return None;
      }
      if literalOnly && '$' in value.text {
        problems := problems + [Problem(at, key, value, UsesInterpolation)];
        return None;
      }
      if "build" <= key && Remote(value.text) {
        problems := problems + [Problem(at, key, value, IsRemote)];
        return None;
      }
      var named := Candidates(env, value.text, bases);
      if !AllInside(env, named) {
        problems := problems + [Problem(at, key, value, IsOutside)];
        return None;
      }
      return Some(named[0]);
    }

    method CheckAll(at: Where, key: string, values: seq<Value>, base: Path) returns (got: seq<Path>)
      modifies this`problems
      ensures got == GotAll(env, key, values, |values|, base)
      ensures problems == old(problems) + RefusedAll(env, at, key, values, |values|, base)
    {
      got := [];
      for i := 0 to |values|
        invariant got == GotAll(env, key, values, i, base)
        invariant problems == old(problems) + RefusedAll(env, at, key, values, i, base)
      {
        ghost var sofar := RefusedAll(env, at, key, values, i, base);
        var one := Check(at, key, values[i], [base], true);
        Reassociate(old(problems), sofar, Refused(env, at, key, values[i], [base], true));
        got := got + (if one.Some? then [one.value] else []);
      }
    }

    method CheckInclude(visit: Visit, clause: Include) returns (follow: seq<Target>)
      modifies this`problems
      ensures follow == IncludeTargets(env, Parent(visit.path), clause)
      ensures problems == old(problems) + IncludeProblems(env, Where(visit.path, None), Parent(visit.path), clause)
    {
      var at, dir := Where(visit.path, None), Parent(visit.path);
      var rebase := None;
      if clause.projectDirectory.Some? {
        rebase := Check(at, "include.project_directory", clause.projectDirectory.value, [dir], true);
      }
      assert problems == old(problems) + RebaseProblems(env, at, dir, clause);
      var paths := CheckAll(at, "include", clause.paths, dir);
      var _ := CheckAll(at, "include.env_file", clause.envFiles, dir);
      follow := Targets(paths, rebase);
    }

    /** `service`: each path it names, the build context moving as it goes. */
    method CheckService(at: Where, service: Service, mode: Mode) returns (extended: seq<Path>)
      modifies this`problems
      ensures extended == Extended(env, ServicePaths(service), |ServicePaths(service)|, mode)
      ensures problems == old(problems) + ServiceProblems(env, at, ServicePaths(service), |ServicePaths(service)|, mode)
    {
      hide ServicePaths, Refusal, Remote;
      var uses := ServicePaths(service);
      var context := mode.base;
      extended := [];
      for i := 0 to |uses|
        invariant context == ContextAt(env, uses, i, mode)
        invariant extended == Extended(env, uses, i, mode)
        invariant problems == old(problems) + ServiceProblems(env, at, uses, i, mode)
      {
        var use := uses[i];
        Reassociate(old(problems), ServiceProblems(env, at, uses, i, mode), RefusedUse(env, at, use, context, mode));
        if LeftToRender(use, mode) {
          continue;
        }
        var got := Check(at, use.key, use.value, Bases(use.kind, context, mode), Literal(use, mode));
        if got.Some? && (use.key == "build" || use.key == "build.context") {
          context := got.value;
        }
        if got.Some? && use.key == "extends.file" {
          extended := extended + [got.value];
        }
      }
    }

    /** The loops of `scan` over a document: includes, services, secrets and configs. */
    method CheckDocument(visit: Visit, doc: Document) returns (follow: seq<Target>)
      modifies this`problems
      ensures follow == PartsTargets(env, Parts(doc), |Parts(doc)|, visit, projectDir)
      ensures problems == old(problems) + PartsProblems(env, Parts(doc), |Parts(doc)|, visit, projectDir)
    {
      var parts := Parts(doc);
      follow := [];
      for i := 0 to |parts|
        invariant follow == PartsTargets(env, parts, i, visit, projectDir)
        invariant problems == old(problems) + PartsProblems(env, parts, i, visit, projectDir)
      {
        Reassociate(old(problems), PartsProblems(env, parts, i, visit, projectDir),
            PartProblems(env, parts[i], visit, projectDir));
        var more := CheckPart(visit, parts[i]);
        follow := follow + more;
      }
    }

    method CheckPart(visit: Visit, part: Part) returns (follow: seq<Target>)
      modifies this`problems
      ensures follow == PartTargets(env, part, visit, projectDir)
      ensures problems == old(problems) + PartProblems(env, part, visit, projectDir)
    {
      match part
      case Included(clause) =>
        follow := CheckInclude(visit, clause);
      case Serves(name, service) =>
        var extended := CheckService(Where(visit.path, Some(name)), service, ModeOf(visit, projectDir));
        follow := Targets(extended, None);
      case Lists(entry) =>
        if !(visit.top && Interpolated(entry.1)) {
          var _ := Check(Where(visit.path, None), entry.0, entry.1, [BaseOf(visit, projectDir)], !visit.top);
        }
        follow := [];
    }

    /** The first part of `scan`: a file is opened and checked; what it hands on is still to be followed. */
    method Open(visit: Visit) returns (follow: seq<Target>)
      requires Valid() && Inside(env, visit.path) && Real(env, visit.path) !in seen
      requires GivenByName(given, visit) || NamedBy(env, visits, projectDir, visit)
      modifies this`problems, this`seen, this`visits
      ensures Valid() && seen == old(seen) + {Real(env, visit.path)} && visits == old(visits) + [visit]
      ensures problems == old(problems) + VisitProblems(env, visit, projectDir)
      ensures follow == VisitTargets(env, visit, projectDir)
    {
      AppendVisit(env, visits, visit, projectDir, given);
      seen := seen + {Real(env, visit.path)};
      visits := visits + [visit];
      var loaded := LoadOf(env, visit);
      if loaded.Unreadable? {
        problems := problems + [Problem(Where(visit.path, None), "", Text(""), IsUnreadable)];
        return [];
      }
      if loaded.NotATable? {
        return [];
      }
      follow := CheckDocument(visit, loaded.doc);
    }

    /** `scan`: a file's own checks, then every file it includes or extends, each real path once. */
    method Scan(visit: Visit)
      requires Valid() && Inside(env, visit.path)
      requires GivenByName(given, visit) || NamedBy(env, visits, projectDir, visit)
      modifies this`problems, this`seen, this`visits
      ensures Valid() && Walked(env, projectDir, old(Now()), Now()) && Real(env, visit.path) in seen
      decreases env.files - seen, 1
    {
      WalkedNowhere(env, projectDir, Now());
      if Real(env, visit.path) in seen {
        return;
      }
      var follow := Open(visit);
      ghost var here := Now();
      WalkedNowhere(env, projectDir, here);
      if follow != [] {
        Follow(visit, follow);
      }
      OpenedAndWalked(env, projectDir, visit, old(Now()), here, Now());
    }

    /** What a file hands on is scanned, when it is a file. */
    method FollowOne(visit: Visit, target: Target)
      requires Valid() && visit in visits && target in VisitTargets(env, visit, projectDir)
      modifies this`problems, this`seen, this`visits
      ensures Valid() && visit in visits && Walked(env, projectDir, old(Now()), Now())
      ensures IsFile(env, target.path) ==> Real(env, target.path) in seen
      decreases env.files - seen, 2
    {
      WalkedNowhere(env, projectDir, Now());
      if IsFile(env, target.path) {
        HandedOn(env, visits, projectDir, visit, target);
        Scan(VisitOf(target));
        StillVisited(env, projectDir, visit, old(Now()), Now());
      }
    }

    /** The last loop of `scan`. */
    method Follow(visit: Visit, follow: seq<Target>)
      requires Valid() && visit in visits && follow == VisitTargets(env, visit, projectDir)
      modifies this`problems, this`seen, this`visits
      ensures Valid() && Walked(env, projectDir, old(Now()), Now()) && ClosedAt(env, visit, projectDir, seen)
      decreases env.files - seen, 3
    {
      hide Valid, VisitTargets;
      ghost var start := Now();
      WalkedNowhere(env, projectDir, start);
      for i := 0 to |follow|
        invariant Valid() && Walked(env, projectDir, start, Now())
        invariant visit in visits && AllOpened(env, follow[..i], seen)
      {
        ghost var here := Now();
        FollowOne(visit, follow[i]);
        WalkedTransitive(env, projectDir, start, here, Now());
        OneMoreOpened(env, follow, i, here.seen, seen);
      }
      assert follow[..|follow|] == follow;
    }

    /** One compose file given by name: scanned when inside; refused when only a link takes it out. */
    method ScanNamed(file: Path, absolute: Path -> Path, ghost dotenvOut: bool, ghost linkedOut: bool)
      requires Valid() && file in given && ClosedFrom(env, visits, 0, projectDir, seen)
      requires AllReported(env, projectDir, Now(), dotenvOut, linkedOut)
      modifies this`problems, this`seen, this`visits
      ensures Valid() && ClosedFrom(env, visits, 0, projectDir, seen) && old(seen) <= seen
      ensures Inside(env, file) ==> Real(env, file) in seen
      ensures AllReported(env, projectDir, Now(), dotenvOut, linkedOut || LinkedOut(env, file, absolute))
    {
      ghost var here := Now();
      if Inside(env, file) {
        Scan(Visit(file, true, None));
        ClosedTransitive(env, projectDir, 0, here, Now());
        ReportedOn(env, projectDir, here, Now(), dotenvOut, linkedOut);
      } else if LinkedOut(env, file, absolute) {
        problems := problems + [LinkProblem(projectDir, "-f")];
      }
    }

    /** The last loop of `raw_problems`: every compose file given by name. */
    method ScanAll(files: seq<Path>, absolute: Path -> Path, ghost dotenvOut: bool)
      requires Valid() && (forall f :: f in files ==> f in given) && ClosedFrom(env, visits, 0, projectDir, seen)
      requires AllReported(env, projectDir, Now(), dotenvOut, false)
      modifies this`problems, this`seen, this`visits
      ensures Valid() && ClosedFrom(env, visits, 0, projectDir, seen)
      ensures AllNamedOpened(env, files, seen)
      ensures AllReported(env, projectDir, Now(), dotenvOut, SomeLinkedOut(env, files, absolute))
    {
      hide Valid, AllReported, ClosedFrom, LinkedOut;
      for i := 0 to |files|
        invariant Valid() && ClosedFrom(env, visits, 0, projectDir, seen)
        invariant AllNamedOpened(env, files[..i], seen)
        invariant AllReported(env, projectDir, Now(), dotenvOut, SomeLinkedOut(env, files[..i], absolute))
      {
        ghost var here := Now();
        ScanNamed(files[i], absolute, dotenvOut, SomeLinkedOut(env, files[..i], absolute));
        OneMoreNamed(env, files, i, absolute, here.seen, seen);
      }
      assert files[..|files|] == files;
    }

    /**
      `raw_problems`: the project's own `.env`, then every compose file inside the checkout with all
      it includes or extends.
    */
    method RawProblems(files: seq<Path>, dotenv: Option<Path>, absolute: Path -> Path)
      requires Valid() && visits == [] && problems == []
      modifies this`problems, this`seen, this`visits, this`given
      ensures Valid() && ClosedFrom(env, visits, 0, projectDir, seen)
      ensures given == set f | f in files
      ensures AllNamedOpened(env, files, seen)
      ensures forall p :: p in problems <==>
        || (exists v :: v in visits && p in VisitProblems(env, v, projectDir))
        || (dotenv.Some? && !Inside(env, dotenv.value) && p == LinkProblem(projectDir, ".env"))
        || (SomeLinkedOut(env, files, absolute) && p == LinkProblem(projectDir, "-f"))
    {
      given := set f | f in files;
      if dotenv.Some? && !Inside(env, dotenv.value) {
        problems := [LinkProblem(projectDir, ".env")];
      }
      ScanAll(files, absolute, dotenv.Some? && !Inside(env, dotenv.value));
      assert forall p :: ReportedOf(env, projectDir, visits, p) <==>
        exists v :: v in visits && p in VisitProblems(env, v, projectDir);
    }
  }

  // ---------------------------------------------------------------------------------------------
  // What a finished walk says
  // ---------------------------------------------------------------------------------------------

  lemma TargetAmong(paths: seq<Path>, base: Option<Path>, path: Path)
    requires path in paths
    ensures Target(path, base) in Targets(paths, base)
  {
    var i :| 0 <= i < |paths| && paths[i] == path;
    assert Targets(paths, base)[i] == Target(path, base);
  }

  /** `to` is a file that some visit of `from` hands on. */
  ghost predicate Leads(env: Env, visits: seq<Visit>, projectDir: Path, from: Path, to: Path) {
    exists v, t :: v in visits && t in VisitTargets(env, v, projectDir)
              && Real(env, v.path) == from && IsFile(env, t.path) && Real(env, t.path) == to
  }

  ghost predicate Chain(env: Env, visits: seq<Visit>, projectDir: Path, chain: seq<Path>) {
    forall i, j :: 0 <= i && j == i + 1 && j < |chain| ==> Leads(env, visits, projectDir, chain[i], chain[j])
  }

  /** Whatever a chain of includes and extends reaches from an opened file has been opened, cycles or not. */
  lemma {:induction false} ChainsStayOpened(env: Env, visits: seq<Visit>, projectDir: Path, seen: set<Path>,
      chain: seq<Path>)
    requires ClosedFrom(env, visits, 0, projectDir, seen)
    requires chain != [] && chain[0] in seen && Chain(env, visits, projectDir, chain)
    ensures chain[|chain| - 1] in seen
    decreases |chain|
  {
    if |chain| > 1 {
      var head := chain[..|chain| - 1];
      assert Chain(env, visits, projectDir, head) by {
        forall i, j | 0 <= i && j == i + 1 && j < |head| ensures Leads(env, visits, projectDir, head[i], head[j]) {
          assert Leads(env, visits, projectDir, chain[i], chain[j]);
        }
      }
      ChainsStayOpened(env, visits, projectDir, seen, head);
      var from, to := chain[|chain| - 2], chain[|chain| - 1];
      assert Leads(env, visits, projectDir, from, to);
      var v, t :| v in visits && t in VisitTargets(env, v, projectDir)
        && Real(env, v.path) == from && IsFile(env, t.path) && Real(env, t.path) == to;
      var n :| 0 <= n < |visits| && visits[n] == v;
      assert ClosedAt(env, visits[n], projectDir, seen);
    }
  }
}
