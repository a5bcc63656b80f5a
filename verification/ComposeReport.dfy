/**
  What the walk over compose files reports and follows, said of the documents themselves: which
  values of a document are to be checked, from which directories, and what becomes of each.
*/
module ComposeReport {
  import opened Common
  import opened ComposeScan

  // ---------------------------------------------------------------------------------------------
  // What is asked of one value
  // ---------------------------------------------------------------------------------------------

  /** A value to be checked: every one of `bases` must keep it inside, and `$` may be out of the question. */
  datatype Demand = Demand(key: string, value: Value, bases: seq<Path>, literal: bool)

  /** The text has one of the four forms a client would fetch. */
  ghost predicate Fetched(text: string) {
    || (exists a: string, b: string :: text == a + "://" + b)
    || (exists b: string :: text == "git@" + b)
    || (exists a: string, b: string :: text == a + ".git#" + b)
    || (exists a: string :: text == a + ".git")
  }

  /** Every link resolved, the path is a root or continues one. */
  ghost predicate UnderARoot(env: Env, path: Path) {
    exists root, rest: Path :: root in env.roots && (env.resolve)(path) == root + rest
  }

  ghost predicate Met(env: Env, d: Demand) {
    && d.value.Text? && d.value.text != "" && (d.literal ==> '$' !in d.value.text)
    && ("build" <= d.key ==> !Fetched(d.value.text))
    && forall base :: base in d.bases ==> UnderARoot(env, (env.at)(base, d.value.text))
  }

  /** The one reason a demand that is not met is refused for: the first of these that holds. */
  ghost predicate RefusedFor(env: Env, d: Demand, why: Why) {
    var isPath := d.value.Text? && d.value.text != "";
    var isOpen := isPath && d.literal && '$' in d.value.text;
    var isFetched := isPath && "build" <= d.key && Fetched(d.value.text);
    match why
    case NotAPath => !isPath
    case UsesInterpolation => isOpen
    case IsRemote => isFetched && !isOpen
    case IsOutside => isPath && !isOpen && !isFetched && !Met(env, d)
    case IsUnreadable => false
    case LinkOutside => false
  }

  lemma ContainsIsBetween(text: string, part: string)
    ensures Contains(text, part) <==> exists a: string, b: string :: text == a + part + b
  {
    if i :| 0 <= i <= |text| && part <= text[i..] {
      assert text == text[..i] + part + text[i + |part|..];
    }
    if a: string, b: string :| text == a + part + b {
      assert text[|a|..] == part + b;
    }
  }

  lemma RemoteIsFetched(text: string)
    ensures Remote(text) <==> Fetched(text)
  {
    ContainsIsBetween(text, "://");
    ContainsIsBetween(text, ".git#");
    if "git@" <= text {
      assert text == "git@" + text[4..];
    }
    if EndsWith(text, ".git") {
      assert text == text[..|text| - 4] + ".git";
    }
  }

  lemma InsideIsUnderARoot(env: Env, path: Path)
    ensures Inside(env, path) <==> UnderARoot(env, path)
  {
    if root :| root in env.roots && root <= Real(env, path) {
      assert Real(env, path) == root + Real(env, path)[|root|..];
    }
  }

  /** One check accepts a value exactly when what is asked of it is met, and otherwise says why not. */
  lemma CheckedExactly(env: Env, d: Demand)
    requires d.bases != []
    ensures Got(env, d.key, d.value, d.bases, d.literal)
         == if Met(env, d) then Some((env.at)(d.bases[0], d.value.text)) else None
    ensures forall why :: Refusal(env, d.key, d.value, d.bases, d.literal) == Some(why) <==> RefusedFor(env, d, why)
    ensures Refusal(env, d.key, d.value, d.bases, d.literal).None? <==> Met(env, d)
  {
    AcceptedExactly(env, d.key, d.value, d.bases, d.literal);
    if d.value.Text? {
      RemoteIsFetched(d.value.text);
      forall base ensures Inside(env, At(env, base, d.value.text)) <==>
                          UnderARoot(env, (env.at)(base, d.value.text)) {
        InsideIsUnderARoot(env, At(env, base, d.value.text));
      }
    }
  }

  // ---------------------------------------------------------------------------------------------
  // What a service asks
  // ---------------------------------------------------------------------------------------------

  /** The value names an image or another stage, not a directory. */
  predicate NamesAnImage(shown: string) {
    || "docker-image://" <= shown || "container-image://" <= shown || "oci-layout://" <= shown
    || "service:" <= shown || "target:" <= shown
  }

  /** An `ssh` entry names this key file: after its first `=`, or by itself when it is not the word `default`. */
  ghost predicate NamesKey(entry: string, path: string) {
    || (exists name: string :: '=' !in name && entry == name + "=" + path)
    || ('=' !in entry && entry != "default" && entry == path)
  }

  /** A build's context: what its value names from `base` if that is literal and acceptable, else `base`. */
  ghost function ContextOf(env: Env, value: Value, base: Path): Path {
    if Met(env, Demand("build.context", value, [base], true)) then (env.at)(base, value.text) else base
  }

  ghost predicate BuildDemands(env: Env, build: Build, base: Path, top: bool, d: Demand) {
    d.literal == !top &&
    match build
    case NoBuild => false
    case BuildAt(text) => d.key == "build" && d.value == Text(text) && d.bases == [base]
    case BuildTable(contextPath, dockerfile, additional, ssh) =>
      var value := if contextPath.Some? then contextPath.value else Text(".");
      var context := ContextOf(env, value, base);
      || (d.key == "build.context" && d.value == value && d.bases == [base])
      || (d.key == "build.dockerfile" && dockerfile == Some(d.value) && d.bases == [context])
      || (d.bases == [context, base, base] && !NamesAnImage(Shown(d.value)) && exists name ::
            (name, d.value) in additional && d.key == "build.additional_contexts." + name)
      || (d.key == "build.ssh" && d.bases == [base] && d.value.Text? && d.value.text != "" && exists entry ::
            entry in ssh && NamesKey(entry, d.value.text))
  }

  /** The values of a service that are to be checked, and how: an extended file must be literal in any file. */
  ghost predicate ServiceDemands(env: Env, service: Service, base: Path, top: bool, d: Demand) {
    || (d.key == "env_file" && d.value in service.envFiles && d.bases == [base] && d.literal == !top)
    || (d.key == "label_file" && d.value in service.labelFiles && d.bases == [base] && d.literal == !top)
    || (d.key == "extends.file" && service.extendsFile == Some(d.value) && d.bases == [base] && d.literal)
    || BuildDemands(env, service.build, base, top, d)
  }

  /** A value of a file given by name that uses `$` is left to the rendered pass, unless it must be literal. */
  predicate ForTheRender(top: bool, d: Demand) {
    top && !d.literal && d.value.Text? && '$' in d.value.text
  }

  function ModeAt(base: Path, top: bool): Mode {
    Mode(base, base, !top, top)
  }

  /** The use at `k` as a demand. */
  function DemandAt(env: Env, uses: seq<PathUse>, k: nat, base: Path, top: bool): Demand
    requires k < |uses|
  {
    var mode := ModeAt(base, top);
    Demand(uses[k].key, uses[k].value, Bases(uses[k].kind, ContextAt(env, uses, k, mode), mode), Literal(uses[k], mode))
  }

  lemma AllMembers(key: string, values: seq<Value>, use: PathUse)
    ensures use in All(key, values) <==> use.key == key && use.kind == FromDir && use.value in values
  {
    AllLists(key, values);
    if use in All(key, values) {
      var i :| 0 <= i < |values| && All(key, values)[i] == use;
      assert values[i] in values;
    }
  }

  ghost predicate IsAdditional(entries: seq<(string, Value)>, use: PathUse) {
    use.kind == FromAny && !NamesAnImage(Shown(use.value)) && exists name ::
      (name, use.value) in entries && use.key == "build.additional_contexts." + name
  }

  lemma {:induction false} AdditionalMembers(entries: seq<(string, Value)>, use: PathUse)
    ensures use in AdditionalContexts(entries) <==> IsAdditional(entries, use)
    decreases entries
  {
    if entries != [] {
      AdditionalMembers(entries[1..], use);
      var (name, value) := entries[0];
      assert entries == [entries[0]] + entries[1..];
      assert (exists r :: r in IMAGE_REFS && r <= Shown(value)) <==> NamesAnImage(Shown(value)) by {
        assert IMAGE_REFS[0] in IMAGE_REFS && IMAGE_REFS[1] in IMAGE_REFS && IMAGE_REFS[2] in IMAGE_REFS
            && IMAGE_REFS[3] in IMAGE_REFS && IMAGE_REFS[4] in IMAGE_REFS;
      }
    }
  }

  lemma EqualsIsIn(name: string, path: string)
    ensures '=' in name + "=" + path
  {
    assert (name + "=" + path)[|name|] == '=';
  }

  lemma {:induction false} AfterEqualsOf(name: string, path: string)
    requires '=' !in name
    ensures AfterEquals(name + "=" + path) == path
    decreases name
  {
    var text := name + "=" + path;
    if name == "" {
      assert text[1..] == path;
    } else {
      assert text[0] == name[0] && text[1..] == name[1..] + "=" + path;
      AfterEqualsOf(name[1..], path);
    }
  }

  lemma {:induction false} BeforeEquals(text: string) returns (name: string)
    requires '=' in text
    ensures '=' !in name && text == name + "=" + AfterEquals(text)
    decreases text
  {
    if text[0] == '=' {
      name := "";
    } else {
      var rest := BeforeEquals(text[1..]);
      name := [text[0]] + rest;
      assert text == [text[0]] + text[1..];
    }
  }

  lemma SshPathExactly(entry: string, path: string)
    requires path != ""
    ensures SshPath(entry) == path <==> NamesKey(entry, path)
  {
    if '=' in entry {
      var before := BeforeEquals(entry);
      forall name: string | '=' !in name && entry == name + "=" + path ensures AfterEquals(entry) == path {
        AfterEqualsOf(name, path);
      }
    } else {
      forall name: string ensures entry == name + "=" + path ==> '=' in entry {
        EqualsIsIn(name, path);
      }
    }
  }

  lemma {:induction false} SshMembers(entries: seq<string>, use: PathUse)
    ensures use in SshKeys(entries) <==>
      (use.key == "build.ssh" && use.kind == FromDir && use.value.Text? && use.value.text != ""
        && exists entry :: entry in entries && NamesKey(entry, use.value.text))
    decreases entries
  {
    if entries != [] {
      SshMembers(entries[1..], use);
      assert entries == [entries[0]] + entries[1..];
      if use.value.Text? && use.value.text != "" {
        SshPathExactly(entries[0], use.value.text);
      }
    }
  }

  predicate InFront(service: Service, use: PathUse) {
    use.kind == FromDir &&
    (|| (use.key == "env_file" && use.value in service.envFiles)
     || (use.key == "label_file" && use.value in service.labelFiles)
     || (use.key == "extends.file" && service.extendsFile == Some(use.value)))
  }

  /** A service's uses: those before its build, each exactly where the service says so, then the build's. */
  lemma UsesInOrder(service: Service) returns (front: seq<PathUse>)
    ensures ServicePaths(service) == front + BuildPaths(service.build)
    ensures forall use :: use in front <==> InFront(service, use)
  {
    front := All("env_file", service.envFiles) + All("label_file", service.labelFiles)
      + (if service.extendsFile.Some? then [PathUse("extends.file", service.extendsFile.value, FromDir)] else []);
    forall use ensures use in front <==> InFront(service, use) {
      AllMembers("env_file", service.envFiles, use);
      AllMembers("label_file", service.labelFiles, use);
    }
  }

  /** The uses of a build after its context. */
  ghost predicate AfterContext(build: Build, use: PathUse)
    requires build.BuildTable?
  {
    || (use.key == "build.dockerfile" && build.dockerfile == Some(use.value) && use.kind == FromContext)
    || IsAdditional(build.additional, use)
    || (use.key == "build.ssh" && use.kind == FromDir && use.value.Text? && use.value.text != ""
        && exists entry :: entry in build.ssh && NamesKey(entry, use.value.text))
  }

  lemma BuildInOrder(build: Build) returns (rest: seq<PathUse>)
    requires build.BuildTable?
    ensures BuildPaths(build) == [PathUse("build.context", build.contextPath.GetOr(Text(".")), FromDir)] + rest
    ensures forall use :: use in rest <==> AfterContext(build, use)
  {
    rest := (if build.dockerfile.Some? then [PathUse("build.dockerfile", build.dockerfile.value, FromContext)] else [])
      + AdditionalContexts(build.additional) + SshKeys(build.ssh);
    forall use ensures use in rest <==> AfterContext(build, use) {
      AdditionalMembers(build.additional, use);
      SshMembers(build.ssh, use);
    }
  }

  lemma {:induction false} ContextStays(env: Env, uses: seq<PathUse>, from: nat, n: nat, mode: Mode)
    requires from <= n <= |uses| && forall i :: from <= i < n ==>
              uses[i].key != "build" && uses[i].key != "build.context"
    ensures ContextAt(env, uses, n, mode) == ContextAt(env, uses, from, mode)
    decreases n
  {
    if from < n {
      ContextStays(env, uses, from, n - 1, mode);
    }
  }

  lemma AfterContextIsNoContext(build: Build, use: PathUse)
    requires build.BuildTable? && AfterContext(build, use)
    ensures use.key != "build" && use.key != "build.context" && use.key != "extends.file"
  {
    if name :| (name, use.value) in build.additional && use.key == "build.additional_contexts." + name {
      assert use.key[6] == 'a';
    }
  }

  /** The context a build's own context value leaves. */
  lemma ContextIsContextOf(env: Env, use: PathUse, base: Path, top: bool)
    requires use.key == "build.context" && use.kind == FromDir
    ensures NextContext(env, use, base, ModeAt(base, top)) == ContextOf(env, use.value, base)
  {
    CheckedExactly(env, Demand("build.context", use.value, [base], true));
    CheckedExactly(env, Demand("build.context", use.value, [base], false));
    assert Demand("build.context", use.value, [base], true).bases == [base];
  }

  /** Where in a service's uses the build begins, and the context each use is checked with. */
  lemma ContextAtUse(env: Env, service: Service, base: Path, top: bool, k: nat) returns (n: nat)
    requires k < |ServicePaths(service)|
    ensures var uses := ServicePaths(service);
      var context := ContextAt(env, uses, k, ModeAt(base, top));
      && n <= |uses| && uses[n..] == BuildPaths(service.build) && (k <= n ==> context == base)
      && (k < n ==> InFront(service, uses[k]))
      && (k > n && service.build.BuildTable? ==>
            && AfterContext(service.build, uses[k])
            && context == ContextOf(env, service.build.contextPath.GetOr(Text(".")), base))
  {
    hide ServicePaths, BuildPaths, AfterContext, ContextOf;
    var uses, mode := ServicePaths(service), ModeAt(base, top);
    var front := UsesInOrder(service);
    n := |front|;
    assert uses[n..] == BuildPaths(service.build);
    assert forall i :: 0 <= i < n ==> uses[i] == front[i] && front[i] in front;
    ContextUntilBuild(env, uses, if k < n then k else n, mode);
    if k > n && service.build.BuildTable? {
      ContextAfter(env, uses, n, service.build, base, top, k);
    }
  }

  /** After its context, each use of a build is checked with the context that leaves. */
  lemma ContextAfter(env: Env, uses: seq<PathUse>, n: nat, build: Build, base: Path, top: bool, k: nat)
    requires n < k < |uses| && build.BuildTable? && uses[n..] == BuildPaths(build)
    requires ContextAt(env, uses, n, ModeAt(base, top)) == base
    ensures AfterContext(build, uses[k])
    ensures ContextAt(env, uses, k, ModeAt(base, top)) == ContextOf(env, build.contextPath.GetOr(Text(".")), base)
  {
    hide BuildPaths, AfterContext, ContextOf;
    var rest := BuildInOrder(build);
    forall i | n < i <= k
      ensures AfterContext(build, uses[i]) && uses[i].key != "build" && uses[i].key != "build.context"
    {
      assert uses[i] == uses[n..][i - n] == rest[i - n - 1];
      assert rest[i - n - 1] in rest;
      AfterContextIsNoContext(build, uses[i]);
    }
    assert uses[n] == uses[n..][0] == BuildPaths(build)[0];
    ContextIsContextOf(env, uses[n], base, top);
    ContextStays(env, uses, n + 1, k, ModeAt(base, top));
  }

  /** Each use of a service is checked as one of its demands. */
  lemma UseIsDemand(env: Env, service: Service, base: Path, top: bool, k: nat)
    requires k < |ServicePaths(service)|
    ensures ServiceDemands(env, service, base, top, DemandAt(env, ServicePaths(service), k, base, top))
  {
    var uses := ServicePaths(service);
    var n := ContextAtUse(env, service, base, top, k);
    assert k >= n ==> uses[k] == uses[n..][k - n];
    if k > n && service.build.BuildTable? {
      AfterContextIsNoContext(service.build, uses[k]);
    }
  }

  lemma UseAt(uses: seq<PathUse>, n: nat, build: seq<PathUse>, use: PathUse) returns (k: nat)
    requires n <= |uses| && uses[n..] == build && use in build
    ensures n <= k < |uses| && uses[k] == use && uses[k] == build[k - n]
  {
    var i :| 0 <= i < |build| && build[i] == use;
    k := n + i;
  }

  /** And each of its demands is a use. */
  lemma DemandIsUse(env: Env, service: Service, base: Path, top: bool, d: Demand) returns (k: nat)
    requires ServiceDemands(env, service, base, top, d)
    ensures k < |ServicePaths(service)| && DemandAt(env, ServicePaths(service), k, base, top) == d
  {
    if BuildDemands(env, service.build, base, top, d) {
      k := BuildDemandIsUse(env, service, base, top, d);
    } else {
      var uses := ServicePaths(service);
      var front := UsesInOrder(service);
      var use := PathUse(d.key, d.value, FromDir);
      assert use in front;
      k :| 0 <= k < |front| && front[k] == use;
      assert uses[k] == use;
    }
  }

  lemma BuildDemandIsUse(env: Env, service: Service, base: Path, top: bool, d: Demand) returns (k: nat)
    requires BuildDemands(env, service.build, base, top, d)
    ensures k < |ServicePaths(service)| && DemandAt(env, ServicePaths(service), k, base, top) == d
  {
    var uses, build := ServicePaths(service), service.build;
    var front := UsesInOrder(service);
    assert uses[|front|..] == BuildPaths(build);
    var use := BuildDemandUse(env, build, base, top, d);
    k := UseAt(uses, |front|, BuildPaths(build), use);
    hide ServicePaths, BuildDemands, BuildPaths, ContextOf;
    var n := ContextAtUse(env, service, base, top, k);
  }

  /** The use a build's demand comes from. */
  lemma BuildDemandUse(env: Env, build: Build, base: Path, top: bool, d: Demand) returns (use: PathUse)
    requires BuildDemands(env, build, base, top, d)
    ensures use in BuildPaths(build) && use.key == d.key && use.value == d.value
    ensures use.key == "build.context" ==> use == BuildPaths(build)[0]
    ensures build.BuildTable? && use.key != "build.context" ==> AfterContext(build, use)
    ensures d.literal == !top && d.key != "extends.file"
    ensures match use.kind
      case FromDir => d.bases == [base]
      case FromContext => build.BuildTable? && d.bases == [ContextOf(env, build.contextPath.GetOr(Text(".")), base)]
      case FromAny =>
        build.BuildTable? && d.bases == [ContextOf(env, build.contextPath.GetOr(Text(".")), base), base, base]
  {
    use := PathUse(d.key, d.value, FromDir);
    if build.BuildTable? {
      hide ContextOf;
      use := if |d.bases| == 3 then use.(kind := FromAny)
             else if d.key == "build.dockerfile" then use.(kind := FromContext) else use;
      var rest := BuildInOrder(build);
      assert BuildPaths(build)[0].key == "build.context";
      assert d.key != "build.context" ==> AfterContext(build, use);
    }
  }

  /** This demand is refused, for this reason, and the problem says so. */
  ghost predicate Reports(env: Env, top: bool, d: Demand, p: Problem) {
    !ForTheRender(top, d) && p.key == d.key && p.value == d.value && RefusedFor(env, d, p.why)
  }

  lemma RefusedExactly(env: Env, at: Where, uses: seq<PathUse>, k: nat, base: Path, top: bool, p: Problem)
    requires k < |uses|
    ensures p in RefusedUse(env, at, uses[k], ContextAt(env, uses, k, ModeAt(base, top)), ModeAt(base, top)) <==>
      p.at == at && Reports(env, top, DemandAt(env, uses, k, base, top), p)
    ensures GotUse(env, uses[k], ContextAt(env, uses, k, ModeAt(base, top)), ModeAt(base, top))
      == var d := DemandAt(env, uses, k, base, top);
         if !ForTheRender(top, d) && Met(env, d) then Some((env.at)(d.bases[0], d.value.text)) else None
  {
    hide Refusal, Got, Met, ContextAt;
    var d := DemandAt(env, uses, k, base, top);
    CheckedExactly(env, d);
    var why := Refusal(env, d.key, d.value, d.bases, d.literal);
    assert why.Some? ==> RefusedFor(env, d, why.value);
  }

  lemma ServiceProblemsUnfold(env: Env, at: Where, uses: seq<PathUse>, n: nat, mode: Mode, p: Problem)
    requires n <= |uses|
    ensures n > 0 ==> (p in ServiceProblems(env, at, uses, n, mode) <==>
      || p in ServiceProblems(env, at, uses, n - 1, mode)
      || p in RefusedUse(env, at, uses[n - 1], ContextAt(env, uses, n - 1, mode), mode))
    ensures p !in ServiceProblems(env, at, uses, 0, mode)
  {
    hide RefusedUse, ContextAt;
  }

  lemma {:induction false} ServiceProblemFrom(env: Env, at: Where, uses: seq<PathUse>, n: nat, mode: Mode, p: Problem)
    requires n <= |uses|
    ensures p in ServiceProblems(env, at, uses, n, mode) <==>
      exists k :: 0 <= k < n && p in RefusedUse(env, at, uses[k], ContextAt(env, uses, k, mode), mode)
  {
    hide ServiceProblems, RefusedUse, ContextAt;
    ServiceProblemsUnfold(env, at, uses, n, mode, p);
    if n > 0 {
      ServiceProblemFrom(env, at, uses, n - 1, mode, p);
    }
  }

  /** The use at `k` extends this file. */
  predicate ExtendsAt(env: Env, uses: seq<PathUse>, k: nat, mode: Mode, path: Path)
    requires k < |uses|
  {
    uses[k].key == "extends.file" && GotUse(env, uses[k], ContextAt(env, uses, k, mode), mode) == Some(path)
  }

  lemma ExtendedUnfold(env: Env, uses: seq<PathUse>, n: nat, mode: Mode, path: Path)
    requires n <= |uses|
    ensures n > 0 ==> (path in Extended(env, uses, n, mode) <==>
      path in Extended(env, uses, n - 1, mode) || ExtendsAt(env, uses, n - 1, mode, path))
    ensures path !in Extended(env, uses, 0, mode)
  {
    hide GotUse, ContextAt;
  }

  lemma {:induction false} ExtendedFrom(env: Env, uses: seq<PathUse>, n: nat, mode: Mode, path: Path)
    requires n <= |uses|
    ensures path in Extended(env, uses, n, mode) <==> exists k :: 0 <= k < n && ExtendsAt(env, uses, k, mode, path)
  {
    hide Extended, ExtendsAt;
    ExtendedUnfold(env, uses, n, mode, path);
    if n > 0 {
      ExtendedFrom(env, uses, n - 1, mode, path);
    }
  }

  /** What is reported of a service is exactly what its demands are refused for. */
  lemma ServiceReportedExactly(env: Env, at: Where, service: Service, base: Path, top: bool, p: Problem)
    ensures p in ServiceProblems(env, at, ServicePaths(service), |ServicePaths(service)|, ModeAt(base, top)) <==>
      p.at == at && exists d :: ServiceDemands(env, service, base, top, d) && Reports(env, top, d, p)
  {
    hide ServicePaths, ServiceDemands, Reports, RefusedUse, ServiceProblems, ContextAt;
    var uses, mode := ServicePaths(service), ModeAt(base, top);
    ServiceProblemFrom(env, at, uses, |uses|, mode, p);
    if k :| 0 <= k < |uses| && p in RefusedUse(env, at, uses[k], ContextAt(env, uses, k, mode), mode) {
      RefusedExactly(env, at, uses, k, base, top, p);
      UseIsDemand(env, service, base, top, k);
    }
    if d :| p.at == at && ServiceDemands(env, service, base, top, d) && Reports(env, top, d, p) {
      var k := DemandIsUse(env, service, base, top, d);
      RefusedExactly(env, at, uses, k, base, top, p);
    }
  }

  /** The extended files are exactly the one a service names, when it is literal and acceptable. */
  lemma ExtendedExactly(env: Env, service: Service, base: Path, top: bool, path: Path)
    ensures path in Extended(env, ServicePaths(service), |ServicePaths(service)|, ModeAt(base, top)) <==>
      && service.extendsFile.Some?
      && Met(env, Demand("extends.file", service.extendsFile.value, [base], true))
      && path == (env.at)(base, service.extendsFile.value.text)
  {
    hide ServicePaths, Met, GotUse, Extended, ContextAt, DemandAt;
    var uses, mode := ServicePaths(service), ModeAt(base, top);
    ExtendedFrom(env, uses, |uses|, mode, path);
    if k :| 0 <= k < |uses| && ExtendsAt(env, uses, k, mode, path) {
      RefusedExactly(env, Where([], None), uses, k, base, top, Problem(Where([], None), "", Text(""), NotAPath));
      UseIsDemand(env, service, base, top, k);
      var d := DemandAt(env, uses, k, base, top);
      UseKey(env, uses, k, base, top);
      OnlyExtends(env, service, base, top, d);
    }
    if service.extendsFile.Some? {
      var d := Demand("extends.file", service.extendsFile.value, [base], true);
      var k := DemandIsUse(env, service, base, top, d);
      UseKey(env, uses, k, base, top);
      RefusedExactly(env, Where([], None), uses, k, base, top, Problem(Where([], None), "", Text(""), NotAPath));
      assert ExtendsAt(env, uses, k, mode, path) <==>
        GotUse(env, uses[k], ContextAt(env, uses, k, mode), mode) == Some(path);
    }
  }

  lemma UseKey(env: Env, uses: seq<PathUse>, k: nat, base: Path, top: bool)
    requires k < |uses|
    ensures DemandAt(env, uses, k, base, top).key == uses[k].key
  {
  }

  lemma OnlyExtends(env: Env, service: Service, base: Path, top: bool, d: Demand)
    requires ServiceDemands(env, service, base, top, d) && d.key == "extends.file"
    ensures service.extendsFile.Some? && d == Demand("extends.file", service.extendsFile.value, [base], true)
  {
  }

  // ---------------------------------------------------------------------------------------------
  // What a document asks
  // ---------------------------------------------------------------------------------------------

  ghost predicate IncludeDemands(clause: Include, dir: Path, d: Demand) {
    && d.literal && d.bases == [dir]
    && (|| (d.key == "include" && d.value in clause.paths)
        || (d.key == "include.env_file" && d.value in clause.envFiles)
        || (d.key == "include.project_directory" && clause.projectDirectory == Some(d.value)))
  }

  /**
    The values of a document at `file` that are to be checked, and where each stands: includes from
    the file's own directory, services and top-level entries from `base`.
  */
  ghost predicate Demands(env: Env, doc: Document, file: Path, base: Path, top: bool, at: Where, d: Demand) {
    || (at == Where(file, None) && exists clause :: clause in doc.includes && IncludeDemands(clause, DirOf(file), d))
    || (at == Where(file, None) && (d.key, d.value) in doc.topLevel && d.bases == [base] && d.literal == !top)
    || (exists name, service ::
          (name, service) in doc.services && at == Where(file, Some(name))
              && ServiceDemands(env, service, base, top, d))
  }

  function DirOf(file: Path): Path {
    if file == [] then [] else file[..|file| - 1]
  }

  /** The visit finds this document, and takes its relative paths from `base`. */
  ghost predicate Finds(env: Env, visit: Visit, projectDir: Path, doc: Document, base: Path) {
    && (env.resolve)(visit.path) in env.files && (env.load)((env.resolve)(visit.path)) == Loaded(doc)
    && match visit.base
       case Some(given) => base == given
       case None => base == (if visit.top then projectDir else DirOf(visit.path))
  }

  lemma {:induction false} RefusedAllFrom(env: Env, at: Where, key: string, values: seq<Value>, n: nat, base: Path,
      p: Problem)
    requires n <= |values|
    ensures p in RefusedAll(env, at, key, values, n, base) <==>
      exists v :: v in values[..n] && p in Refused(env, at, key, v, [base], true)
  {
    if n > 0 {
      hide Refused;
      RefusedAllFrom(env, at, key, values, n - 1, base, p);
      assert values[..n] == values[..n - 1] + [values[n - 1]];
    }
  }

  lemma {:induction false} GotAllFrom(env: Env, key: string, values: seq<Value>, n: nat, base: Path, path: Path)
    requires n <= |values|
    ensures path in GotAll(env, key, values, n, base) <==>
      exists v :: v in values[..n] && Got(env, key, v, [base], true) == Some(path)
  {
    if n > 0 {
      hide Got;
      GotAllFrom(env, key, values, n - 1, base, path);
      assert values[..n] == values[..n - 1] + [values[n - 1]];
    }
  }

  lemma OneRefused(env: Env, at: Where, d: Demand, p: Problem)
    requires d.bases != []
    ensures p in Refused(env, at, d.key, d.value, d.bases, d.literal) <==>
      p.at == at && p.key == d.key && p.value == d.value && RefusedFor(env, d, p.why)
  {
    hide Refusal, RefusedFor;
    CheckedExactly(env, d);
  }

  lemma AllRefused(env: Env, at: Where, key: string, values: seq<Value>, dir: Path, p: Problem)
    ensures p in RefusedAll(env, at, key, values, |values|, dir) <==>
      p.at == at && p.key == key && p.value in values && RefusedFor(env, Demand(key, p.value, [dir], true), p.why)
  {
    hide Refused, RefusedFor;
    RefusedAllFrom(env, at, key, values, |values|, dir, p);
    assert values[..|values|] == values;
    forall v ensures p in Refused(env, at, key, v, [dir], true) <==>
        p.at == at && p.key == key && p.value == v && RefusedFor(env, Demand(key, v, [dir], true), p.why) {
      OneRefused(env, at, Demand(key, v, [dir], true), p);
    }
  }

  lemma IncludeReportedExactly(env: Env, at: Where, dir: Path, clause: Include, p: Problem)
    ensures p in IncludeProblems(env, at, dir, clause) <==>
      p.at == at && exists d :: IncludeDemands(clause, dir, d) && Reports(env, false, d, p)
  {
    hide Refused, RefusedFor, RefusedAll;
    AllRefused(env, at, "include", clause.paths, dir, p);
    AllRefused(env, at, "include.env_file", clause.envFiles, dir, p);
    if clause.projectDirectory.Some? {
      OneRefused(env, at, Demand("include.project_directory", clause.projectDirectory.value, [dir], true), p);
    }
    var d := Demand(p.key, p.value, [dir], true);
    if p in IncludeProblems(env, at, dir, clause) {
      assert IncludeDemands(clause, dir, d) && Reports(env, false, d, p);
    }
    if e :| p.at == at && IncludeDemands(clause, dir, e) && Reports(env, false, e, p) {
      assert e == d;
    }
  }

  lemma TopLevelReportedExactly(env: Env, at: Where, entry: (string, Value), visit: Visit, projectDir: Path, p: Problem)
    ensures var base := BaseOf(visit, projectDir);
      p in TopLevelProblems(env, at, entry, visit, projectDir) <==>
        p.at == at && Reports(env, visit.top, Demand(entry.0, entry.1, [base], !visit.top), p)
  {
    hide Refused, RefusedFor;
    OneRefused(env, at, Demand(entry.0, entry.1, [BaseOf(visit, projectDir)], !visit.top), p);
  }

  lemma PartsProblemsUnfold(env: Env, parts: seq<Part>, n: nat, visit: Visit, projectDir: Path, p: Problem)
    requires n <= |parts|
    ensures n > 0 ==> (p in PartsProblems(env, parts, n, visit, projectDir) <==>
      p in PartsProblems(env, parts, n - 1, visit, projectDir)
          || p in PartProblems(env, parts[n - 1], visit, projectDir))
    ensures p !in PartsProblems(env, parts, 0, visit, projectDir)
  {
    hide PartProblems;
  }

  lemma {:induction false} ProblemFromPart(env: Env, parts: seq<Part>, n: nat, visit: Visit, projectDir: Path,
      p: Problem)
    requires n <= |parts|
    ensures p in PartsProblems(env, parts, n, visit, projectDir) <==>
      exists k :: 0 <= k < n && p in PartProblems(env, parts[k], visit, projectDir)
  {
    hide PartsProblems, PartProblems;
    PartsProblemsUnfold(env, parts, n, visit, projectDir, p);
    if n > 0 {
      ProblemFromPart(env, parts, n - 1, visit, projectDir, p);
    }
  }

  lemma PartsTargetsUnfold(env: Env, parts: seq<Part>, n: nat, visit: Visit, projectDir: Path, t: Target)
    requires n <= |parts|
    ensures n > 0 ==> (t in PartsTargets(env, parts, n, visit, projectDir) <==>
      t in PartsTargets(env, parts, n - 1, visit, projectDir) || t in PartTargets(env, parts[n - 1], visit, projectDir))
    ensures t !in PartsTargets(env, parts, 0, visit, projectDir)
  {
    hide PartTargets;
  }

  lemma {:induction false} TargetFromPart(env: Env, parts: seq<Part>, n: nat, visit: Visit, projectDir: Path, t: Target)
    requires n <= |parts|
    ensures t in PartsTargets(env, parts, n, visit, projectDir) <==>
      exists k :: 0 <= k < n && t in PartTargets(env, parts[k], visit, projectDir)
  {
    hide PartsTargets, PartTargets;
    PartsTargetsUnfold(env, parts, n, visit, projectDir, t);
    if n > 0 {
      TargetFromPart(env, parts, n - 1, visit, projectDir, t);
    }
  }

  lemma PartsAreTheDocument(doc: Document, part: Part)
    ensures part in Parts(doc) <==>
      match part
      case Included(clause) => clause in doc.includes
      case Serves(name, service) => (name, service) in doc.services
      case Lists(entry) => entry in doc.topLevel
  {
    var parts, m, n := Parts(doc), |doc.includes|, |doc.services|;
    match part
    case Included(clause) =>
      if i :| 0 <= i < m && doc.includes[i] == clause { assert parts[i] == part; }
    case Serves(name, service) =>
      if i :| 0 <= i < n && doc.services[i] == (name, service) { assert parts[m + i] == part; }
    case Lists(entry) =>
      if i :| 0 <= i < |doc.topLevel| && doc.topLevel[i] == entry { assert parts[m + n + i] == part; }
  }

  lemma FindsIsLoaded(env: Env, visit: Visit, projectDir: Path, doc: Document, base: Path)
    requires Finds(env, visit, projectDir, doc, base)
    ensures LoadOf(env, visit) == Loaded(doc) && BaseOf(visit, projectDir) == base
    ensures ModeOf(visit, projectDir) == ModeAt(base, visit.top) && Parent(visit.path) == DirOf(visit.path)
  {
  }

  lemma ReportsLiteral(env: Env, top: bool, d: Demand, p: Problem)
    requires d.literal
    ensures Reports(env, top, d, p) <==> Reports(env, false, d, p)
  {
  }

  /** What one part of a document is reported for, said of the document. */
  ghost predicate PartReports(env: Env, part: Part, file: Path, base: Path, top: bool, p: Problem) {
    match part
    case Included(clause) =>
      p.at == Where(file, None) && exists d :: IncludeDemands(clause, DirOf(file), d) && Reports(env, top, d, p)
    case Serves(name, service) =>
      p.at == Where(file, Some(name))
        && exists d :: ServiceDemands(env, service, base, top, d) && Reports(env, top, d, p)
    case Lists(entry) =>
      p.at == Where(file, None) && Reports(env, top, Demand(entry.0, entry.1, [base], !top), p)
  }

  lemma PartReportedExactly(env: Env, part: Part, visit: Visit, projectDir: Path, doc: Document, base: Path, p: Problem)
    requires Finds(env, visit, projectDir, doc, base)
    ensures p in PartProblems(env, part, visit, projectDir) <==> PartReports(env, part, visit.path, base, visit.top, p)
  {
    FindsIsLoaded(env, visit, projectDir, doc, base);
    hide Reports, ServiceDemands, ServicePaths, IncludeProblems, TopLevelProblems, ServiceProblems, Finds;
    match part
    case Included(clause) =>
      IncludeReportedExactly(env, Where(visit.path, None), DirOf(visit.path), clause, p);
      forall d | IncludeDemands(clause, DirOf(visit.path), d)
        ensures Reports(env, visit.top, d, p) <==> Reports(env, false, d, p)
      {
        ReportsLiteral(env, visit.top, d, p);
      }
    case Serves(name, service) =>
      ServiceReportedExactly(env, Where(visit.path, Some(name)), service, base, visit.top, p);
    case Lists(entry) =>
      TopLevelReportedExactly(env, Where(visit.path, None), entry, visit, projectDir, p);
  }

  /**
    A file that was opened is reported for exactly the values of its document that are to be checked
    and are not acceptable, each for its own reason; those left to the rendered pass apart.
  */
  lemma VisitReportedExactly(env: Env, visit: Visit, projectDir: Path, doc: Document, base: Path, p: Problem)
    requires Finds(env, visit, projectDir, doc, base)
    ensures p in VisitProblems(env, visit, projectDir) <==>
      exists d :: Demands(env, doc, visit.path, base, visit.top, p.at, d) && Reports(env, visit.top, d, p)
  {
    FindsIsLoaded(env, visit, projectDir, doc, base);
    var parts, file, top := Parts(doc), visit.path, visit.top;
    assert PartsOf(env, visit) == parts;
    ProblemFromPart(env, parts, |parts|, visit, projectDir, p);
    hide PartProblems, PartsProblems, Finds, ServiceDemands, IncludeDemands, Reports, Parts;
    if k :| 0 <= k < |parts| && p in PartProblems(env, parts[k], visit, projectDir) {
      PartReportedExactly(env, parts[k], visit, projectDir, doc, base, p);
      PartsAreTheDocument(doc, parts[k]);
      var d := PartDemand(env, parts[k], doc, file, base, top, p);
    }
    if d :| Demands(env, doc, file, base, top, p.at, d) && Reports(env, top, d, p) {
      var part := DemandPart(env, doc, file, base, top, p, d);
      PartsAreTheDocument(doc, part);
      PartReportedExactly(env, part, visit, projectDir, doc, base, p);
      var k :| 0 <= k < |parts| && parts[k] == part;
    }
  }

  lemma PartDemand(env: Env, part: Part, doc: Document, file: Path, base: Path, top: bool, p: Problem)
    returns (d: Demand)
    requires PartReports(env, part, file, base, top, p)
    requires match part
      case Included(clause) => clause in doc.includes
      case Serves(name, service) => (name, service) in doc.services
      case Lists(entry) => entry in doc.topLevel
    ensures Demands(env, doc, file, base, top, p.at, d) && Reports(env, top, d, p)
  {
    hide Reports, ServiceDemands, IncludeDemands;
    match part
    case Included(clause) => d :| IncludeDemands(clause, DirOf(file), d) && Reports(env, top, d, p);
    case Serves(name, service) => d :| ServiceDemands(env, service, base, top, d) && Reports(env, top, d, p);
    case Lists(entry) => d := Demand(entry.0, entry.1, [base], !top);
  }

  lemma DemandPart(env: Env, doc: Document, file: Path, base: Path, top: bool, p: Problem, d: Demand)
    returns (part: Part)
    requires Demands(env, doc, file, base, top, p.at, d) && Reports(env, top, d, p)
    ensures PartReports(env, part, file, base, top, p)
    ensures match part
      case Included(clause) => clause in doc.includes
      case Serves(name, service) => (name, service) in doc.services
      case Lists(entry) => entry in doc.topLevel
  {
    hide Reports, ServiceDemands, IncludeDemands;
    if p.at == Where(file, None) && exists clause :: clause in doc.includes && IncludeDemands(clause, DirOf(file), d) {
      var clause :| clause in doc.includes && IncludeDemands(clause, DirOf(file), d);
      part := Included(clause);
    } else if p.at == Where(file, None) && (d.key, d.value) in doc.topLevel && d.bases == [base] && d.literal == !top {
      part := Lists((d.key, d.value));
      assert d == Demand(d.key, d.value, [base], !top);
    } else {
      var name, service :| (name, service) in doc.services && p.at == Where(file, Some(name))
                           && ServiceDemands(env, service, base, top, d);
      part := Serves(name, service);
    }
  }

  lemma SomeReason(env: Env, d: Demand) returns (why: Why)
    requires !Met(env, d)
    ensures RefusedFor(env, d, why)
  {
    var isPath := d.value.Text? && d.value.text != "";
    why := if !isPath then NotAPath
           else if d.literal && '$' in d.value.text then UsesInterpolation
           else if "build" <= d.key && Fetched(d.value.text) then IsRemote
           else IsOutside;
  }

  /** So a file is clean exactly when all it asks is met, or is for the rendered pass to see. */
  lemma CleanVisitExactly(env: Env, visit: Visit, projectDir: Path, doc: Document, base: Path)
    requires Finds(env, visit, projectDir, doc, base)
    ensures VisitProblems(env, visit, projectDir) == [] <==>
      forall at, d :: Demands(env, doc, visit.path, base, visit.top, at, d) ==>
          ForTheRender(visit.top, d) || Met(env, d)
  {
    hide VisitProblems, Demands, Finds, Met;
    var problems := VisitProblems(env, visit, projectDir);
    if problems == [] {
      forall at, d | Demands(env, doc, visit.path, base, visit.top, at, d)
        ensures ForTheRender(visit.top, d) || Met(env, d)
      {
        if !ForTheRender(visit.top, d) && !Met(env, d) {
          var why := SomeReason(env, d);
          var p := Problem(at, d.key, d.value, why);
          assert Reports(env, visit.top, d, p);
          VisitReportedExactly(env, visit, projectDir, doc, base, p);
          assert false;
        }
      }
    } else {
      var p := problems[0];
      VisitReportedExactly(env, visit, projectDir, doc, base, p);
      var d :| Demands(env, doc, visit.path, base, visit.top, p.at, d) && Reports(env, visit.top, d, p);
      RefusedIsNotMet(env, d, p.why);
    }
  }

  lemma RefusedIsNotMet(env: Env, d: Demand, why: Why)
    requires RefusedFor(env, d, why)
    ensures !Met(env, d)
  {
  }

  /** A path with nothing to read is reported as that; what is no table is passed over. */
  lemma NothingToRead(env: Env, visit: Visit, projectDir: Path)
    ensures (env.resolve)(visit.path) !in env.files || (env.load)((env.resolve)(visit.path)) == Unreadable ==>
      VisitProblems(env, visit, projectDir) == [Problem(Where(visit.path, None), "", Text(""), IsUnreadable)]
    ensures (env.resolve)(visit.path) in env.files && (env.load)((env.resolve)(visit.path)) == NotATable ==>
      VisitProblems(env, visit, projectDir) == []
    ensures VisitTargets(env, visit, projectDir) != [] ==>
      (env.resolve)(visit.path) in env.files && (env.load)((env.resolve)(visit.path)).Loaded?
  {
  }

  // ---------------------------------------------------------------------------------------------
  // What a document hands on
  // ---------------------------------------------------------------------------------------------

  /** Where an included file's own paths are taken from: as its include says, if that is acceptable. */
  ghost function RebaseOf(env: Env, clause: Include, dir: Path): Option<Path> {
    if clause.projectDirectory.Some?
       && Met(env, Demand("include.project_directory", clause.projectDirectory.value, [dir], true))
    then Some((env.at)(dir, clause.projectDirectory.value.text)) else None
  }

  ghost predicate IncludeLeads(env: Env, clause: Include, dir: Path, t: Target) {
    exists v :: v in clause.paths && Met(env, Demand("include", v, [dir], true))
      && t == Target((env.at)(dir, v.text), RebaseOf(env, clause, dir))
  }

  ghost predicate ExtendsLeads(env: Env, service: Service, base: Path, t: Target) {
    && service.extendsFile.Some?
    && Met(env, Demand("extends.file", service.extendsFile.value, [base], true))
    && t == Target((env.at)(base, service.extendsFile.value.text), None)
  }

  lemma TargetsMembers(paths: seq<Path>, base: Option<Path>, t: Target)
    ensures t in Targets(paths, base) <==> t.path in paths && t.base == base
  {
    if t.path in paths && t.base == base {
      TargetAmong(paths, base, t.path);
    }
  }

  lemma IncludeLeadsExactly(env: Env, clause: Include, dir: Path, t: Target)
    ensures t in IncludeTargets(env, dir, clause) <==> IncludeLeads(env, clause, dir, t)
  {
    hide Got;
    var values := clause.paths;
    TargetsMembers(GotAll(env, "include", values, |values|, dir), Rebase(env, dir, clause), t);
    GotAllFrom(env, "include", values, |values|, dir, t.path);
    assert values[..|values|] == values;
    forall v ensures Got(env, "include", v, [dir], true)
                  == if Met(env, Demand("include", v, [dir], true)) then Some((env.at)(dir, v.text)) else None {
      CheckedExactly(env, Demand("include", v, [dir], true));
    }
    if clause.projectDirectory.Some? {
      CheckedExactly(env, Demand("include.project_directory", clause.projectDirectory.value, [dir], true));
    }
  }

  /** A file hands on exactly the acceptable files its document includes or extends, and where each is based. */
  lemma VisitLeadsExactly(env: Env, visit: Visit, projectDir: Path, doc: Document, base: Path, t: Target)
    requires Finds(env, visit, projectDir, doc, base)
    ensures t in VisitTargets(env, visit, projectDir) <==>
      || (exists clause :: clause in doc.includes && IncludeLeads(env, clause, DirOf(visit.path), t))
      || (exists name, service :: (name, service) in doc.services && ExtendsLeads(env, service, base, t))
  {
    FindsIsLoaded(env, visit, projectDir, doc, base);
    var parts := Parts(doc);
    assert PartsOf(env, visit) == parts;
    TargetFromPart(env, parts, |parts|, visit, projectDir, t);
    hide PartsTargets, PartTargets, Finds, IncludeLeads, ExtendsLeads, Parts;
    forall part
      ensures part in parts && t in PartTargets(env, part, visit, projectDir) <==>
        PartLeads(env, doc, part, DirOf(visit.path), base, t)
    {
      PartLeadsExactly(env, part, visit, projectDir, doc, base, t);
      PartsAreTheDocument(doc, part);
    }
    if part :| PartLeads(env, doc, part, DirOf(visit.path), base, t) {
      var k :| 0 <= k < |parts| && parts[k] == part;
    }
    LeadingParts(env, doc, DirOf(visit.path), base, t);
  }

  /** The part is one of the document's, and leads to this file. */
  ghost predicate PartLeads(env: Env, doc: Document, part: Part, dir: Path, base: Path, t: Target) {
    match part
    case Included(clause) => clause in doc.includes && IncludeLeads(env, clause, dir, t)
    case Serves(name, service) => (name, service) in doc.services && ExtendsLeads(env, service, base, t)
    case Lists(_) => false
  }

  lemma LeadingParts(env: Env, doc: Document, dir: Path, base: Path, t: Target)
    ensures (exists part :: PartLeads(env, doc, part, dir, base, t)) <==>
      || (exists clause :: clause in doc.includes && IncludeLeads(env, clause, dir, t))
      || (exists name, service :: (name, service) in doc.services && ExtendsLeads(env, service, base, t))
  {
    hide IncludeLeads, ExtendsLeads;
    if clause :| clause in doc.includes && IncludeLeads(env, clause, dir, t) {
      assert PartLeads(env, doc, Included(clause), dir, base, t);
    }
    if name, service :| (name, service) in doc.services && ExtendsLeads(env, service, base, t) {
      assert PartLeads(env, doc, Serves(name, service), dir, base, t);
    }
  }

  lemma PartLeadsExactly(env: Env, part: Part, visit: Visit, projectDir: Path, doc: Document, base: Path, t: Target)
    requires Finds(env, visit, projectDir, doc, base)
    ensures t in PartTargets(env, part, visit, projectDir) <==>
      match part
      case Included(clause) => IncludeLeads(env, clause, DirOf(visit.path), t)
      case Serves(_, service) => ExtendsLeads(env, service, base, t)
      case Lists(_) => false
  {
    FindsIsLoaded(env, visit, projectDir, doc, base);
    hide IncludeLeads, IncludeTargets, Extended, ServicePaths, Met;
    match part
    case Included(clause) =>
      IncludeLeadsExactly(env, clause, DirOf(visit.path), t);
    case Serves(_, service) =>
      ExtendedExactly(env, service, base, visit.top, t.path);
      TargetsMembers(Extended(env, ServicePaths(service), |ServicePaths(service)|, ModeAt(base, visit.top)), None, t);
    case Lists(_) =>
  }

  /** An include or an extended file: refused and reported, or opened when it is a file, and always inside. */
  ghost predicate Settled(env: Env, visit: Visit, projectDir: Path, seen: set<Path>, at: Where, d: Demand)
    requires d.bases != []
  {
    if Met(env, d) then
      var named := (env.at)(d.bases[0], d.value.text);
      UnderARoot(env, named) && ((env.resolve)(named) in env.files ==> (env.resolve)(named) in seen)
    else
      exists p :: p in VisitProblems(env, visit, projectDir) && p.at == at && Reports(env, visit.top, d, p)
  }

  lemma DemandIsSettled(env: Env, visit: Visit, projectDir: Path, doc: Document, base: Path, seen: set<Path>,
      at: Where, d: Demand, t: Target)
    requires Finds(env, visit, projectDir, doc, base) && ClosedAt(env, visit, projectDir, seen)
    requires Demands(env, doc, visit.path, base, visit.top, at, d) && d.bases != [] && d.literal
    requires Met(env, d) ==>
      t in VisitTargets(env, visit, projectDir) && t.path == (env.at)(d.bases[0], d.value.text)
    ensures Settled(env, visit, projectDir, seen, at, d)
  {
    if Met(env, d) {
      assert d.bases[0] in d.bases;
    } else {
      hide VisitTargets, VisitProblems, Demands, Finds;
      var why := SomeReason(env, d);
      var p := Problem(at, d.key, d.value, why);
      VisitReportedExactly(env, visit, projectDir, doc, base, p);
      assert Reports(env, visit.top, d, p);
    }
  }

  /** Every include of an opened file is refused and reported, or leads inside, to an opened file or to no file. */
  lemma IncludesAreSettled(env: Env, visit: Visit, projectDir: Path, doc: Document, base: Path, seen: set<Path>,
      clause: Include, value: Value)
    requires Finds(env, visit, projectDir, doc, base) && ClosedAt(env, visit, projectDir, seen)
    requires clause in doc.includes && value in clause.paths
    ensures var dir := DirOf(visit.path);
      Settled(env, visit, projectDir, seen, Where(visit.path, None), Demand("include", value, [dir], true))
  {
    hide Met, ClosedAt, VisitTargets, Finds;
    var dir := DirOf(visit.path);
    var d := Demand("include", value, [dir], true);
    assert IncludeDemands(clause, dir, d);
    var t := Target((env.at)(dir, Shown(value)), RebaseOf(env, clause, dir));
    if Met(env, d) {
      assert value.Text? by { MetIsText(env, d); }
      assert IncludeLeads(env, clause, dir, t);
      VisitLeadsExactly(env, visit, projectDir, doc, base, t);
    }
    DemandIsSettled(env, visit, projectDir, doc, base, seen, Where(visit.path, None), d, t);
  }

  lemma MetIsText(env: Env, d: Demand)
    requires Met(env, d)
    ensures d.value.Text?
  {
  }

  /** So is every extended file, in any opened file, whether given by name or not. */
  lemma ExtendsAreSettled(env: Env, visit: Visit, projectDir: Path, doc: Document, base: Path, seen: set<Path>,
      name: string, service: Service)
    requires Finds(env, visit, projectDir, doc, base) && ClosedAt(env, visit, projectDir, seen)
    requires (name, service) in doc.services && service.extendsFile.Some?
    ensures Settled(env, visit, projectDir, seen, Where(visit.path, Some(name)),
                    Demand("extends.file", service.extendsFile.value, [base], true))
  {
    hide Met, ClosedAt, VisitTargets, Finds;
    var d := Demand("extends.file", service.extendsFile.value, [base], true);
    assert ServiceDemands(env, service, base, visit.top, d);
    var t := Target((env.at)(base, Shown(service.extendsFile.value)), None);
    if Met(env, d) {
      MetIsText(env, d);
      assert ExtendsLeads(env, service, base, t);
      VisitLeadsExactly(env, visit, projectDir, doc, base, t);
    }
    DemandIsSettled(env, visit, projectDir, doc, base, seen, Where(visit.path, Some(name)), d, t);
  }
}
