/**
  Runs of the adoption protocol, built: the host commands left alone do what their methods do, and
  passes that break, from every state at rest in which one can.
*/
module AdoptionRuns {
  import opened Common
  import opened Digest
  import opened AdoptionProtocol
  import opened AdoptionStore

  /** Going from `run` to `longer` goes on cleanly, wherever the clean stretch began. */
  ghost predicate Onward(hash: Bytes -> string, tree: FileSet, run: seq<Action>, longer: seq<Action>) {
    forall start :: Leads(hash, tree, start, run) ==> Leads(hash, tree, start, longer)
  }

  lemma Extend(hash: Bytes -> string, tree: FileSet, run: seq<Action>, a: Action) returns (longer: seq<Action>)
    requires Possible(hash, tree, run) && Enabled(After(hash, tree, run), a)
    ensures longer == run + [a] && Possible(hash, tree, longer)
    ensures After(hash, tree, longer) == Step(hash, After(hash, tree, run), a)
    ensures EndsCleanly(After(hash, tree, run), a) ==> Onward(hash, tree, run, longer)
  {
    longer := run + [a];
    assert longer[..|longer| - 1] == run;
  }

  /** The state after an uninterrupted adoption up to its rename. */
  ghost predicate RenamedFrom(s: System, next: System, gen: Gen, shown: Option<FileSet>) {
    && next.clock > s.clock
    && next == s.(gens := next.gens, adoptions := s.adoptions[gen := Adoption(s.tree, shown)],
                  host := Renamed(gen), clock := next.clock)
    && gen in next.gens && s.clock < next.gens[gen].stamp <= next.clock
    && next.gens == s.gens[gen := Dir(s.tree, next.gens[gen].stamp)]
  }

  lemma ReadsWholeTree(hash: Bytes -> string, tree: FileSet, run: seq<Action>, shown: Option<FileSet>)
      returns (longer: seq<Action>)
    requires Possible(hash, tree, run) && After(hash, tree, run).host.Idle?
    ensures Possible(hash, tree, longer) && Onward(hash, tree, run, longer)
    ensures var s := After(hash, tree, run);
      After(hash, tree, longer) == s.(host := Read(shown, s.tree), clock := s.clock + 3)
  {
    hide Possible, After, Leads;
    longer := Extend(hash, tree, run, BeginAdopt(shown));
    longer := Extend(hash, tree, longer, ReadTree);
    longer := Extend(hash, tree, longer, ReadTree);
  }

  /** Left alone, an adopt that is not stale stages and renames a whole copy of the tree. */
  lemma AdoptRenames(hash: Bytes -> string, tree: FileSet, run: seq<Action>, gen: Gen, shown: Option<FileSet>)
    returns (longer: seq<Action>)
    requires Possible(hash, tree, run) && After(hash, tree, run).host.Idle?
    requires gen !in After(hash, tree, run).adoptions && gen !in After(hash, tree, run).gens
    requires !Stale(hash, shown, After(hash, tree, run).tree)
    ensures Possible(hash, tree, longer) && Onward(hash, tree, run, longer)
    ensures RenamedFrom(After(hash, tree, run), After(hash, tree, longer), gen, shown)
  {
    hide Possible, After, Leads;
    longer := ReadsWholeTree(hash, tree, run, shown);
    longer := Extend(hash, tree, longer, Check(gen, false));
    longer := Extend(hash, tree, longer, StageFile);
    longer := Extend(hash, tree, longer, StageFile);
    longer := Extend(hash, tree, longer, Rename);
  }

  /** The state after an uninterrupted adoption up to the list of what to prune. */
  ghost predicate ListedFrom(s: System, next: System, gen: Gen, shown: Option<FileSet>) {
    && gen in next.gens && s.clock < next.gens[gen].stamp <= next.clock
    && next.gens == s.gens[gen := Dir(s.tree, next.gens[gen].stamp)]
    && next.adoptions == s.adoptions[gen := Adoption(s.tree, shown)]
    && next.tree == s.tree && next.reader == s.reader
    && next.marker == Some(gen)
    && next.host == Pruning(gen, Superseded(next.gens, gen))
    && next.pass.switches == s.pass.switches + 1 && next.pass.forgot == s.pass.forgot
  }

  lemma AdoptLists(hash: Bytes -> string, tree: FileSet, run: seq<Action>, gen: Gen, shown: Option<FileSet>)
    returns (longer: seq<Action>)
    requires Possible(hash, tree, run) && After(hash, tree, run).host.Idle?
    requires gen !in After(hash, tree, run).adoptions && gen !in After(hash, tree, run).gens
    requires !Stale(hash, shown, After(hash, tree, run).tree)
    ensures Possible(hash, tree, longer) && Onward(hash, tree, run, longer)
    ensures ListedFrom(After(hash, tree, run), After(hash, tree, longer), gen, shown)
  {
    hide Possible, After, Leads;
    longer := AdoptRenames(hash, tree, run, gen, shown);
    longer := Extend(hash, tree, longer, SwitchMarker);
    longer := Extend(hash, tree, longer, ListSuperseded);
  }

  // ---------------------------------------------------------------------------------------------
  // The commands left alone
  // ---------------------------------------------------------------------------------------------

  lemma OneLessToRemove(gens: Gens, victims: set<Gen>, g: Gen)
    requires g in gens && g in victims
    ensures (gens - {g}) - victims == gens - victims
    ensures |(gens - {g}).Keys * victims| < |gens.Keys * victims|
  {
    assert (gens - {g}).Keys * victims == gens.Keys * victims - {g};
  }

  /** Left alone, a prune removes its victims and ends. */
  lemma {:induction false} PruneCompletes(hash: Bytes -> string, tree: FileSet, run: seq<Action>)
      returns (longer: seq<Action>)
    requires Possible(hash, tree, run) && After(hash, tree, run).host.Pruning?
    ensures Possible(hash, tree, longer) && Onward(hash, tree, run, longer)
    ensures var s, next := After(hash, tree, run), After(hash, tree, longer);
      next == s.(gens := s.gens - s.host.victims, host := Idle, clock := next.clock)
    decreases |After(hash, tree, run).gens.Keys * After(hash, tree, run).host.victims|
  {
    hide Possible, After, Leads;
    var s := After(hash, tree, run);
    if g :| g in s.gens && g in s.host.victims {
      longer := RemoveCompletes(hash, tree, run, g);
      OneLessToRemove(s.gens, s.host.victims, g);
      longer := PruneCompletes(hash, tree, longer);
    } else {
      longer := Extend(hash, tree, run, FinishPrune);
    }
  }

  lemma RemoveCompletes(hash: Bytes -> string, tree: FileSet, run: seq<Action>, g: Gen) returns (longer: seq<Action>)
    requires Possible(hash, tree, run)
    requires g in After(hash, tree, run).gens && Deleting(After(hash, tree, run).host, g)
    ensures Possible(hash, tree, longer) && Onward(hash, tree, run, longer)
    ensures var s, next := After(hash, tree, run), After(hash, tree, longer);
      next == s.(gens := s.gens - {g}, clock := next.clock)
  {
    hide Possible, After, Leads;
    longer := run;
    var s := After(hash, tree, run);
    if s.gens[g].files.shared.Some? {
      longer := Extend(hash, tree, longer, Unlink(g, Shared));
    }
    if s.gens[g].files.local.Some? {
      longer := Extend(hash, tree, longer, Unlink(g, Local));
    }
    longer := Extend(hash, tree, longer, RemoveDir(g));
  }

  /**
    Left alone, an adopt that is not stale ends with the tree selected and of the others only the
    newest, as the method does.
  */
  lemma AdoptCompletes(hash: Bytes -> string, tree: FileSet, run: seq<Action>, gen: Gen, shown: Option<FileSet>)
    returns (longer: seq<Action>)
    requires CollisionFree(hash) && Possible(hash, tree, run) && After(hash, tree, run).host.Idle?
    requires gen !in After(hash, tree, run).adoptions && !Stale(hash, shown, After(hash, tree, run).tree)
    ensures Possible(hash, tree, longer) && Onward(hash, tree, run, longer)
    ensures var s, next := After(hash, tree, run), After(hash, tree, longer);
      && next.host == Idle && next.tree == s.tree && next.reader == s.reader
      && next.marker == Some(gen) && Selected(next) == Some(s.tree) && NewestBut(next.gens, gen, gen)
      && next.adoptions == s.adoptions[gen := Adoption(s.tree, shown)]
      && OnlyTheNewestOf(s.gens, next.gens - {gen})
      && next.pass.switches == s.pass.switches + 1 && next.pass.forgot == s.pass.forgot
  {
    hide Possible, After, Leads;
    InvReached(hash, tree, run);
    var s := After(hash, tree, run);
    longer := AdoptLists(hash, tree, run, gen, shown);
    var listed := After(hash, tree, longer);
    PruneLeavesTheNewest(s.gens, gen, listed.gens[gen]);
    longer := PruneCompletes(hash, tree, longer);
  }

  /** Left alone, a forget removes every generation and then what was kept aside. */
  lemma {:induction false} ForgettingCompletes(hash: Bytes -> string, tree: FileSet, run: seq<Action>)
      returns (longer: seq<Action>)
    requires Possible(hash, tree, run) && After(hash, tree, run).host.Forgetting?
    ensures Possible(hash, tree, longer) && Onward(hash, tree, run, longer)
    ensures var s, next := After(hash, tree, run), After(hash, tree, longer);
      next == s.(gens := map[], aside := NO_FILES, host := Idle, clock := next.clock)
    decreases |After(hash, tree, run).gens|
  {
    hide Possible, After, Leads;
    var s := After(hash, tree, run);
    if g :| g in s.gens {
      longer := RemoveCompletes(hash, tree, run, g);
      longer := ForgettingCompletes(hash, tree, longer);
    } else {
      longer := Extend(hash, tree, run, FinishForget);
    }
  }

  /** From every reachable rest, a forget left alone ends with nothing adopted and nothing kept; the tree stays. */
  lemma ForgetCompletes(hash: Bytes -> string, tree: FileSet, run: seq<Action>) returns (longer: seq<Action>)
    requires Possible(hash, tree, run) && After(hash, tree, run).host.Idle?
    ensures Possible(hash, tree, longer)
    ensures var s, next := After(hash, tree, run), After(hash, tree, longer);
      && next.marker == None && next.gens == map[] && next.aside == NO_FILES && next.host == Idle
      && next.tree == s.tree && next.adoptions == s.adoptions && next.reader == s.reader
  {
    hide Possible, After, Leads;
    longer := Extend(hash, tree, run, BeginForget);
    longer := ForgettingCompletes(hash, tree, longer);
  }

  lemma RevertReads(hash: Bytes -> string, tree: FileSet, run: seq<Action>) returns (longer: seq<Action>)
    requires Possible(hash, tree, run) && After(hash, tree, run).host.Idle? && Selected(After(hash, tree, run)).Some?
    ensures Possible(hash, tree, longer)
    ensures var s, next := After(hash, tree, run), After(hash, tree, longer);
      next == s.(host := Reverting(Selected(s).value, s.tree, Some(Shared)), clock := next.clock)
  {
    hide Possible, After, Leads;
    longer := Extend(hash, tree, run, BeginRevert);
    longer := Extend(hash, tree, longer, ReadTree);
    longer := Extend(hash, tree, longer, ReadTree);
  }

  /** Left alone, a revert ends with the tree the selected copy, files it lacks kept aside. */
  lemma RevertCompletes(hash: Bytes -> string, tree: FileSet, run: seq<Action>) returns (longer: seq<Action>)
    requires Possible(hash, tree, run) && After(hash, tree, run).host.Idle? && Selected(After(hash, tree, run)).Some?
    ensures Possible(hash, tree, longer)
    ensures var s, next := After(hash, tree, run), After(hash, tree, longer);
      && next == s.(tree := Selected(s).value, aside := next.aside, clock := next.clock)
      && forall name: Name ::
           Get(next.aside, name) == if Get(next.tree, name).None? && Get(s.tree, name).Some? then Get(s.tree, name)
                                    else Get(s.aside, name)
  {
    hide Possible, After, Leads;
    longer := RevertReads(hash, tree, run);
    longer := RevertFileCompletes(hash, tree, longer);
    longer := RevertFileCompletes(hash, tree, longer);
    longer := Extend(hash, tree, longer, Action.RevertFile);
  }

  lemma RevertFileCompletes(hash: Bytes -> string, tree: FileSet, run: seq<Action>) returns (longer: seq<Action>)
    requires Possible(hash, tree, run)
    requires var s := After(hash, tree, run);
      s.host.Reverting? && s.host.next.Some? && Get(s.tree, s.host.next.value) == Get(s.host.tree, s.host.next.value)
    ensures Possible(hash, tree, longer)
    ensures var s, next := After(hash, tree, run), After(hash, tree, longer);
      var name := s.host.next.value;
      var wanted, found := Get(s.host.pinned, name), Get(s.host.tree, name);
      && next == s.(tree := Put(s.tree, name, wanted), aside := next.aside, clock := next.clock,
                    host := s.host.(next := Advance(name)))
      && next.aside == if wanted.None? && found.Some? then Put(s.aside, name, found) else s.aside
  {
    hide Possible, After, Leads;
    var s := After(hash, tree, run);
    longer := Extend(hash, tree, run, Action.RevertFile);
    if After(hash, tree, longer).host.RevertAside? {
      longer := Extend(hash, tree, longer, Action.RevertFile);
    }
  }

  // ---------------------------------------------------------------------------------------------
  // When passes are whole: exactly
  // ---------------------------------------------------------------------------------------------

  /** Every brief pass of every clean continuation is whole. */
  ghost predicate PassesAreWhole(hash: Bytes -> string, tree: FileSet, run: seq<Action>) {
    forall later :: Leads(hash, tree, run, later) && BriefPass(hash, tree, later, |run|) ==>
        WholePass(After(hash, tree, later))
  }

  /**
    At rest, whatever the history: the passes to come are whole, whenever at most one switch and no
    forget falls inside them and no adoption is stopped half-way, if and only if the selected
    generation is the newest on disk.
  */
  lemma PassesAreWholeExactly(hash: Bytes -> string, tree: FileSet, run: seq<Action>)
    requires CollisionFree(hash) && Possible(hash, tree, run) && Resting(After(hash, tree, run))
    ensures PassesAreWhole(hash, tree, run) <==> NoStray(After(hash, tree, run))
  {
    if NoStray(After(hash, tree, run)) {
      forall later | Leads(hash, tree, run, later) && BriefPass(hash, tree, later, |run|)
        ensures WholePass(After(hash, tree, later))
      {
        CarefulPassSeesOneAdoption(hash, tree, run, later);
      }
    } else {
      var later := StrayBreaksFromRest(hash, tree, run);
      assert BriefPass(hash, tree, later, |run|);
    }
  }

  /** Names never run out. */
  lemma {:induction false} FreshAbove(used: set<Gen>) returns (gen: Gen)
    ensures gen !in used && forall g :: g in used ==> g < gen
  {
    gen := 0;
    if g :| g in used {
      var above := FreshAbove(used - {g});
      gen := if above > g then above else g + 1;
      forall h | h in used ensures h < gen {
        assert h == g || h in used - {g};
      }
    }
  }

  /** The reader holds `g` and has read none of its files. */
  predicate Holds(s: System, g: Gen) {
    g in s.adoptions && s.reader == if s.adoptions[g].read == NO_FILES then Marked(g) else Found(g)
  }

  /** A pass begun at rest comes to hold the selected generation. */
  lemma PassBegins(hash: Bytes -> string, tree: FileSet, run: seq<Action>) returns (longer: seq<Action>)
    requires CollisionFree(hash) && Possible(hash, tree, run)
    requires Resting(After(hash, tree, run)) && After(hash, tree, run).marker.Some?
    ensures Leads(hash, tree, run, longer) && PassBegunSince(longer, |run|)
    ensures var s, next := After(hash, tree, run), After(hash, tree, longer);
      && next == s.(reader := next.reader, pass := Pass(0, false, false), clock := next.clock)
      && Holds(next, s.marker.value)
  {
    InvReached(hash, tree, run);
    longer := Extend(hash, tree, run, ReadMarker);
    assert Leads(hash, tree, run, run);
    assert longer[|run|] == ReadMarker;
    var g := After(hash, tree, run).marker.value;
    if After(hash, tree, run).adoptions[g].read != NO_FILES {
      longer := Extend(hash, tree, longer, ReadDir);
      assert longer[|run|] == ReadMarker;
    }
  }

  /** Once its generation is gone, the pass returns something else. */
  lemma PassEndsBroken(hash: Bytes -> string, tree: FileSet, run: seq<Action>, g: Gen) returns (longer: seq<Action>)
    requires Possible(hash, tree, run) && Holds(After(hash, tree, run), g) && g !in After(hash, tree, run).gens
    ensures run <= longer && Possible(hash, tree, longer) && Onward(hash, tree, run, longer)
    ensures var s, next := After(hash, tree, run), After(hash, tree, longer);
      && next.reader.Done? && !WholePass(next)
      && next == s.(reader := next.reader, clock := next.clock)
  {
    hide Possible, After, Leads;
    if After(hash, tree, run).adoptions[g].read == NO_FILES {
      longer := Extend(hash, tree, run, ReadDir);
    } else {
      longer := Extend(hash, tree, run, ReadFile);
      longer := Extend(hash, tree, longer, ReadFile);
      assert After(hash, tree, longer).reader.files == Some(NO_FILES);
    }
  }

  /** Where a stray is newer than the selected generation, one adoption inside a pass breaks it. */
  lemma StrayBreaksFromRest(hash: Bytes -> string, tree: FileSet, run: seq<Action>) returns (later: seq<Action>)
    requires CollisionFree(hash) && Possible(hash, tree, run)
    requires Resting(After(hash, tree, run)) && !NoStray(After(hash, tree, run))
    ensures Leads(hash, tree, run, later) && PassBegunSince(later, |run|)
    ensures var s := After(hash, tree, later);
      s.reader.Done? && s.pass.switches == 1 && !s.pass.forgot && !WholePass(s)
  {
    InvReached(hash, tree, run);
    var s := After(hash, tree, run);
    var g := s.marker.value;
    var begun := PassBegins(hash, tree, run);
    var gen := FreshAbove(s.adoptions.Keys);
    var adopted := AdoptCompletes(hash, tree, begun, gen, None);
    assert g !in After(hash, tree, adopted).gens by {
      NotTheNewestGoes(s.gens, After(hash, tree, adopted).gens, gen, g);
    }
    later := PassEndsBroken(hash, tree, adopted, g);
    StillBegun(hash, tree, begun, adopted, later, |run|);
  }

  lemma NotTheNewestGoes(before: Gens, after: Gens, gen: Gen, g: Gen)
    requires OnlyTheNewestOf(before, after - {gen}) && g in before && gen !in before
    requires !NewestBut(before, g, g)
    ensures g !in after
  {
  }

  /** A pass begun in a run has begun in what the run leads to. */
  lemma StillBegun(hash: Bytes -> string, tree: FileSet, begun: seq<Action>, middle: seq<Action>, later: seq<Action>,
      n: nat)
    requires PassBegunSince(begun, n) && Possible(hash, tree, begun)
    requires Onward(hash, tree, begun, middle) && Onward(hash, tree, middle, later)
    ensures PassBegunSince(later, n)
  {
    assert Leads(hash, tree, begun, begun);
    assert Leads(hash, tree, begun, later);
    var i :| n <= i < |begun| && begun[i].ReadMarker?;
    assert later[i] == begun[i];
  }

  /** From every rest with an adoption, stray or not, two switches inside a pass can break it. */
  lemma TwoSwitchesBreakFromRest(hash: Bytes -> string, tree: FileSet, run: seq<Action>) returns (later: seq<Action>)
    requires CollisionFree(hash) && Possible(hash, tree, run)
    requires Resting(After(hash, tree, run)) && After(hash, tree, run).marker.Some?
    ensures Leads(hash, tree, run, later) && PassBegunSince(later, |run|)
    ensures var s := After(hash, tree, later);
      s.reader.Done? && s.pass.switches == 2 && !s.pass.forgot && !WholePass(s)
  {
    InvReached(hash, tree, run);
    var s := After(hash, tree, run);
    var g := s.marker.value;
    var begun := PassBegins(hash, tree, run);
    var gen := FreshAbove(s.adoptions.Keys);
    var first := AdoptCompletes(hash, tree, begun, gen, None);
    var middle := After(hash, tree, first);
    var next := FreshAbove(middle.adoptions.Keys);
    var second := AdoptCompletes(hash, tree, first, next, None);
    assert g !in After(hash, tree, second).gens by {
      InvReached(hash, tree, first);
      if g in middle.gens {
        NotTheNewestGoes(middle.gens, After(hash, tree, second).gens, next, g);
      }
    }
    later := PassEndsBroken(hash, tree, second, g);
    StillBegun(hash, tree, begun, second, later, |run|);
  }

  /** And so can a forget, although it removes the marker first. */
  lemma ForgetBreaksFromRest(hash: Bytes -> string, tree: FileSet, run: seq<Action>) returns (later: seq<Action>)
    requires CollisionFree(hash) && Possible(hash, tree, run)
    requires Resting(After(hash, tree, run)) && After(hash, tree, run).marker.Some?
    ensures Leads(hash, tree, run, later) && PassBegunSince(later, |run|)
    ensures var s := After(hash, tree, later);
      s.reader.Done? && s.pass.switches == 0 && s.pass.forgot && !WholePass(s)
  {
    InvReached(hash, tree, run);
    var g := After(hash, tree, run).marker.value;
    var begun := PassBegins(hash, tree, run);
    var forgetting := Extend(hash, tree, begun, BeginForget);
    var gone := RemoveCompletes(hash, tree, forgetting, g);
    later := PassEndsBroken(hash, tree, gone, g);
    StillBegun(hash, tree, begun, gone, later, |run|);
  }

  // ---------------------------------------------------------------------------------------------
  // A revert that loses a late edit
  // ---------------------------------------------------------------------------------------------

  /**
    A run in which a revert removes a file without keeping what it held: the box made the file, the
    revert read it, and the box wrote it again before it was removed.
  */
  lemma LateEditIsLost(hash: Bytes -> string, shared: Option<Bytes>, early: Bytes, late: Bytes)
      returns (run: seq<Action>)
    requires early != late
    ensures Possible(hash, FileSet(shared, None), run) && Enabled(After(hash, FileSet(shared, None), run), RevertFile)
    ensures var s := After(hash, FileSet(shared, None), run);
      var next := Step(hash, s, RevertFile);
      s.tree.local == Some(late) && next.tree.local == None && next.aside.local == Some(early)
  {
    hide Possible, After, Leads;
    var tree := FileSet(shared, None);
    run := FirstAdoption(hash, tree);
    run := Extend(hash, tree, run, EditTree(FileSet(shared, Some(early))));
    run := RevertReads(hash, tree, run);
    run := Extend(hash, tree, run, RevertFile);
    run := Extend(hash, tree, run, RevertFile);
    run := Extend(hash, tree, run, EditTree(FileSet(shared, Some(late))));
  }

  // ---------------------------------------------------------------------------------------------
  // How a stray comes about
  // ---------------------------------------------------------------------------------------------

  /** A generation the reader is on, still whole but about to lose a file. */
  ghost predicate AboutToBreak(s: System, g: Gen) {
    && s.reader == HalfSeen(g, s.tree.shared)
    && g in s.gens && s.gens[g].files == s.tree && s.tree.shared.Some? && s.tree.local.Some?
    && Deleting(s.host, g)
    && forall h :: h in s.adoptions ==> s.adoptions[h].read == s.tree
  }

  /** The pass ended with files no adoption ever read together. */
  ghost predicate PassIsMixed(s: System) {
    && s.reader.Done? && s.reader.files.Some?
    && forall h :: h in s.adoptions ==> Some(s.adoptions[h].read) != s.reader.files
  }

  lemma DeletionBreaksThePass(hash: Bytes -> string, tree: FileSet, run: seq<Action>, g: Gen)
      returns (longer: seq<Action>)
    requires Possible(hash, tree, run) && AboutToBreak(After(hash, tree, run), g)
    ensures Possible(hash, tree, longer) && PassIsMixed(After(hash, tree, longer))
    ensures After(hash, tree, longer).pass == After(hash, tree, run).pass
  {
    hide Possible, After;
    longer := Extend(hash, tree, run, Unlink(g, Local));
    longer := Extend(hash, tree, longer, ReadFile);
    assert After(hash, tree, longer).reader.files == Some(FileSet(After(hash, tree, run).tree.shared, None));
  }

  /** A reader gets as far as its first file. */
  lemma ReadsHalf(hash: Bytes -> string, tree: FileSet, run: seq<Action>, g: Gen) returns (longer: seq<Action>)
    requires Possible(hash, tree, run)
    requires var s := After(hash, tree, run);
      s.reader == Outside && s.marker == Some(g) && g in s.gens
    ensures Possible(hash, tree, longer)
    ensures var s := After(hash, tree, run);
      After(hash, tree, longer)
          == s.(reader := HalfSeen(g, s.gens[g].files.shared), pass := Pass(0, false, false), clock := s.clock + 3)
  {
    hide Possible, After;
    longer := Extend(hash, tree, run, ReadMarker);
    assert After(hash, tree, longer).reader == Marked(g);
    longer := Extend(hash, tree, longer, ReadDir);
    assert After(hash, tree, longer).reader == Found(g);
    longer := Extend(hash, tree, longer, ReadFile);
  }

  /** One whole adoption, with nothing before it to prune. */
  lemma FirstAdoption(hash: Bytes -> string, tree: FileSet) returns (run: seq<Action>)
    ensures Possible(hash, tree, run)
    ensures var s := After(hash, tree, run);
      && s.marker == Some(1) && s.gens.Keys == {1} && s.gens[1].files == tree && s.gens[1].stamp <= s.clock
      && s.host == Idle && s.reader == Outside && s.tree == tree
      && s.adoptions == map[1 := Adoption(tree, None)]
  {
    run := AdoptLists(hash, tree, [], 1, None);
    run := Extend(hash, tree, run, FinishPrune);
  }

  /** A second one: the first generation is kept, as the newest other. */
  lemma SecondAdoption(hash: Bytes -> string, tree: FileSet, run: seq<Action>) returns (longer: seq<Action>)
    requires Possible(hash, tree, run)
    requires var s := After(hash, tree, run);
      && s.host.Idle? && s.gens.Keys == {1} && s.gens[1].stamp <= s.clock && 2 !in s.adoptions
    ensures Possible(hash, tree, longer)
    ensures var s, next := After(hash, tree, run), After(hash, tree, longer);
      && next.gens.Keys == {1, 2} && next.gens[1] == s.gens[1] && next.gens[2].files == s.tree
      && next.gens[1].stamp < next.gens[2].stamp <= next.clock
      && next.adoptions == s.adoptions[2 := Adoption(s.tree, None)]
      && next.tree == s.tree && next.reader == s.reader && next.host == Idle && next.marker == Some(2)
      && next.pass.switches == s.pass.switches + 1 && next.pass.forgot == s.pass.forgot
  {
    hide Possible, After;
    longer := AdoptLists(hash, tree, run, 2, None);
    longer := Extend(hash, tree, longer, FinishPrune);
  }

  /**
    With no edit at all and one switch inside the pass: an adoption that died between its rename and
    its marker write leaves a newer stray, and the next adoption deletes what the pass is reading.
  */
  lemma StrayBreaksAPass(hash: Bytes -> string, tree: FileSet) returns (run: seq<Action>)
    requires tree.shared.Some? && tree.local.Some?
    ensures Possible(hash, tree, run) && PassIsMixed(After(hash, tree, run))
    ensures After(hash, tree, run).pass.switches == 1 && !After(hash, tree, run).pass.forgot
  {
    hide Possible, After;
    run := FirstAdoption(hash, tree);
    run := AdoptRenames(hash, tree, run, 2, None);
    run := Extend(hash, tree, run, Crash);
    run := ReadsHalf(hash, tree, run, 1);
    run := AdoptLists(hash, tree, run, 3, None);
    assert NewerOther(After(hash, tree, run).gens, 3, 1) by {
      assert 2 in After(hash, tree, run).gens;
    }
    run := DeletionBreaksThePass(hash, tree, run, 1);
  }

  /** Two switches inside the pass break it too, with no command dying. */
  lemma TwoSwitchesBreakAPass(hash: Bytes -> string, tree: FileSet) returns (run: seq<Action>)
    requires tree.shared.Some? && tree.local.Some?
    ensures Possible(hash, tree, run) && PassIsMixed(After(hash, tree, run))
    ensures After(hash, tree, run).pass.switches == 2 && !After(hash, tree, run).pass.forgot
  {
    hide Possible, After;
    run := FirstAdoption(hash, tree);
    run := ReadsHalf(hash, tree, run, 1);
    run := SecondAdoption(hash, tree, run);
    run := AdoptLists(hash, tree, run, 3, None);
    assert NewerOther(After(hash, tree, run).gens, 3, 1) by {
      assert 2 in After(hash, tree, run).gens;
    }
    run := DeletionBreaksThePass(hash, tree, run, 1);
  }

  /** So does a forget, although it removes the marker first: the pass had read it before. */
  lemma ForgetBreaksAPass(hash: Bytes -> string, tree: FileSet) returns (run: seq<Action>)
    requires tree.shared.Some? && tree.local.Some?
    ensures Possible(hash, tree, run) && PassIsMixed(After(hash, tree, run))
    ensures After(hash, tree, run).pass.switches == 0 && After(hash, tree, run).pass.forgot
  {
    hide Possible, After;
    run := FirstAdoption(hash, tree);
    run := ReadsHalf(hash, tree, run, 1);
    run := Extend(hash, tree, run, BeginForget);
    run := DeletionBreaksThePass(hash, tree, run, 1);
  }

  /** A third adoption comes to delete the first generation. */
  lemma ThirdAdoptionPrunes(hash: Bytes -> string, tree: FileSet) returns (run: seq<Action>)
    ensures Possible(hash, tree, run)
    ensures var s := After(hash, tree, run);
      && s.marker == Some(3) && s.gens.Keys == {1, 2, 3} && s.gens[1].files == tree && s.gens[3].files == tree
      && s.gens[3].stamp <= s.clock && Deleting(s.host, 1) && s.reader == Outside && s.tree == tree
      && s.adoptions.Keys == {1, 2, 3} && forall h :: h in s.adoptions ==> s.adoptions[h].read == tree
  {
    hide Possible, After;
    run := FirstAdoption(hash, tree);
    run := SecondAdoption(hash, tree, run);
    run := AdoptLists(hash, tree, run, 3, None);
    assert NewerOther(After(hash, tree, run).gens, 3, 1) by {
      assert 2 in After(hash, tree, run).gens;
    }
  }

  /** It dies half-way: the first generation has lost a file, and is now the newest of all. */
  lemma ThirdAdoptionDies(hash: Bytes -> string, tree: FileSet) returns (run: seq<Action>)
    requires tree.shared.Some? && tree.local.Some?
    ensures Possible(hash, tree, run)
    ensures var s := After(hash, tree, run);
      && s.marker == Some(3) && s.gens.Keys == {1, 2, 3} && s.gens[3].files == tree && s.gens[3].stamp < s.gens[1].stamp
      && s.host == Idle && s.reader == Outside && s.tree == tree && s.adoptions.Keys == {1, 2, 3}
      && forall h :: h in s.adoptions ==> s.adoptions[h].read == tree
  {
    hide Possible, After;
    run := ThirdAdoptionPrunes(hash, tree);
    run := Extend(hash, tree, run, Unlink(1, Shared));
    run := Extend(hash, tree, run, Crash);
  }

  /** Dying while pruning leaves a stray as well: the next prune keeps it and deletes the selected generation. */
  lemma HalfPrunedStrayBreaksAPass(hash: Bytes -> string, tree: FileSet) returns (run: seq<Action>)
    requires tree.shared.Some? && tree.local.Some?
    ensures Possible(hash, tree, run) && PassIsMixed(After(hash, tree, run))
    ensures After(hash, tree, run).pass.switches == 1 && !After(hash, tree, run).pass.forgot
  {
    hide Possible, After;
    run := ThirdAdoptionDies(hash, tree);
    run := ReadsHalf(hash, tree, run, 3);
    run := AdoptLists(hash, tree, run, 4, None);
    assert NewerOther(After(hash, tree, run).gens, 4, 3) by {
      assert 1 in After(hash, tree, run).gens;
    }
    run := DeletionBreaksThePass(hash, tree, run, 3);
  }
}
