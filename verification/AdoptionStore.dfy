/**
  The host commands of `configpin.py` that write the adopted copy or the tree, each run to its end:
  `adopt`, `_prune_generations`, `forget` and `revert`.
*/
module AdoptionStore {
  import opened Common
  import opened Digest
  import opened AdoptionProtocol
  import LineScanner

  /** The newest of some generations. */
  method Newest(gens: Gens, among: set<Gen>) returns (g: Gen)
    requires DistinctStamps(gens) && among != {} && among <= gens.Keys
    ensures g in among
    ensures forall h :: h in among && h != g ==> gens[h].stamp < gens[g].stamp
  {
    g :| g in among;
    var left := among - {g};
    while left != {}
      invariant left <= among && g in among && g !in left
      invariant forall h :: h in among - left && h != g ==> gens[h].stamp < gens[g].stamp
      decreases left
    {
      var h :| h in left;
      left := left - {h};
      if gens[g].stamp < gens[h].stamp {
        g := h;
      }
    }
  }

  ghost predicate NewestFirstOrder(gens: Gens, order: seq<Gen>) {
    && (forall g :: g in order ==> g in gens)
    && forall i, j :: 0 <= i < j < |order| ==> gens[order[i]].stamp > gens[order[j]].stamp
  }

  /** The generations, newest first. */
  method NewestFirst(gens: Gens) returns (order: seq<Gen>)
    requires DistinctStamps(gens)
    ensures NewestFirstOrder(gens, order) && forall g :: g in gens ==> g in order
  {
    order := [];
    var left := gens.Keys;
    while left != {}
      invariant left <= gens.Keys && NewestFirstOrder(gens, order)
      invariant forall g :: g in gens ==> (g in order <==> g !in left)
      invariant forall g, h :: g in order && h in left ==> gens[g].stamp > gens[h].stamp
      decreases left
    {
      var g := Newest(gens, left);
      order := order + [g];
      left := left - {g};
    }
  }

  /** Dropping one entry keeps the order of the others. */
  method Without(gens: Gens, order: seq<Gen>, keep: Gen) returns (others: seq<Gen>)
    requires NewestFirstOrder(gens, order)
    ensures NewestFirstOrder(gens, others)
    ensures forall g :: g in others <==> g in order && g != keep
  {
    others := [];
    for i := 0 to |order|
      invariant forall g :: g in others <==> g in order[..i] && g != keep
      invariant NewestFirstOrder(gens, others)
      invariant i < |order| ==> forall g :: g in others ==> gens[g].stamp > gens[order[i]].stamp
    {
      if order[i] != keep {
        others := others + [order[i]];
      }
    }
  }

  /** All but the newest of the others are what the prune supersedes. */
  lemma RestIsSuperseded(gens: Gens, keep: Gen, others: seq<Gen>)
    requires NewestFirstOrder(gens, others)
    requires forall g :: g in others <==> g in gens && g != keep
    ensures others != [] ==> forall g :: g in others[1..] <==> g in Superseded(gens, keep)
    ensures others == [] ==> Superseded(gens, keep) == {}
  {
    if others != [] {
      forall g ensures g in others[1..] <==> g in Superseded(gens, keep) {
        if g in others {
          var i :| 0 <= i < |others| && others[i] == g;
          if i > 0 {
            assert others[1..][i - 1] == g;
            assert others[0] in others && gens[g].stamp < gens[others[0]].stamp;
            assert others[0] in gens && others[0] != keep && others[0] != g;
          } else {
            FirstIsNewest(gens, others);
          }
        } else {
          assert g in others[1..] ==> g in others;
        }
      }
    }
  }

  /** Nothing in the list is newer than its first, nor is that further down. */
  lemma FirstIsNewest(gens: Gens, order: seq<Gen>)
    requires NewestFirstOrder(gens, order) && order != []
    ensures order[0] !in order[1..]
    ensures forall h :: h in order && h != order[0] ==> gens[h].stamp < gens[order[0]].stamp
  {
    forall h | h in order && h != order[0] ensures gens[h].stamp < gens[order[0]].stamp {
      var i :| 0 <= i < |order| && order[i] == h;
    }
    forall i | 1 <= i < |order| ensures order[i] != order[0] {
      assert gens[order[i]].stamp < gens[order[0]].stamp;
    }
  }

  /** The paths of a directory that is to be removed with everything in it. */
  method RemoveTree(gens: Gens, g: Gen, clock: int) returns (after: Gens, later: int)
    requires g in gens
    ensures after == gens - {g} && clock <= later
  {
    after, later := gens, clock;
    if after[g].files.shared.Some? {
      later := later + 1;
      after := after[g := Dir(Put(after[g].files, Shared, None), later)];
    }
    if after[g].files.local.Some? {
      later := later + 1;
      after := after[g := Dir(Put(after[g].files, Local, None), later)];
    }
    after := after - {g};
  }

  /** `_prune_generations`: the newest of the others stays, the rest go one at a time. */
  method PruneGenerations(gens: Gens, keep: Gen, clock: int) returns (after: Gens, later: int)
    requires DistinctStamps(gens)
    ensures after == gens - Superseded(gens, keep) && clock <= later
  {
    var order := NewestFirst(gens);
    var others := Without(gens, order, keep);
    RestIsSuperseded(gens, keep, others);
    after, later := gens, clock;
    if others == [] {
      assert gens - {} == gens;
      return;
    }
    var victims := others[1..];
    ghost var gone: set<Gen> := {};
    for i := 0 to |victims|
      invariant forall g :: g in gone <==> g in victims[..i]
      invariant after == gens - gone && clock <= later
    {
      var g := victims[i];
      if g in after {
        after, later := RemoveTree(after, g, later);
      }
      assert victims[..i + 1] == victims[..i] + [g];
      OneMoreGone(gens, gone, g);
      gone := gone + {g};
    }
    assert victims[..|victims|] == victims;
    assert gone == Superseded(gens, keep);
  }

  lemma OneMoreGone(gens: Gens, gone: set<Gen>, g: Gen)
    ensures gens - (gone + {g}) == (gens - gone) - {g}
    ensures g !in gens - gone ==> gens - (gone + {g}) == gens - gone
  {
  }

  /** `after` is the newest of `before` and nothing else; empty when that is. */
  ghost predicate OnlyTheNewestOf(before: Gens, after: Gens) {
    && after.Keys <= before.Keys && (forall g :: g in after ==> after[g] == before[g])
    && (before != map[] ==> after != map[])
    && forall g, h :: g in after && h in before && h != g ==> before[h].stamp < before[g].stamp
  }

  lemma {:induction false} SomeIsNewest(gens: Gens, among: set<Gen>) returns (g: Gen)
    requires DistinctStamps(gens) && among != {} && among <= gens.Keys
    ensures g in among && forall h :: h in among && h != g ==> gens[h].stamp < gens[g].stamp
    decreases |among|
  {
    g :| g in among;
    if among != {g} {
      var rest := SomeIsNewest(gens, among - {g});
      g := if gens[rest].stamp < gens[g].stamp then g else rest;
    }
  }

  lemma PruneLeavesTheNewest(before: Gens, gen: Gen, dir: Dir)
    requires DistinctStamps(before[gen := dir]) && gen !in before
    ensures var gens := before[gen := dir];
      OnlyTheNewestOf(before, gens - Superseded(gens, gen) - {gen}) && gen !in Superseded(gens, gen)
  {
    var gens := before[gen := dir];
    var after := gens - Superseded(gens, gen) - {gen};
    forall g | g in after ensures forall h :: h in before && h != g ==> before[h].stamp < before[g].stamp {
      SurvivesPruneExactly(gens, gen, g);
      forall h | h in before && h != g ensures before[h].stamp < before[g].stamp {
        assert gens[h] == before[h];
      }
    }
    if before != map[] {
      assert forall g :: g in before ==> gens[g] == before[g];
      var g := SomeIsNewest(gens, before.Keys);
      SurvivesPruneExactly(gens, gen, g);
      assert g in after;
    }
  }

  datatype Status = Clean | Pinned | Adopted | Reverted | Ignored | Unresolved | Unadopted | Declined

  function LowerChar(c: char): char {
    if 'A' <= c <= 'Z' then c - 'A' + 'a' else c
  }

  /** An answer as it is compared: without space around it, in lower case. */
  function Normalized(answer: string): string {
    var text := LineScanner.Strip(answer);
    seq(|text|, i requires 0 <= i < |text| => LowerChar(text[i]))
  }

  /** What the operator is shown and answers: main's fingerprint if there is a comparison, and the words typed. */
  datatype Review = Review(interactive: bool, main: Option<string>, typed: string)

  /** What has become of the tree and of main's adopted copy by the time of the answer. */
  datatype Meanwhile = Meanwhile(tree: FileSet, main: Option<string>)

  /** The word typed, between whatever space and with whichever letters capital. */
  ghost predicate Spells(answer: string, word: string) {
    exists i, j :: 0 <= i <= j <= |answer| && AroundIsSpace(answer, i, j) && SameLetters(answer[i..j], word)
  }

  predicate SameLetters(typed: string, word: string) {
    |typed| == |word| && forall k :: 0 <= k < |word| ==>
      typed[k] == word[k] || ('A' <= typed[k] <= 'Z' && typed[k] as int + 32 == word[k] as int)
  }

  predicate AroundIsSpace(answer: string, i: nat, j: nat)
    requires i <= j <= |answer|
  {
    (forall c :: c in answer[..i] ==> LineScanner.IsSpace(c))
        && (forall c :: c in answer[j..] ==> LineScanner.IsSpace(c))
  }

  /**
    An answer is compared as the word it spells: for every word without a capital letter and without
    space at its ends, and no other reading.
  */
  lemma NormalizedIsTheWordSpelt(answer: string, word: string)
    requires forall k :: 0 <= k < |word| ==> !('A' <= word[k] <= 'Z')
    requires word != "" ==> !LineScanner.IsSpace(word[0]) && !LineScanner.IsSpace(word[|word| - 1])
    ensures Normalized(answer) == word <==> Spells(answer, word)
  {
    hide LineScanner.IsSpace, LineScanner.Strip, AroundIsSpace, SameLetters;
    var i, j := LineScanner.StripBounds(answer);
    BoundsAround(answer, i, j);
    LoweredIsSameLetters(answer, word);
    if m, n :| 0 <= m <= n <= |answer| && AroundIsSpace(answer, m, n) && SameLetters(answer[m..n], word) {
      EndsInNoSpace(answer[m..n], word);
      TrimmedOneWay(answer, i, j, m, n);
    }
  }

  lemma BoundsAround(answer: string, i: nat, j: nat)
    requires i <= j <= |answer|
    requires (forall c :: c in answer[..i] ==> LineScanner.IsSpace(c))
    requires forall c :: c in answer[j..] ==> LineScanner.IsSpace(c)
    ensures AroundIsSpace(answer, i, j)
  {
  }

  lemma LoweredIsSameLetters(answer: string, word: string)
    requires forall k :: 0 <= k < |word| ==> !('A' <= word[k] <= 'Z')
    ensures Normalized(answer) == word <==> SameLetters(LineScanner.Strip(answer), word)
  {
    hide LineScanner.Strip;
    var typed := LineScanner.Strip(answer);
    assert forall k :: 0 <= k < |typed| ==> Normalized(answer)[k] == LowerChar(typed[k]);
  }

  lemma EndsInNoSpace(typed: string, word: string)
    requires SameLetters(typed, word)
    requires word != "" ==> !LineScanner.IsSpace(word[0]) && !LineScanner.IsSpace(word[|word| - 1])
    ensures typed != "" ==> !LineScanner.IsSpace(typed[0]) && !LineScanner.IsSpace(typed[|typed| - 1])
  {
    hide LineScanner.IsSpace;
    if typed != "" {
      CapitalIsNoSpace(typed[0]);
      CapitalIsNoSpace(typed[|typed| - 1]);
    }
  }

  lemma CapitalIsNoSpace(c: char)
    ensures 'A' <= c <= 'Z' ==> !LineScanner.IsSpace(c)
  {
  }

  /** Between space at both ends, what begins and ends without space is one stretch of the text. */
  lemma TrimmedOneWay(text: string, i: nat, j: nat, m: nat, n: nat)
    requires i <= j <= |text| && AroundIsSpace(text, i, j)
    requires m <= n <= |text| && AroundIsSpace(text, m, n)
    requires i < j ==> !LineScanner.IsSpace(text[i]) && !LineScanner.IsSpace(text[j - 1])
    requires m < n ==> !LineScanner.IsSpace(text[m]) && !LineScanner.IsSpace(text[n - 1])
    ensures text[i..j] == text[m..n]
  {
    hide LineScanner.IsSpace;
    forall k | 0 <= k < |text|
      ensures k < i || j <= k ==> LineScanner.IsSpace(text[k])
      ensures k < m || n <= k ==> LineScanner.IsSpace(text[k])
    {
      assert k < i ==> text[k] in text[..i];
      assert j <= k ==> text[k] in text[j..];
      assert k < m ==> text[k] in text[..m];
      assert n <= k ==> text[k] in text[n..];
    }
  }

  /** So it has no space at its ends and no capital letter. */
  lemma NormalizedIsTrimmedAndLower(answer: string)
    ensures forall k :: 0 <= k < |Normalized(answer)| ==> !('A' <= Normalized(answer)[k] <= 'Z')
    ensures Normalized(answer) != "" ==>
      !LineScanner.IsSpace(Normalized(answer)[0]) && !LineScanner.IsSpace(Normalized(answer)[|Normalized(answer)| - 1])
  {
    var i, j := LineScanner.StripBounds(answer);
  }

  /** What is space around an answer or on a line, and what is not. */
  lemma SpaceIsBlank(c: char)
    ensures c in {' ', '\t', '\n', '\r'} ==> LineScanner.IsSpace(c)
    ensures '!' <= c <= '~' ==> !LineScanner.IsSpace(c)
  {
  }

  /** Under a collision-free hash, a tree is stale exactly when it is not the one shown. */
  lemma StaleUnless(hash: Bytes -> string, shown: FileSet, read: FileSet)
    ensures CollisionFree(hash) ==> (Stale(hash, Some(shown), read) <==> read != shown)
  {
    if CollisionFree(hash) {
      FingerprintIdentifies(hash, read, shown);
    }
  }

  /** The adopted copy and the tree, between host commands and with the box holding still. */
  class Pin {
    var marker: Option<Gen>
    var gens: Gens
    var aside: FileSet
    var tree: FileSet
    var clock: int

    ghost predicate Valid()
      reads this
    {
      DistinctStamps(gens) && forall g :: g in gens ==> gens[g].stamp <= clock
    }

    constructor (tree: FileSet)
      ensures Valid() && marker == None && gens == map[] && aside == NO_FILES && this.tree == tree
    {
      marker, gens, aside, clock := None, map[], NO_FILES, 0;
      this.tree := tree;
    }

    /** The staging part of `adopt`: the tree's files in a directory of their own, renamed into place. */
    method Stage(gen: Gen)
      requires Valid() && gen !in gens
      modifies this`gens, this`clock
      ensures Valid() && gen in gens && gens[gen].files == tree
      ensures gens == old(gens)[gen := gens[gen]] && old(clock) < gens[gen].stamp
    {
      clock := clock + 1;
      var staged, stamp := NO_FILES, clock;
      if tree.shared.Some? {
        clock := clock + 1;
        staged, stamp := Put(staged, Shared, tree.shared), clock;
      }
      if tree.local.Some? {
        clock := clock + 1;
        staged, stamp := Put(staged, Local, tree.local), clock;
      }
      gens := gens[gen := Dir(staged, stamp)];
    }

    /**
      `adopt`: refused when the tree is not what was shown, or main's copy not the one it was compared
      with; otherwise the tree becomes the selected copy, and of the others only the newest survives,
      as it was.
    */
    method Adopt(hash: Bytes -> string, shown: Option<FileSet>, baseline: Option<string>, main: Option<string>,
        gen: Gen)
      returns (adopted: bool)
      requires Valid() && gen !in gens
      modifies this`marker, this`gens, this`clock
      ensures Valid()
      ensures adopted <==>
        && (shown.Some? ==> Fingerprint(hash, tree) == Fingerprint(hash, shown.value))
        && (baseline.Some? ==> main == baseline)
      ensures !adopted ==> marker == old(marker) && gens == old(gens)
      ensures adopted ==> marker == Some(gen) && SelectedFiles(marker, gens) == Some(tree)
      ensures adopted ==> OnlyTheNewestOf(old(gens), gens - {gen})
    {
      if Stale(hash, shown, tree) {
        return false;
      }
      if baseline.Some? && (main.None? || main.value != baseline.value) {
        return false;
      }
      ghost var before := gens;
      Stage(gen);
      marker := Some(gen);
      PruneLeavesTheNewest(before, gen, gens[gen]);
      gens, clock := PruneGenerations(gens, gen, clock);
      return true;
    }

    /** `forget`: the marker first, then everything else; says whether there was anything. */
    method Forget() returns (dropped: bool)
      requires Valid()
      modifies this`marker, this`gens, this`aside, this`clock
      ensures Valid() && marker == None && gens == map[] && aside == NO_FILES
      ensures dropped == (old(marker).Some? || old(gens) != map[] || old(aside) != NO_FILES)
    {
      dropped := marker.Some? || gens != map[] || aside != NO_FILES;
      marker := None;
      while gens != map[]
        invariant Valid() && marker == None
        decreases |gens|
      {
        var g :| g in gens;
        gens, clock := RemoveTree(gens, g, clock);
      }
      aside := NO_FILES;
    }

    /**
      `revert`: the tree becomes the selected copy.  Files the copy lacks are kept aside, and the
      files acted on are named; with nothing adopted it is refused.
    */
    method Revert() returns (acted: Option<seq<Name>>)
      requires Valid()
      modifies this`tree, this`aside
      ensures acted.None? <==> SelectedFiles(marker, gens).None?
      ensures acted.None? ==> tree == old(tree) && aside == old(aside)
      ensures acted.Some? ==> Some(tree) == SelectedFiles(marker, gens)
      ensures acted.Some? ==> acted.value in {[], [Shared], [Local], [Shared, Local]}
      ensures acted.Some? ==> forall name :: name in acted.value <==> Get(old(tree), name) != Get(tree, name)
      ensures acted.Some? ==> forall name: Name ::
                Get(aside, name) == if Get(tree, name).None? && Get(old(tree), name).Some? then Get(old(tree), name)
                                    else Get(old(aside), name)
    {
      var selected := SelectedFiles(marker, gens);
      if selected.None? {
        return None;
      }
      var done := RevertFile(selected.value, tree, Shared);
      var more := RevertFile(selected.value, tree, Local);
      assert done + [] == done && [] + more == more && [Shared] + [Local] == [Shared, Local];
      return Some(done + more);
    }

    /**
      `resolve`: settles drift before the host acts on it.  A copy is adopted only on a terminal, on
      an exact answer, and only if the tree, and on a first adoption main's copy, are still what was
      shown; without a terminal nothing changes.
    */
    method Resolve(hash: Bytes -> string, review: Review, meanwhile: Meanwhile, gen: Gen) returns (status: Status)
      requires Valid() && gen !in gens
      modifies this`marker, this`gens, this`clock, this`tree, this`aside
      ensures Valid()
      // The copy is the tree: nothing to settle.
      ensures old(SelectedFiles(marker, gens)) == Some(old(tree)) ==> status == Clean && unchanged(this)
      // No terminal: nothing changes.
      ensures old(SelectedFiles(marker, gens)) != Some(old(tree)) && !review.interactive ==>
        unchanged(this) && status == (if old(SelectedFiles(marker, gens)).None? then Unadopted else Unresolved)
      // Asked, the tree is what it has become; only a revert changes it.
      ensures old(SelectedFiles(marker, gens)) != Some(old(tree)) && review.interactive && status != Reverted ==>
        tree == meanwhile.tree && aside == old(aside)
      // A first adoption.
      ensures old(SelectedFiles(marker, gens)) == None && review.interactive ==>
        && (status == Declined <==> Normalized(review.typed) !in {"", "a", "adopt"})
        && (status == Pinned <==>
              && Normalized(review.typed) in {"", "a", "adopt"}
              && Fingerprint(hash, meanwhile.tree) == Fingerprint(hash, old(tree))
              && (review.main.Some? ==> meanwhile.main == review.main))
        && (status == Declined || status == Pinned || status == Unadopted)
      // Another copy is adopted already.
      ensures old(SelectedFiles(marker, gens)) !in {None, Some(old(tree))} && review.interactive ==>
        && (status == Adopted <==>
              && Normalized(review.typed) in {"a", "adopt"}
              && Fingerprint(hash, meanwhile.tree) == Fingerprint(hash, old(tree)))
        && (status == Reverted <==> Normalized(review.typed) in {"r", "revert"})
        && (status == Ignored <==> Normalized(review.typed) !in {"a", "adopt", "r", "revert"})
        && (status == Adopted || status == Unresolved || status == Reverted || status == Ignored)
      // What each outcome leaves.
      ensures status == Pinned || status == Adopted ==>
        && marker == Some(gen) && SelectedFiles(marker, gens) == Some(meanwhile.tree)
        && (CollisionFree(hash) ==> meanwhile.tree == old(tree))
      ensures status != Pinned && status != Adopted ==> marker == old(marker) && gens == old(gens)
      ensures status == Reverted ==>
        && Some(tree) == old(SelectedFiles(marker, gens))
        && forall name: Name :: Get(aside, name) ==
             if Get(tree, name).None? && Get(meanwhile.tree, name).Some? then Get(meanwhile.tree, name)
             else Get(old(aside), name)
    {
      var shown, selected := tree, SelectedFiles(marker, gens);
      if selected == Some(shown) {
        return Clean;
      }
      if !review.interactive {
        return if selected.None? then Unadopted else Unresolved;
      }
      tree := meanwhile.tree;
      var answer := Normalized(review.typed);
      StaleUnless(hash, shown, tree);
      if selected.None? {
        if answer !in {"", "a", "adopt"} {
          return Declined;
        }
        var adopted := Adopt(hash, Some(shown), review.main, meanwhile.main, gen);
        return if adopted then Pinned else Unadopted;
      }
      if answer in {"a", "adopt"} {
        var adopted := Adopt(hash, Some(shown), None, meanwhile.main, gen);
        return if adopted then Adopted else Unresolved;
      }
      if answer in {"r", "revert"} {
        var _ := Revert();
        return Reverted;
      }
      return Ignored;
    }

    /** One turn of the loop of `revert`, over the tree as it was read. */
    method RevertFile(pinned: FileSet, read: FileSet, name: Name) returns (acted: seq<Name>)
      requires Get(read, name) == Get(tree, name)
      modifies this`tree, this`aside
      ensures tree == Put(old(tree), name, Get(pinned, name))
      ensures acted == if Get(pinned, name) == Get(read, name) then [] else [name]
      ensures aside == if Get(pinned, name).None? && Get(read, name).Some? then Put(old(aside), name, Get(read, name))
                else old(aside)
    {
      var wanted, found := Get(pinned, name), Get(read, name);
      if wanted == found {
        return [];
      }
      if wanted.None? {
        aside := Put(aside, name, found);
      }
      tree := Put(tree, name, wanted);
      return [name];
    }
  }
}
