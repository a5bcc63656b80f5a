/**
  The configuration algebra of `config.py`: deep merge of two TOML documents, subtraction of the
  blocks marked `disabled = true`, renamed keys, and the reports that name what was subtracted or
  renamed.  A TOML document is a finite map from keys to values; the order of a table's keys does
  not matter to any of these operations.
*/
module ConfigMerge {

  import opened Common

  /** A parsed TOML value.  `Scalar` stands for every value that is no boolean, array or table. */
  datatype Value =
    | Scalar(text: string)
    | Bool(flag: bool)
    | Arr(items: seq<Value>)
    | Table(entries: map<string, Value>)

  type Doc = map<string, Value>

  const DISABLE_KEY := "disabled"

  // ---------------------------------------------------------------------------------------------
  // Deep merge
  // ---------------------------------------------------------------------------------------------

  function DeepMerge(base: Doc, over: Doc): Doc
    decreases Table(over)
  {
    map key | key in base.Keys + over.Keys ::
      if key !in over then base[key]
      else if over[key].Table? && key in base && base[key].Table?
      then assert over[key] == Table(over[key].entries); Table(DeepMerge(base[key].entries, over[key].entries))
      else over[key]
  }

  lemma MergeIdentity(doc: Doc)
    ensures DeepMerge(map[], doc) == doc
    ensures DeepMerge(doc, map[]) == doc
  {
  }

  lemma {:induction false} MergeIdempotent(doc: Doc)
    ensures DeepMerge(doc, doc) == doc
    decreases Table(doc)
  {
    forall key | key in doc && doc[key].Table?
      ensures DeepMerge(doc[key].entries, doc[key].entries) == doc[key].entries
    {
      assert doc[key] == Table(doc[key].entries);
      MergeIdempotent(doc[key].entries);
    }
  }

  /** `over` already says something at every key of `doc`, recursively where both hold tables. */
  ghost predicate Covers(over: Doc, doc: Doc)
    decreases Table(doc)
  {
    forall key :: key in doc ==>
      && key in over
      && (over[key].Table? && doc[key].Table? ==>
            assert doc[key] == Table(doc[key].entries);
            Covers(over[key].entries, doc[key].entries))
  }

  lemma {:induction false} CoveredMergeIsRight(doc: Doc, over: Doc)
    ensures DeepMerge(doc, over) == over <==> Covers(over, doc)
    decreases Table(doc)
  {
    forall key | key in doc && key in over && doc[key].Table? && over[key].Table?
      ensures DeepMerge(doc[key].entries, over[key].entries) == over[key].entries
         <==> Covers(over[key].entries, doc[key].entries)
    {
      assert doc[key] == Table(doc[key].entries);
      CoveredMergeIsRight(doc[key].entries, over[key].entries);
    }
    var merged := DeepMerge(doc, over);
    if merged == over {
      forall key | key in doc ensures key in over {
        assert key in merged;
      }
      forall key | key in doc && over[key].Table? && doc[key].Table?
        ensures Covers(over[key].entries, doc[key].entries)
      {
        assert merged[key] == Table(DeepMerge(doc[key].entries, over[key].entries));
      }
    }
    if Covers(over, doc) {
      assert merged.Keys == over.Keys;
      forall key | key in over ensures merged[key] == over[key] {
        if key in doc && over[key].Table? && doc[key].Table? {
          assert over[key] == Table(over[key].entries);
        }
      }
    }
  }

  /**
    No table of `first` is hidden by a non-table of `second` under a table of `third` that leaves
    part of the hidden table visible again.
  */
  ghost predicate NothingResurfaces(first: Doc, second: Doc, third: Doc)
    decreases Table(third)
  {
    forall key :: key in first && key in second && key in third
                  && first[key].Table? && third[key].Table? ==>
      if second[key].Table?
      then
        assert third[key] == Table(third[key].entries);
        NothingResurfaces(first[key].entries, second[key].entries, third[key].entries)
      else Covers(third[key].entries, first[key].entries)
  }

  /** Associativity of the merge, with the exact condition under which it holds. */
  lemma {:induction false} MergeAssociativeExactly(first: Doc, second: Doc, third: Doc)
    ensures DeepMerge(DeepMerge(first, second), third) == DeepMerge(first, DeepMerge(second, third))
       <==> NothingResurfaces(first, second, third)
    decreases Table(third)
  {
    var left := DeepMerge(DeepMerge(first, second), third);
    var right := DeepMerge(first, DeepMerge(second, third));
    assert left.Keys == right.Keys;
    forall key | key in left
      ensures left[key] == right[key] <==>
        (key in first && key in second && key in third && first[key].Table? && third[key].Table? ==>
          if second[key].Table?
          then NothingResurfaces(first[key].entries, second[key].entries, third[key].entries)
          else Covers(third[key].entries, first[key].entries))
    {
      MergeAssociativeAt(first, second, third, key);
    }
    if NothingResurfaces(first, second, third) {
      assert left == right;
    }
  }

  lemma {:induction false} MergeAssociativeAt(first: Doc, second: Doc, third: Doc, key: string)
    requires key in first || key in second || key in third
    ensures
      DeepMerge(DeepMerge(first, second), third)[key] == DeepMerge(first, DeepMerge(second, third))[key] <==>
        (key in first && key in second && key in third && first[key].Table? && third[key].Table? ==>
          if second[key].Table?
          then NothingResurfaces(first[key].entries, second[key].entries, third[key].entries)
          else Covers(third[key].entries, first[key].entries))
    decreases Table(third), 0
  {
    if key in first && key in second && key in third && first[key].Table? && third[key].Table? {
      assert third[key] == Table(third[key].entries);
      if second[key].Table? {
        MergeAssociativeExactly(first[key].entries, second[key].entries, third[key].entries);
      } else {
        CoveredMergeIsRight(first[key].entries, third[key].entries);
      }
    }
  }

  /** The two documents agree, at every path both reach, on whether it holds a table. */
  ghost predicate SameShape(left: Doc, right: Doc)
    decreases Table(left)
  {
    forall key :: key in left && key in right ==>
      && (left[key].Table? <==> right[key].Table?)
      && (left[key].Table? ==>
            assert left[key] == Table(left[key].entries);
            SameShape(left[key].entries, right[key].entries))
  }

  /** Where no path is a table in one document and a non-table in another, merging is associative. */
  lemma {:induction false} MergeAssociative(first: Doc, second: Doc, third: Doc)
    requires SameShape(first, second) && SameShape(second, third) && SameShape(first, third)
    ensures DeepMerge(DeepMerge(first, second), third) == DeepMerge(first, DeepMerge(second, third))
  {
    SameShapeNothingResurfaces(first, second, third);
    MergeAssociativeExactly(first, second, third);
  }

  lemma {:induction false} SameShapeNothingResurfaces(first: Doc, second: Doc, third: Doc)
    requires SameShape(first, second) && SameShape(second, third) && SameShape(first, third)
    ensures NothingResurfaces(first, second, third)
    decreases Table(third)
  {
    forall key | key in first && key in second && key in third && first[key].Table? && third[key].Table?
      ensures second[key].Table?
      ensures NothingResurfaces(first[key].entries, second[key].entries, third[key].entries)
    {
      assert third[key] == Table(third[key].entries);
      SameShapeNothingResurfaces(first[key].entries, second[key].entries, third[key].entries);
    }
  }

  /** Three documents whose middle one replaces a table by a scalar: the grouping matters. */
  lemma MergeNotAssociativeWitness()
    ensures
      var first: Doc := map["x" := Table(map["p" := Bool(true)])];
      var second: Doc := map["x" := Bool(true)];
      var third: Doc := map["x" := Table(map["q" := Bool(true)])];
      DeepMerge(DeepMerge(first, second), third) != DeepMerge(first, DeepMerge(second, third))
  {
    var first: Doc := map["x" := Table(map["p" := Bool(true)])];
    var second: Doc := map["x" := Bool(true)];
    var third: Doc := map["x" := Table(map["q" := Bool(true)])];
    assert "x" in first && "x" in second && "x" in third;
    assert "p" in first["x"].entries && "p" !in third["x"].entries;
    MergeAssociativeExactly(first, second, third);
  }

  // ---------------------------------------------------------------------------------------------
  // Subtraction
  // ---------------------------------------------------------------------------------------------

  predicate IsDisabled(value: Value) {
    value.Table? && DISABLE_KEY in value.entries && value.entries[DISABLE_KEY] == Bool(true)
  }

  predicate IsMarker(key: string, value: Value) {
    key == DISABLE_KEY && value.Bool?
  }

  function PruneDisabled(doc: Doc): Doc
    decreases Table(doc), 0
  {
    map key | key in doc && !IsMarker(key, doc[key]) && !IsDisabled(doc[key]) ::
      match doc[key]
      case Table(entries) => assert doc[key] == Table(entries); Table(PruneDisabled(entries))
      case Arr(items) => assert doc[key] == Arr(items); Arr(PruneItems(items))
      case other => other
  }

  /** The entries of an array of tables: disabled ones dropped, the others pruned in place. */
  function PruneItems(items: seq<Value>): seq<Value>
    decreases items, 0
  {
    if items == [] then []
    else
      var rest := PruneItems(items[1..]);
      match items[0]
      case Table(entries) =>
        if IsDisabled(items[0]) then rest
        else assert items[0] == Table(entries); [Table(PruneDisabled(entries))] + rest
      case other => [other] + rest
  }

  /** No table reachable through tables and arrays of tables carries a boolean marker. */
  ghost predicate MarkerFree(doc: Doc)
    decreases Table(doc), 0
  {
    forall key :: key in doc ==>
      && !IsMarker(key, doc[key])
      && match doc[key]
         case Table(entries) => assert doc[key] == Table(entries); MarkerFree(entries)
         case Arr(items) => assert doc[key] == Arr(items); ItemsMarkerFree(items)
         case _ => true
  }

  ghost predicate ItemsMarkerFree(items: seq<Value>)
    decreases items, 0
  {
    forall i :: 0 <= i < |items| && items[i].Table? ==>
      assert items[i] == Table(items[i].entries);
      MarkerFree(items[i].entries)
  }

  lemma {:induction false} PruneLeavesNoMarker(doc: Doc)
    ensures MarkerFree(PruneDisabled(doc))
    decreases Table(doc), 0
  {
    forall key | key in PruneDisabled(doc)
      ensures match PruneDisabled(doc)[key]
              case Table(entries) => MarkerFree(entries)
              case Arr(items) => ItemsMarkerFree(items)
              case _ => true
    {
      match doc[key]
      case Table(entries) => assert doc[key] == Table(entries); PruneLeavesNoMarker(entries);
      case Arr(items) => assert doc[key] == Arr(items); PruneItemsLeavesNoMarker(items);
      case _ =>
    }
  }

  lemma {:induction false} PruneItemsLeavesNoMarker(items: seq<Value>)
    ensures ItemsMarkerFree(PruneItems(items))
    decreases items, 0
  {
    if items != [] {
      PruneItemsLeavesNoMarker(items[1..]);
      if items[0].Table? {
        assert items[0] == Table(items[0].entries);
        PruneLeavesNoMarker(items[0].entries);
      }
    }
  }

  lemma {:induction false} PruneFixesMarkerFree(doc: Doc)
    requires MarkerFree(doc)
    ensures PruneDisabled(doc) == doc
    decreases Table(doc), 0
  {
    forall key | key in doc
      ensures !IsDisabled(doc[key])
      ensures match doc[key]
              case Table(entries) => PruneDisabled(entries) == entries
              case Arr(items) => PruneItems(items) == items
              case _ => true
    {
      match doc[key]
      case Table(entries) => assert doc[key] == Table(entries); PruneFixesMarkerFree(entries);
      case Arr(items) => assert doc[key] == Arr(items); PruneItemsFixesMarkerFree(items);
      case _ =>
    }
  }

  lemma {:induction false} PruneItemsFixesMarkerFree(items: seq<Value>)
    requires ItemsMarkerFree(items)
    ensures PruneItems(items) == items
    decreases items, 0
  {
    if items != [] {
      PruneItemsFixesMarkerFree(items[1..]);
      if items[0].Table? {
        assert items[0] == Table(items[0].entries);
        PruneFixesMarkerFree(items[0].entries);
      }
    }
  }

  lemma PruneIdempotent(doc: Doc)
    ensures PruneDisabled(PruneDisabled(doc)) == PruneDisabled(doc)
  {
    PruneLeavesNoMarker(doc);
    PruneFixesMarkerFree(PruneDisabled(doc));
  }

  // ---------------------------------------------------------------------------------------------
  // Table paths: what subtraction removes, and what it leaves alone
  // ---------------------------------------------------------------------------------------------

  type Path = seq<string>

  predicate IsTableAt(doc: Doc, path: Path)
    decreases path
  {
    path == [] || (path[0] in doc && doc[path[0]].Table? && IsTableAt(doc[path[0]].entries, path[1..]))
  }

  function TableAt(doc: Doc, path: Path): Doc
    requires IsTableAt(doc, path)
    decreases path
  {
    if path == [] then doc else TableAt(doc[path[0]].entries, path[1..])
  }

  /** The table at `path` carries `disabled = true`. */
  predicate DisabledAt(doc: Doc, path: Path) {
    IsTableAt(doc, path) && IsDisabled(Table(TableAt(doc, path)))
  }

  ghost predicate DisabledOnWay(doc: Doc, path: Path) {
    exists i :: 1 <= i <= |path| && DisabledAt(doc, path[..i])
  }

  lemma DisabledAtKey(doc: Doc, key: string)
    requires key in doc && doc[key].Table?
    ensures IsTableAt(doc, [key]) && TableAt(doc, [key]) == doc[key].entries
    ensures DisabledAt(doc, [key]) <==> IsDisabled(doc[key])
  {
    assert [key][1..] == [];
    assert IsTableAt(doc[key].entries, []) && TableAt(doc[key].entries, []) == doc[key].entries;
    assert doc[key] == Table(doc[key].entries);
  }

  lemma DisabledOnWayUnfold(doc: Doc, path: Path)
    requires path != [] && path[0] in doc && doc[path[0]].Table?
    ensures DisabledOnWay(doc, path) <==>
            IsDisabled(doc[path[0]]) || DisabledOnWay(doc[path[0]].entries, path[1..])
  {
    var sub := doc[path[0]].entries;
    DisabledAtKey(doc, path[0]);
    assert path[..1] == [path[0]];
    forall i | 1 <= i < |path|
      ensures DisabledAt(doc, path[..i + 1]) == DisabledAt(sub, path[1..][..i])
    {
      assert path[..i + 1][1..] == path[1..][..i];
    }
    if DisabledOnWay(sub, path[1..]) {
      var i :| 1 <= i <= |path[1..]| && DisabledAt(sub, path[1..][..i]);
      assert DisabledAt(doc, path[..i + 1]);
    }
    if DisabledOnWay(doc, path) && !IsDisabled(doc[path[0]]) {
      var i :| 1 <= i <= |path| && DisabledAt(doc, path[..i]);
      assert path[..i] == path[..(i - 1) + 1];
      assert DisabledAt(sub, path[1..][..i - 1]);
    }
  }

  /**
    A table path of the document survives subtraction exactly when neither it nor a table above it
    is disabled; a surviving table keeps every entry that is neither a marker nor a disabled table,
    scalars and other booleans unchanged.  Subtraction never makes a table.
  */
  lemma {:induction false} PruneRemovesExactly(doc: Doc, path: Path)
    ensures IsTableAt(PruneDisabled(doc), path) <==> IsTableAt(doc, path) && !DisabledOnWay(doc, path)
    ensures IsTableAt(PruneDisabled(doc), path) ==>
              TableAt(PruneDisabled(doc), path) == PruneDisabled(TableAt(doc, path))
    decreases path
  {
    if path != [] && path[0] in doc && doc[path[0]].Table? {
      DisabledOnWayUnfold(doc, path);
      PruneRemovesExactly(doc[path[0]].entries, path[1..]);
    }
  }

  // ---------------------------------------------------------------------------------------------
  // The report of what was subtracted
  // ---------------------------------------------------------------------------------------------

  /** `path` is one of the blocks a report names: disabled, under no other disabled block. */
  ghost predicate Reported(merged: Doc, path: Path) {
    path != [] && DisabledAt(merged, path) && forall i :: 1 <= i < |path| ==> !DisabledAt(merged, path[..i])
  }

  /** The local file itself carries the marker key at `path`. */
  predicate DeclaredLocally(local: Doc, path: Path) {
    IsTableAt(local, path) && DISABLE_KEY in TableAt(local, path)
  }

  lemma ReportedUnfold(merged: Doc, path: Path)
    requires path != []
    ensures Reported(merged, path) <==>
      && path[0] in merged && merged[path[0]].Table?
      && if IsDisabled(merged[path[0]]) then |path| == 1 else Reported(merged[path[0]].entries, path[1..])
  {
    if path[0] in merged && merged[path[0]].Table? {
      var sub := merged[path[0]].entries;
      DisabledAtKey(merged, path[0]);
      assert path[..1] == [path[0]];
      forall i | 1 <= i <= |path|
        ensures DisabledAt(merged, path[..i])
           <==> if i == 1 then IsDisabled(merged[path[0]]) else DisabledAt(sub, path[1..][..i - 1])
      {
        assert path[..i][1..] == path[1..][..i - 1];
      }
      assert path[..|path|] == path && path[1..][..|path| - 1] == path[1..];
      if Reported(merged, path) && !IsDisabled(merged[path[0]]) {
        forall i | 1 <= i < |path[1..]| ensures !DisabledAt(sub, path[1..][..i]) {
          assert !DisabledAt(merged, path[..i + 1]);
        }
      }
      if |path| > 1 && IsDisabled(merged[path[0]]) {
        assert DisabledAt(merged, path[..1]);
      }
      if !IsDisabled(merged[path[0]]) && Reported(sub, path[1..]) {
        forall i | 1 <= i < |path| ensures !DisabledAt(merged, path[..i]) {
          if i > 1 {
            assert !DisabledAt(sub, path[1..][..i - 1]);
          }
        }
      }
    }
  }

  /** Reported paths are never nested. */
  lemma ReportedNeverNested(merged: Doc, inner: Path, outer: Path)
    requires Reported(merged, inner) && outer < inner
    ensures !Reported(merged, outer)
  {
    assert inner[..|outer|] == outer;
  }

  /** The path as it is reported: keys joined by dots, an empty beginning leaving no dot. */
  function Joined(path: Path): string {
    if path == [] then ""
    else
      var above, key := Joined(path[..|path| - 1]), path[|path| - 1];
      if above == "" then key else above + "." + key
  }

  /** A path is reported as its keys with a dot between each two, keys that are empty at its head aside. */
  lemma {:induction false} JoinedByDots(above: Path, below: Path)
    requires below != []
    ensures Joined([below[0]]) == below[0]
    ensures Joined(above) == "" ==> Joined(above + below) == Joined(below)
    ensures Joined(above) != "" && below[0] != "" ==> Joined(above + below) == Joined(above) + "." + Joined(below)
    decreases |below|
  {
    var n := |below| - 1;
    assert [below[0]][..0] == [] && (above + below)[..|above + below| - 1] == above + below[..n];
    if n > 0 {
      JoinedByDots(above, below[..n]);
      if Joined(above) != "" && below[0] != "" {
        JoinedStarts(below[..n]);
        assert (Joined(above) + "." + Joined(below[..n])) + "." + below[n]
            == Joined(above) + "." + (Joined(below[..n]) + "." + below[n]);
      }
    } else {
      assert below[..0] == [] && above + [] == above;
    }
  }

  lemma {:induction false} JoinedStarts(path: Path)
    requires path != [] && path[0] != ""
    ensures Joined(path) != ""
    decreases |path|
  {
    if |path| > 1 {
      JoinedStarts(path[..|path| - 1]);
    }
  }

  /** `disabled_blocks`: every block the merge removes, with whether the local file says so. */
  method DisabledBlocks(shared: Doc, local: Doc) returns (report: seq<(string, bool)>, ghost found: seq<(Path, bool)>)
    ensures forall path, here :: (path, here) in found <==>
              Reported(DeepMerge(shared, local), path) && here == DeclaredLocally(local, path)
    ensures forall i, j :: 0 <= i < j < |found| ==> found[i] != found[j]
    ensures |report| == |found| && forall i :: 0 <= i < |found| ==> report[i] == (Joined(found[i].0), found[i].1)
  {
    var blocks := Walk(DeepMerge(shared, local), local);
    report := seq(|blocks|, i requires 0 <= i < |blocks| => (Joined(blocks[i].0), blocks[i].1));
    found := blocks;
  }

  method Walk(merged: Doc, over: Doc) returns (found: seq<(Path, bool)>)
    ensures forall path, here :: (path, here) in found <==>
              Reported(merged, path) && here == DeclaredLocally(over, path)
    ensures forall i, j :: 0 <= i < j < |found| ==> found[i] != found[j]
    decreases Table(merged), 1
  {
    found := [];
    var keys := merged.Keys;
    while keys != {}
      invariant keys <= merged.Keys
      invariant forall path, here :: (path, here) in found <==>
                  path != [] && path[0] !in keys && Reported(merged, path) && here == DeclaredLocally(over, path)
      invariant forall i, j :: 0 <= i < j < |found| ==> found[i] != found[j]
      decreases keys
    {
      var key :| key in keys;
      var below := WalkKey(merged, over, key);
      found := found + below;
      keys := keys - {key};
    }
    forall path | Reported(merged, path) ensures path != [] && path[0] in merged {
      ReportedUnfold(merged, path);
    }
  }

  /** What the walk finds at one key of a table and below it. */
  method WalkKey(merged: Doc, over: Doc, key: string) returns (found: seq<(Path, bool)>)
    requires key in merged
    ensures forall path, here :: (path, here) in found <==>
              path != [] && path[0] == key && Reported(merged, path) && here == DeclaredLocally(over, path)
    ensures forall i, j :: 0 <= i < j < |found| ==> found[i] != found[j]
    decreases Table(merged), 0
  {
    forall path: Path | path != [] { ReportedUnfold(merged, path); }
    if !merged[key].Table? {
      return [];
    }
    assert merged[key] == Table(merged[key].entries);
    var localHere := if key in over && over[key].Table? then over[key].entries else map[];
    forall path: Path | path != [] && path[0] == key
      ensures DeclaredLocally(over, path) ==
              (key in over && over[key].Table? && DeclaredLocally(localHere, path[1..]))
    {
    }
    if IsDisabled(merged[key]) {
      var here := key in over && over[key].Table? && DISABLE_KEY in localHere;
      assert [key][1..] == [] && DeclaredLocally(localHere, []) == (DISABLE_KEY in localHere);
      found := [([key], here)];
      forall path: Path | |path| == 1 && path[0] == key ensures path == [key] {
      }
    } else {
      var below := Walk(merged[key].entries, localHere);
      found := Under(key, below);
      UnderMembers(key, below);
      forall path: Path | path != [] && Reported(merged[key].entries, path) && !(key in over && over[key].Table?)
        ensures !DeclaredLocally(localHere, path)
      {
      }
      assert forall path :: Reported(merged[key].entries, path) ==> path != [];
    }
  }

  function Under(key: string, below: seq<(Path, bool)>): seq<(Path, bool)> {
    seq(|below|, i requires 0 <= i < |below| => ([key] + below[i].0, below[i].1))
  }

  lemma UnderMembers(key: string, below: seq<(Path, bool)>)
    ensures forall path, here :: (path, here) in Under(key, below) <==>
              path != [] && path[0] == key && (path[1..], here) in below
  {
    var under := Under(key, below);
    forall path: Path, here | (path, here) in under
      ensures path != [] && path[0] == key && (path[1..], here) in below
    {
      var i :| 0 <= i < |under| && under[i] == (path, here);
      assert path[1..] == below[i].0;
      assert below[i] == (path[1..], here);
    }
    forall path: Path, here | path != [] && path[0] == key && (path[1..], here) in below
      ensures (path, here) in under
    {
      var i :| 0 <= i < |below| && below[i] == (path[1..], here);
      assert path == [key] + path[1..];
      assert under[i] == (path, here);
    }
  }

  // ---------------------------------------------------------------------------------------------
  // Renamed keys
  // ---------------------------------------------------------------------------------------------

  datatype Rename = Rename(table: string, oldKey: string, newKey: string)

  const RENAMED_KEYS: seq<Rename> := [
    Rename("machine", "wall", "firewall"),
    Rename("machine", "host_wall", "host_firewall"),
    Rename("proxy", "default_deny", "enforce"),
    Rename("inject", "axis", "switch"),
    Rename("require", "axis", "switch")
  ]

  /** One table on the new spelling: where both are present, the new one wins. */
  function RenamedEntry(entry: Doc, rename: Rename): (result: Doc)
    requires rename.oldKey != rename.newKey
    ensures rename.oldKey !in result
    ensures rename.oldKey !in entry ==> result == entry
    ensures rename.oldKey in entry ==> rename.newKey in result
    ensures rename.oldKey in entry ==>
      result[rename.newKey] == entry[if rename.newKey in entry then rename.newKey else rename.oldKey]
    ensures forall key :: key !in {rename.oldKey, rename.newKey} ==>
      (key in result <==> key in entry) && (key in entry ==> result[key] == entry[key])
  {
    if rename.oldKey !in entry then entry
    else
      var kept := entry - {rename.oldKey};
      if rename.newKey in kept then kept else kept[rename.newKey := entry[rename.oldKey]]
  }

  function RenamedItem(item: Value, rename: Rename): Value
    requires rename.oldKey != rename.newKey
  {
    if item.Table? then Table(RenamedEntry(item.entries, rename)) else item
  }

  function RenamedValue(value: Value, rename: Rename): Value
    requires rename.oldKey != rename.newKey
  {
    match value
    case Table(_) => RenamedItem(value, rename)
    case Arr(items) => Arr(seq(|items|, i requires 0 <= i < |items| => RenamedItem(items[i], rename)))
    case _ => value
  }

  function ApplyRename(doc: Doc, rename: Rename): Doc
    requires rename.oldKey != rename.newKey
  {
    if rename.table in doc then doc[rename.table := RenamedValue(doc[rename.table], rename)] else doc
  }

  function ApplyRenamesFrom(doc: Doc, i: nat): Doc
    requires i <= |RENAMED_KEYS|
    decreases |RENAMED_KEYS| - i
  {
    if i == |RENAMED_KEYS| then doc else ApplyRenamesFrom(ApplyRename(doc, RENAMED_KEYS[i]), i + 1)
  }

  function ApplyRenames(doc: Doc): Doc {
    ApplyRenamesFrom(doc, 0)
  }

  /** The document still spells `rename` the old way, in the table or in an entry of the array. */
  predicate UsesOld(doc: Doc, rename: Rename) {
    rename.table in doc &&
    match doc[rename.table]
    case Table(entries) => rename.oldKey in entries
    case Arr(items) => exists i :: 0 <= i < |items| && items[i].Table? && rename.oldKey in items[i].entries
    case _ => false
  }

  lemma ApplyRenameStep(doc: Doc, rename: Rename, other: Rename)
    requires rename.oldKey != rename.newKey
    requires other.table != rename.table || other.oldKey != rename.newKey
    ensures !UsesOld(ApplyRename(doc, rename), rename)
    ensures !UsesOld(doc, rename) ==> ApplyRename(doc, rename) == doc
    ensures !UsesOld(doc, other) ==> !UsesOld(ApplyRename(doc, rename), other)
  {
    var result := ApplyRename(doc, rename);
    if rename.table in doc {
      var value := doc[rename.table];
      if value.Arr? {
        var items := result[rename.table].items;
        assert forall i :: 0 <= i < |items| ==> items[i] == RenamedItem(value.items[i], rename);
        if !UsesOld(doc, rename) {
          assert items == value.items;
        }
        if !UsesOld(doc, other) && other.table == rename.table {
          forall i | 0 <= i < |items| && items[i].Table? ensures other.oldKey !in items[i].entries {
            assert value.items[i].Table? && other.oldKey !in value.items[i].entries;
          }
        }
      }
    }
  }

  lemma {:induction false} ApplyRenamesFromClears(doc: Doc, i: nat)
    requires i <= |RENAMED_KEYS|
    ensures forall j :: i <= j < |RENAMED_KEYS| ==> !UsesOld(ApplyRenamesFrom(doc, i), RENAMED_KEYS[j])
    ensures forall j :: 0 <= j < i && !UsesOld(doc, RENAMED_KEYS[j])
                        ==> !UsesOld(ApplyRenamesFrom(doc, i), RENAMED_KEYS[j])
    ensures (forall j :: i <= j < |RENAMED_KEYS| ==> !UsesOld(doc, RENAMED_KEYS[j]))
            ==> ApplyRenamesFrom(doc, i) == doc
    decreases |RENAMED_KEYS| - i
  {
    if i < |RENAMED_KEYS| {
      var next := ApplyRename(doc, RENAMED_KEYS[i]);
      forall j | 0 <= j < |RENAMED_KEYS|
        ensures !UsesOld(next, RENAMED_KEYS[i])
        ensures !UsesOld(doc, RENAMED_KEYS[i]) ==> next == doc
        ensures !UsesOld(doc, RENAMED_KEYS[j]) ==> !UsesOld(next, RENAMED_KEYS[j])
      {
        ApplyRenameStep(doc, RENAMED_KEYS[i], RENAMED_KEYS[j]);
      }
      ApplyRenamesFromClears(next, i + 1);
    }
  }

  lemma ApplyRenamesIdempotent(doc: Doc)
    ensures ApplyRenames(ApplyRenames(doc)) == ApplyRenames(doc)
  {
    ApplyRenamesFromClears(doc, 0);
    ApplyRenamesFromClears(ApplyRenames(doc), 0);
  }

  /** The report of old spellings, for one file: table, old key, whether it is an array of tables. */
  function OldSpellings(doc: Doc, inLocal: bool, n: nat): seq<(string, string, bool)>
    requires n <= |RENAMED_KEYS|
  {
    if n == 0 then []
    else
      var rename := RENAMED_KEYS[n - 1];
      var before := OldSpellings(doc, inLocal, n - 1);
      if UsesOld(doc, rename)
      then before + [(Label(doc, rename, rename.oldKey), Label(doc, rename, rename.newKey), inLocal)]
      else before
  }

  function Label(doc: Doc, rename: Rename, key: string): string {
    if rename.table in doc && doc[rename.table].Arr?
    then "[[" + rename.table + "]] " + key
    else "[" + rename.table + "] " + key
  }

  method RenamedKeys(shared: Doc, local: Doc) returns (found: seq<(string, string, bool)>)
    ensures found == OldSpellings(shared, false, |RENAMED_KEYS|) + OldSpellings(local, true, |RENAMED_KEYS|)
  {
    found := [];
    for n := 0 to |RENAMED_KEYS|
      invariant found == OldSpellings(shared, false, n)
    {
      var rename := RENAMED_KEYS[n];
      if UsesOld(shared, rename) {
        found := found + [(Label(shared, rename, rename.oldKey), Label(shared, rename, rename.newKey), false)];
      }
    }
    ghost var first := found;
    for n := 0 to |RENAMED_KEYS|
      invariant found == first + OldSpellings(local, true, n)
    {
      var rename := RENAMED_KEYS[n];
      if UsesOld(local, rename) {
        found := found + [(Label(local, rename, rename.oldKey), Label(local, rename, rename.newKey), true)];
      }
    }
  }

  lemma {:induction false} OldSpellingsEmpty(doc: Doc, inLocal: bool, n: nat)
    requires n <= |RENAMED_KEYS|
    ensures OldSpellings(doc, inLocal, n) == [] <==> forall j :: 0 <= j < n ==> !UsesOld(doc, RENAMED_KEYS[j])
  {
    if n > 0 {
      OldSpellingsEmpty(doc, inLocal, n - 1);
    }
  }

  /** Renaming is the identity exactly when the report is empty. */
  lemma RenamesIdentityIffUnreported(doc: Doc, inLocal: bool)
    ensures ApplyRenames(doc) == doc <==> OldSpellings(doc, inLocal, |RENAMED_KEYS|) == []
  {
    ApplyRenamesFromClears(doc, 0);
    OldSpellingsEmpty(doc, inLocal, |RENAMED_KEYS|);
  }

  // ---------------------------------------------------------------------------------------------
  // The resolved document
  // ---------------------------------------------------------------------------------------------

  function MergeConfig(shared: Doc, local: Doc): Doc {
    PruneDisabled(DeepMerge(ApplyRenames(shared), ApplyRenames(local)))
  }

  /** What one table of a document says at the two spellings of a rename, before and after it. */
  predicate SpelledAs(doc: Doc, rename: Rename, value: Value) {
    rename.table in doc && doc[rename.table].Table? &&
    var entries := doc[rename.table].entries;
    if rename.newKey in entries then entries[rename.newKey] == value
    else rename.oldKey in entries && entries[rename.oldKey] == value
  }

  lemma {:induction false} ApplyRenamesFromKeepsMeaning(doc: Doc, i: nat, n: nat, value: Value)
    requires i <= |RENAMED_KEYS| && n < |RENAMED_KEYS|
    requires SpelledAs(doc, RENAMED_KEYS[n], value)
    ensures SpelledAs(ApplyRenamesFrom(doc, i), RENAMED_KEYS[n], value)
    ensures DISABLE_KEY in doc[RENAMED_KEYS[n].table].entries <==>
            DISABLE_KEY in ApplyRenamesFrom(doc, i)[RENAMED_KEYS[n].table].entries
    decreases |RENAMED_KEYS| - i
  {
    if i < |RENAMED_KEYS| {
      assert SpelledAs(ApplyRename(doc, RENAMED_KEYS[i]), RENAMED_KEYS[n], value);
      ApplyRenamesFromKeepsMeaning(ApplyRename(doc, RENAMED_KEYS[i]), i + 1, n, value);
    }
  }

  /**
    Either spelling in the local file overrides either spelling in the shared one: the renames are
    applied to each file before the merge, and within one file the new spelling wins.
  */
  lemma LocalSpellingOverrides(shared: Doc, local: Doc, n: nat, value: Value, hidden: Value)
    requires n < |RENAMED_KEYS|
    requires SpelledAs(local, RENAMED_KEYS[n], value) && SpelledAs(shared, RENAMED_KEYS[n], hidden)
    requires value.Scalar? || value.Bool?
    requires DISABLE_KEY !in local[RENAMED_KEYS[n].table].entries
    requires DISABLE_KEY !in shared[RENAMED_KEYS[n].table].entries
    ensures IsTableAt(MergeConfig(shared, local), [RENAMED_KEYS[n].table])
    ensures var table := TableAt(MergeConfig(shared, local), [RENAMED_KEYS[n].table]);
            && RENAMED_KEYS[n].newKey in table && table[RENAMED_KEYS[n].newKey] == value
            && RENAMED_KEYS[n].oldKey !in table
  {
    var rename := RENAMED_KEYS[n];
    ApplyRenamesFromKeepsMeaning(local, 0, n, value);
    ApplyRenamesFromKeepsMeaning(shared, 0, n, hidden);
    ApplyRenamesFromClears(local, 0);
    ApplyRenamesFromClears(shared, 0);
    MergedEntry(ApplyRenames(shared), ApplyRenames(local), rename.table, rename.newKey, rename.oldKey, value);
  }

  /** A local scalar entry of a table both documents have reaches the resolved table; a key neither has does not. */
  lemma MergedEntry(shared: Doc, local: Doc, table: string, key: string, absent: string, value: Value)
    requires table in shared && shared[table].Table? && table in local && local[table].Table?
    requires DISABLE_KEY !in shared[table].entries && DISABLE_KEY !in local[table].entries
    requires key in local[table].entries && local[table].entries[key] == value && (value.Scalar? || value.Bool?)
    requires absent !in shared[table].entries && absent !in local[table].entries
    ensures var resolved := PruneDisabled(DeepMerge(shared, local));
            && IsTableAt(resolved, [table])
            && key in TableAt(resolved, [table]) && TableAt(resolved, [table])[key] == value
            && absent !in TableAt(resolved, [table])
  {
    var merged := DeepMerge(shared, local);
    var entries := DeepMerge(shared[table].entries, local[table].entries);
    assert merged[table] == Table(entries);
    assert !IsDisabled(merged[table]);
    assert PruneDisabled(merged)[table] == Table(PruneDisabled(entries));
    DisabledAtKey(PruneDisabled(merged), table);
  }

  /** The marker at a path as the two files say it: the local one if there is one, otherwise the shared one. */
  predicate MarkedDisabled(shared: Doc, local: Doc, path: Path) {
    if DeclaredLocally(local, path) then TableAt(local, path)[DISABLE_KEY] == Bool(true)
    else DeclaredLocally(shared, path) && TableAt(shared, path)[DISABLE_KEY] == Bool(true)
  }

  lemma {:induction false} MarkerOfMerge(shared: Doc, local: Doc, path: Path)
    requires IsTableAt(DeepMerge(shared, local), path)
    ensures DisabledAt(DeepMerge(shared, local), path) <==> MarkedDisabled(shared, local, path)
    decreases path
  {
    var merged := DeepMerge(shared, local);
    if path != [] {
      var key := path[0];
      if key in local && key in shared && local[key].Table? && shared[key].Table? {
        assert merged[key] == Table(DeepMerge(shared[key].entries, local[key].entries));
        MarkerOfMerge(shared[key].entries, local[key].entries, path[1..]);
      } else {
        assert merged[key] == if key in local then local[key] else shared[key];
      }
    }
  }

  /**
    The override works both ways: a table path of the merge survives exactly when at it and at every
    table above it the local marker, or the shared one where the local file has none, is not `true`.
    (Both files are taken on the new spellings, which is how they are merged.)
  */
  lemma LocalMarkerDecides(shared: Doc, local: Doc, path: Path)
    ensures var s, l := ApplyRenames(shared), ApplyRenames(local);
      IsTableAt(MergeConfig(shared, local), path) <==>
        (IsTableAt(DeepMerge(s, l), path) && forall i :: 1 <= i <= |path| ==> !MarkedDisabled(s, l, path[..i]))
  {
    var s, l := ApplyRenames(shared), ApplyRenames(local);
    var merged := DeepMerge(s, l);
    PruneRemovesExactly(merged, path);
    if IsTableAt(merged, path) {
      forall i | 1 <= i <= |path| ensures DisabledAt(merged, path[..i]) <==> MarkedDisabled(s, l, path[..i]) {
        TableAbove(merged, path, i);
        MarkerOfMerge(s, l, path[..i]);
      }
    }
  }

  /** With no renamed keys in use, that is said of the files themselves. */
  lemma LocalMarkerDecidesAsWritten(shared: Doc, local: Doc, path: Path)
    requires OldSpellings(shared, false, |RENAMED_KEYS|) == [] && OldSpellings(local, true, |RENAMED_KEYS|) == []
    ensures IsTableAt(MergeConfig(shared, local), path) <==>
              (IsTableAt(DeepMerge(shared, local), path)
               && forall i :: 1 <= i <= |path| ==> !MarkedDisabled(shared, local, path[..i]))
  {
    RenamesIdentityIffUnreported(shared, false);
    RenamesIdentityIffUnreported(local, true);
    LocalMarkerDecides(shared, local, path);
  }

  lemma {:induction false} TableAbove(doc: Doc, path: Path, i: nat)
    requires IsTableAt(doc, path) && i <= |path|
    ensures IsTableAt(doc, path[..i])
    decreases path
  {
    if i > 0 {
      assert path[..i][1..] == path[1..][..i - 1];
      TableAbove(doc[path[0]].entries, path[1..], i - 1);
    }
  }

  /**
    With no renamed keys in use, the table paths the resolved document loses from the deep merge
    are exactly those at or below a reported path.
  */
  lemma RemovedTablesAreReported(shared: Doc, local: Doc, path: Path)
    requires OldSpellings(shared, false, |RENAMED_KEYS|) == [] && OldSpellings(local, true, |RENAMED_KEYS|) == []
    ensures
      IsTableAt(DeepMerge(shared, local), path) && !IsTableAt(MergeConfig(shared, local), path) <==>
      IsTableAt(DeepMerge(shared, local), path)
        && exists i :: 0 <= i <= |path| && Reported(DeepMerge(shared, local), path[..i])
  {
    RenamesIdentityIffUnreported(shared, false);
    RenamesIdentityIffUnreported(local, true);
    var merged := DeepMerge(shared, local);
    PruneRemovesExactly(merged, path);
    if i :| 1 <= i <= |path| && DisabledAt(merged, path[..i]) {
      FirstDisabledIsReported(merged, path, i);
    }
  }

  lemma {:induction false} FirstDisabledIsReported(merged: Doc, path: Path, i: nat)
    requires 1 <= i <= |path| && DisabledAt(merged, path[..i])
    ensures exists j :: 1 <= j <= i && Reported(merged, path[..j])
    decreases i
  {
    if j :| 1 <= j < i && DisabledAt(merged, path[..j]) {
      FirstDisabledIsReported(merged, path, j);
    } else {
      forall k | 1 <= k < |path[..i]| ensures !DisabledAt(merged, path[..i][..k]) {
        assert path[..i][..k] == path[..k];
      }
      assert Reported(merged, path[..i]);
    }
  }

  // ---------------------------------------------------------------------------------------------
  // Precedence, value by value
  // ---------------------------------------------------------------------------------------------

  /** A value that holds no table: neither a rename nor a subtraction can reach inside it. */
  predicate Plain(value: Value) {
    match value
    case Table(_) => false
    case Arr(items) => forall i :: 0 <= i < |items| ==> !items[i].Table?
    case _ => true
  }

  /** What the document holds at a path of keys. */
  function ValueAt(doc: Doc, path: Path): (value: Option<Value>)
    decreases path
  {
    if path == [] then Some(Table(doc))
    else if path[0] !in doc then None
    else if |path| == 1 then Some(doc[path[0]])
    else if doc[path[0]].Table? then ValueAt(doc[path[0]].entries, path[1..])
    else None
  }

  /** The document says nothing at `path`, and nothing that would hide what another one says there. */
  predicate Silent(doc: Doc, path: Path)
    decreases path
  {
    path != [] &&
    (path[0] in doc ==>
       |path| > 1 && doc[path[0]].Table? && Silent(doc[path[0]].entries, path[1..]))
  }

  lemma ValueAtUnfold(doc: Doc, path: Path)
    requires |path| > 1 && path[0] in doc && doc[path[0]].Table?
    ensures ValueAt(doc, path) == ValueAt(doc[path[0]].entries, path[1..])
    ensures Silent(doc, path) <==> Silent(doc[path[0]].entries, path[1..])
  {
  }

  /** A plain value of the overlay wins; where the overlay is silent, the base's stands. */
  lemma {:induction false} MergePrecedence(base: Doc, over: Doc, path: Path, value: Value)
    requires path != [] && Plain(value)
    ensures ValueAt(over, path) == Some(value) ==> ValueAt(DeepMerge(base, over), path) == Some(value)
    ensures Silent(over, path) && ValueAt(base, path) == Some(value) ==>
      ValueAt(DeepMerge(base, over), path) == Some(value)
    ensures Silent(over, path) && Silent(base, path) ==> Silent(DeepMerge(base, over), path)
    decreases path
  {
    var merged, key := DeepMerge(base, over), path[0];
    if key in over && key in base && over[key].Table? && base[key].Table? {
      assert over[key] == Table(over[key].entries);
      assert merged[key] == Table(DeepMerge(base[key].entries, over[key].entries));
      if |path| > 1 {
        MergePrecedence(base[key].entries, over[key].entries, path[1..], value);
        ValueAtUnfold(merged, path);
      }
    } else if key in over {
      assert merged[key] == over[key];
    } else if key in base {
      assert merged[key] == base[key];
    }
  }

  lemma {:induction false} PruneKeepsPlainItems(items: seq<Value>)
    requires Plain(Arr(items))
    ensures PruneItems(items) == items
  {
    if items != [] {
      PruneKeepsPlainItems(items[1..]);
    }
  }

  /**
    Value by value, in plain words: a plain value survives subtraction exactly when no table above
    it has `disabled = true` and it is not itself a boolean named `disabled`.
  */
  lemma {:induction false} PlainSurvivesExactly(doc: Doc, path: Path, value: Value)
    requires path != [] && Plain(value) && ValueAt(doc, path) == Some(value)
    ensures ValueAt(PruneDisabled(doc), path) == Some(value) <==>
      && (forall i :: 1 <= i < |path| ==> !DisabledAt(doc, path[..i]))
      && !(path[|path| - 1] == "disabled" && value.Bool?)
    decreases path
  {
    var key, pruned := path[0], PruneDisabled(doc);
    if |path| == 1 {
      if value.Arr? {
        assert doc[key] == Arr(value.items);
        PruneKeepsPlainItems(value.items);
      }
    } else {
      var sub := doc[key].entries;
      assert doc[key] == Table(sub);
      DisabledAtKey(doc, key);
      assert path[..1] == [key];
      PlainSurvivesExactly(sub, path[1..], value);
      forall i | 1 <= i < |path| - 1 ensures DisabledAt(doc, path[..i + 1]) <==> DisabledAt(sub, path[1..][..i]) {
        assert path[..i + 1][1..] == path[1..][..i];
      }
      if !IsDisabled(doc[key]) {
        assert pruned[key] == Table(PruneDisabled(sub));
        if forall i :: 1 <= i < |path[1..]| ==> !DisabledAt(sub, path[1..][..i]) {
          forall i | 1 <= i < |path| ensures !DisabledAt(doc, path[..i]) {
            assert i > 1 ==> path[..i] == path[..(i - 1) + 1] && !DisabledAt(sub, path[1..][..i - 1]);
          }
        } else {
          var i :| 1 <= i < |path[1..]| && DisabledAt(sub, path[1..][..i]);
          assert DisabledAt(doc, path[..i + 1]);
        }
      }
    }
  }

  lemma {:induction false} SilentAfterPrune(doc: Doc, path: Path)
    requires Silent(doc, path)
    ensures Silent(PruneDisabled(doc), path)
    decreases path
  {
    if path[0] in doc {
      assert doc[path[0]] == Table(doc[path[0]].entries);
      SilentAfterPrune(doc[path[0]].entries, path[1..]);
    }
  }

  lemma RenameKeepsValue(doc: Doc, rename: Rename, path: Path, value: Value)
    requires rename.oldKey != rename.newKey && path != [] && Plain(value)
    requires |path| < 2 || rename.table != path[0] || path[1] !in {rename.oldKey, rename.newKey}
    ensures ValueAt(doc, path) == Some(value) ==> ValueAt(ApplyRename(doc, rename), path) == Some(value)
    ensures Silent(doc, path) ==> Silent(ApplyRename(doc, rename), path)
  {
    var key := path[0];
    if key == rename.table && key in doc {
      var renamed := ApplyRename(doc, rename)[key];
      if value.Arr? && doc[key] == value {
        assert renamed.items == value.items;
      }
      if |path| > 1 && doc[key].Table? {
        var entries := doc[key].entries;
        assert renamed == Table(RenamedEntry(entries, rename));
        assert path[1..][0] == path[1];
        ValueAtUnfold(doc, path);
        ValueAtUnfold(ApplyRename(doc, rename), path);
      }
    }
  }

  /** No key of the path is a spelling of a renamed key of its table. */
  predicate PastRenames(path: Path) {
    |path| < 2 || forall i :: 0 <= i < |RENAMED_KEYS| && RENAMED_KEYS[i].table == path[0] ==>
      path[1] !in {RENAMED_KEYS[i].oldKey, RENAMED_KEYS[i].newKey}
  }

  lemma {:induction false} RenamesKeepValueFrom(doc: Doc, i: nat, path: Path, value: Value)
    requires i <= |RENAMED_KEYS| && path != [] && Plain(value) && PastRenames(path)
    ensures ValueAt(doc, path) == Some(value) ==> ValueAt(ApplyRenamesFrom(doc, i), path) == Some(value)
    ensures Silent(doc, path) ==> Silent(ApplyRenamesFrom(doc, i), path)
    decreases |RENAMED_KEYS| - i
  {
    if i < |RENAMED_KEYS| {
      RenameKeepsValue(doc, RENAMED_KEYS[i], path, value);
      RenamesKeepValueFrom(ApplyRename(doc, RENAMED_KEYS[i]), i + 1, path, value);
    }
  }

  /** No table above `path` is marked disabled, by the local marker or by the shared one where it has none. */
  predicate NoMarkerAbove(shared: Doc, local: Doc, path: Path) {
    forall i :: 1 <= i < |path| ==> !MarkedDisabled(shared, local, path[..i])
  }

  lemma {:induction false} PrefixIsTable(doc: Doc, path: Path, i: nat)
    requires i < |path| && ValueAt(doc, path).Some?
    ensures IsTableAt(doc, path[..i])
    decreases path
  {
    if i > 0 {
      assert path[..i][1..] == path[1..][..i - 1];
      PrefixIsTable(doc[path[0]].entries, path[1..], i - 1);
    }
  }

  /**
    Local over shared, value by value.  A plain value of the local file is the resolved one, and so is
    one of the shared file at a path where the local file is silent, exactly when no table above is
    disabled and it is no marker itself; where both are silent, so is the result.
  */
  lemma LocalOverShared(shared: Doc, local: Doc, path: Path, value: Value)
    requires path != [] && Plain(value) && PastRenames(path)
    ensures ValueAt(local, path) == Some(value) || (Silent(local, path) && ValueAt(shared, path) == Some(value)) ==>
      (ValueAt(MergeConfig(shared, local), path) == Some(value) <==>
        NoMarkerAbove(ApplyRenames(shared), ApplyRenames(local), path)
        && !(path[|path| - 1] == "disabled" && value.Bool?))
    ensures Silent(local, path) && Silent(shared, path) ==> Silent(MergeConfig(shared, local), path)
  {
    var s, l := ApplyRenames(shared), ApplyRenames(local);
    var merged := DeepMerge(s, l);
    RenamesKeepValueFrom(shared, 0, path, value);
    RenamesKeepValueFrom(local, 0, path, value);
    MergePrecedence(s, l, path, value);
    if Silent(local, path) && Silent(shared, path) {
      SilentAfterPrune(merged, path);
    }
    if ValueAt(merged, path) == Some(value) {
      PlainSurvivesExactly(merged, path, value);
      forall i | 1 <= i < |path| ensures DisabledAt(merged, path[..i]) <==> MarkedDisabled(s, l, path[..i]) {
        PrefixIsTable(merged, path, i);
        MarkerOfMerge(s, l, path[..i]);
      }
    }
  }

  /** The same at the top of the document: the local value, otherwise the shared one, otherwise none. */
  lemma LocalOverSharedAtTop(shared: Doc, local: Doc, key: string)
    requires key != "disabled"
    ensures key in local && Plain(local[key]) ==>
      key in MergeConfig(shared, local) && MergeConfig(shared, local)[key] == local[key]
    ensures key !in local && key in shared && Plain(shared[key]) ==>
      key in MergeConfig(shared, local) && MergeConfig(shared, local)[key] == shared[key]
    ensures key !in local && key !in shared ==> key !in MergeConfig(shared, local)
  {
    if key in local && Plain(local[key]) {
      LocalOverShared(shared, local, [key], local[key]);
    } else if key !in local && key in shared && Plain(shared[key]) {
      LocalOverShared(shared, local, [key], shared[key]);
    } else if key !in local && key !in shared {
      LocalOverShared(shared, local, [key], Bool(true));
    }
  }

  /** Pruning an array is pruning its entries one by one: the disabled ones go, the rest keep their order. */
  lemma {:induction false} PruneItemsAppend(before: seq<Value>, after: seq<Value>)
    ensures PruneItems(before + after) == PruneItems(before) + PruneItems(after)
  {
    if before == [] {
      assert before + after == after;
    } else {
      assert (before + after)[1..] == before[1..] + after;
      PruneItemsAppend(before[1..], after);
    }
  }

  lemma PruneOneItem(item: Value)
    ensures item.Table? && "disabled" in item.entries && item.entries["disabled"] == Bool(true) ==>
      PruneItems([item]) == []
    ensures item.Table? && !("disabled" in item.entries && item.entries["disabled"] == Bool(true)) ==>
      PruneItems([item]) == [Table(PruneDisabled(item.entries))]
    ensures !item.Table? ==> PruneItems([item]) == [item]
  {
    assert item.Table? ==> item == Table(item.entries);
    assert [item][1..] == [];
  }
}
