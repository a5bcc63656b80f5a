/**
  Flattening a configuration table to dotted-path overrides (`box.py`), one override per leaf, and
  what the receiving side makes of them: setting every leaf, in any order, is the deep merge; and
  the printed path reads back to its key segments.
*/
module Overrides {
  import opened Common
  import opened ConfigMerge

  // ---------------------------------------------------------------------------------------------
  // Leaves and assignments
  // ---------------------------------------------------------------------------------------------

  /** The non-table value at `path` below `value`, if there is one. */
  function LeafAt(value: Value, path: Path): Option<Value>
    decreases path
  {
    if !value.Table? then (if path == [] then Some(value) else None)
    else if path == [] || path[0] !in value.entries then None
    else LeafAt(value.entries[path[0]], path[1..])
  }

  /** One `path=value` payload: its text before the `=`, the key segments behind it, and the leaf. */
  datatype Override = Override(text: string, path: Path, leaf: Value)

  ghost predicate DistinctPaths(overrides: seq<Override>) {
    forall i, j :: 0 <= i < j < |overrides| ==> overrides[i].path != overrides[j].path
  }

  /** `overrides` names every leaf of `value` once, and nothing else. */
  ghost predicate Lists(overrides: seq<Override>, value: Value) {
    && (forall o :: o in overrides ==> LeafAt(value, o.path) == Some(o.leaf))
    && (forall path: Path :: LeafAt(value, path).Some? ==> exists o :: o in overrides && o.path == path)
    && (DistinctPaths(overrides))
  }

  /** No table below `value` (nor `value` itself) is empty. */
  ghost predicate NoEmptyTable(value: Value) {
    value.Table? ==> value.entries != map[] && forall key :: key in value.entries ==> NoEmptyTable(value.entries[key])
  }

  ghost predicate NoEmptySubTable(table: Doc) {
    forall key :: key in table ==> NoEmptyTable(table[key])
  }

  // ---------------------------------------------------------------------------------------------
  // Flattening
  // ---------------------------------------------------------------------------------------------

  /** `_codex_overrides`: one override per leaf, tables flattened to dotted paths. */
  method CodexOverrides(table: Doc, prefix: string) returns (out: seq<Override>)
    ensures Lists(out, Table(table))
    ensures forall o :: o in out ==> o.path != [] && o.text == prefix + DottedPath(o.path)
    decreases Table(table)
  {
    out := [];
    var keys := table.Keys;
    while keys != {}
      invariant keys <= table.Keys
      invariant forall o :: o in out ==>
                o.path != [] && o.path[0] !in keys && LeafAt(Table(table), o.path) == Some(o.leaf)
      invariant forall o :: o in out ==> o.text == prefix + DottedPath(o.path)
      invariant forall path: Path :: LeafAt(Table(table), path).Some? && path[0] !in keys ==>
                  exists o :: o in out && o.path == path
      invariant DistinctPaths(out)
      decreases keys
    {
      var key :| key in keys;
      var below := OverridesAtKey(table, prefix, key);
      ghost var before := out;
      out := out + below;
      keys := keys - {key};
      forall path: Path | LeafAt(Table(table), path).Some? && path[0] !in keys
        ensures exists o :: o in out && o.path == path
      {
        if path[0] != key {
          var o :| o in before && o.path == path;
          assert o in out;
        }
      }
    }
  }

  /** The overrides one key of the table contributes: its own value, or everything below it. */
  method OverridesAtKey(table: Doc, prefix: string, key: string) returns (out: seq<Override>)
    requires key in table
    ensures forall o :: o in out ==> o.path != [] && o.path[0] == key && LeafAt(Table(table), o.path) == Some(o.leaf)
    ensures forall o :: o in out ==> o.text == prefix + DottedPath(o.path)
    ensures forall path: Path :: LeafAt(Table(table), path).Some? && path[0] == key ==>
              exists o :: o in out && o.path == path
    ensures DistinctPaths(out)
    decreases Table(table), 0
  {
    var text := prefix + TomlKey(key);
    if table[key].Table? {
      assert table[key] == Table(table[key].entries);
      var below := CodexOverrides(table[key].entries, text + ".");
      out := Below(key, below);
      BelowLists(table, prefix, key, below);
    } else {
      out := [Override(text, [key], table[key])];
      assert [key][1..] == [];
      forall path: Path | LeafAt(Table(table), path).Some? && path[0] == key ensures path == [key] {
        assert LeafAt(table[key], path[1..]).Some?;
        assert path == [key] + path[1..];
      }
      assert out[0] in out;
    }
  }

  function Below(key: string, below: seq<Override>): (out: seq<Override>)
    ensures |out| == |below|
    ensures forall i :: 0 <= i < |out| ==> out[i] == below[i].(path := [key] + below[i].path)
  {
    seq(|below|, i requires 0 <= i < |below| => below[i].(path := [key] + below[i].path))
  }

  lemma BelowLists(table: Doc, prefix: string, key: string, below: seq<Override>)
    requires key in table && table[key].Table? && Lists(below, Table(table[key].entries))
    requires forall o :: o in below ==> o.path != [] && o.text == prefix + TomlKey(key) + "." + DottedPath(o.path)
    ensures var out := Below(key, below);
      && (forall o :: o in out ==> o.path != [] && o.path[0] == key && LeafAt(Table(table), o.path) == Some(o.leaf))
      && (forall o :: o in out ==> o.text == prefix + DottedPath(o.path))
      && (forall path: Path :: LeafAt(Table(table), path).Some? && path[0] == key ==>
            exists o :: o in out && o.path == path)
      && (DistinctPaths(out))
  {
    var out := Below(key, below);
    forall i | 0 <= i < |out|
      ensures out[i].path != [] && out[i].path[0] == key && out[i].path[1..] == below[i].path
      ensures LeafAt(Table(table), out[i].path) == Some(out[i].leaf) && out[i].text == prefix + DottedPath(out[i].path)
    {
      assert below[i] in below;
      BelowOne(table, prefix, key, below[i]);
    }
    forall path: Path | LeafAt(Table(table), path).Some? && path[0] == key
      ensures exists o :: o in out && o.path == path
    {
      assert LeafAt(Table(table[key].entries), path[1..]).Some?;
      var o :| o in below && o.path == path[1..];
      var i :| 0 <= i < |below| && below[i] == o;
      assert path == [key] + path[1..];
      assert out[i] in out && out[i].path == path;
    }
  }

  lemma BelowOne(table: Doc, prefix: string, key: string, o: Override)
    requires key in table && table[key].Table?
    requires LeafAt(Table(table[key].entries), o.path) == Some(o.leaf)
    requires o.path != [] && o.text == prefix + TomlKey(key) + "." + DottedPath(o.path)
    ensures ([key] + o.path)[1..] == o.path
    ensures LeafAt(Table(table), [key] + o.path) == Some(o.leaf)
    ensures o.text == prefix + DottedPath([key] + o.path)
  {
    hide TomlKey, DottedPath;
    assert ([key] + o.path)[1..] == o.path;
    assert table[key] == Table(table[key].entries);
    BelowText(prefix, key, o.path);
  }

  lemma BelowText(prefix: string, key: string, path: Path)
    requires path != []
    ensures prefix + TomlKey(key) + "." + DottedPath(path) == prefix + DottedPath([key] + path)
  {
    hide TomlKey;
    assert ([key] + path)[1..] == path;
    assert prefix + TomlKey(key) + "." + DottedPath(path) == prefix + (TomlKey(key) + "." + DottedPath(path));
  }

  // ---------------------------------------------------------------------------------------------
  // Applying overrides
  // ---------------------------------------------------------------------------------------------

  /** Set the leaf at `path`, making or replacing whatever stands in the way of the tables above it. */
  function SetAt(value: Option<Value>, path: Path, leaf: Value): Value
    decreases path
  {
    if path == [] then leaf
    else
      var entries := EntriesOf(value);
      Table(entries[path[0] := SetAt(Get(entries, path[0]), path[1..], leaf)])
  }

  function EntriesOf(value: Option<Value>): Doc {
    if value.Some? && value.value.Table? then value.value.entries else map[]
  }

  function Get(doc: Doc, key: string): Option<Value> {
    if key in doc then Some(doc[key]) else None
  }

  function ApplyAll(value: Option<Value>, overrides: seq<Override>): Option<Value>
    decreases overrides
  {
    if overrides == [] then value
    else ApplyAll(Some(SetAt(value, overrides[0].path, overrides[0].leaf)), overrides[1..])
  }

  /** What the merge makes of one value laid over another (or over nothing). */
  function MergeValue(value: Option<Value>, over: Value): Value {
    if over.Table? then Table(DeepMergeOnto(value, over.entries)) else over
  }

  function DeepMergeOnto(value: Option<Value>, over: Doc): Doc {
    DeepMerge(EntriesOf(value), over)
  }

  /** The overrides below `key`, in order, with that segment taken off. */
  function Tails(overrides: seq<Override>, key: string): seq<Override>
    decreases overrides
  {
    if overrides == [] then []
    else
      var o := overrides[0];
      var rest := Tails(overrides[1..], key);
      if o.path != [] && o.path[0] == key then [o.(path := o.path[1..])] + rest else rest
  }

  lemma {:induction false} TailsMembers(overrides: seq<Override>, key: string)
    ensures forall t :: t in Tails(overrides, key) <==> t.(path := [key] + t.path) in overrides
    decreases overrides
  {
    if overrides != [] {
      TailsMembers(overrides[1..], key);
      var o := overrides[0];
      forall t: Override ensures t.(path := [key] + t.path) == o <==>
        o.path != [] && o.path[0] == key && t == o.(path := o.path[1..])
      {
        assert ([key] + t.path)[1..] == t.path;
        if o.path != [] && o.path[0] == key {
          assert [key] + o.path[1..] == o.path;
        }
      }
    }
  }

  lemma {:induction false} TailsDistinct(overrides: seq<Override>, key: string)
    requires DistinctPaths(overrides)
    ensures DistinctPaths(Tails(overrides, key))
    decreases overrides
  {
    if overrides != [] {
      var o, others := overrides[0], overrides[1..];
      forall i, j | 0 <= i < j < |others| ensures others[i].path != others[j].path {
        assert overrides[i + 1].path != overrides[j + 1].path;
      }
      TailsDistinct(others, key);
      if o.path != [] && o.path[0] == key {
        forall other | other in others ensures other.path != [key] + o.path[1..] {
          var k :| 0 <= k < |others| && others[k] == other;
          assert overrides[0].path != overrides[k + 1].path;
          assert [key] + o.path[1..] == o.path;
        }
        TailsAvoid(others, key, o.path[1..]);
        var tails, rest := Tails(overrides, key), Tails(others, key);
        assert tails == [o.(path := o.path[1..])] + rest;
        forall i, j | 0 <= i < j < |tails| ensures tails[i].path != tails[j].path {
          assert tails[j] == rest[j - 1];
          if i > 0 {
            assert tails[i] == rest[i - 1];
          }
        }
      }
    }
  }

  lemma TailsAvoid(overrides: seq<Override>, key: string, path: Path)
    requires forall o :: o in overrides ==> o.path != [key] + path
    ensures forall i :: 0 <= i < |Tails(overrides, key)| ==> Tails(overrides, key)[i].path != path
  {
    TailsMembers(overrides, key);
    forall i | 0 <= i < |Tails(overrides, key)| ensures Tails(overrides, key)[i].path != path {
      var t := Tails(overrides, key)[i];
      assert t in Tails(overrides, key);
      assert t.(path := [key] + t.path) in overrides;
    }
  }

  /** The overrides below one key list the leaves of the value there. */
  lemma TailsList(overrides: seq<Override>, entries: Doc, key: string)
    requires Lists(overrides, Table(entries))
    ensures key in entries ==> Lists(Tails(overrides, key), entries[key])
    ensures key !in entries ==> Tails(overrides, key) == []
  {
    var tails := Tails(overrides, key);
    TailsMembers(overrides, key);
    TailsDistinct(overrides, key);
    assert tails != [] ==> tails[0] in tails;
    forall t | t in tails ensures key in entries && LeafAt(entries[key], t.path) == Some(t.leaf) {
      var original := t.(path := [key] + t.path);
      assert LeafAt(Table(entries), original.path) == Some(original.leaf);
      assert original.path[1..] == t.path;
    }
    if key in entries {
      forall path: Path | LeafAt(entries[key], path).Some?
        ensures exists t :: t in tails && t.path == path
      {
        assert ([key] + path)[1..] == path;
        assert LeafAt(Table(entries), [key] + path).Some?;
        var o :| o in overrides && o.path == [key] + path;
        assert o.(path := path).(path := [key] + path) == o;
        assert o.(path := path) in tails;
      }
    }
  }

  /** Overrides act on each key of a table separately. */
  lemma {:induction false} ApplyAllAtKey(value: Option<Value>, overrides: seq<Override>, key: string)
    requires forall o :: o in overrides ==> o.path != []
    requires overrides != [] || (value.Some? && value.value.Table?)
    ensures ApplyAll(value, overrides).Some? && ApplyAll(value, overrides).value.Table?
    ensures Get(ApplyAll(value, overrides).value.entries, key)
              == ApplyAll(Get(EntriesOf(value), key), Tails(overrides, key))
    decreases overrides
  {
    if overrides != [] {
      var o := overrides[0];
      assert o in overrides;
      var next := SetAt(value, o.path, o.leaf);
      forall other | other in overrides[1..] ensures other.path != [] {
        assert other in overrides;
      }
      ApplyAllAtKey(Some(next), overrides[1..], key);
      if o.path[0] == key {
        assert Tails(overrides, key) == [o.(path := o.path[1..])] + Tails(overrides[1..], key);
        assert Tails(overrides, key)[1..] == Tails(overrides[1..], key);
      }
    }
  }

  lemma {:induction false} NonEmptyHasLeaf(value: Value)
    requires NoEmptyTable(value)
    ensures exists path :: LeafAt(value, path).Some?
  {
    if value.Table? {
      var key :| key in value.entries;
      NonEmptyHasLeaf(value.entries[key]);
      var path :| LeafAt(value.entries[key], path).Some?;
      assert ([key] + path)[1..] == path;
      assert LeafAt(value, [key] + path).Some?;
    } else {
      assert LeafAt(value, []).Some?;
    }
  }

  lemma {:induction false} ApplyAllIsMergeValue(value: Option<Value>, over: Value, overrides: seq<Override>)
    requires NoEmptyTable(over) && Lists(overrides, over)
    ensures ApplyAll(value, overrides) == Some(MergeValue(value, over))
    decreases over, 1
  {
    NonEmptyHasLeaf(over);
    var path :| LeafAt(over, path).Some?;
    var some :| some in overrides && some.path == path;
    if over.Table? {
      assert over == Table(over.entries);
      ApplyAllIsMergeEntries(value, over.entries, overrides);
    } else {
      ApplyAllOfOneLeaf(value, over, overrides);
    }
  }

  lemma {:induction false} ApplyAllOfOneLeaf(value: Option<Value>, leaf: Value, overrides: seq<Override>)
    requires forall o :: o in overrides ==> o.path == [] && o.leaf == leaf
    ensures ApplyAll(value, overrides) == if overrides == [] then value else Some(leaf)
    decreases overrides
  {
    if overrides != [] {
      assert overrides[0] in overrides;
      ApplyAllOfOneLeaf(Some(leaf), leaf, overrides[1..]);
    }
  }

  lemma {:induction false} ApplyAllIsMergeEntries(value: Option<Value>, over: Doc, overrides: seq<Override>)
    requires NoEmptySubTable(over) && Lists(overrides, Table(over))
    requires overrides != [] || (value.Some? && value.value.Table?)
    ensures ApplyAll(value, overrides) == Some(Table(DeepMergeOnto(value, over)))
    decreases Table(over), 0
  {
    forall o | o in overrides ensures o.path != [] {
      assert LeafAt(Table(over), o.path).Some?;
    }
    var base := EntriesOf(value);
    ApplyAllAtKey(value, overrides, "");
    forall key: string
      ensures Get(ApplyAll(value, overrides).value.entries, key) == Get(DeepMerge(base, over), key)
    {
      ApplyAllAtKey(value, overrides, key);
      TailsList(overrides, over, key);
      if key in over {
        ApplyAllIsMergeValue(Get(base, key), over[key], Tails(overrides, key));
        MergeValueAt(base, over, key);
      }
    }
    var result := ApplyAll(value, overrides).value.entries;
    assert result == DeepMerge(base, over) by {
      forall key: string
        ensures (key in result <==> key in DeepMerge(base, over))
                  && (key in result ==> result[key] == DeepMerge(base, over)[key])
      {
        assert Get(result, key) == Get(DeepMerge(base, over), key);
      }
    }
  }

  lemma MergeValueAt(base: Doc, over: Doc, key: string)
    requires key in over
    ensures DeepMerge(base, over)[key] == MergeValue(Get(base, key), over[key])
  {
    if over[key].Table? {
      assert over[key] == Table(over[key].entries);
      MergeIdentity(over[key].entries);
    }
  }

  // ---------------------------------------------------------------------------------------------
  // The meaning of the flattening, and exactly when it holds
  // ---------------------------------------------------------------------------------------------

  /** Overrides never make an empty table. */
  lemma {:induction false} ApplyAllMakesNoEmptyTable(value: Option<Value>, overrides: seq<Override>)
    requires value.Some? ==> value.value.Table? && NoEmptySubTable(value.value.entries)
    requires forall o :: o in overrides ==> o.path != [] && !o.leaf.Table?
    ensures ApplyAll(value, overrides).Some? ==>
              ApplyAll(value, overrides).value.Table? && NoEmptySubTable(ApplyAll(value, overrides).value.entries)
    decreases overrides
  {
    if overrides != [] {
      var o := overrides[0];
      assert o in overrides;
      SetAtMakesNoEmptyTable(value, o.path, o.leaf);
      forall other | other in overrides[1..] ensures other.path != [] && !other.leaf.Table? {
        assert other in overrides;
      }
      ApplyAllMakesNoEmptyTable(Some(SetAt(value, o.path, o.leaf)), overrides[1..]);
    }
  }

  lemma {:induction false} SetAtMakesNoEmptyTable(value: Option<Value>, path: Path, leaf: Value)
    requires value.Some? && value.value.Table? ==> NoEmptySubTable(value.value.entries)
    requires !leaf.Table?
    ensures NoEmptyTable(SetAt(value, path, leaf))
    ensures path != [] ==> NoEmptySubTable(SetAt(value, path, leaf).entries)
    decreases path
  {
    if path != [] {
      var entries := EntriesOf(value);
      SetAtMakesNoEmptyTable(Get(entries, path[0]), path[1..], leaf);
      var result := SetAt(value, path, leaf).entries;
      assert path[0] in result;
      forall key | key in result ensures NoEmptyTable(result[key]) {
        if key != path[0] {
          assert key in entries;
        }
      }
    }
  }

  lemma LeafAtIsNoTable(value: Value, path: Path)
    ensures LeafAt(value, path).Some? ==> !LeafAt(value, path).value.Table?
    decreases path
  {
  }

  /**
    Whatever order its overrides are applied in, a table means the same to every base document as
    merging it, exactly when it holds no empty sub-table.
  */
  lemma OverridesMeanMergeExactly(table: Doc, overrides: seq<Override>)
    requires Lists(overrides, Table(table))
    ensures NoEmptySubTable(table) <==>
            forall base: Doc :: ApplyAll(Some(Table(base)), overrides) == Some(Table(DeepMerge(base, table)))
  {
    if NoEmptySubTable(table) {
      forall base: Doc ensures ApplyAll(Some(Table(base)), overrides) == Some(Table(DeepMerge(base, table))) {
        ApplyAllIsMergeEntries(Some(Table(base)), table, overrides);
      }
    }
    forall o | o in overrides ensures o.path != [] && !o.leaf.Table? {
      LeafAtIsNoTable(Table(table), o.path);
    }
    var nothing: Doc := map[];
    ApplyAllMakesNoEmptyTable(Some(Table(nothing)), overrides);
    MergeIdentity(table);
  }

  // ---------------------------------------------------------------------------------------------
  // The printed path
  // ---------------------------------------------------------------------------------------------

  predicate IsBareChar(c: char) {
    'a' <= c <= 'z' || 'A' <= c <= 'Z' || '0' <= c <= '9' || c == '_' || c == '-'
  }

  predicate IsBare(key: string) {
    key != "" && forall i :: 0 <= i < |key| ==> IsBareChar(key[i])
  }

  function HexDigit(n: nat): char
    requires n < 16
  {
    if n < 10 then ('0' as int + n) as char else ('a' as int + n - 10) as char
  }

  function Hex4(n: nat): string
    requires n < 0x10000
  {
    [HexDigit(n / 4096), HexDigit(n / 256 % 16), HexDigit(n / 16 % 16), HexDigit(n % 16)]
  }

  /** One character of a JSON string, as an ASCII-only printer writes it. */
  function JsonChar(c: char): string {
    if c == '"' then "\\\""
    else if c == '\\' then "\\\\"
    else if c == '\n' then "\\n"
    else if c == '\r' then "\\r"
    else if c == '\t' then "\\t"
    else if c == '\U{08}' then "\\b"
    else if c == '\U{0C}' then "\\f"
    else if ' ' <= c <= '~' then [c]
    else if c as int < 0x10000 then "\\u" + Hex4(c as int)
    else
      var n := c as int - 0x10000;
      "\\u" + Hex4(0xD800 + n / 1024) + "\\u" + Hex4(0xDC00 + n % 1024)
  }

  function JsonChars(key: string): string {
    if key == "" then "" else JsonChar(key[0]) + JsonChars(key[1..])
  }

  /** One dotted-path segment, quoted unless it is a TOML bare key. */
  function TomlKey(key: string): string {
    if IsBare(key) then key else "\"" + JsonChars(key) + "\""
  }

  function DottedPath(path: Path): string
    requires path != []
    decreases path
  {
    if |path| == 1 then TomlKey(path[0]) else TomlKey(path[0]) + "." + DottedPath(path[1..])
  }

  // A reader of dotted keys after TOML v1.0.0, section "Keys": bare keys and basic strings.

  function HexValue(c: char): Option<nat> {
    if '0' <= c <= '9' then Some(c as int - '0' as int)
    else if 'a' <= c <= 'f' then Some(c as int - 'a' as int + 10)
    else if 'A' <= c <= 'F' then Some(c as int - 'A' as int + 10)
    else None
  }

  function HexNumber(digits: string): Option<nat> {
    if digits == "" then Some(0)
    else
      var before := HexNumber(digits[..|digits| - 1]);
      var last := HexValue(digits[|digits| - 1]);
      if before.None? || last.None? then None else Some(before.value * 16 + last.value)
  }

  /** A Unicode scalar value: no surrogate, nothing past the last code point. */
  predicate IsScalarValue(n: nat) {
    n < 0xD800 || 0xE000 <= n < 0x11_0000
  }

  /** The simple escapes of a TOML basic string. */
  function SimpleEscape(c: char): Option<char> {
    match c
    case 'b' => Some('\U{08}')
    case 't' => Some('\t')
    case 'n' => Some('\n')
    case 'f' => Some('\U{0C}')
    case 'r' => Some('\r')
    case '"' => Some('"')
    case '\\' => Some('\\')
    case _ => None
  }

  /** The rest of a basic string after its opening quote: its value and what follows its close. */
  function ReadBasic(text: string): Option<(string, string)>
    decreases |text|
  {
    if text == "" then None
    else if text[0] == '"' then Some(("", text[1..]))
    else if text[0] == '\\' then
      if |text| < 2 then None
      else if SimpleEscape(text[1]).Some? then Prepend(SimpleEscape(text[1]).value, ReadBasic(text[2..]))
      else if text[1] in {'u', 'U'} then
        var width := if text[1] == 'u' then 4 else 8;
        if |text| < 2 + width then None
        else
          var number := HexNumber(text[2..2 + width]);
          if number.None? || !IsScalarValue(number.value) then None
          else Prepend(number.value as char, ReadBasic(text[2 + width..]))
      else None
    else if (text[0] < ' ' && text[0] != '\t') || text[0] == '\U{7F}' then None
    else Prepend(text[0], ReadBasic(text[1..]))
  }

  function Prepend(c: char, read: Option<(string, string)>): Option<(string, string)> {
    if read.None? then None else Some(([c] + read.value.0, read.value.1))
  }

  function BarePrefix(text: string): nat
    ensures BarePrefix(text) <= |text|
  {
    if text == "" || !IsBareChar(text[0]) then 0 else 1 + BarePrefix(text[1..])
  }

  function ReadKey(text: string): Option<(string, string)> {
    if text != "" && text[0] == '"' then ReadBasic(text[1..])
    else if BarePrefix(text) == 0 then None
    else Some((text[..BarePrefix(text)], text[BarePrefix(text)..]))
  }

  function ReadDotted(text: string): Option<Path>
    decreases |text|
  {
    var first := ReadKey(text);
    if first.None? then None
    else
      var (key, rest) := first.value;
      if rest == "" then Some([key])
      else if rest[0] != '.' || |rest| > |text| then None
      else
        var others := ReadDotted(rest[1..]);
        if others.None? then None else Some([key] + others.value)
  }

  /** No character beyond the Basic Multilingual Plane, so none the printer splits into surrogates. */
  predicate IsBmp(key: string) {
    forall i :: 0 <= i < |key| ==> key[i] as int < 0x10000
  }

  lemma HexValueOfDigit(n: nat)
    requires n < 16
    ensures HexValue(HexDigit(n)) == Some(n)
  {
  }

  lemma HexNumberStep(digits: string, n: nat, digit: char, d: nat)
    requires HexNumber(digits) == Some(n) && HexValue(digit) == Some(d)
    ensures HexNumber(digits + [digit]) == Some(n * 16 + d)
  {
    var more := digits + [digit];
    assert more[..|more| - 1] == digits;
  }

  lemma HexNumberOfFour(w: char, x: char, y: char, z: char, a: nat, b: nat, c: nat, d: nat)
    requires HexValue(w) == Some(a) && HexValue(x) == Some(b) && HexValue(y) == Some(c) && HexValue(z) == Some(d)
    ensures HexNumber([w, x, y, z]) == Some(((a * 16 + b) * 16 + c) * 16 + d)
  {
    var one, two, three := "" + [w], "" + [w] + [x], "" + [w] + [x] + [y];
    HexNumberStep("", 0, w, a);
    HexNumberStep(one, a, x, b);
    HexNumberStep(two, a * 16 + b, y, c);
    HexNumberStep(three, (a * 16 + b) * 16 + c, z, d);
    assert [w, x, y, z] == three + [z];
  }

  lemma HexNumberOfHex4(n: nat)
    requires n < 0x10000
    ensures HexNumber(Hex4(n)) == Some(n)
  {
    var a, b, c, d := n / 4096, n / 256 % 16, n / 16 % 16, n % 16;
    HexDigitsSum(n);
    HexValueOfDigit(a);
    HexValueOfDigit(b);
    HexValueOfDigit(c);
    HexValueOfDigit(d);
    HexNumberOfFour(HexDigit(a), HexDigit(b), HexDigit(c), HexDigit(d), a, b, c, d);
  }

  lemma HexDigitsSum(n: nat)
    ensures n == ((n / 4096 * 16 + n / 256 % 16) * 16 + n / 16 % 16) * 16 + n % 16
  {
    assert n / 16 == n / 256 * 16 + n / 16 % 16;
    assert n / 256 == n / 4096 * 16 + n / 256 % 16;
  }

  lemma ReadPlainChar(c: char, rest: string)
    requires ' ' <= c <= '~' && c !in {'"', '\\'}
    ensures ReadBasic(JsonChar(c) + rest) == Prepend(c, ReadBasic(rest))
  {
    assert (JsonChar(c) + rest)[1..] == rest;
  }

  lemma ReadShortEscape(c: char, rest: string)
    requires c in {'"', '\\', '\n', '\r', '\t', '\U{08}', '\U{0C}'}
    ensures ReadBasic(JsonChar(c) + rest) == Prepend(c, ReadBasic(rest))
  {
    assert (JsonChar(c) + rest)[2..] == rest;
  }

  lemma ReadHexEscape(c: char, rest: string)
    requires !(' ' <= c <= '~') && c !in {'"', '\\', '\n', '\r', '\t', '\U{08}', '\U{0C}'}
    ensures ReadBasic(JsonChar(c) + rest) == if c as int < 0x10000 then Prepend(c, ReadBasic(rest)) else None
  {
    hide HexNumber, HexDigit;
    var text := JsonChar(c) + rest;
    if c as int < 0x10000 {
      HexNumberOfHex4(c as int);
      assert text[2..6] == Hex4(c as int) && text[6..] == rest;
    } else {
      var high := 0xD800 + (c as int - 0x10000) / 1024;
      HexNumberOfHex4(high);
      assert text[2..6] == Hex4(high);
    }
  }

  lemma ReadJsonChar(c: char, rest: string)
    ensures ReadBasic(JsonChar(c) + rest) ==
            if c as int < 0x10000 then Prepend(c, ReadBasic(rest)) else None
  {
    hide JsonChar, ReadBasic;
    if ' ' <= c <= '~' && c !in {'"', '\\'} {
      ReadPlainChar(c, rest);
    } else if c in {'"', '\\', '\n', '\r', '\t', '\U{08}', '\U{0C}'} {
      ReadShortEscape(c, rest);
    } else {
      ReadHexEscape(c, rest);
    }
  }

  lemma {:induction false} ReadJsonChars(key: string, rest: string)
    ensures ReadBasic(JsonChars(key) + "\"" + rest) == if IsBmp(key) then Some((key, rest)) else None
    decreases key
  {
    if key == "" {
      assert JsonChars(key) + "\"" + rest == "\"" + rest;
    } else {
      var tail := JsonChars(key[1..]) + "\"" + rest;
      assert JsonChars(key) + "\"" + rest == JsonChar(key[0]) + tail;
      ReadJsonChar(key[0], tail);
      ReadJsonChars(key[1..], rest);
      assert IsBmp(key) <==> key[0] as int < 0x10000 && IsBmp(key[1..]) by {
        assert key == [key[0]] + key[1..];
      }
    }
  }

  lemma {:induction false} BarePrefixOfBare(key: string, rest: string)
    requires forall i :: 0 <= i < |key| ==> IsBareChar(key[i])
    requires rest == "" || !IsBareChar(rest[0])
    ensures BarePrefix(key + rest) == |key|
    decreases key
  {
    if key != "" {
      assert (key + rest)[1..] == key[1..] + rest;
      BarePrefixOfBare(key[1..], rest);
    } else {
      assert key + rest == rest;
    }
  }

  lemma ReadBareKey(key: string, rest: string)
    requires IsBare(key) && (rest == "" || rest[0] == '.')
    ensures ReadKey(key + rest) == Some((key, rest))
  {
    var text := key + rest;
    BarePrefixOfBare(key, rest);
    assert text[0] == key[0] && IsBareChar(key[0]);
    assert text[..|key|] == key && text[|key|..] == rest;
  }

  lemma ReadQuotedKey(key: string, rest: string)
    ensures ReadKey("\"" + JsonChars(key) + "\"" + rest) == if IsBmp(key) then Some((key, rest)) else None
  {
    hide JsonChars, ReadBasic, IsBmp;
    var text := "\"" + JsonChars(key) + "\"" + rest;
    ReadJsonChars(key, rest);
    assert text[1..] == JsonChars(key) + "\"" + rest;
  }

  lemma ReadTomlKey(key: string, rest: string)
    requires rest == "" || rest[0] == '.'
    ensures ReadKey(TomlKey(key) + rest) == if IsBmp(key) then Some((key, rest)) else None
  {
    if IsBare(key) {
      ReadBareKey(key, rest);
      forall i | 0 <= i < |key| ensures key[i] as int < 0x10000 {
        assert IsBareChar(key[i]);
      }
    } else {
      ReadQuotedKey(key, rest);
    }
  }

  /**
    The printed path reads back to its segments exactly when no segment holds a character beyond
    U+FFFF: the printer splits such a character into two surrogate escapes, which TOML refuses.
  */
  lemma {:induction false} DottedPathReadsBack(path: Path)
    requires path != []
    ensures ReadDotted(DottedPath(path)) == Some(path) <==> forall i :: 0 <= i < |path| ==> IsBmp(path[i])
    ensures ReadDotted(DottedPath(path)) == Some(path) || ReadDotted(DottedPath(path)) == None
    decreases path
  {
    if |path| == 1 {
      ReadTomlKey(path[0], "");
      assert TomlKey(path[0]) + "" == TomlKey(path[0]);
      assert path == [path[0]];
    } else {
      var rest := "." + DottedPath(path[1..]);
      ReadTomlKey(path[0], rest);
      assert DottedPath(path) == TomlKey(path[0]) + rest;
      DottedPathReadsBack(path[1..]);
      assert rest[1..] == DottedPath(path[1..]);
      assert path == [path[0]] + path[1..];
      if !IsBmp(path[0]) {
        assert ReadDotted(DottedPath(path)) == None;
      }
    }
  }

  /** A key that does not read back: U+1F600 is printed as two surrogate escapes. */
  lemma AstralKeyDoesNotReadBack()
    ensures ReadDotted(DottedPath(["\U{1F600}"])) == None
  {
    var path := ["\U{1F600}"];
    assert !IsBmp(path[0]) by {
      assert path[0][0] as int == 0x1F600;
    }
    DottedPathReadsBack(path);
  }

  predicate InAscii(text: string) {
    forall i :: 0 <= i < |text| ==> ' ' <= text[i] <= '~'
  }

  lemma HexIsAscii(n: nat)
    requires n < 0x10000
    ensures InAscii(Hex4(n))
  {
  }

  lemma JsonCharIsAscii(c: char)
    ensures InAscii(JsonChar(c)) && |JsonChar(c)| >= 1
  {
    hide Hex4;
    if c as int < 0x10000 {
      HexIsAscii(c as int);
    } else {
      var n := c as int - 0x10000;
      HexIsAscii(0xD800 + n / 1024);
      HexIsAscii(0xDC00 + n % 1024);
    }
  }

  /** What a key prints as is in printable ASCII, and no shorter than the key. */
  lemma {:induction false} JsonIsAscii(key: string)
    ensures InAscii(JsonChars(key)) && |JsonChars(key)| >= |key|
    decreases key
  {
    if key != "" {
      hide JsonChar;
      JsonCharIsAscii(key[0]);
      JsonIsAscii(key[1..]);
    }
  }

  /**
    A segment is printed as it is exactly when it is a word of ASCII letters, digits, `_` and `-`, and
    between quotes otherwise; either way in printable ASCII.
  */
  lemma SegmentIsPrintedPlainly(key: string)
    ensures InAscii(TomlKey(key))
    ensures TomlKey(key) == key <==>
      key != "" && forall i :: 0 <= i < |key| ==>
        'a' <= key[i] <= 'z' || 'A' <= key[i] <= 'Z' || '0' <= key[i] <= '9' || key[i] == '_' || key[i] == '-'
    ensures TomlKey(key) != key ==>
      |TomlKey(key)| >= 2 && TomlKey(key)[0] == '"' && TomlKey(key)[|TomlKey(key)| - 1] == '"'
  {
    JsonIsAscii(key);
  }
}
