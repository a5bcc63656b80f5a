/**
  Who a request came from (`attribution.py`): snapshots of which container held which address,
  looked up by time, and the time-free key a stamp is indexed under.
*/
module Attribution {
  import opened Common

  type Endpoint = (string, string)

  datatype Claims = Claims(name: string, project: string)

  /** A snapshot with a time: who held what, as listed, and what the containers seen then claim. */
  datatype Snapshot = Snapshot(t: real, endpoints: seq<(string, string, string)>, claims: map<string, Claims>)

  /** A record of the log; one without a usable time is ignored. */
  datatype Record = Timeless | Timed(snapshot: Snapshot)

  type Holders = map<Endpoint, string>

  // ---------------------------------------------------------------------------------------------
  // Building the index
  // ---------------------------------------------------------------------------------------------

  /** Later entries of a snapshot win. */
  function HoldersOf(endpoints: seq<(string, string, string)>): Holders {
    if endpoints == [] then map[]
    else
      var (net, ip, id) := endpoints[|endpoints| - 1];
      HoldersOf(endpoints[..|endpoints| - 1])[(net, ip) := id]
  }

  function Good(records: seq<Record>): seq<Snapshot> {
    if records == [] then []
    else
      var last := records[|records| - 1];
      Good(records[..|records| - 1]) + (if last.Timed? then [last.snapshot] else [])
  }

  /** Each record with a time is in the index, in the log's order, and no other is. */
  lemma {:induction false} TimedRecordsStay(a: seq<Record>, b: seq<Record>, s: Snapshot)
    ensures Good(a + [Timed(s)] + b) == Good(a) + [s] + Good(b)
    ensures Good(a + [Timeless] + b) == Good(a) + Good(b)
    decreases b
  {
    if b == [] {
      assert a + [Timed(s)] + b == a + [Timed(s)] && (a + [Timed(s)])[..|a|] == a;
      assert a + [Timeless] + b == a + [Timeless] && (a + [Timeless])[..|a|] == a;
    } else {
      var init := b[..|b| - 1];
      TimedRecordsStay(a, init, s);
      assert (a + [Timed(s)] + b)[..|a + [Timed(s)] + b| - 1] == a + [Timed(s)] + init;
      assert (a + [Timeless] + b)[..|a + [Timeless] + b| - 1] == a + [Timeless] + init;
    }
  }

  predicate InOrder(snapshots: seq<Snapshot>) {
    forall i, j :: 0 <= i < j < |snapshots| ==> snapshots[i].t <= snapshots[j].t
  }

  function Inserted(snapshots: seq<Snapshot>, s: Snapshot): seq<Snapshot> {
    var n := |snapshots|;
    if n == 0 || snapshots[n - 1].t <= s.t then snapshots + [s]
    else Inserted(snapshots[..n - 1], s) + [snapshots[n - 1]]
  }

  /** By time, and as logged where times are equal. */
  function Sorted(log: seq<Snapshot>): seq<Snapshot> {
    if log == [] then [] else Inserted(Sorted(log[..|log| - 1]), log[|log| - 1])
  }

  function Times(snapshots: seq<Snapshot>): seq<real> {
    seq(|snapshots|, i requires 0 <= i < |snapshots| => snapshots[i].t)
  }

  function Maps(snapshots: seq<Snapshot>): seq<Holders> {
    seq(|snapshots|, i requires 0 <= i < |snapshots| => HoldersOf(snapshots[i].endpoints))
  }

  function ClaimsOf(snapshots: seq<Snapshot>): map<string, Claims> {
    if snapshots == [] then map[] else ClaimsOf(snapshots[..|snapshots| - 1]) + snapshots[|snapshots| - 1].claims
  }

  /** The place of `t`: after everything that is not later. */
  predicate IsPlace(times: seq<real>, t: real, place: int) {
    && 0 <= place <= |times|
    && (forall i :: 0 <= i < place ==> times[i] <= t)
    && (forall i :: place <= i < |times| ==> t < times[i])
  }

  predicate Ascending(times: seq<real>) {
    forall i, j :: 0 <= i < j < |times| ==> times[i] <= times[j]
  }

  /** `bisect_right`. */
  method BisectRight(times: seq<real>, t: real) returns (place: nat)
    requires Ascending(times)
    ensures IsPlace(times, t, place)
  {
    var low, high := 0, |times|;
    while low < high
      invariant 0 <= low <= high <= |times|
      invariant forall i :: 0 <= i < low ==> times[i] <= t
      invariant forall i :: high <= i < |times| ==> t < times[i]
    {
      var middle := (low + high) / 2;
      if t < times[middle] {
        high := middle;
      } else {
        low := middle + 1;
      }
    }
    return low;
  }

  // ---------------------------------------------------------------------------------------------
  // The neighbours of a time, without sorting
  // ---------------------------------------------------------------------------------------------

  /** The latest snapshot at or before `t`; of several at one time, the last logged. */
  function LatestUpTo(log: seq<Snapshot>, t: real): Option<Snapshot> {
    if log == [] then None
    else
      var best, last := LatestUpTo(log[..|log| - 1], t), log[|log| - 1];
      if last.t <= t && (best.None? || best.value.t <= last.t) then Some(last) else best
  }

  /** The first snapshot after `t`; of several at one time, the first logged. */
  function FirstAfter(log: seq<Snapshot>, t: real): Option<Snapshot> {
    if log == [] then None
    else
      var best, last := FirstAfter(log[..|log| - 1], t), log[|log| - 1];
      if t < last.t && (best.None? || last.t < best.value.t) then Some(last) else best
  }

  lemma {:induction false} InsertedShape(snapshots: seq<Snapshot>, s: Snapshot) returns (k: nat)
    requires InOrder(snapshots)
    ensures k <= |snapshots| && Inserted(snapshots, s) == snapshots[..k] + [s] + snapshots[k..]
    ensures forall i :: 0 <= i < k ==> snapshots[i].t <= s.t
    ensures forall i :: k <= i < |snapshots| ==> s.t < snapshots[i].t
  {
    var n := |snapshots|;
    if n == 0 || snapshots[n - 1].t <= s.t {
      k := n;
    } else {
      k := InsertedShape(snapshots[..n - 1], s);
      assert snapshots[k..] == snapshots[..n - 1][k..] + [snapshots[n - 1]];
      assert snapshots[..n - 1][..k] == snapshots[..k];
    }
  }

  function Spliced(snapshots: seq<Snapshot>, s: Snapshot, k: nat): seq<Snapshot>
    requires k <= |snapshots|
  {
    snapshots[..k] + [s] + snapshots[k..]
  }

  lemma SplicedInOrder(before: seq<Snapshot>, s: Snapshot, k: nat)
    requires k <= |before| && InOrder(before)
    requires (forall i :: 0 <= i < k ==> before[i].t <= s.t) && forall i :: k <= i < |before| ==> s.t < before[i].t
    ensures InOrder(Spliced(before, s, k)) && multiset(Spliced(before, s, k)) == multiset(before + [s])
  {
    assert before == before[..k] + before[k..];
  }

  lemma {:induction false} SortedInOrder(log: seq<Snapshot>)
    ensures InOrder(Sorted(log)) && multiset(Sorted(log)) == multiset(log)
  {
    if log != [] {
      var init, s := log[..|log| - 1], log[|log| - 1];
      SortedInOrder(init);
      var k := InsertedShape(Sorted(init), s);
      SplicedInOrder(Sorted(init), s, k);
      assert log == init + [s];
    }
  }

  /** The snapshots either side of a place. */
  function Left(snapshots: seq<Snapshot>, place: nat): Option<Snapshot> {
    if 0 < place <= |snapshots| then Some(snapshots[place - 1]) else None
  }

  function Right(snapshots: seq<Snapshot>, place: nat): Option<Snapshot> {
    if place < |snapshots| then Some(snapshots[place]) else None
  }

  lemma SplicedPlace(before: seq<Snapshot>, s: Snapshot, k: nat, t: real, place: nat)
    requires k <= |before|
    requires (forall i :: 0 <= i < k ==> before[i].t <= s.t) && forall i :: k <= i < |before| ==> s.t < before[i].t
    requires IsPlace(Times(Spliced(before, s, k)), t, place)
    ensures s.t <= t ==> k < place && IsPlace(Times(before), t, place - 1)
    ensures t < s.t ==> place <= k && IsPlace(Times(before), t, place)
  {
    var after := Spliced(before, s, k);
    var times := Times(after);
    assert times[k] == s.t;
    assert forall i :: 0 <= i < k ==> times[i] == before[i].t;
    forall i | k <= i < |before| ensures times[i + 1] == before[i].t {
      assert after[i + 1] == before[i];
    }
  }

  lemma SplicedNeighbours(before: seq<Snapshot>, s: Snapshot, k: nat, t: real, place: nat)
    requires k <= |before|
    requires (forall i :: 0 <= i < k ==> before[i].t <= s.t) && forall i :: k <= i < |before| ==> s.t < before[i].t
    requires IsPlace(Times(Spliced(before, s, k)), t, place)
    ensures s.t <= t ==> k < place && IsPlace(Times(before), t, place - 1)
    ensures s.t <= t ==> Right(Spliced(before, s, k), place) == Right(before, place - 1)
    ensures s.t <= t ==> Left(Spliced(before, s, k), place) == if place - 1 == k then Some(s)
              else Left(before, place - 1)
    ensures t < s.t ==> place <= k && IsPlace(Times(before), t, place)
    ensures t < s.t ==> Left(Spliced(before, s, k), place) == Left(before, place)
    ensures t < s.t ==> Right(Spliced(before, s, k), place) == if place == k then Some(s) else Right(before, place)
  {
    SplicedPlace(before, s, k, t, place);
    assert |Times(Spliced(before, s, k))| == |before| + 1;
    hide IsPlace, Times;
  }

  /** What stands either side of the place of `t` in the sorted list are the neighbours of `t` in the log. */
  lemma {:induction false} PlaceHasNeighbours(log: seq<Snapshot>, t: real, place: nat)
    requires IsPlace(Times(Sorted(log)), t, place)
    ensures LatestUpTo(log, t) == Left(Sorted(log), place) && FirstAfter(log, t) == Right(Sorted(log), place)
  {
    if log != [] {
      var init, s := log[..|log| - 1], log[|log| - 1];
      var before := Sorted(init);
      SortedInOrder(init);
      var k := InsertedShape(before, s);
      SplicedNeighbours(before, s, k, t, place);
      PlaceHasNeighbours(init, t, if s.t <= t then place - 1 else place);
    }
  }

  // ---------------------------------------------------------------------------------------------
  // Resolving an address
  // ---------------------------------------------------------------------------------------------

  datatype Address = Held(id: string) | Ambiguous | Unresolved

  /** Who holds an endpoint in a snapshot: nobody is the empty id. */
  function Holder(holders: Holders, net: string, ip: string): string {
    if (net, ip) in holders then holders[(net, ip)] else ""
  }

  function HolderIn(snapshot: Option<Snapshot>, net: string, ip: string): string {
    if snapshot.None? then "" else Holder(HoldersOf(snapshot.value.endpoints), net, ip)
  }

  /** What the holders just before and just after say together. */
  function Combined(before: string, after: string): Address {
    if before != "" && after != "" && before != after then Ambiguous
    else if before != "" then Held(before)
    else if after != "" then Held(after)
    else Unresolved
  }

  /** An address resolved from the log alone: by the latest snapshot up to `t` and the first after it. */
  function AddressAt(log: seq<Snapshot>, net: string, ip: string, t: real): Address {
    Combined(HolderIn(LatestUpTo(log, t), net, ip), HolderIn(FirstAfter(log, t), net, ip))
  }

  lemma {:induction false} LatestIsLatest(log: seq<Snapshot>, t: real)
    ensures match LatestUpTo(log, t)
      case None => forall s :: s in log ==> t < s.t
      case Some(best) => best in log && best.t <= t && forall s :: s in log && s.t <= t ==> s.t <= best.t
  {
    if log != [] {
      LatestIsLatest(log[..|log| - 1], t);
      assert log == log[..|log| - 1] + [log[|log| - 1]];
    }
  }

  lemma {:induction false} FirstIsFirst(log: seq<Snapshot>, t: real)
    ensures match FirstAfter(log, t)
      case None => forall s :: s in log ==> s.t <= t
      case Some(best) => best in log && t < best.t && forall s :: s in log && t < s.t ==> best.t <= s.t
  {
    if log != [] {
      FirstIsFirst(log[..|log| - 1], t);
      assert log == log[..|log| - 1] + [log[|log| - 1]];
    }
  }

  // What that comes to, said of the log itself.

  predicate LastEntryOf(endpoints: seq<(string, string, string)>, net: string, ip: string, id: string, i: int) {
    && 0 <= i < |endpoints| && endpoints[i] == (net, ip, id)
    && forall j :: i < j < |endpoints| ==> endpoints[j].0 != net || endpoints[j].1 != ip
  }

  /** The snapshot gives the endpoint to this container: by the last of its entries about it, and not to nobody. */
  ghost predicate Gives(s: Snapshot, net: string, ip: string, id: string) {
    id != "" && exists i :: LastEntryOf(s.endpoints, net, ip, id, i)
  }

  /** The snapshot at `k` is the last at or before `t`: none of those is later, nor logged after it at one time. */
  predicate IsLatest(log: seq<Snapshot>, t: real, k: int) {
    0 <= k < |log| && log[k].t <= t && forall j :: 0 <= j < |log| && log[j].t <= t ==>
      log[j].t < log[k].t || (log[j].t == log[k].t && j <= k)
  }

  /** The snapshot at `k` is the first after `t`: none of those is earlier, nor logged before it at one time. */
  predicate IsFirst(log: seq<Snapshot>, t: real, k: int) {
    0 <= k < |log| && t < log[k].t && forall j :: 0 <= j < |log| && t < log[j].t ==>
      log[k].t < log[j].t || (log[j].t == log[k].t && k <= j)
  }

  ghost predicate HeldBefore(log: seq<Snapshot>, net: string, ip: string, t: real, id: string) {
    exists k :: IsLatest(log, t, k) && Gives(log[k], net, ip, id)
  }

  ghost predicate HeldAfter(log: seq<Snapshot>, net: string, ip: string, t: real, id: string) {
    exists k :: IsFirst(log, t, k) && Gives(log[k], net, ip, id)
  }

  /** One container held the address around `t`: just before, or just after, and no other did either. */
  ghost predicate HeldAlone(log: seq<Snapshot>, net: string, ip: string, t: real, id: string) {
    && (HeldBefore(log, net, ip, t, id) || HeldAfter(log, net, ip, t, id))
    && forall other :: HeldBefore(log, net, ip, t, other) || HeldAfter(log, net, ip, t, other) ==> other == id
  }

  /** Two containers did: one just before, another just after. */
  ghost predicate HeldByTwo(log: seq<Snapshot>, net: string, ip: string, t: real) {
    exists a, b :: a != b && HeldBefore(log, net, ip, t, a) && HeldAfter(log, net, ip, t, b)
  }

  lemma {:induction false} HolderIsLastEntry(endpoints: seq<(string, string, string)>, net: string, ip: string)
    returns (i: int)
    ensures (net, ip) in HoldersOf(endpoints) ==> LastEntryOf(endpoints, net, ip, HoldersOf(endpoints)[(net, ip)], i)
    ensures (net, ip) !in HoldersOf(endpoints) ==>
      forall j :: 0 <= j < |endpoints| ==> endpoints[j].0 != net || endpoints[j].1 != ip
    decreases |endpoints|
  {
    i := 0;
    if endpoints != [] {
      var n := |endpoints| - 1;
      i := HolderIsLastEntry(endpoints[..n], net, ip);
      assert forall j :: 0 <= j < n ==> endpoints[j] == endpoints[..n][j];
      if endpoints[n].0 == net && endpoints[n].1 == ip {
        i := n;
      }
    }
  }

  lemma GivesExactly(s: Snapshot, net: string, ip: string, id: string)
    ensures Gives(s, net, ip, id) <==> id != "" && Holder(HoldersOf(s.endpoints), net, ip) == id
  {
    hide HoldersOf;
    var k := HolderIsLastEntry(s.endpoints, net, ip);
  }

  lemma {:induction false} LatestIsAt(log: seq<Snapshot>, t: real, k: int)
    requires IsLatest(log, t, k)
    ensures LatestUpTo(log, t) == Some(log[k])
    decreases log
  {
    var n := |log| - 1;
    var init := log[..n];
    LatestIsLatest(init, t);
    if k < n {
      LatestIsAt(init, t, k);
    } else {
      assert forall s :: s in init && s.t <= t ==> s.t <= log[n].t by {
        forall s | s in init && s.t <= t ensures s.t <= log[n].t {
          var j :| 0 <= j < n && init[j] == s;
          assert log[j] == s;
        }
      }
    }
  }

  lemma {:induction false} SomeIsLatest(log: seq<Snapshot>, t: real) returns (k: int)
    requires exists s :: s in log && s.t <= t
    ensures IsLatest(log, t, k)
    decreases log
  {
    var n := |log| - 1;
    var init := log[..n];
    assert log == init + [log[n]];
    if exists s :: s in init && s.t <= t {
      k := SomeIsLatest(init, t);
      if log[n].t <= t && log[k].t <= log[n].t {
        k := n;
      }
    } else {
      k := n;
      assert forall j :: 0 <= j < n ==> log[j] in init;
    }
  }

  lemma {:induction false} FirstIsAt(log: seq<Snapshot>, t: real, k: int)
    requires IsFirst(log, t, k)
    ensures FirstAfter(log, t) == Some(log[k])
    decreases log
  {
    var n := |log| - 1;
    var init := log[..n];
    FirstIsFirst(init, t);
    if k < n {
      FirstIsAt(init, t, k);
    } else {
      assert forall s :: s in init && t < s.t ==> log[n].t < s.t by {
        forall s | s in init && t < s.t ensures log[n].t < s.t {
          var j :| 0 <= j < n && init[j] == s;
          assert log[j] == s;
        }
      }
    }
  }

  lemma {:induction false} SomeIsFirst(log: seq<Snapshot>, t: real) returns (k: int)
    requires exists s :: s in log && t < s.t
    ensures IsFirst(log, t, k)
    decreases log
  {
    var n := |log| - 1;
    var init := log[..n];
    assert log == init + [log[n]];
    if exists s :: s in init && t < s.t {
      k := SomeIsFirst(init, t);
      if t < log[n].t && log[n].t < log[k].t {
        k := n;
      }
    } else {
      k := n;
      assert forall j :: 0 <= j < n ==> log[j] in init;
    }
  }

  lemma HeldBeforeExactly(log: seq<Snapshot>, net: string, ip: string, t: real, id: string)
    ensures HeldBefore(log, net, ip, t, id) <==> id != "" && HolderIn(LatestUpTo(log, t), net, ip) == id
  {
    LatestIsLatest(log, t);
    if LatestUpTo(log, t).Some? {
      var k := SomeIsLatest(log, t);
      LatestIsAt(log, t, k);
      GivesExactly(log[k], net, ip, id);
    }
    forall k | IsLatest(log, t, k) && Gives(log[k], net, ip, id)
      ensures id != "" && HolderIn(LatestUpTo(log, t), net, ip) == id
    {
      LatestIsAt(log, t, k);
      GivesExactly(log[k], net, ip, id);
    }
  }

  lemma HeldAfterExactly(log: seq<Snapshot>, net: string, ip: string, t: real, id: string)
    ensures HeldAfter(log, net, ip, t, id) <==> id != "" && HolderIn(FirstAfter(log, t), net, ip) == id
  {
    FirstIsFirst(log, t);
    if FirstAfter(log, t).Some? {
      var k := SomeIsFirst(log, t);
      FirstIsAt(log, t, k);
      GivesExactly(log[k], net, ip, id);
    }
    forall k | IsFirst(log, t, k) && Gives(log[k], net, ip, id)
      ensures id != "" && HolderIn(FirstAfter(log, t), net, ip) == id
    {
      FirstIsAt(log, t, k);
      GivesExactly(log[k], net, ip, id);
    }
  }

  /**
    What an address resolves to, in the log's own terms: to a container exactly when it alone held the
    address around the time, to two exactly when one held it just before and another just after, and
    to nothing exactly when nobody held it on either side.
  */
  lemma AddressExactly(log: seq<Snapshot>, net: string, ip: string, t: real)
    ensures AddressAt(log, net, ip, t) == Ambiguous <==> HeldByTwo(log, net, ip, t)
    ensures forall id :: AddressAt(log, net, ip, t) == Held(id) <==> HeldAlone(log, net, ip, t, id)
    ensures AddressAt(log, net, ip, t) == Unresolved <==>
      forall id :: !HeldBefore(log, net, ip, t, id) && !HeldAfter(log, net, ip, t, id)
  {
    hide LatestUpTo, FirstAfter, HolderIn;
    var before, after := HolderIn(LatestUpTo(log, t), net, ip), HolderIn(FirstAfter(log, t), net, ip);
    forall id ensures HeldBefore(log, net, ip, t, id) <==> id != "" && before == id {
      HeldBeforeExactly(log, net, ip, t, id);
    }
    forall id ensures HeldAfter(log, net, ip, t, id) <==> id != "" && after == id {
      HeldAfterExactly(log, net, ip, t, id);
    }
    hide HeldBefore, HeldAfter;
    assert before != "" ==> HeldBefore(log, net, ip, t, before);
    assert after != "" ==> HeldAfter(log, net, ip, t, after);
  }

  lemma {:induction false} LatestWithout(a: seq<Snapshot>, s: Snapshot, b: seq<Snapshot>, t: real)
    ensures LatestUpTo(a + [s] + b, t) == LatestUpTo(a + b, t) || LatestUpTo(a + [s] + b, t) == Some(s)
    decreases b
  {
    if b == [] {
      assert a + [s] + b == a + [s] && a + b == a && (a + [s])[..|a|] == a;
    } else {
      var init := b[..|b| - 1];
      LatestWithout(a, s, init, t);
      assert (a + [s] + b)[..|a + [s] + b| - 1] == a + [s] + init;
      assert (a + b)[..|a + b| - 1] == a + init;
      LatestIsLatest(a + [s] + init, t);
      LatestIsLatest(a + init, t);
    }
  }

  lemma {:induction false} FirstWithout(a: seq<Snapshot>, s: Snapshot, b: seq<Snapshot>, t: real)
    ensures FirstAfter(a + [s] + b, t) == FirstAfter(a + b, t) || FirstAfter(a + [s] + b, t) == Some(s)
    decreases b
  {
    if b == [] {
      assert a + [s] + b == a + [s] && a + b == a && (a + [s])[..|a|] == a;
    } else {
      var init := b[..|b| - 1];
      FirstWithout(a, s, init, t);
      assert (a + [s] + b)[..|a + [s] + b| - 1] == a + [s] + init;
      assert (a + b)[..|a + b| - 1] == a + init;
      FirstIsFirst(a + [s] + init, t);
      FirstIsFirst(a + init, t);
    }
  }

  /** A snapshot with another between it and `t` has no say in who held an address at `t`, wherever it was logged. */
  lemma OnlyNeighboursMatter(a: seq<Snapshot>, s: Snapshot, b: seq<Snapshot>, net: string, ip: string, t: real)
    requires exists other :: other in a + b && (s.t < other.t <= t || t < other.t < s.t)
    ensures AddressAt(a + [s] + b, net, ip, t) == AddressAt(a + b, net, ip, t)
  {
    var other :| other in a + b && (s.t < other.t <= t || t < other.t < s.t);
    assert other in a + [s] + b;
    LatestWithout(a, s, b, t);
    FirstWithout(a, s, b, t);
    LatestIsLatest(a + [s] + b, t);
    FirstIsFirst(a + [s] + b, t);
  }

  lemma TimesInOrder(log: seq<Snapshot>)
    ensures Ascending(Times(Sorted(log)))
  {
    SortedInOrder(log);
  }

  /** Looking an endpoint up in the maps either side of a place is resolving it from the log. */
  lemma PlaceHasHolders(log: seq<Snapshot>, net: string, ip: string, t: real, place: nat)
    requires IsPlace(Times(Sorted(log)), t, place)
    ensures var maps := Maps(Sorted(log));
      AddressAt(log, net, ip, t) == Combined(if place > 0 then Holder(maps[place - 1], net, ip) else "",
                                             if place < |maps| then Holder(maps[place], net, ip) else "")
  {
    assert place <= |Sorted(log)|;
    hide IsPlace, Sorted, HoldersOf, LatestUpTo, FirstAfter;
    PlaceHasNeighbours(log, t, place);
  }

  // ---------------------------------------------------------------------------------------------
  // Stamps and their keys
  // ---------------------------------------------------------------------------------------------

  /** A row's stamp: none, the unattributed mark, something unreadable, or a table of some shape. */
  datatype Origin =
    | NoOrigin
    | UnattributedMark
    | Unreadable
    | Bridge(net: string, src: string)
    | Container(ctr: string)
    | BuildStep
    | OtherVm(who: string)
    | OtherShape

  datatype Who = Who(kind: string, caption: string, id: string, project: string)

  function Prefix(text: string, n: nat): string {
    if n <= |text| then text[..n] else text
  }

  function ClaimLabel(id: string, claims: Option<Claims>): string {
    if claims.Some? && claims.value.name != "" then claims.value.name else "container " + Prefix(id, 12)
  }

  /** Before the last colon; nothing without one. */
  function BeforeLastColon(text: string): string {
    if text == "" then "" else if text[|text| - 1] == ':' then text[..|text| - 1]
        else BeforeLastColon(text[..|text| - 1])
  }

  function ContainerWho(claims: map<string, Claims>, id: string): Who {
    var found := if id in claims then Some(claims[id]) else None;
    Who("container", ClaimLabel(id, found), id, if found.Some? then found.value.project else "")
  }

  /** What a stamp names at a time (when the row has a readable one); nothing for a row without a stamp. */
  function WhoOf(log: seq<Snapshot>, origin: Origin, ts: Option<real>): Option<Who> {
    var claims := ClaimsOf(Sorted(log));
    match origin
    case NoOrigin => None
    case UnattributedMark => Some(Who("unattributed", "unattributed", "", ""))
    case Unreadable => Some(Who("forged", "a stamp that didn't verify", "", ""))
    case Bridge(net, src) =>
      var ip := BeforeLastColon(src);
      var address := if ts.Some? then AddressAt(log, net, ip, ts.value) else Unresolved;
      (match address
       case Held(id) => Some(ContainerWho(claims, id))
       case Ambiguous => Some(Who("ambiguous", ip + " on " + net + " (two containers held it around then)", "", ""))
       case Unresolved => Some(Who("unresolved", ip + " on " + net, "", "")))
    case Container(ctr) => Some(ContainerWho(claims, ctr))
    case BuildStep => Some(Who("build", "a build step", "", ""))
    case OtherVm(_) => Some(Who("vm", "the VM itself (an image pull, the VM user)", "", ""))
    case OtherShape => Some(Who("forged", "a stamp of an unknown shape", "", ""))
  }

  /** The latest snapshot that claims anything of the container is at `k`; of several at one time, the last logged. */
  predicate IsLatestClaim(log: seq<Snapshot>, id: string, k: int) {
    0 <= k < |log| && id in log[k].claims && forall j :: 0 <= j < |log| && id in log[j].claims ==>
      log[j].t < log[k].t || (log[j].t == log[k].t && j <= k)
  }

  predicate IsLastClaim(snapshots: seq<Snapshot>, id: string, i: int) {
    0 <= i < |snapshots| && id in snapshots[i].claims && forall j :: i < j < |snapshots| ==> id !in snapshots[j].claims
  }

  lemma {:induction false} ClaimsOfLast(snapshots: seq<Snapshot>, id: string)
    ensures id in ClaimsOf(snapshots) ==> exists s :: s in snapshots && id in s.claims
    ensures forall i :: IsLastClaim(snapshots, id, i) ==>
      id in ClaimsOf(snapshots) && ClaimsOf(snapshots)[id] == snapshots[i].claims[id]
  {
    if snapshots != [] {
      var n := |snapshots| - 1;
      var init := snapshots[..n];
      ClaimsOfLast(init, id);
      assert snapshots == init + [snapshots[n]];
      forall i | IsLastClaim(snapshots, id, i)
        ensures id in ClaimsOf(snapshots) && ClaimsOf(snapshots)[id] == snapshots[i].claims[id]
      {
        if i < n {
          assert IsLastClaim(init, id, i);
        }
      }
    }
  }

  lemma SortedMembers(log: seq<Snapshot>)
    ensures forall s :: s in Sorted(log) <==> s in log
  {
    SortedInOrder(log);
    assert forall s :: s in Sorted(log) <==> s in multiset(Sorted(log));
    assert forall s :: s in log <==> s in multiset(log);
  }

  /** Of a list with one more, the last claim is the new one if that claims and stands after the old one. */
  lemma SplicedLastClaim(before: seq<Snapshot>, s: Snapshot, at: nat, id: string, i: int)
    requires at <= |before|
    requires IsLastClaim(before, id, i) || (i == -1 && forall j :: 0 <= j < |before| ==> id !in before[j].claims)
    ensures id in s.claims && i < at ==> IsLastClaim(Spliced(before, s, at), id, at)
    ensures 0 <= i && at <= i ==>
              IsLastClaim(Spliced(before, s, at), id, i + 1) && Spliced(before, s, at)[i + 1] == before[i]
    ensures 0 <= i && i < at && id !in s.claims ==>
      IsLastClaim(Spliced(before, s, at), id, i) && Spliced(before, s, at)[i] == before[i]
  {
    var after := Spliced(before, s, at);
    assert forall j :: 0 <= j < at ==> after[j] == before[j];
    assert after[at] == s;
    forall j | at < j < |after| ensures after[j] == before[j - 1] {
    }
  }

  /** Inserting one more snapshot keeps the latest claim of the log the last one in order. */
  lemma InsertedClaim(init: seq<Snapshot>, s: Snapshot, before: seq<Snapshot>, at: nat, id: string, k: int, i: int)
    returns (newK: int, newI: int)
    requires at <= |before| && IsLatestClaim(init, id, k) && IsLastClaim(before, id, i) && before[i] == init[k]
    requires forall j :: 0 <= j < at ==> before[j].t <= s.t
    requires forall j :: at <= j < |before| ==> s.t < before[j].t
    ensures IsLatestClaim(init + [s], id, newK) && IsLastClaim(Spliced(before, s, at), id, newI)
    ensures Spliced(before, s, at)[newI] == (init + [s])[newK]
  {
    LaterClaim(init, s, id, k);
    SplicedLastClaim(before, s, at, id, i);
    assert i < at ==> init[k].t <= s.t;
    assert at <= i ==> s.t < init[k].t;
    hide IsLatestClaim, IsLastClaim;
    if id in s.claims && i < at {
      newK, newI := |init|, at;
    } else {
      newK, newI := k, if at <= i then i + 1 else i;
    }
  }

  /** The latest claim in the log is the last one in the sorted list. */
  lemma {:induction false} LatestClaimIsLast(log: seq<Snapshot>, id: string) returns (k: int, i: int)
    requires exists s :: s in log && id in s.claims
    ensures IsLatestClaim(log, id, k) && IsLastClaim(Sorted(log), id, i) && Sorted(log)[i] == log[k]
    decreases log
  {
    var n := |log| - 1;
    var init, s := log[..n], log[n];
    var before := Sorted(init);
    assert log == init + [s];
    SortedInOrder(init);
    var at := InsertedShape(before, s);
    assert Sorted(log) == Spliced(before, s, at);
    if exists s :: s in init && id in s.claims {
      hide Sorted, InOrder, Inserted, Spliced, IsLastClaim, IsLatestClaim;
      k, i := LatestClaimIsLast(init, id);
      k, i := InsertedClaim(init, s, before, at, id, k, i);
    } else {
      hide Sorted, InOrder, Inserted, IsLatestClaim;
      k, i := n, at;
      OnlyClaim(init, s, id);
      SortedMembers(init);
      assert forall j :: 0 <= j < |before| ==> before[j] in before;
      SplicedLastClaim(before, s, at, id, -1);
    }
  }

  lemma OnlyClaim(init: seq<Snapshot>, s: Snapshot, id: string)
    requires id in s.claims && forall other :: other in init ==> id !in other.claims
    ensures IsLatestClaim(init + [s], id, |init|)
  {
    var log := init + [s];
    assert forall j :: 0 <= j < |init| ==> log[j] == init[j] && log[j] in init;
  }

  lemma LaterClaim(init: seq<Snapshot>, s: Snapshot, id: string, k: int)
    requires IsLatestClaim(init, id, k)
    ensures id in s.claims && init[k].t <= s.t ==> IsLatestClaim(init + [s], id, |init|)
    ensures id !in s.claims || s.t < init[k].t ==> IsLatestClaim(init + [s], id, k)
  {
    var log := init + [s];
    assert forall j :: 0 <= j < |init| ==> log[j] == init[j];
  }

  /** What the engine is said to call a container, and its project: by the latest claim, if there is one. */
  ghost predicate Called(log: seq<Snapshot>, id: string, caption: string, project: string) {
    var short := "container " + (if |id| <= 12 then id else id[..12]);
    || (exists k :: IsLatestClaim(log, id, k) && project == log[k].claims[id].project
                    && caption == if log[k].claims[id].name != "" then log[k].claims[id].name else short)
    || ((forall s :: s in log ==> id !in s.claims) && caption == short && project == "")
  }

  lemma ContainerIsCalled(log: seq<Snapshot>, id: string)
    ensures var who := ContainerWho(ClaimsOf(Sorted(log)), id);
      who.kind == "container" && who.id == id && Called(log, id, who.caption, who.project)
  {
    hide ClaimsOf, Sorted;
    ClaimsOfLast(Sorted(log), id);
    SortedMembers(log);
    if exists s :: s in log && id in s.claims {
      var k, i := LatestClaimIsLast(log, id);
    }
  }

  /** The text is this address and a port: what stands before its last colon, nothing if it has none. */
  ghost predicate HasAddress(src: string, ip: string) {
    || (exists port: string :: ':' !in port && src == ip + ":" + port)
    || (':' !in src && ip == "")
  }

  lemma {:induction false} AddressOfStamp(src: string)
    ensures HasAddress(src, BeforeLastColon(src))
  {
    if src != "" {
      var init, last := src[..|src| - 1], src[|src| - 1];
      assert src == init + [last];
      if last == ':' {
        assert src == init + ":" + "";
      } else {
        AddressOfStamp(init);
        if port: string :| ':' !in port && init == BeforeLastColon(init) + ":" + port {
          assert src == BeforeLastColon(src) + ":" + (port + [last]);
        }
      }
    }
  }

  /**
    What a bridge stamp names at a time: the container that alone held its address around then, by
    the name last claimed for it; two containers; or, with no readable time or no holder, nothing.
  */
  lemma BridgeNamesExactly(log: seq<Snapshot>, net: string, src: string, ts: Option<real>) returns (ip: string)
    ensures HasAddress(src, ip)
    ensures var who := WhoOf(log, Bridge(net, src), ts);
      && who.Some?
      && (who.value.kind == "container" <==> ts.Some? && HeldAlone(log, net, ip, ts.value, who.value.id))
      && (who.value.kind == "ambiguous" <==> ts.Some? && HeldByTwo(log, net, ip, ts.value))
      && (who.value.kind == "unresolved" <==> (ts.Some? ==>
            forall id :: !HeldBefore(log, net, ip, ts.value, id) && !HeldAfter(log, net, ip, ts.value, id)))
      && (who.value.kind == "container" ==> Called(log, who.value.id, who.value.caption, who.value.project))
      && (who.value.kind == "unresolved" ==> who.value.caption == ip + " on " + net)
      && (who.value.kind == "ambiguous" ==>
            who.value.caption == ip + " on " + net + " (two containers held it around then)")
  {
    hide HeldAlone, HeldByTwo, HeldBefore, HeldAfter, ClaimsOf, ContainerWho, Called, AddressAt;
    ip := BeforeLastColon(src);
    AddressOfStamp(src);
    if ts.Some? {
      AddressExactly(log, net, ip, ts.value);
      var address := AddressAt(log, net, ip, ts.value);
      if address.Held? {
        ContainerIsCalled(log, address.id);
      } else {
        assert !HeldAlone(log, net, ip, ts.value, "");
      }
    }
  }

  /** A container stamp names that container, whatever the time, by the name last claimed for it. */
  lemma ContainerNamesExactly(log: seq<Snapshot>, ctr: string, ts: Option<real>)
    ensures var who := WhoOf(log, Container(ctr), ts);
      who.Some? && who.value.kind == "container" && who.value.id == ctr
          && Called(log, ctr, who.value.caption, who.value.project)
  {
    ContainerIsCalled(log, ctr);
  }

  /** The snapshots, indexed for lookups by time. */
  class Resolver {
    ghost const log: seq<Snapshot>
    var times: seq<real>
    var maps: seq<Holders>
    var claims: map<string, Claims>

    ghost predicate Valid()
      reads this
    {
      times == Times(Sorted(log)) && maps == Maps(Sorted(log)) && claims == ClaimsOf(Sorted(log))
    }

    constructor (records: seq<Record>)
      ensures Valid() && log == Good(records)
    {
      var sorted := Sorted(Good(records));
      log := Good(records);
      new;
      times, maps, claims := Times(sorted), [], map[];
      for i := 0 to |sorted|
        invariant times == Times(sorted) && |maps| == i
        invariant forall j :: 0 <= j < i ==> maps[j] == HoldersOf(sorted[j].endpoints)
        invariant claims == ClaimsOf(sorted[..i])
      {
        assert sorted[..i + 1][..i] == sorted[..i];
        maps := maps + [HoldersOf(sorted[i].endpoints)];
        claims := claims + sorted[i].claims;
      }
      assert sorted[..|sorted|] == sorted;
    }

    /** `_address`: by bisection, what the log says without it. */
    method AddressOf(net: string, ip: string, t: real) returns (address: Address)
      requires Valid()
      ensures address == AddressAt(log, net, ip, t)
      ensures address == Ambiguous <==> HeldByTwo(log, net, ip, t)
      ensures forall id :: address == Held(id) <==> HeldAlone(log, net, ip, t, id)
    {
      TimesInOrder(log);
      hide HeldByTwo, HeldAlone;
      var i := BisectRight(times, t);
      PlaceHasHolders(log, net, ip, t, i);
      var before := if i > 0 then Holder(maps[i - 1], net, ip) else "";
      var after := if i < |maps| then Holder(maps[i], net, ip) else "";
      AddressExactly(log, net, ip, t);
      return Combined(before, after);
    }

    /** `who`. */
    method WhoIs(origin: Origin, ts: Option<real>) returns (who: Option<Who>)
      requires Valid()
      ensures who == WhoOf(log, origin, ts)
    {
      match origin
      case NoOrigin => return None;
      case UnattributedMark => return Some(Who("unattributed", "unattributed", "", ""));
      case Unreadable => return Some(Who("forged", "a stamp that didn't verify", "", ""));
      case Bridge(net, src) =>
        var ip := BeforeLastColon(src);
        var address := Unresolved;
        if ts.Some? {
          address := AddressOf(net, ip, ts.value);
        }
        if address.Held? {
          return Some(ContainerWho(claims, address.id));
        }
        if address.Ambiguous? {
          return Some(Who("ambiguous", ip + " on " + net + " (two containers held it around then)", "", ""));
        }
        return Some(Who("unresolved", ip + " on " + net, "", ""));
      case Container(ctr) => return Some(ContainerWho(claims, ctr));
      case BuildStep => return Some(Who("build", "a build step", "", ""));
      case OtherVm(_) => return Some(Who("vm", "the VM itself (an image pull, the VM user)", "", ""));
      case OtherShape => return Some(Who("forged", "a stamp of an unknown shape", "", ""));
    }
  }

  /** `origin_key`: what a stamp names, whatever the time. */
  function OriginKey(origin: Origin): Option<string> {
    match origin
    case NoOrigin => None
    case UnattributedMark => Some("unattributed")
    case Unreadable => Some("forged")
    case Bridge(net, src) => Some("bridge " + net + " " + BeforeLastColon(src))
    case Container(ctr) => Some("ctr " + ctr)
    case BuildStep => Some("build")
    case OtherVm(_) => Some("vm")
    case OtherShape => Some("forged")
  }

  /** `str.partition(" ")`: before the first space, and after it. */
  function AtSpace(text: string): (string, string) {
    if text == "" then ("", "")
    else if text[0] == ' ' then ("", text[1..])
    else (([text[0]] + AtSpace(text[1..]).0), AtSpace(text[1..]).1)
  }

  /** `origin_of_key`. */
  function OriginOfKey(key: string): Origin {
    if key == "unattributed" then UnattributedMark
    else if key == "forged" then Unreadable
    else
      var (kind, rest) := AtSpace(key);
      if kind == "bridge" then Bridge(AtSpace(rest).0, AtSpace(rest).1 + ":0")
      else if kind == "ctr" then Container(rest)
      else if kind == "build" then BuildStep
      else if kind == "container" then Container("")
      else OtherVm(kind)
  }

  lemma {:induction false} SplitsAtSpace(head: string, tail: string)
    requires ' ' !in head
    ensures AtSpace(head + " " + tail) == (head, tail)
  {
    var text := head + " " + tail;
    if head == "" {
      assert text[1..] == tail;
    } else {
      assert head[0] in head && text[0] == head[0];
      assert text[1..] == head[1..] + " " + tail;
      SplitsAtSpace(head[1..], tail);
      assert [head[0]] + head[1..] == head;
    }
  }

  lemma {:induction false} NoSpaceNoSplit(text: string)
    requires ' ' !in text
    ensures AtSpace(text) == (text, "")
  {
    if text != "" {
      assert text[0] in text;
      NoSpaceNoSplit(text[1..]);
      assert [text[0]] + text[1..] == text;
    }
  }

  lemma PortComesOff(ip: string)
    ensures BeforeLastColon(ip + ":0") == ip
  {
    var text := ip + ":0";
    assert text[..|text| - 1] == ip + ":";
    assert (ip + ":")[..|ip|] == ip;
    assert BeforeLastColon(ip + ":") == ip;
  }

  /** The parts of a bridge stamp come back from its key exactly when the bridge's name has no space. */
  lemma BridgeKeyReadsBackExactly(net: string, src: string)
    ensures OriginOfKey(OriginKey(Bridge(net, src)).value) == Bridge(net, BeforeLastColon(src) + ":0") <==> ' ' !in net
  {
    var ip := BeforeLastColon(src);
    assert "bridge " + net + " " + ip == "bridge" + " " + (net + " " + ip);
    SplitsAtSpace("bridge", net + " " + ip);
    if ' ' !in net {
      SplitsAtSpace(net, ip);
    } else {
      HeadHasNoSpace(net + " " + ip);
      assert AtSpace(net + " " + ip).0 != net;
    }
  }

  lemma {:induction false} HeadHasNoSpace(text: string)
    ensures ' ' !in AtSpace(text).0
  {
    if text != "" && text[0] != ' ' {
      HeadHasNoSpace(text[1..]);
      assert AtSpace(text).0 == [text[0]] + AtSpace(text[1..]).0;
    }
  }

  /** Two answers are the same, forged ones up to their wording. */
  predicate SameWho(a: Option<Who>, b: Option<Who>) {
    a == b || (a.Some? && b.Some? && a.value.kind == "forged" && b.value == a.value.(caption := b.value.caption))
  }

  /** What the index keeps of a stamp resolves, at every time, as the stamp itself does. */
  lemma KeyResolvesAsStamp(log: seq<Snapshot>, origin: Origin, ts: Option<real>)
    requires !origin.NoOrigin? && (origin.Bridge? ==> ' ' !in origin.net)
    ensures SameWho(WhoOf(log, OriginOfKey(OriginKey(origin).value), ts), WhoOf(log, origin, ts))
  {
    match origin
    case Bridge(net, src) =>
      BridgeKeyReadsBackExactly(net, src);
      PortComesOff(BeforeLastColon(src));
    case Container(ctr) =>
      assert "ctr " + ctr == "ctr" + " " + ctr;
      SplitsAtSpace("ctr", ctr);
    case BuildStep => NoSpaceNoSplit("build");
    case OtherVm(_) => NoSpaceNoSplit("vm");
    case _ =>
  }

  /** Two stamps resolve alike in every log, at every time. */
  ghost predicate ResolveAlike(a: Origin, b: Origin) {
    forall log, ts :: SameWho(WhoOf(log, a, ts), WhoOf(log, b, ts))
  }

  /**
    A key resolves as its stamp does in every log and at every time, if and only if the stamp is not
    of a bridge with a space in its name: where one container holds the address, such a key names
    another, which nobody holds.
  */
  lemma KeyResolvesAsStampExactly(origin: Origin)
    requires !origin.NoOrigin?
    ensures ResolveAlike(OriginOfKey(OriginKey(origin).value), origin) <==> (origin.Bridge? ==> ' ' !in origin.net)
  {
    if origin.Bridge? && ' ' in origin.net {
      SpacedBridgeIsAnother(origin.net, origin.src);
    } else {
      forall log, ts ensures SameWho(WhoOf(log, OriginOfKey(OriginKey(origin).value), ts), WhoOf(log, origin, ts)) {
        KeyResolvesAsStamp(log, origin, ts);
      }
    }
  }

  lemma SpacedBridgeIsAnother(net: string, src: string)
    requires ' ' in net
    ensures !ResolveAlike(OriginOfKey(OriginKey(Bridge(net, src)).value), Bridge(net, src))
  {
    var ip := BeforeLastColon(src);
    var other := OriginOfKey(OriginKey(Bridge(net, src)).value);
    assert "bridge " + net + " " + ip == "bridge" + " " + (net + " " + ip);
    SplitsAtSpace("bridge", net + " " + ip);
    HeadHasNoSpace(net + " " + ip);
    assert other.Bridge? && other.net != net;
    var held := Snapshot(0.0, [(net, ip, "holder")], map[]);
    OneSnapshot(held, 0.0);
    assert HoldersOf(held.endpoints) == map[(net, ip) := "holder"] by {
      assert held.endpoints[..0] == [];
    }
    assert WhoOf([held], Bridge(net, src), Some(0.0)).value.kind == "container";
    assert WhoOf([held], other, Some(0.0)).value.kind == "unresolved";
    assert !SameWho(WhoOf([held], other, Some(0.0)), WhoOf([held], Bridge(net, src), Some(0.0)));
  }

  lemma OneSnapshot(snapshot: Snapshot, t: real)
    requires snapshot.t <= t
    ensures LatestUpTo([snapshot], t) == Some(snapshot) && FirstAfter([snapshot], t) == None
  {
    assert [snapshot][..0] == [];
  }

  /** So stamps counted under one key are of one origin, at every time. */
  lemma OneKeyOneOrigin(log: seq<Snapshot>, a: Origin, b: Origin, ts: Option<real>)
    requires OriginKey(a) == OriginKey(b)
    requires (a.Bridge? ==> ' ' !in a.net) && (b.Bridge? ==> ' ' !in b.net)
    ensures SameWho(WhoOf(log, a, ts), WhoOf(log, b, ts))
  {
    if !a.NoOrigin? && !b.NoOrigin? {
      KeyResolvesAsStamp(log, a, ts);
      KeyResolvesAsStamp(log, b, ts);
    }
  }
}
