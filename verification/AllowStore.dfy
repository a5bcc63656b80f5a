/**
  The egress allow-store (`allowlist.py`): grants at three levels and two scopes, the learn window
  that suspends enforcement, the review marker, and the effective file the proxy reads.  Times are
  whole seconds; the store is readable throughout.
*/
module AllowStore {
  import opened Common

  const ONCE_TTL_SECONDS := 120
  const LEARN_DEFAULT_SECONDS := 3600
  const LEARN_MAX_SECONDS := 8 * 3600

  datatype Level = Once | Session | Permanent

  datatype Scope = Runtime | Build

  datatype Entry = Entry(level: Level, expires: Option<int>, added: int, scope: Scope)

  datatype Window = Window(since: int, until: int)

  /** The store document; a `None` field is a key the document does not have. */
  datatype Store = Store(
    hosts: map<string, Entry>,
    defaultDeny: Option<bool>,
    declined: map<string, int>,
    learn: Option<Window>,
    learned: Option<Window>,
    reviewed: Option<int>)

  const EMPTY_STORE := Store(map[], None, map[], None, None, None)

  /** What the effective file holds. */
  datatype Payload = Payload(defaultDeny: bool, allow: set<string>, buildAllow: set<string>)

  /** `[proxy] enforce` as the seed it is. */
  datatype Seed = On | Off | Learn

  function Min(a: int, b: int): int { if a < b then a else b }

  function Max(a: int, b: int): int { if a < b then b else a }

  // ---------------------------------------------------------------------------------------------
  // Reading the store
  // ---------------------------------------------------------------------------------------------

  predicate Live(entry: Entry, now: int) {
    entry.expires.None? || now < entry.expires.value
  }

  function Pruned(hosts: map<string, Entry>, now: int): map<string, Entry> {
    map host | host in hosts && Live(hosts[host], now) :: hosts[host]
  }

  function OpenWindow(store: Store, now: int): Option<Window> {
    if store.learn.Some? && now < store.learn.value.until then store.learn else None
  }

  /** Is the egress wall enforcing? */
  predicate DefaultDeny(store: Store, now: int, seed: Seed) {
    if OpenWindow(store, now).Some? then false
    else if store.defaultDeny.Some? then store.defaultDeny.value
    else seed != Off
  }

  function HostsOf(store: Store, now: int, scope: Scope): set<string> {
    set host | host in store.hosts && Live(store.hosts[host], now) && store.hosts[host].scope == scope
  }

  function Effective(store: Store, now: int, seed: Seed): Payload {
    Payload(DefaultDeny(store, now, seed), HostsOf(store, now, Runtime), HostsOf(store, now, Build))
  }

  /** The window a review reads: the open one, else the last one closed. */
  function LastWindow(store: Store): Option<Window> {
    if store.learn.Some? then store.learn else store.learned
  }

  // ---------------------------------------------------------------------------------------------
  // What each operation makes of the store
  // ---------------------------------------------------------------------------------------------

  function WindowClosed(store: Store, now: int): Store {
    if store.learn.None? then store
    else store.(learn := None,
                learned := Some(Window(store.learn.value.since, Min(store.learn.value.until, now))))
  }

  function WallSet(store: Store, on: bool, now: int): Store {
    WindowClosed(store.(defaultDeny := Some(on)), now)
  }

  /** Where the review of the previous window would start, if any of it is still unreviewed. */
  function UnreviewedSince(store: Store, now: int): Option<int> {
    var prior := LastWindow(store);
    if prior.None? then None
    else if store.reviewed.None? || store.reviewed.value <= prior.value.since then Some(prior.value.since)
    else if store.reviewed.value < Min(prior.value.until, now) then store.reviewed
    else None
  }

  function LearningStarted(store: Store, seconds: int, now: int): Store {
    var since := if UnreviewedSince(store, now).Some? then UnreviewedSince(store, now).value else now;
    var length := Max(1, Min(seconds, LEARN_MAX_SECONDS));
    store.(learn := Some(Window(since, now + length)), defaultDeny := Some(true))
  }

  function Reviewed(store: Store, now: int): Store {
    store.(reviewed := Some(now))
  }

  /** The store has never answered whether to enforce. */
  predicate NeverAnswered(store: Store) {
    store.defaultDeny.None? && store.learn.None? && store.learned.None?
  }

  function Expiry(level: Level, ttl: Option<int>, now: int): Option<int> {
    if level != Once then None
    else Some(now + (if ttl.None? || ttl.value == 0 then ONCE_TTL_SECONDS else ttl.value))
  }

  function Rank(level: Level): nat {
    match level
    case Once => 0
    case Session => 1
    case Permanent => 2
  }

  /** Does `current` last at least as long as a grant at `level` expiring at `expires`? */
  predicate LastsAsLong(current: Entry, level: Level, expires: Option<int>) {
    if current.level != level then Rank(current.level) > Rank(level)
    else level != Once || (current.expires.Some? && expires.Some? && current.expires.value >= expires.value)
  }

  datatype GrantAnswer = Granted | AlreadyCovered | Refused

  function GrantAnswered(store: Store, host: string, level: Level, ttl: Option<int>, build: bool,
      now: int): GrantAnswer
  {
    var hosts := Pruned(store.hosts, now);
    if build && host in hosts && hosts[host].scope == Runtime
    then if LastsAsLong(hosts[host], level, Expiry(level, ttl, now)) then AlreadyCovered else Refused
    else Granted
  }

  /** The entry a grant asks for. */
  function Requested(level: Level, ttl: Option<int>, build: bool, now: int): Entry {
    Entry(level, Expiry(level, ttl, now), now, if build then Build else Runtime)
  }

  function GrantMade(store: Store, host: string, level: Level, ttl: Option<int>, build: bool, now: int): Store {
    if GrantAnswered(store, host, level, ttl, build, now) != Granted then store
    else store.(hosts := Pruned(store.hosts, now)[host := Requested(level, ttl, build, now)],
                declined := store.declined - {host})
  }

  function HostRevoked(store: Store, host: string, now: int): Store {
    var hosts := Pruned(store.hosts, now);
    if host in hosts then store.(hosts := hosts - {host}) else store
  }

  function EphemeralCleared(store: Store, now: int): Store {
    var hosts := Pruned(store.hosts, now);
    store.(hosts := map host | host in hosts && hosts[host].level == Permanent :: hosts[host])
  }

  function HostDeclined(store: Store, host: string, now: int): Store {
    store.(declined := store.declined[host := now])
  }

  /** Is there anything for the sweep to write? */
  predicate SweepNeeded(store: Store, now: int) {
    |Pruned(store.hosts, now)| != |store.hosts| || (store.learn.Some? && OpenWindow(store, now).None?)
  }

  function Swept(store: Store, now: int): Store {
    if !SweepNeeded(store, now) then store
    else
      var tidy := store.(hosts := Pruned(store.hosts, now));
      if store.learn.Some? && OpenWindow(store, now).None? then WindowClosed(tidy, now) else tidy
  }

  lemma PrunedSize(hosts: map<string, Entry>, now: int)
    ensures |Pruned(hosts, now)| == |hosts| <==> Pruned(hosts, now) == hosts
  {
    var kept := Pruned(hosts, now);
    assert kept.Keys <= hosts.Keys && |kept.Keys| == |kept| && |hosts.Keys| == |hosts|;
    if |kept| == |hosts| {
      SubsetOfEqualSize(kept.Keys, hosts.Keys);
    }
  }

  lemma {:induction false} SubsetOfEqualSize(a: set<string>, b: set<string>)
    requires a <= b && |a| == |b|
    ensures a == b
  {
    assert |b - a| == |b| - |a|;
  }

  // ---------------------------------------------------------------------------------------------
  // The operations, on the store and the effective file
  // ---------------------------------------------------------------------------------------------

  class StoreFiles {
    const seed: Seed
    var doc: Store
    var effective: Option<Payload>

    constructor (seed: Seed)
      ensures this.seed == seed && doc == EMPTY_STORE && effective == None
    {
      this.seed := seed;
      doc := EMPTY_STORE;
      effective := None;
    }

    /** `_prune`: the entries not expired, and whether any was dropped. */
    method Prune(hosts: map<string, Entry>, now: int) returns (keep: map<string, Entry>, changed: bool)
      ensures keep == Pruned(hosts, now)
      ensures changed <==> keep != hosts
    {
      keep := map[];
      var left := hosts.Keys;
      while left != {}
        invariant left <= hosts.Keys
        invariant keep == Pruned(map host | host in hosts && host !in left :: hosts[host], now)
        decreases left
      {
        var host :| host in left;
        left := left - {host};
        var entry := hosts[host];
        if entry.expires.Some? && entry.expires.value <= now {
          continue;
        }
        keep := keep[host := entry];
      }
      assert (map host | host in hosts && host !in left :: hosts[host]) == hosts;
      PrunedSize(hosts, now);
      changed := |keep| != |hosts|;
    }

    method WriteEffective(now: int) returns (payload: Payload)
      modifies this`effective
      ensures payload == Effective(doc, now, seed) && effective == Some(payload)
    {
      payload := Effective(doc, now, seed);
      effective := Some(payload);
    }

    /** `grant`: refused, or the new effective payload. */
    method Grant(host: string, level: Level, ttl: Option<int>, build: bool, now: int) returns (payload: Option<Payload>)
      modifies this`doc, this`effective
      ensures doc == GrantMade(old(doc), host, level, ttl, build, now)
      ensures payload.None? <==> GrantAnswered(old(doc), host, level, ttl, build, now) == Refused
      ensures effective == if payload.None? then old(effective) else payload
      ensures payload.Some? ==> payload.value == Effective(doc, now, seed)
    {
      var hosts, _ := Prune(doc.hosts, now);
      var expires := Expiry(level, ttl, now);
      if build && host in hosts && hosts[host].scope == Runtime {
        if LastsAsLong(hosts[host], level, expires) {
          var same := WriteEffective(now);
          return Some(same);
        }
        return None;
      }
      hosts := hosts[host := Entry(level, expires, now, if build then Build else Runtime)];
      doc := doc.(hosts := hosts, declined := doc.declined - {host});
      var written := WriteEffective(now);
      return Some(written);
    }

    method Revoke(host: string, now: int)
      modifies this`doc, this`effective
      ensures doc == HostRevoked(old(doc), host, now)
      ensures effective == Some(Effective(doc, now, seed))
    {
      var hosts, _ := Prune(doc.hosts, now);
      if host in hosts {
        hosts := hosts - {host};
        doc := doc.(hosts := hosts);
      }
      var _ := WriteEffective(now);
    }

    method ClearEphemeral(now: int)
      modifies this`doc, this`effective
      ensures doc == EphemeralCleared(old(doc), now)
      ensures effective == Some(Effective(doc, now, seed))
    {
      var hosts, _ := Prune(doc.hosts, now);
      doc := doc.(hosts := map host | host in hosts && hosts[host].level == Permanent :: hosts[host]);
      var _ := WriteEffective(now);
    }

    method Decline(host: string, now: int)
      modifies this`doc
      ensures doc == HostDeclined(old(doc), host, now)
    {
      doc := doc.(declined := doc.declined[host := now]);
    }

    /** `_close_window`: an open or lapsed window becomes the record of what was observed. */
    method CloseWindow(now: int) returns (closed: bool)
      modifies this`doc
      ensures doc == WindowClosed(old(doc), now) && closed == old(doc.learn).Some?
    {
      if doc.learn.None? {
        return false;
      }
      var window := doc.learn.value;
      doc := doc.(learn := None);
      var end := if window.until < now then window.until else now;
      doc := doc.(learned := Some(Window(window.since, end)));
      return true;
    }

    method SetWall(on: bool, now: int)
      modifies this`doc, this`effective
      ensures doc == WallSet(old(doc), on, now)
      ensures effective == Some(Effective(doc, now, seed))
    {
      doc := doc.(defaultDeny := Some(on));
      var _ := CloseWindow(now);
      var _ := WriteEffective(now);
    }

    method StartLearning(seconds: int, now: int) returns (window: Window)
      modifies this`doc, this`effective
      ensures doc == LearningStarted(old(doc), seconds, now) && doc.learn == Some(window)
      ensures effective == Some(Effective(doc, now, seed))
    {
      var length := if seconds < LEARN_MAX_SECONDS then seconds else LEARN_MAX_SECONDS;
      length := if length < 1 then 1 else length;
      var since := now;
      var unreviewed := UnreviewedSince(doc, now);
      if unreviewed.Some? {
        since := unreviewed.value;
      }
      window := Window(since, now + length);
      doc := doc.(learn := Some(window));
      doc := doc.(defaultDeny := Some(true));
      var _ := WriteEffective(now);
    }

    method MarkReviewed(now: int)
      modifies this`doc
      ensures doc == Reviewed(old(doc), now)
    {
      doc := doc.(reviewed := Some(now));
    }

    method SeedLearning(now: int) returns (window: Option<Window>)
      modifies this`doc, this`effective
      ensures window.Some? <==>
        seed == Learn && old(doc.defaultDeny).None? && old(doc.learn).None? && old(doc.learned).None?
      ensures window.Some? ==> doc == LearningStarted(old(doc), LEARN_DEFAULT_SECONDS, now)
      ensures window.Some? ==> effective == Some(Effective(doc, now, seed))
      ensures window.None? ==> doc == old(doc) && effective == old(effective)
    {
      if seed != Learn || doc.defaultDeny.Some? || doc.learn.Some? || doc.learned.Some? {
        return None;
      }
      var started := StartLearning(LEARN_DEFAULT_SECONDS, now);
      return Some(started);
    }

    /** `sweep`: drop what lapsed; store and effective file are rewritten only when anything did. */
    method Sweep(now: int) returns (changed: bool)
      modifies this`doc, this`effective
      ensures changed <==> SweepNeeded(old(doc), now)
      ensures doc == Swept(old(doc), now)
      ensures effective == if changed then Some(Effective(doc, now, seed)) else old(effective)
    {
      var pruned, dropped := Prune(doc.hosts, now);
      PrunedSize(doc.hosts, now);
      var lapsed := doc.learn.Some? && OpenWindow(doc, now).None?;
      if dropped || lapsed {
        doc := doc.(hosts := pruned);
        if lapsed {
          var _ := CloseWindow(now);
        }
        var _ := WriteEffective(now);
      }
      changed := dropped || lapsed;
    }
  }

  // ---------------------------------------------------------------------------------------------
  // What the operations mean to the proxy, then and later
  // ---------------------------------------------------------------------------------------------

  /** The two lists agree on every host but this one. */
  ghost predicate SameButFor(host: string, a: Payload, b: Payload) {
    a.allow - {host} == b.allow - {host} && a.buildAllow - {host} == b.buildAllow - {host}
  }

  /**
    A grant that is made allows its host for its own scope only, a `once` grant for the seconds asked
    or two minutes and any other without end, leaves every other host as it was,
    and withdraws a decline; no grant touches enforcement.
  */
  lemma GrantAllows(store: Store, host: string, level: Level, ttl: Option<int>, build: bool, now: int, later: int,
      seed: Seed)
    requires now <= later
    ensures var after := GrantMade(store, host, level, ttl, build, now);
      var was, becomes := Effective(store, later, seed), Effective(after, later, seed);
      var good := match level
        case Once => later < now + (if ttl.Some? && ttl.value != 0 then ttl.value else 120)
        case _ => true;
      && SameButFor(host, was, becomes) && was.defaultDeny == becomes.defaultDeny
      && (GrantAnswered(store, host, level, ttl, build, now) == Granted ==>
            && (host in becomes.allow <==> !build && good)
            && (host in becomes.buildAllow <==> build && good)
            && host !in after.declined)
  {
  }

  /**
    A sweep has something to write exactly when an entry has expired or a window has ended; it drops
    those entries and keeps that window, as it was, for review, and touches nothing else.
  */
  lemma SweepsExactly(store: Store, now: int)
    ensures SweepNeeded(store, now) <==>
      || (exists host :: host in store.hosts && store.hosts[host].expires.Some?
            && store.hosts[host].expires.value <= now)
      || (store.learn.Some? && store.learn.value.until <= now)
    ensures var swept := Swept(store, now);
      && (forall host :: host in swept.hosts <==>
            (host in store.hosts && (store.hosts[host].expires.None? || now < store.hosts[host].expires.value)))
      && (forall host :: host in swept.hosts ==> swept.hosts[host] == store.hosts[host])
      && (if store.learn.Some? && store.learn.value.until <= now
          then swept.learn.None? && swept.learned == store.learn
          else swept.learn == store.learn && swept.learned == store.learned)
      && swept.defaultDeny == store.defaultDeny && swept.declined == store.declined && swept.reviewed == store.reviewed
  {
    PrunedSize(store.hosts, now);
    var kept := Pruned(store.hosts, now);
    assert (forall host :: host in store.hosts ==> Live(store.hosts[host], now)) ==> kept == store.hosts;
    if kept == store.hosts {
      forall host | host in store.hosts ensures Live(store.hosts[host], now) {
        assert host in kept;
      }
    }
  }

  /** A revoked host is in neither list, ever after; the others and enforcement are untouched. */
  lemma RevokeDisallows(store: Store, host: string, now: int, later: int, seed: Seed)
    requires now <= later
    ensures var was, becomes := Effective(store, later, seed), Effective(HostRevoked(store, host, now), later, seed);
      && host !in becomes.allow && host !in becomes.buildAllow
      && SameButFor(host, was, becomes) && was.defaultDeny == becomes.defaultDeny
  {
  }

  /** Clearing leaves exactly the permanent grants in the lists. */
  lemma ClearKeepsPermanent(store: Store, now: int, later: int, seed: Seed, host: string)
    requires now <= later
    ensures var was, becomes := Effective(store, later, seed), Effective(EphemeralCleared(store, now), later, seed);
      && (host in becomes.allow <==> host in was.allow && store.hosts[host].level == Permanent)
      && (host in becomes.buildAllow <==> host in was.buildAllow && store.hosts[host].level == Permanent)
      && was.defaultDeny == becomes.defaultDeny
  {
  }

  /** The wall is as set, from then on and whatever window was open; the window stays to be reviewed. */
  lemma WallStaysAsSet(store: Store, on: bool, now: int, later: int, seed: Seed)
    requires now <= later
    ensures var after := WallSet(store, on, now);
      && DefaultDeny(after, later, seed) == on && OpenWindow(after, later).None?
      && (LastWindow(store).Some? <==> LastWindow(after).Some?)
      && (LastWindow(store).Some? ==>
            && LastWindow(after).value.since == LastWindow(store).value.since
            && LastWindow(after).value.until == if store.learn.Some? then Min(store.learn.value.until, now)
                else LastWindow(store).value.until)
  {
  }

  /**
    A learn window suspends enforcement from now for what was asked, a second at least and eight
    hours at most, and no longer.
  */
  lemma LearningSuspends(store: Store, seconds: int, now: int, later: int, seed: Seed)
    requires now <= later
    ensures var length := if seconds < 1 then 1 else if seconds > 28800 then 28800 else seconds;
      DefaultDeny(LearningStarted(store, seconds, now), later, seed) <==> now + length <= later
  {
  }

  /**
    A review at `now` settles what was seen up to then: a window opened later starts afresh if the one
    before had ended by the review, and at the review if it was still open; a window that began no
    earlier than the review is still wholly to be reviewed.
  */
  lemma ReviewSettlesWhatWasSeen(store: Store, now: int, seconds: int, later: int)
    requires now <= later
    ensures var since := LearningStarted(Reviewed(store, now), seconds, later).learn.value.since;
      match LastWindow(store)
      case None => since == later
      case Some(last) =>
        since == if now <= last.since then last.since else if now < last.until && now < later then now else later
  {
  }

  /** A review changes nothing the proxy reads, and neither does a decline: not now, not later. */
  lemma AnswersAreNotEnforced(store: Store, host: string, now: int, later: int, seed: Seed)
    ensures Effective(HostDeclined(store, host, now), later, seed) == Effective(store, later, seed)
    ensures Effective(Reviewed(store, now), later, seed) == Effective(store, later, seed)
    ensures LastWindow(HostDeclined(store, host, now)) == LastWindow(store) == LastWindow(Reviewed(store, now))
  {
  }

  // ---------------------------------------------------------------------------------------------
  // Futures of one grant
  // ---------------------------------------------------------------------------------------------

  datatype Event = Wait(seconds: nat) | SweepEvent | ClearEvent

  /** What a grant has become, and the time, after some events nobody intends for it in particular. */
  function Fate(entry: Option<Entry>, now: int, events: seq<Event>): (Option<Entry>, int)
    decreases events
  {
    if events == [] then (entry, now)
    else
      match events[0]
      case Wait(seconds) => Fate(entry, now + seconds, events[1..])
      case SweepEvent => Fate(if entry.Some? && Live(entry.value, now) then entry else None, now, events[1..])
      case ClearEvent =>
        Fate(if entry.Some? && Live(entry.value, now) && entry.value.level == Permanent then entry else None,
             now, events[1..])
  }

  predicate LiveAfter(entry: Option<Entry>, now: int, events: seq<Event>) {
    var (left, then_) := Fate(entry, now, events);
    left.Some? && Live(left.value, then_)
  }

  /** Only `once` grants carry an expiry. */
  predicate WellFormed(entry: Entry) {
    entry.expires.Some? <==> entry.level == Once
  }

  /** The events on a whole store. */
  function StoreAfter(store: Store, now: int, events: seq<Event>): (Store, int)
    decreases events
  {
    if events == [] then (store, now)
    else
      match events[0]
      case Wait(seconds) => StoreAfter(store, now + seconds, events[1..])
      case SweepEvent => StoreAfter(Swept(store, now), now, events[1..])
      case ClearEvent => StoreAfter(EphemeralCleared(store, now), now, events[1..])
  }

  function Lookup(store: Store, host: string): Option<Entry> {
    if host in store.hosts then Some(store.hosts[host]) else None
  }

  /** A grant's fate in the store is its own, whatever else the store holds. */
  lemma {:induction false} FateInStore(store: Store, host: string, now: int, events: seq<Event>)
    ensures var (after, then_) := StoreAfter(store, now, events);
      && Fate(Lookup(store, host), now, events).1 == then_
      && Fate(Lookup(store, host), now, events).0 == Lookup(after, host)
    decreases events
  {
    if events != [] {
      match events[0]
      case Wait(seconds) => FateInStore(store, host, now + seconds, events[1..]);
      case SweepEvent =>
        PrunedSize(store.hosts, now);
        FateInStore(Swept(store, now), host, now, events[1..]);
      case ClearEvent => FateInStore(EphemeralCleared(store, now), host, now, events[1..]);
    }
  }

  lemma {:induction false} LongerOutlives(current: Option<Entry>, requested: Option<Entry>, now: int,
      events: seq<Event>)
    requires requested.Some? && Live(requested.value, now) ==>
      && current.Some? && WellFormed(current.value) && WellFormed(requested.value)
      && LastsAsLong(current.value, requested.value.level, requested.value.expires)
      && Live(current.value, now)
    requires requested.Some? ==> WellFormed(requested.value)
    ensures LiveAfter(requested, now, events) ==> LiveAfter(current, now, events)
    decreases events
  {
    if events == [] {
    } else if requested.None? || !Live(requested.value, now) {
      DeadStaysDead(requested, now, events);
    } else {
      match events[0]
      case Wait(seconds) =>
        LongerOutlives(current, requested, now + seconds, events[1..]);
      case SweepEvent =>
        LongerOutlives(current, requested, now, events[1..]);
      case ClearEvent =>
        if requested.value.level == Permanent {
          LongerOutlives(current, requested, now, events[1..]);
        } else {
          DeadStaysDead(None, now, events[1..]);
        }
    }
  }

  lemma {:induction false} DeadStaysDead(entry: Option<Entry>, now: int, events: seq<Event>)
    requires entry.None? || !Live(entry.value, now)
    ensures !LiveAfter(entry, now, events)
    decreases events
  {
    if events != [] {
      match events[0]
      case Wait(seconds) => DeadStaysDead(entry, now + seconds, events[1..]);
      case SweepEvent => DeadStaysDead(None, now, events[1..]);
      case ClearEvent => DeadStaysDead(None, now, events[1..]);
    }
  }

  /** A future that tells a shorter grant from the one asked for. */
  function Telling(current: Entry, now: int): (events: seq<Event>)
    ensures |events| == 1
  {
    if current.level == Once then [Wait(Max(0, current.expires.GetOr(now) - now))] else [ClearEvent]
  }

  lemma FateOfOne(entry: Option<Entry>, now: int, event: Event)
    ensures Fate(entry, now, [event]) ==
      match event
      case Wait(seconds) => (entry, now + seconds)
      case SweepEvent => (if entry.Some? && Live(entry.value, now) then entry else None, now)
      case ClearEvent =>
        (if entry.Some? && Live(entry.value, now) && entry.value.level == Permanent then entry else None, now)
  {
    assert [event][1..] == [];
  }

  /**
    `_lasts_as_long` holds exactly when, in every future of waiting, sweeping and clearing, the
    current grant is live whenever the one asked for would be.
  */
  lemma LastsAsLongExactly(current: Entry, requested: Entry, now: int)
    requires WellFormed(current) && WellFormed(requested) && Live(current, now)
    ensures LastsAsLong(current, requested.level, requested.expires) <==>
      forall events :: LiveAfter(Some(requested), now, events) ==> LiveAfter(Some(current), now, events)
  {
    if LastsAsLong(current, requested.level, requested.expires) {
      forall events | LiveAfter(Some(requested), now, events) ensures LiveAfter(Some(current), now, events) {
        LongerOutlives(Some(current), Some(requested), now, events);
      }
    } else {
      var events := Telling(current, now);
      FateOfOne(Some(requested), now, events[0]);
      FateOfOne(Some(current), now, events[0]);
      assert LiveAfter(Some(requested), now, events) && !LiveAfter(Some(current), now, events);
    }
  }

  /**
    A build grant that returns leaves every live runtime grant as it was and covers builds at least
    as long as asked; one that is refused leaves the store as it was.
  */
  lemma BuildGrantNarrowsNothing(store: Store, host: string, level: Level, ttl: Option<int>, now: int)
    requires forall h :: h in store.hosts ==> WellFormed(store.hosts[h])
    ensures var after := GrantMade(store, host, level, ttl, true, now);
      var answer := GrantAnswered(store, host, level, ttl, true, now);
      && (answer == Refused ==> after == store)
      && (forall h :: h in HostsOf(store, now, Runtime) ==> h in after.hosts && after.hosts[h] == store.hosts[h])
      && (answer != Refused ==> forall events ::
            LiveAfter(Some(Requested(level, ttl, true, now)), now, events) ==>
                LiveAfter(Lookup(after, host), now, events))
      && (answer == Refused <==> host in HostsOf(store, now, Runtime) && exists events ::
            LiveAfter(Some(Requested(level, ttl, true, now)), now, events)
                && !LiveAfter(Lookup(store, host), now, events))
  {
    var hosts := Pruned(store.hosts, now);
    var requested := Requested(level, ttl, true, now);
    if host in hosts && hosts[host].scope == Runtime {
      LastsAsLongExactly(hosts[host], requested, now);
    }
  }
}
