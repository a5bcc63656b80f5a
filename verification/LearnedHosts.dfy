/**
  The review of a learn window (`allowlist.py`): which recorded hosts it lists, and why a host seen
  in an unreviewed second of a window cannot be missing from it.
*/
module LearnedHosts {
  import opened Common
  import opened AllowStore
  import opened AllowRuns

  /** One log row: its time if it parses, its host if it is a non-empty string, and its kind. */
  datatype Row = Row(ts: Option<int>, host: Option<string>, wouldBlock: bool)

  /** One host of the review: how often it would have been refused, and when first and last. */
  datatype Learned = Learned(host: string, count: nat, first: int, last: int)

  /** What is known about host names elsewhere: which are valid grants, and which name a local address. */
  datatype HostRules = HostRules(valid: string -> bool, local: string -> bool)

  predicate IsGlob(pattern: string) {
    "*." <= pattern
  }

  /** The proxy's grant semantics: an exact grant, or a `*.suffix` one. */
  predicate Matches(key: string, patterns: set<string>) {
    exists p :: p in patterns && (if IsGlob(p) then EndsWith(key, p[1..]) else key == p)
  }

  /** A host is covered by a grant of itself, or by one of `*.` and what follows one of its dots. */
  lemma MatchesExactly(key: string, patterns: set<string>)
    ensures Matches(key, patterns) <==>
      || (key in patterns && (|key| < 2 || key[..2] != "*."))
      || (exists stem: string, suffix: string :: "*." + suffix in patterns && key == stem + "." + suffix)
  {
    if p :| p in patterns && (if IsGlob(p) then EndsWith(key, p[1..]) else key == p) {
      if IsGlob(p) {
        var suffix := p[2..];
        assert p == "*." + suffix && p[1..] == "." + suffix;
        assert key == key[..|key| - |p[1..]|] + "." + suffix;
      }
    }
    if stem: string, suffix: string :| "*." + suffix in patterns && key == stem + "." + suffix {
      assert ("*." + suffix)[1..] == "." + suffix;
      assert EndsWith(key, ("*." + suffix)[1..]);
    }
  }

  /** What a review is made of: its window, and what the store already answers. */
  datatype Review = Review(window: Window, rules: HostRules, granted: set<string>, refused: set<string>)

  /** The log row names a host nobody has answered for. */
  predicate Unanswered(row: Row, rules: HostRules, granted: set<string>, refused: set<string>) {
    && row.host.Some? && row.ts.Some? && row.wouldBlock
    && rules.valid(row.host.value) && !IsGlob(row.host.value) && !rules.local(row.host.value)
    && !Matches(row.host.value, granted)
    && row.host.value !in refused && "*" !in refused
  }

  predicate Qualifies(row: Row, review: Review) {
    && Unanswered(row, review.rules, review.granted, review.refused)
    && review.window.since <= row.ts.value <= review.window.until
  }

  /** The times of the qualifying rows for one host, in order. */
  function TimesOf(rows: seq<Row>, host: string, review: Review): seq<int>
    decreases rows
  {
    if rows == [] then []
    else
      var before := TimesOf(rows[..|rows| - 1], host, review);
      var row := rows[|rows| - 1];
      if Qualifies(row, review) && row.host.value == host then before + [row.ts.value] else before
  }

  /** The hosts of the qualifying rows, in the order they are first seen. */
  function HostsSeen(rows: seq<Row>, review: Review): seq<string>
    decreases rows
  {
    if rows == [] then []
    else
      var before := HostsSeen(rows[..|rows| - 1], review);
      var row := rows[|rows| - 1];
      if Qualifies(row, review) && row.host.value !in before then before + [row.host.value] else before
  }

  lemma {:induction false} SeenHasTimes(rows: seq<Row>, host: string, review: Review)
    ensures host in HostsSeen(rows, review) <==> TimesOf(rows, host, review) != []
    decreases rows
  {
    if rows != [] {
      SeenHasTimes(rows[..|rows| - 1], host, review);
    }
  }

  lemma {:induction false} SeenDistinct(rows: seq<Row>, review: Review)
    ensures forall i, j :: 0 <= i < j < |HostsSeen(rows, review)| ==>
              HostsSeen(rows, review)[i] != HostsSeen(rows, review)[j]
    decreases rows
  {
    if rows != [] {
      SeenDistinct(rows[..|rows| - 1], review);
    }
  }

  /** `entry` sums up the qualifying rows at `times`. */
  predicate Sums(entry: Learned, times: seq<int>) {
    times != [] && entry.count == |times| && entry.first == times[0] && entry.last == times[|times| - 1]
  }

  lemma OneTimeMore(entry: Learned, times: seq<int>, t: int)
    ensures Sums(entry, times) ==> Sums(entry.(count := entry.count + 1, last := t), times + [t])
    ensures Sums(Learned(entry.host, 1, t, t), [] + [t])
  {
  }

  /** What one more row makes of the hosts seen and of the times of each. */
  lemma OneRowMore(rows: seq<Row>, n: nat, review: Review)
    requires n < |rows|
    ensures var before, row := rows[..n], rows[n];
      if Qualifies(row, review) then
        && HostsSeen(rows[..n + 1], review) == HostsSeen(before, review)
             + (if row.host.value in HostsSeen(before, review) then [] else [row.host.value])
        && forall host :: TimesOf(rows[..n + 1], host, review)
             == TimesOf(before, host, review) + (if host == row.host.value then [row.ts.value] else [])
      else
        && HostsSeen(rows[..n + 1], review) == HostsSeen(before, review)
        && forall host :: TimesOf(rows[..n + 1], host, review) == TimesOf(before, host, review)
  {
    assert rows[..n + 1][..n] == rows[..n];
  }

  /** `learned_hosts`: the hosts of the review in first-seen order, each with its count and times. */
  method ReviewHosts(rows: seq<Row>, review: Review) returns (out: seq<Learned>)
    ensures |out| == |HostsSeen(rows, review)|
    ensures forall i :: 0 <= i < |out| ==>
              && out[i].host == HostsSeen(rows, review)[i]
              && var times := TimesOf(rows, out[i].host, review);
                 && times != [] && out[i].count == |times|
                 && out[i].first == times[0] && out[i].last == times[|times| - 1]
  {
    out := [];
    assert HostsSeen(rows[..0], review) == [];
    for n := 0 to |rows|
      invariant |out| == |HostsSeen(rows[..n], review)|
      invariant forall i :: 0 <= i < |out| ==>
                  out[i].host == HostsSeen(rows[..n], review)[i]
                      && Sums(out[i], TimesOf(rows[..n], out[i].host, review))
    {
      hide HostsSeen, TimesOf;
      var row := rows[n];
      OneRowMore(rows, n, review);
      if row.host.None? || row.ts.None? || !(review.window.since <= row.ts.value <= review.window.until) {
        continue;
      }
      var key := row.host.value;
      if !row.wouldBlock || !review.rules.valid(key) || IsGlob(key) {
        continue;
      }
      if review.rules.local(key) || Matches(key, review.granted) || key in review.refused || "*" in review.refused {
        continue;
      }
      assert Qualifies(row, review);
      hide Qualifies, Matches, Sums;
      SeenDistinct(rows[..n], review);
      SeenHasTimes(rows[..n], key, review);
      var at := IndexOf(out, key);
      if at == |out| {
        assert key !in HostsSeen(rows[..n], review);
        OneTimeMore(Learned(key, 0, 0, 0), [], row.ts.value);
        out := out + [Learned(key, 1, row.ts.value, row.ts.value)];
      } else {
        assert HostsSeen(rows[..n], review)[at] == key;
        assert forall i :: 0 <= i < |out| && i != at ==> out[i].host != key;
        OneTimeMore(out[at], TimesOf(rows[..n], key, review), row.ts.value);
        out := out[at := out[at].(count := out[at].count + 1, last := row.ts.value)];
      }
    }
    assert rows[..|rows|] == rows;
  }

  function IndexOf(out: seq<Learned>, host: string): (at: nat)
    ensures at <= |out| && (at < |out| ==> out[at].host == host)
    ensures forall i :: 0 <= i < at ==> out[i].host != host
  {
    if out == [] || out[0].host == host then 0 else 1 + IndexOf(out[1..], host)
  }

  lemma {:induction false} QualifyingRowIsTimed(rows: seq<Row>, k: nat, review: Review)
    requires k < |rows| && Qualifies(rows[k], review)
    ensures TimesOf(rows, rows[k].host.value, review) != []
    decreases rows
  {
    if k < |rows| - 1 {
      QualifyingRowIsTimed(rows[..|rows| - 1], k, review);
    }
  }

  /**
    In every run, a host nobody has answered for, logged as would-block in a second a window was
    open and not covered by a review since, is among the hosts the review of the last window lists.
  */
  lemma ReviewMissesNothing(seed: Seed, t0: int, moves: seq<Move>, rows: seq<Row>, k: nat, rules: HostRules)
    requires k < |rows|
    requires var run := RunOf(seed, t0, moves);
      && Unanswered(rows[k], rules, HostsOf(run.store, run.now, Runtime), run.store.declined.Keys)
      && rows[k].ts.value in run.openSeconds && !ReviewedBy(run.store, rows[k].ts.value)
    ensures var run := RunOf(seed, t0, moves);
      && LastWindow(run.store).Some?
      && rows[k].host.value in HostsSeen(rows,
           Review(LastWindow(run.store).value, rules, HostsOf(run.store, run.now, Runtime), run.store.declined.Keys))
  {
    var run := RunOf(seed, t0, moves);
    NoObservationLost(seed, t0, moves, rows[k].ts.value);
    var review := Review(LastWindow(run.store).value, rules, HostsOf(run.store, run.now, Runtime),
        run.store.declined.Keys);
    QualifyingRowIsTimed(rows, k, review);
    SeenHasTimes(rows, rows[k].host.value, review);
  }

  /** The review of the last window as the store stands. */
  function ReviewOf(store: Store, now: int, window: Window, rules: HostRules): Review {
    Review(window, rules, HostsOf(store, now, Runtime), store.declined.Keys)
  }

  /**
    A declined host is in no review of that store, however much later, and no other host leaves or
    joins one by the decline.
    (Declining `*` answers for every host.)
  */
  lemma DeclineDropsExactlyOne(store: Store, host: string, now: int, later: int, rows: seq<Row>, window: Window,
                               rules: HostRules, other: string)
    ensures var was := HostsSeen(rows, ReviewOf(store, later, window, rules));
      var becomes := HostsSeen(rows, ReviewOf(HostDeclined(store, host, now), later, window, rules));
      other in becomes <==> other in was && other != host && host != "*"
  {
    DeclineKeepsTimes(store, host, now, later, rows, window, rules, other);
    SeenHasTimes(rows, other, ReviewOf(store, later, window, rules));
    SeenHasTimes(rows, other, ReviewOf(HostDeclined(store, host, now), later, window, rules));
  }

  lemma {:induction false} DeclineKeepsTimes(store: Store, host: string, now: int, later: int, rows: seq<Row>,
                                             window: Window, rules: HostRules, other: string)
    ensures TimesOf(rows, other, ReviewOf(HostDeclined(store, host, now), later, window, rules)) ==
            if other == host || host == "*" then [] else TimesOf(rows, other, ReviewOf(store, later, window, rules))
    decreases rows
  {
    if rows != [] {
      DeclineKeepsTimes(store, host, now, later, rows[..|rows| - 1], window, rules, other);
      assert HostDeclined(store, host, now).declined.Keys == store.declined.Keys + {host};
      assert HostsOf(HostDeclined(store, host, now), later, Runtime) == HostsOf(store, later, Runtime);
    }
  }

  /** A grant that is made leaves no trace of a decline: the store is the one without it, so are its later reviews. */
  lemma GrantWithdrawsDecline(store: Store, host: string, level: Level, ttl: Option<int>, build: bool, now: int)
    requires GrantAnswered(store, host, level, ttl, build, now) == Granted
    ensures GrantMade(HostDeclined(store, host, now), host, level, ttl, build, now).declined.Keys
              == store.declined.Keys - {host}
    ensures GrantMade(HostDeclined(store, host, now), host, level, ttl, build, now)
              == GrantMade(store, host, level, ttl, build, now)
  {
    assert store.declined[host := now] - {host} == store.declined - {host};
  }

  lemma {:induction false} SeenWasUnanswered(rows: seq<Row>, review: Review, host: string)
    requires host in HostsSeen(rows, review)
    ensures !Matches(host, review.granted)
    decreases rows
  {
    var before := HostsSeen(rows[..|rows| - 1], review);
    if host in before {
      SeenWasUnanswered(rows[..|rows| - 1], review, host);
    }
  }

  /**
    No review lists a host that is granted by then, by its own name or under a granted `*.suffix`; but
    `*.suffix` does not answer for `suffix` itself.
  */
  lemma GrantedHostIsInNoReview(store: Store, now: int, rows: seq<Row>, window: Window, rules: HostRules,
                                stem: string, suffix: string)
    ensures var seen := HostsSeen(rows, ReviewOf(store, now, window, rules));
      var granted := HostsOf(store, now, Runtime);
      && ("*." + suffix in granted ==> stem + "." + suffix !in seen)
      && (suffix in granted && (|suffix| < 2 || suffix[..2] != "*.") ==> suffix !in seen)
      && !Matches(suffix, {"*." + suffix})
  {
    var seen := HostsSeen(rows, ReviewOf(store, now, window, rules));
    MatchesExactly(stem + "." + suffix, HostsOf(store, now, Runtime));
    MatchesExactly(suffix, HostsOf(store, now, Runtime));
    assert !EndsWith(suffix, ("*." + suffix)[1..]);
    if stem + "." + suffix in seen {
      SeenWasUnanswered(rows, ReviewOf(store, now, window, rules), stem + "." + suffix);
    }
    if suffix in seen {
      SeenWasUnanswered(rows, ReviewOf(store, now, window, rules), suffix);
    }
  }

  /** The row is of this host's, refused in the window and for the review to ask about. */
  predicate CountsFor(row: Row, host: string, review: Review) {
    && row.host == Some(host) && row.wouldBlock
    && row.ts.Some? && review.window.since <= row.ts.value <= review.window.until
    && review.rules.valid(host) && !("*." <= host) && !review.rules.local(host)
    && !Matches(host, review.granted) && host !in review.refused && "*" !in review.refused
  }

  lemma {:induction false} TimesAppend(a: seq<Row>, b: seq<Row>, host: string, review: Review)
    ensures TimesOf(a + b, host, review) == TimesOf(a, host, review) + TimesOf(b, host, review)
    decreases b
  {
    if b == [] {
      assert a + b == a;
    } else {
      assert (a + b)[..|a + b| - 1] == a + b[..|b| - 1];
      TimesAppend(a, b[..|b| - 1], host, review);
    }
  }

  /**
    A review counts, row by row and in order, exactly the rows of a host that were refused in its
    window, if the host can be granted, is not local and is not answered for; it lists a host exactly
    when there is one.
  */
  lemma ReviewCountsExactly(before: seq<Row>, row: Row, after: seq<Row>, host: string, review: Review)
    ensures TimesOf(before + [row] + after, host, review)
         == TimesOf(before, host, review) + (if CountsFor(row, host, review) then [row.ts.value] else [])
            + TimesOf(after, host, review)
    ensures host in HostsSeen(before, review) <==> exists k :: 0 <= k < |before| && CountsFor(before[k], host, review)
  {
    TimesAppend(before + [row], after, host, review);
    TimesAppend(before, [row], host, review);
    assert [row][..0] == [];
    SeenHasTimes(before, host, review);
    SomeCounts(before, host, review);
  }

  lemma {:induction false} SomeCounts(rows: seq<Row>, host: string, review: Review)
    ensures TimesOf(rows, host, review) != [] <==> exists k :: 0 <= k < |rows| && CountsFor(rows[k], host, review)
    decreases rows
  {
    if rows != [] {
      var n := |rows| - 1;
      SomeCounts(rows[..n], host, review);
      assert forall k :: 0 <= k < n ==> rows[..n][k] == rows[k];
      assert Qualifies(rows[n], review) && rows[n].host.value == host <==> CountsFor(rows[n], host, review);
    }
  }
}
