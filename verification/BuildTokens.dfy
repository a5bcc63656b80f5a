/**
  The build-secret file (`buildgate.py`): read-modify-write under an exclusive lock, expired entries
  dropped on the way, the new file written aside and moved into place whole.  Builds issue and
  revoke concurrently and may die anywhere.
*/
module BuildTokens {
  import opened Common

  const TOKEN_TTL_SECONDS := 6 * 3600

  /** Hash of a secret to its expiry. */
  type Tokens = map<string, int>

  /** How the file's text and its tokens correspond; an expiry that does not parse is `None`. */
  datatype Format = Format(render: Tokens -> string, parse: string -> Option<map<string, Option<int>>>)

  ghost predicate Faithful(format: Format) {
    forall tokens: Tokens :: format.parse(format.render(tokens)) == Some(map d | d in tokens :: Some(tokens[d]))
  }

  datatype Change = Issue(digest: string, expires: int) | Revoke(digest: string)

  // ---------------------------------------------------------------------------------------------
  // One update
  // ---------------------------------------------------------------------------------------------

  /** The entries of the file as read: nothing when it is absent or damaged. */
  function Entries(format: Format, text: Option<string>): map<string, Option<int>> {
    if text.Some? then format.parse(text.value).GetOr(map[]) else map[]
  }

  function Unexpired(entries: map<string, Option<int>>, now: int): Tokens {
    map d | d in entries && entries[d].Some? && now < entries[d].value :: entries[d].value
  }

  function Changed(tokens: Tokens, change: Change): Tokens {
    match change
    case Issue(digest, expires) => tokens[digest := expires]
    case Revoke(digest) => tokens - {digest}
  }

  /** `_tokens_update_locked`, up to the move into place: the text of the new file. */
  method UpdatedText(format: Format, text: Option<string>, now: int, change: Change) returns (next: string)
    ensures next == format.render(Changed(Unexpired(Entries(format, text), now), change))
  {
    var entries := Entries(format, text);
    var tokens: Tokens := map[];
    var left := entries.Keys;
    while left != {}
      invariant left <= entries.Keys
      invariant tokens == Unexpired(map d | d in entries && d !in left :: entries[d], now)
      decreases left
    {
      var digest :| digest in left;
      left := left - {digest};
      if entries[digest].Some? && now < entries[digest].value {
        tokens := tokens[digest := entries[digest].value];
      }
    }
    assert (map d | d in entries && d !in left :: entries[d]) == entries;
    next := format.render(Changed(tokens, change));
  }

  // ---------------------------------------------------------------------------------------------
  // Many builds
  // ---------------------------------------------------------------------------------------------

  /** Where one process stands in an update. */
  datatype Phase =
    | Idle
    | Waiting(change: Change)
    | Holding(change: Change)
    | Writing(change: Change, base: Option<string>, at: int, scratch: string)
    | Moved

  /**
    The file, the lock, the processes, and what an observer knows: every digest ever drawn, the
    tokens whose issue took effect with their expiry, and those whose revocation did.
  */
  datatype System = System(
    file: Option<string>,
    lock: Option<nat>,
    phases: map<nat, Phase>,
    now: int,
    drawn: set<string>,
    issued: Tokens,
    revoked: set<string>)

  datatype Action =
    | BeginIssue(p: nat, digest: string)
    | BeginRevoke(p: nat, digest: string)
    | Acquire(p: nat)
    | Read(p: nat)
    | Write(p: nat, scratch: string)
    | Replace(p: nat)
    | Release(p: nat)
    | Die(p: nat)
    | Wait(seconds: nat)

  function PhaseOf(s: System, p: nat): Phase {
    if p in s.phases then s.phases[p] else Idle
  }

  /** The text the update of `p` will put in place. */
  function Target(format: Format, phase: Phase): string
    requires phase.Writing?
  {
    format.render(Changed(Unexpired(Entries(format, phase.base), phase.at), phase.change))
  }

  predicate Enabled(format: Format, s: System, a: Action) {
    match a
    case BeginIssue(p, digest) => PhaseOf(s, p).Idle? && digest !in s.drawn
    case BeginRevoke(p, digest) => PhaseOf(s, p).Idle? && digest in s.issued
    case Acquire(p) => PhaseOf(s, p).Waiting? && s.lock.None?
    case Read(p) => PhaseOf(s, p).Holding?
    case Write(p, scratch) => PhaseOf(s, p).Writing? && PhaseOf(s, p).scratch < scratch <= Target(format, PhaseOf(s, p))
    case Replace(p) => PhaseOf(s, p).Writing? && PhaseOf(s, p).scratch == Target(format, PhaseOf(s, p))
    case Release(p) => PhaseOf(s, p).Moved?
    case Die(p) => true
    case Wait(_) => true
  }

  function Step(s: System, a: Action): System {
    match a
    case BeginIssue(p, digest) =>
      s.(phases := s.phases[p := Waiting(Issue(digest, s.now + TOKEN_TTL_SECONDS))], drawn := s.drawn + {digest})
    case BeginRevoke(p, digest) => s.(phases := s.phases[p := Waiting(Revoke(digest))])
    case Acquire(p) =>
      if PhaseOf(s, p).Waiting? then s.(lock := Some(p), phases := s.phases[p := Holding(s.phases[p].change)]) else s
    case Read(p) =>
      if PhaseOf(s, p).Holding? then s.(phases := s.phases[p := Writing(s.phases[p].change, s.file, s.now, "")]) else s
    case Write(p, scratch) =>
      if PhaseOf(s, p).Writing? then s.(phases := s.phases[p := s.phases[p].(scratch := scratch)]) else s
    case Replace(p) =>
      if PhaseOf(s, p).Writing? then
        var phase := s.phases[p];
        s.(file := Some(phase.scratch), phases := s.phases[p := Moved],
           issued := if phase.change.Issue? then s.issued[phase.change.digest := phase.change.expires] else s.issued,
           revoked := if phase.change.Revoke? then s.revoked + {phase.change.digest} else s.revoked)
      else s
    case Release(p) => s.(lock := None, phases := s.phases[p := Idle])
    case Die(p) => s.(lock := if s.lock == Some(p) then None else s.lock, phases := s.phases[p := Idle])
    case Wait(seconds) => s.(now := s.now + seconds)
  }

  /** The system a run leads to, from no file and no process at work. */
  function After(t0: int, run: seq<Action>): System
    decreases run
  {
    if run == [] then System(None, None, map[], t0, {}, map[], {})
    else Step(After(t0, run[..|run| - 1]), run[|run| - 1])
  }

  /** Every action of the run is enabled where it is taken. */
  predicate Possible(format: Format, t0: int, run: seq<Action>)
    decreases run
  {
    run == [] || (Possible(format, t0, run[..|run| - 1])
        && Enabled(format, After(t0, run[..|run| - 1]), run[|run| - 1]))
  }

  // ---------------------------------------------------------------------------------------------
  // The invariant
  // ---------------------------------------------------------------------------------------------

  predicate HoldsLock(phase: Phase) {
    phase.Holding? || phase.Writing? || phase.Moved?
  }

  predicate HasChange(phase: Phase) {
    phase.Waiting? || phase.Holding? || phase.Writing?
  }

  ghost predicate LockInv(s: System) {
    forall p: nat :: HoldsLock(PhaseOf(s, p)) <==> s.lock == Some(p)
  }

  /** A pending issue brings a digest nobody else has; a pending revocation, one already issued. */
  ghost predicate PendingInv(s: System) {
    && s.issued.Keys <= s.drawn && s.revoked <= s.issued.Keys
    && (forall p: nat :: HasChange(PhaseOf(s, p)) ==>
          match PhaseOf(s, p).change
          case Issue(digest, _) => digest in s.drawn && digest !in s.issued
          case Revoke(digest) => digest in s.issued)
    && (forall p: nat, q: nat :: p != q && HasChange(PhaseOf(s, p)) && HasChange(PhaseOf(s, q))
          && PhaseOf(s, p).change.Issue? && PhaseOf(s, q).change.Issue?
          ==> PhaseOf(s, p).change.digest != PhaseOf(s, q).change.digest)
  }

  /** Whoever is writing read the file as it still is. */
  ghost predicate WritingInv(format: Format, s: System) {
    forall p: nat :: PhaseOf(s, p).Writing? ==>
      PhaseOf(s, p).base == s.file && PhaseOf(s, p).at <= s.now
          && PhaseOf(s, p).scratch <= Target(format, PhaseOf(s, p))
  }

  /** The file is whole, and its unexpired tokens are those issued and not revoked. */
  ghost predicate FileInv(format: Format, s: System) {
    && (s.file.Some? ==> exists tokens: Tokens :: s.file.value == format.render(tokens))
    && (forall d :: d in Entries(format, s.file) ==>
          d in s.issued && d !in s.revoked && Entries(format, s.file)[d] == Some(s.issued[d]))
    && (forall d :: d in s.issued && d !in s.revoked && s.now < s.issued[d] ==> d in Entries(format, s.file))
  }

  ghost predicate Inv(format: Format, s: System) {
    LockInv(s) && PendingInv(s) && WritingInv(format, s) && FileInv(format, s)
  }

  /** The entries of a file this code wrote are the tokens it was given. */
  lemma EntriesOfRendered(format: Format, tokens: Tokens)
    requires Faithful(format)
    ensures Entries(format, Some(format.render(tokens))) == map d | d in tokens :: Some(tokens[d])
  {
  }

  lemma ReplaceKeepsFile(format: Format, s: System, p: nat)
    requires Faithful(format) && Inv(format, s) && Enabled(format, s, Replace(p))
    ensures FileInv(format, Step(s, Replace(p)))
  {
    var phase := PhaseOf(s, p);
    assert phase.base == s.file;
    var tokens := Changed(Unexpired(Entries(format, phase.base), phase.at), phase.change);
    EntriesOfRendered(format, tokens);
    var next := Step(s, Replace(p));
    assert next.file == Some(format.render(tokens));
    assert Entries(format, next.file).Keys == tokens.Keys;
    assert HasChange(phase);
  }

  /** An action moves the phase of its own process only. */
  lemma OthersStay(s: System, a: Action)
    ensures forall q: nat :: (a.Wait? || q != a.p) ==> PhaseOf(Step(s, a), q) == PhaseOf(s, q)
  {
  }

  lemma LockStep(format: Format, s: System, a: Action)
    requires LockInv(s) && Enabled(format, s, a)
    ensures LockInv(Step(s, a))
  {
    OthersStay(s, a);
    var next := Step(s, a);
    forall q: nat ensures HoldsLock(PhaseOf(next, q)) <==> next.lock == Some(q) {
      assert HoldsLock(PhaseOf(s, q)) <==> s.lock == Some(q);
      if !a.Wait? {
        assert HoldsLock(PhaseOf(s, a.p)) <==> s.lock == Some(a.p);
      }
    }
  }

  lemma PendingStep(format: Format, s: System, a: Action)
    requires PendingInv(s) && Enabled(format, s, a)
    ensures PendingInv(Step(s, a))
  {
    OthersStay(s, a);
  }

  lemma WritingStep(format: Format, s: System, a: Action)
    requires LockInv(s) && WritingInv(format, s) && Enabled(format, s, a)
    ensures WritingInv(format, Step(s, a))
  {
    OthersStay(s, a);
    var next := Step(s, a);
    forall q: nat | PhaseOf(next, q).Writing?
      ensures PhaseOf(next, q).base == next.file && PhaseOf(next, q).at <= next.now
      ensures PhaseOf(next, q).scratch <= Target(format, PhaseOf(next, q))
    {
      if !a.Wait? && q != a.p {
        assert HoldsLock(PhaseOf(s, q));
        assert HoldsLock(PhaseOf(s, a.p)) <==> s.lock == Some(a.p);
      }
    }
  }

  lemma FileStep(format: Format, s: System, a: Action)
    requires Faithful(format) && Inv(format, s) && Enabled(format, s, a)
    ensures FileInv(format, Step(s, a))
  {
    if a.Replace? {
      ReplaceKeepsFile(format, s, a.p);
    }
  }

  lemma {:induction false} InvReached(format: Format, t0: int, run: seq<Action>)
    requires Faithful(format) && Possible(format, t0, run)
    ensures Inv(format, After(t0, run))
    decreases run
  {
    if run != [] {
      var before, a := After(t0, run[..|run| - 1]), run[|run| - 1];
      InvReached(format, t0, run[..|run| - 1]);
      LockStep(format, before, a);
      PendingStep(format, before, a);
      WritingStep(format, before, a);
      FileStep(format, before, a);
    }
  }

  // ---------------------------------------------------------------------------------------------
  // What every interleaving keeps
  // ---------------------------------------------------------------------------------------------

  /** The token counts as live to whoever reads the file now, without the lock. */
  predicate ReadsLive(format: Format, s: System, digest: string) {
    digest in Unexpired(Entries(format, s.file), s.now)
  }

  /**
    Whatever builds issue, revoke or die, a token reads as live exactly when it was issued, has not
    been revoked and has not expired: no update is lost and no revoked token comes back.
  */
  lemma LiveExactlyWhenIssued(format: Format, t0: int, run: seq<Action>, digest: string)
    requires Faithful(format) && Possible(format, t0, run)
    ensures var s := After(t0, run);
      ReadsLive(format, s, digest) <==> digest in s.issued && digest !in s.revoked && s.now < s.issued[digest]
  {
    InvReached(format, t0, run);
  }

  /** A reader without the lock finds no file or a whole one, of tokens issued and not revoked. */
  lemma ReaderSeesWholeFile(format: Format, t0: int, run: seq<Action>)
    requires Faithful(format) && Possible(format, t0, run) && After(t0, run).file.Some?
    ensures exists tokens: Tokens :: After(t0, run).file.value == format.render(tokens)
              && tokens.Keys <= After(t0, run).issued.Keys - After(t0, run).revoked
  {
    InvReached(format, t0, run);
    var s := After(t0, run);
    var tokens: Tokens :| s.file.value == format.render(tokens);
    EntriesOfRendered(format, tokens);
    forall d | d in tokens ensures d in s.issued.Keys - s.revoked {
      assert d in Entries(format, s.file);
    }
  }

  /** Two processes are never in the critical section together. */
  lemma MutualExclusion(format: Format, t0: int, run: seq<Action>, p: nat, q: nat)
    requires Faithful(format) && Possible(format, t0, run)
    requires HoldsLock(PhaseOf(After(t0, run), p)) && HoldsLock(PhaseOf(After(t0, run), q))
    ensures p == q
  {
    InvReached(format, t0, run);
  }

  /** A token that a crashed build left behind stops reading as live once its lifetime is over. */
  lemma TokensLiveAtMostTheirTtl(format: Format, t0: int, run: seq<Action>, more: seq<Action>, digest: string)
    requires Faithful(format) && Possible(format, t0, run + more)
    requires digest in After(t0, run).drawn && After(t0, run).now + TOKEN_TTL_SECONDS <= After(t0, run + more).now
    ensures !ReadsLive(format, After(t0, run + more), digest)
  {
    ExpiryBounded(format, t0, run, more, digest);
    InvReached(format, t0, run + more);
  }

  /** No expiry of a digest drawn by the end of `run` lies further off than a lifetime from there. */
  ghost predicate ExpiresBy(s: System, digest: string, limit: int) {
    && (digest in s.issued ==> s.issued[digest] <= limit)
    && (forall p: nat :: HasChange(PhaseOf(s, p)) && PhaseOf(s, p).change.Issue?
            && PhaseOf(s, p).change.digest == digest
          ==> PhaseOf(s, p).change.expires <= limit)
  }

  lemma ExpiresByStep(format: Format, s: System, a: Action, digest: string, limit: int)
    requires Enabled(format, s, a) && digest in s.drawn && ExpiresBy(s, digest, limit)
    ensures digest in Step(s, a).drawn && ExpiresBy(Step(s, a), digest, limit)
  {
    OthersStay(s, a);
  }

  ghost predicate ExpiresWithinTtl(s: System, digest: string) {
    ExpiresBy(s, digest, s.now + TOKEN_TTL_SECONDS)
  }

  lemma {:induction false} AllWithinTtl(format: Format, t0: int, run: seq<Action>, digest: string)
    requires Possible(format, t0, run)
    ensures ExpiresWithinTtl(After(t0, run), digest)
    decreases run
  {
    if run != [] {
      var before, a := After(t0, run[..|run| - 1]), run[|run| - 1];
      AllWithinTtl(format, t0, run[..|run| - 1], digest);
      OthersStay(before, a);
    }
  }

  lemma {:induction false} ExpiryBounded(format: Format, t0: int, run: seq<Action>, more: seq<Action>, digest: string)
    requires Possible(format, t0, run + more) && digest in After(t0, run).drawn
    ensures digest in After(t0, run + more).drawn
    ensures ExpiresBy(After(t0, run + more), digest, After(t0, run).now + TOKEN_TTL_SECONDS)
    decreases more
  {
    if more == [] {
      assert run + more == run;
      AllWithinTtl(format, t0, run, digest);
    } else {
      var all := run + more;
      assert all[..|all| - 1] == run + more[..|more| - 1];
      ExpiryBounded(format, t0, run, more[..|more| - 1], digest);
      var limit := After(t0, run).now + TOKEN_TTL_SECONDS;
      ExpiresByStep(format, After(t0, all[..|all| - 1]), all[|all| - 1], digest, limit);
    }
  }

  // ---------------------------------------------------------------------------------------------
  // From a build's own actions to what a reader sees
  // ---------------------------------------------------------------------------------------------

  /** Process `p` began with `a` at `i`, moved its file into place at `j`, and lived in between. */
  predicate Completes(run: seq<Action>, a: Action, i: nat, j: nat, p: nat) {
    && i < j < |run| && run[i] == a && run[j] == Replace(p)
    && forall k :: i < k < j ==> run[k] != Die(p)
  }

  /** The issue is on its way with this expiry, or has taken effect with it. */
  predicate Issuing(s: System, p: nat, digest: string, expires: int) {
    || (HasChange(PhaseOf(s, p)) && PhaseOf(s, p).change == Issue(digest, expires))
    || (digest in s.issued && s.issued[digest] == expires)
  }

  predicate Revoking(s: System, p: nat, digest: string) {
    (HasChange(PhaseOf(s, p)) && PhaseOf(s, p).change == Revoke(digest)) || digest in s.revoked
  }

  lemma IssuingStep(format: Format, s: System, a: Action, p: nat, digest: string, expires: int)
    requires PendingInv(s) && Enabled(format, s, a) && Issuing(s, p, digest, expires) && a != Die(p)
    ensures Issuing(Step(s, a), p, digest, expires)
    ensures a == Replace(p) ==> digest in Step(s, a).issued && Step(s, a).issued[digest] == expires
  {
    OthersStay(s, a);
  }

  lemma IssuedStays(format: Format, s: System, a: Action, digest: string)
    requires PendingInv(s) && Enabled(format, s, a) && digest in s.issued
    ensures digest in Step(s, a).issued && Step(s, a).issued[digest] == s.issued[digest]
  {
  }

  lemma {:induction false} IssueTakesEffect(format: Format, t0: int, run: seq<Action>, i: nat, j: nat, p: nat,
      digest: string)
    requires Faithful(format) && Possible(format, t0, run) && i < |run| && i < j && run[i] == BeginIssue(p, digest)
    requires forall k :: i < k < j && k < |run| ==> run[k] != Die(p)
    requires j < |run| ==> run[j] == Replace(p)
    ensures var s, expires := After(t0, run), After(t0, run[..i]).now + 21600;
      if j < |run| then digest in s.issued && s.issued[digest] == expires else Issuing(s, p, digest, expires)
    decreases run
  {
    var init, a := run[..|run| - 1], run[|run| - 1];
    if i < |init| {
      assert init[..i] == run[..i];
      IssueTakesEffect(format, t0, init, i, j, p, digest);
      InvReached(format, t0, init);
      if j < |init| {
        IssuedStays(format, After(t0, init), a, digest);
      } else {
        IssuingStep(format, After(t0, init), a, p, digest, After(t0, run[..i]).now + 21600);
      }
    } else {
      assert init == run[..i];
    }
  }

  lemma {:induction false} RevocationTakesEffect(format: Format, t0: int, run: seq<Action>, i: nat, j: nat, p: nat,
      digest: string)
    requires Possible(format, t0, run) && i < |run| && i < j && run[i] == BeginRevoke(p, digest)
    requires forall k :: i < k < j && k < |run| ==> run[k] != Die(p)
    requires j < |run| ==> run[j] == Replace(p)
    ensures var s := After(t0, run); if j < |run| then digest in s.revoked else Revoking(s, p, digest)
    decreases run
  {
    var init, a := run[..|run| - 1], run[|run| - 1];
    if i < |init| {
      RevocationTakesEffect(format, t0, init, i, j, p, digest);
      OthersStay(After(t0, init), a);
    } else {
      assert init == run[..i];
    }
  }

  /** Nobody asks for this token to be revoked. */
  predicate NeverRevoked(run: seq<Action>, digest: string) {
    forall i :: 0 <= i < |run| && run[i].BeginRevoke? ==> run[i].digest != digest
  }

  /** No revocation of the token has taken effect or is on its way. */
  ghost predicate Unrevoked(s: System, digest: string) {
    digest !in s.revoked && forall p: nat :: !Revoking(s, p, digest)
  }

  lemma UnrevokedStep(format: Format, s: System, a: Action, digest: string)
    requires Enabled(format, s, a) && Unrevoked(s, digest) && (a.BeginRevoke? ==> a.digest != digest)
    ensures Unrevoked(Step(s, a), digest)
  {
    OthersStay(s, a);
    var next := Step(s, a);
    assert !a.Wait? ==> !Revoking(s, a.p, digest);
    assert digest !in next.revoked;
    forall p: nat ensures !Revoking(next, p, digest) {
      assert !Revoking(s, p, digest);
    }
  }

  lemma {:induction false} UnrevokedStays(format: Format, t0: int, run: seq<Action>, digest: string)
    requires Possible(format, t0, run) && NeverRevoked(run, digest)
    ensures Unrevoked(After(t0, run), digest)
    decreases run
  {
    if run != [] {
      UnrevokedStays(format, t0, run[..|run| - 1], digest);
      UnrevokedStep(format, After(t0, run[..|run| - 1]), run[|run| - 1], digest);
    }
  }

  /**
    A token whose build finished its issue reads as live for exactly six hours from when the issue
    began, whatever other builds do, issue, revoke or die of; and one whose revocation was finished
    does not, ever again.
  */
  lemma TokenLivesExactly(format: Format, t0: int, run: seq<Action>, i: nat, j: nat, p: nat, digest: string)
    requires Faithful(format) && Possible(format, t0, run)
    ensures Completes(run, BeginIssue(p, digest), i, j, p) && NeverRevoked(run, digest) ==>
      (ReadsLive(format, After(t0, run), digest) <==> After(t0, run).now < After(t0, run[..i]).now + 21600)
    ensures Completes(run, BeginRevoke(p, digest), i, j, p) ==> !ReadsLive(format, After(t0, run), digest)
  {
    LiveExactlyWhenIssued(format, t0, run, digest);
    if Completes(run, BeginIssue(p, digest), i, j, p) && NeverRevoked(run, digest) {
      IssueTakesEffect(format, t0, run, i, j, p, digest);
      UnrevokedStays(format, t0, run, digest);
    }
    if Completes(run, BeginRevoke(p, digest), i, j, p) {
      RevocationTakesEffect(format, t0, run, i, j, p, digest);
    }
  }
}
