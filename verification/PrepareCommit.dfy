/** Prepare and commit: a decision taken on a snapshot, applied later only if nothing moved.  The
    protocol is shown to be serializable: every run leaves what running each committed policy at its
    commit, atomically, would have left. */
module PrepareCommit {
  import opened Wrappers
  import opened Authority
  import opened Ledger
  import opened CapabilityStores
  import opened StoreRuns

  datatype Decision = Decision(allowed: bool, writes: map<string, Json>)

  /** A deployment's policy: it sees the values of the keys asked for and the action. */
  type Policy = (map<string, Json>, Digest) -> Decision

  function PrepareFrom(policy: Policy, s: State, envelope: Digest, keys: seq<string>, id: string, signer: Key,
                       ttl: int, now: real): Option<Preview>
  {
    if keys == [] || ttl <= 0 then None
    else
      var values := View(s.agent, keys);
      var decision := policy(values, envelope);
      if !decision.allowed then None
      else Some(Preview(id, envelope, s.version, values, keys, decision.writes, true, now + ttl as real, signer))
  }

  method Prepare(policy: Policy, store: CapabilityStore, envelope: Digest, keys: seq<string>, id: string, signer: Key,
                 ttl: int, now: real) returns (r: Option<Preview>)
    ensures r == PrepareFrom(policy, store.Tables(), envelope, keys, id, signer, ttl, now)
  {
    if keys == [] { return None; }
    if ttl <= 0 { return None; }
    var values, version := store.ReadState(keys);
    var decision := policy(values, envelope);
    if !decision.allowed { return None; }
    r := Some(Preview(id, envelope, version, values, keys, decision.writes, true, now + ttl as real, signer));
  }

  /** The checks of a commit that need no state. */
  predicate Admitted(preview: Preview, envelope: Digest, trusted: set<Key>, now: real) {
    preview.signer in trusted && now < preview.expiresAt && preview.allowed && preview.envelope == envelope
  }

  function Committing(s: State, pres: Presentation, envelope: Digest, preview: Preview, trusted: set<Key>): (State, Outcome) {
    if Admitted(preview, envelope, trusted, pres.now) then Step(s, Commit(pres, envelope, preview)) else (s, Failed(Denied))
  }

  method CommitPreview(store: CapabilityStore, pres: Presentation, envelope: Digest, preview: Preview, trusted: set<Key>)
    returns (r: Outcome)
    modifies store
    ensures (store.Tables(), r) == Committing(old(store.Tables()), pres, envelope, preview, trusted)
  {
    if preview.signer !in trusted { return Failed(Denied); }
    if pres.now >= preview.expiresAt { return Failed(Denied); }
    if !preview.allowed { return Failed(Denied); }
    if preview.envelope != envelope { return Failed(Denied); }
    r := store.CommitStateBound(pres, envelope, preview);
  }

  // ----- runs -----

  /** The preview is what preparing in this state gives. */
  predicate PreparedIn(policy: Policy, s: State, preview: Preview) {
    preview.version == s.version &&
    preview.digest == View(s.agent, preview.keys) &&
    preview.allowed && policy(preview.digest, preview.envelope).allowed &&
    preview.writes == policy(preview.digest, preview.envelope).writes
  }

  lemma PreparePrepares(policy: Policy, s: State, envelope: Digest, keys: seq<string>, id: string, signer: Key,
                        ttl: int, now: real)
    requires PrepareFrom(policy, s, envelope, keys, id, signer, ttl, now).Some?
    ensures PreparedIn(policy, s, PrepareFrom(policy, s, envelope, keys, id, signer, ttl, now).value)
  {
  }

  /** Calls that move the agent state when they succeed. */
  predicate Moves(e: Event) {
    e.Write? || e.Commit?
  }

  function MoveCount(s: State, es: seq<Event>): nat {
    if es == [] then 0
    else
      var init, e := es[..|es| - 1], es[|es| - 1];
      MoveCount(s, init) + if Moves(e) && !Step(After(s, init), e).1.Failed? then 1 else 0
  }

  /** The version counts the successful moves. */
  lemma {:induction false} VersionCounts(s: State, es: seq<Event>)
    ensures After(s, es).version == s.version + MoveCount(s, es)
  {
    if es != [] {
      var init, e := es[..|es| - 1], es[|es| - 1];
      VersionCounts(s, init);
      MoveVersion(After(s, init), e);
    }
  }

  lemma MoveVersion(s: State, e: Event)
    ensures Step(s, e).0.version == s.version + if Moves(e) && !Step(s, e).1.Failed? then 1 else 0
    ensures !(Moves(e) && !Step(s, e).1.Failed?) ==> Step(s, e).0.agent == s.agent
  {
  }

  lemma VersionGrows(s: State, es: seq<Event>, k: nat, j: nat)
    requires k <= j <= |es|
    ensures After(s, es[..k]).version <= After(s, es[..j]).version
    ensures After(s, es[..k]).version == After(s, es[..j]).version ==> After(s, es[..k]).agent == After(s, es[..j]).agent
  {
    RunGrows(s, es, k, j);
  }

  /** Nothing moved between two states of a run exactly when their versions are equal. */
  lemma {:induction false} StillSince(s: State, es: seq<Event>, k: nat, j: nat)
    requires k <= j <= |es|
    ensures After(s, es[..k]).version == After(s, es[..j]).version <==>
            forall i | k <= i < j && Moves(es[i]) :: OutcomeAt(s, es, i).Failed?
    ensures After(s, es[..k]).version == After(s, es[..j]).version ==> After(s, es[..k]).agent == After(s, es[..j]).agent
    decreases j
  {
    hide After, Step;
    VersionGrows(s, es, k, j);
    if k < j {
      StillSince(s, es, k, j - 1);
      VersionGrows(s, es, k, j - 1);
      AfterSnoc(s, es, j - 1);
      MoveVersion(After(s, es[..j - 1]), es[j - 1]);
    }
  }

  lemma CommitEffect(s: State, e: Event)
    requires e.Commit? && !Step(s, e).1.Failed?
    ensures s.version == e.preview.version && View(s.agent, e.preview.keys) == e.preview.digest
    ensures forall w | w in e.preview.writes :: w in e.preview.keys
    ensures Step(s, e).0.agent == s.agent + e.preview.writes && Step(s, e).0.version == s.version + 1
  {
  }

  /** A commit that succeeds found the state of its prepare untouched: no write and no other commit
      came between, and what it leaves is that state plus exactly the planned writes, one version on. */
  lemma {:induction false} CommitIsAtomic(policy: Policy, s: State, es: seq<Event>, k: nat, j: nat)
    requires k <= j < |es| && es[j].Commit? && PreparedIn(policy, After(s, es[..k]), es[j].preview)
    requires !OutcomeAt(s, es, j).Failed?
    ensures forall i | k <= i < j && Moves(es[i]) :: OutcomeAt(s, es, i).Failed?
    ensures After(s, es[..j]).agent == After(s, es[..k]).agent
    ensures After(s, es[..j + 1]).agent == After(s, es[..k]).agent + es[j].preview.writes
    ensures After(s, es[..j + 1]).version == After(s, es[..k]).version + 1
    ensures forall x | x !in es[j].preview.keys && x in After(s, es[..k]).agent ::
              x in After(s, es[..j + 1]).agent && After(s, es[..j + 1]).agent[x] == After(s, es[..k]).agent[x]
  {
    CommitEffect(After(s, es[..j]), es[j]);
    StillSince(s, es, k, j);
    AfterSnoc(s, es, j);
  }

  /** When everything else about it is in order, a prepared commit succeeds exactly when nothing moved. */
  lemma {:induction false} CommitExact(policy: Policy, s: State, es: seq<Event>, k: nat, j: nat)
    requires k <= j < |es| && es[j].Commit? && PreparedIn(policy, After(s, es[..k]), es[j].preview)
    requires forall w | w in es[j].preview.writes :: w in es[j].preview.keys
    requires Inspect(After(s, es[..j]), es[j].pres, Some(es[j].bound), 0).Granted?
    ensures OutcomeAt(s, es, j) ==
            if forall i | k <= i < j && Moves(es[i]) :: OutcomeAt(s, es, i).Failed?
            then Committed(es[j].pres.token.payload.id, After(s, es[..k]).version + 1)
            else Failed(StateChanged)
  {
    StillSince(s, es, k, j);
    CommitAnswers(After(s, es[..j]), es[j]);
  }

  lemma CommitAnswers(s: State, e: Event)
    requires e.Commit? && Inspect(s, e.pres, Some(e.bound), 0).Granted?
    requires forall w | w in e.preview.writes :: w in e.preview.keys
    ensures Step(s, e).1 ==
            if s.version == e.preview.version && View(s.agent, e.preview.keys) == e.preview.digest
            then Committed(e.pres.token.payload.id, s.version + 1) else Failed(StateChanged)
  {
  }

  /** Of all commits prepared on one version, at most one succeeds. */
  lemma {:induction false} OneCommitPerVersion(s: State, es: seq<Event>, i: nat, j: nat)
    requires i < j < |es| && es[i].Commit? && es[j].Commit?
    requires !OutcomeAt(s, es, i).Failed? && !OutcomeAt(s, es, j).Failed?
    ensures es[i].preview.version < es[j].preview.version
  {
    CommitEffect(After(s, es[..i]), es[i]);
    CommitEffect(After(s, es[..j]), es[j]);
    AfterSnoc(s, es, i);
    VersionGrows(s, es, i + 1, j);
  }

  // ----- serializability -----

  /** Every preview handed to a commit was prepared in some earlier state of the run: what the
      authority's signature on it is for. */
  ghost predicate Unforged(policy: Policy, s: State, es: seq<Event>) {
    forall j | 0 <= j < |es| && es[j].Commit? :: PreparedBefore(policy, s, es, j, es[j].preview)
  }

  ghost predicate PreparedBefore(policy: Policy, s: State, es: seq<Event>, j: nat, preview: Preview)
    requires j <= |es|
  {
    exists k | 0 <= k <= j :: PreparedIn(policy, After(s, es[..k]), preview)
  }

  /** The reference: each successful commit reads, decides and writes in one piece, at its own moment. */
  function Serial(policy: Policy, s: State, es: seq<Event>): map<string, Json> {
    if es == [] then s.agent
    else
      var init, e := es[..|es| - 1], es[|es| - 1];
      var agent := Serial(policy, s, init);
      if Step(After(s, init), e).1.Failed? then agent
      else if e.Write? then agent + e.writes
      else if e.Commit? then agent + policy(View(agent, e.preview.keys), e.preview.envelope).writes
      else agent
  }

  lemma {:induction false} UnforgedPrefix(policy: Policy, s: State, es: seq<Event>)
    requires es != [] && Unforged(policy, s, es)
    ensures Unforged(policy, s, es[..|es| - 1])
  {
    var init := es[..|es| - 1];
    forall j | 0 <= j < |init| && init[j].Commit?
      ensures PreparedBefore(policy, s, init, j, init[j].preview)
    {
      assert es[j] == init[j] && PreparedBefore(policy, s, es, j, es[j].preview);
      var k :| 0 <= k <= j && PreparedIn(policy, After(s, es[..k]), es[j].preview);
      assert init[..k] == es[..k];
    }
  }

  /** Every run of prepares, commits, writes and anything else leaves the serial state. */
  lemma {:induction false} Serializable(policy: Policy, s: State, es: seq<Event>)
    requires Unforged(policy, s, es)
    ensures After(s, es).agent == Serial(policy, s, es)
    decreases |es|
  {
    if es != [] {
      var n := |es| - 1;
      UnforgedPrefix(policy, s, es);
      Serializable(policy, s, es[..n]);
      assert es[..n + 1] == es;
      MoveVersion(After(s, es[..n]), es[n]);
      if es[n].Commit? && !OutcomeAt(s, es, n).Failed? {
        assert PreparedBefore(policy, s, es, n, es[n].preview);
        CommitEffect(After(s, es[..n]), es[n]);
      }
    }
  }
}
