/** Runs of whole prepare and commit calls, between any other calls of the store: a commit applies what was prepared
    for the very action it is made for, and the outcome is that of deciding and writing in one piece. */
module PreparedRuns {
  import opened Wrappers
  import opened Authority
  import opened Ledger
  import opened StoreRuns
  import opened StoreUses
  import opened PrepareCommit

  /** One call: a prepare, a commit of a preview, or any other call but a commit. */
  datatype Call =
    | Ask(action: Digest, keys: seq<string>, id: string, signer: Key, ttl: int, now: real)
    | Apply(pres: Presentation, envelope: Digest, preview: Preview, trusted: set<Key>)
    | Other(event: Event)

  predicate Proper(cs: seq<Call>) {
    forall i | 0 <= i < |cs| :: cs[i].Other? ==> !cs[i].event.Commit?
  }

  /** The state after a call and its outcome; a prepare reads and changes nothing. */
  function Do(s: State, c: Call): (State, Outcome) {
    match c
    case Ask(_, _, _, _, _, _) => (s, Done)
    case Apply(pres, envelope, preview, trusted) => Committing(s, pres, envelope, preview, trusted)
    case Other(e) => Step(s, e)
  }

  function Run(s: State, cs: seq<Call>): State {
    if cs == [] then s else Do(Run(s, cs[..|cs| - 1]), cs[|cs| - 1]).0
  }

  function Answer(s: State, cs: seq<Call>, j: nat): Outcome
    requires j < |cs|
  {
    Do(Run(s, cs[..j]), cs[j]).1
  }

  lemma RunSnoc(s: State, cs: seq<Call>, j: nat)
    requires j < |cs|
    ensures Run(s, cs[..j + 1]) == Do(Run(s, cs[..j]), cs[j]).0
  {
    assert cs[..j + 1][..j] == cs[..j];
  }

  /** The k-th call prepared the preview. */
  predicate Issued(policy: Policy, s: State, cs: seq<Call>, k: nat, preview: Preview)
    requires k < |cs|
  {
    cs[k].Ask? &&
    PrepareFrom(policy, Run(s, cs[..k]), cs[k].action, cs[k].keys, cs[k].id, cs[k].signer, cs[k].ttl, cs[k].now) == Some(preview)
  }

  /** No one signs for a key that commits trust but by preparing: what the signature on a preview is for. */
  ghost predicate Unforgeable(policy: Policy, s: State, cs: seq<Call>) {
    forall j | 0 <= j < |cs| && cs[j].Apply? && cs[j].preview.signer in cs[j].trusted ::
      exists k | 0 <= k < j :: Issued(policy, s, cs, k, cs[j].preview)
  }

  /** What an issued preview says, field by field. */
  lemma IssuedSays(policy: Policy, s: State, cs: seq<Call>, k: nat, preview: Preview)
    requires k < |cs| && Issued(policy, s, cs, k, preview)
    ensures var c, st := cs[k], Run(s, cs[..k]);
            c.keys != [] && c.ttl > 0 && preview.keys == c.keys && preview.envelope == c.action && preview.signer == c.signer &&
            preview.version == st.version && preview.allowed && preview.expiresAt == c.now + c.ttl as real &&
            preview.digest.Keys == (set x | x in c.keys) &&
            (forall x | x in c.keys :: preview.digest[x] == if x in st.agent then st.agent[x] else Null) &&
            policy(preview.digest, c.action).allowed && preview.writes == policy(preview.digest, c.action).writes
  {
  }

  // ----- what a commit that succeeds went by -----

  lemma CommittingSays(s: State, c: Call)
    requires c.Apply? && !Do(s, c).1.Failed?
    ensures c.preview.signer in c.trusted && c.pres.now < c.preview.expiresAt && c.preview.allowed && c.preview.envelope == c.envelope
    ensures Do(s, c) == Step(s, Commit(c.pres, c.envelope, c.preview))
  {
    hide Step;
  }

  /** A commit that succeeds was prepared for the action it commits, which is the action the capability it burns was
      registered for; the policy allowed it on the state of the prepare; it came before prepare time plus lifetime; and it
      leaves that state with the writes decided there. */
  lemma CommitBinds(policy: Policy, s: State, cs: seq<Call>, j: nat) returns (k: nat)
    requires Unforgeable(policy, s, cs) && j < |cs| && cs[j].Apply? && !Answer(s, cs, j).Failed?
    ensures k < j && cs[k].Ask? && cs[k].action == cs[j].envelope && cs[k].signer in cs[j].trusted
    ensures cs[j].pres.now < cs[k].now + cs[k].ttl as real
    ensures var st, id := Run(s, cs[..j]), cs[j].pres.token.payload.id;
            id in st.caps && st.caps[id].digest == cs[j].envelope && !st.caps[id].consumed &&
            id in Run(s, cs[..j + 1]).caps && Run(s, cs[..j + 1]).caps[id].consumed
    ensures var decision := policy(View(Run(s, cs[..k]).agent, cs[k].keys), cs[j].envelope);
            decision.allowed && Run(s, cs[..j + 1]).agent == Run(s, cs[..j]).agent + decision.writes
    ensures Run(s, cs[..j]).version == Run(s, cs[..k]).version
  {
    hide Run, Step, Do;
    var st, c := Run(s, cs[..j]), cs[j];
    CommittingSays(st, c);
    var e := Commit(c.pres, c.envelope, c.preview);
    k :| 0 <= k < j && Issued(policy, s, cs, k, c.preview);
    IssuedSays(policy, s, cs, k, c.preview);
    RunSnoc(s, cs, j);
    StepSucceeds(st, e);
    GrantedExactly(st, c.pres, Some(c.envelope), 0);
    UseEffect(st, e);
    CommitEffect(st, e);
  }

  // ----- when it succeeds -----

  /** Calls that move the agent state when they succeed. */
  predicate MovesState(c: Call) {
    c.Apply? || (c.Other? && Moves(c.event))
  }

  lemma DoMoves(s: State, c: Call)
    ensures Do(s, c).0.version == s.version + if MovesState(c) && !Do(s, c).1.Failed? then 1 else 0
    ensures !(MovesState(c) && !Do(s, c).1.Failed?) ==> Do(s, c).0.agent == s.agent
  {
    hide Step;
    match c
    case Ask(_, _, _, _, _, _) =>
    case Apply(pres, envelope, preview, trusted) => MoveVersion(s, Commit(pres, envelope, preview));
    case Other(e) => MoveVersion(s, e);
  }

  /** The version stands still between two calls exactly when nothing was written between them, and then so does the
      agent state. */
  lemma {:induction false} StillBetween(s: State, cs: seq<Call>, k: nat, j: nat)
    requires k <= j <= |cs|
    ensures Run(s, cs[..k]).version <= Run(s, cs[..j]).version
    ensures Run(s, cs[..k]).version == Run(s, cs[..j]).version <==>
            forall i | k <= i < j && MovesState(cs[i]) :: Answer(s, cs, i).Failed?
    ensures Run(s, cs[..k]).version == Run(s, cs[..j]).version ==> Run(s, cs[..k]).agent == Run(s, cs[..j]).agent
    decreases j
  {
    hide Run, Do;
    if k < j {
      StillBetween(s, cs, k, j - 1);
      RunSnoc(s, cs, j - 1);
      DoMoves(Run(s, cs[..j - 1]), cs[j - 1]);
    }
  }

  /** A commit of what an earlier call prepared succeeds exactly when it is made for the action prepared, by one who
      trusts the key that prepared it, within the lifetime, with a capability for that action that may be used, and nothing
      was written since. */
  lemma CommitExactly(policy: Policy, s: State, cs: seq<Call>, k: nat, j: nat)
    requires k < j < |cs| && cs[j].Apply? && Issued(policy, s, cs, k, cs[j].preview)
    ensures cs[k].Ask?
    ensures var ask, c, p := cs[k], cs[j], cs[j].pres.token.payload;
            !Answer(s, cs, j).Failed? <==>
            ask.action == c.envelope && ask.signer in c.trusted && c.pres.now < ask.now + ask.ttl as real &&
            TokenGood(c.pres.token, c.pres.trusted, c.pres.now) &&
            TablesAllow(Run(s, cs[..j]), c.pres, Some(c.envelope), 0) &&
            SignedBy(c.pres.proof, p.holder, p.id, c.pres.challenge) &&
            (forall w | w in c.preview.writes :: w in ask.keys) &&
            forall i | k <= i < j && MovesState(cs[i]) :: Answer(s, cs, i).Failed?
  {
    hide Run, Step, TokenGood, TablesAllow, SignedBy, Inspect;
    var st, c := Run(s, cs[..j]), cs[j];
    var e := Commit(c.pres, c.envelope, c.preview);
    IssuedSays(policy, s, cs, k, c.preview);
    GrantedExactly(st, c.pres, Some(c.envelope), 0);
    StepSucceeds(st, e);
    UnmovedIff(st, c.preview);
    StillBetween(s, cs, k, j);
  }

  // ----- one piece -----

  /** The reference: each successful commit reads, decides on the action committed and writes, all at its own moment. */
  function OnePiece(policy: Policy, s: State, cs: seq<Call>): map<string, Json> {
    if cs == [] then s.agent
    else
      var init, c := cs[..|cs| - 1], cs[|cs| - 1];
      var agent := OnePiece(policy, s, init);
      if Do(Run(s, init), c).1.Failed? then agent
      else if c.Apply? then agent + policy(View(agent, c.preview.keys), c.envelope).writes
      else if c.Other? && c.event.Write? then agent + c.event.writes
      else agent
  }

  lemma UnforgeablePrefix(policy: Policy, s: State, cs: seq<Call>)
    requires cs != [] && Unforgeable(policy, s, cs)
    ensures Unforgeable(policy, s, cs[..|cs| - 1])
  {
    hide Run, Issued;
    var init := cs[..|cs| - 1];
    forall j | 0 <= j < |init| && init[j].Apply? && init[j].preview.signer in init[j].trusted
      ensures exists k | 0 <= k < j :: Issued(policy, s, init, k, init[j].preview)
    {
      assert cs[j] == init[j];
      var k :| 0 <= k < j && Issued(policy, s, cs, k, cs[j].preview);
      SameIssued(policy, s, cs, k, cs[j].preview);
    }
  }

  lemma SameIssued(policy: Policy, s: State, cs: seq<Call>, k: nat, preview: Preview)
    requires k < |cs| - 1
    ensures Issued(policy, s, cs[..|cs| - 1], k, preview) <==> Issued(policy, s, cs, k, preview)
  {
    assert cs[..|cs| - 1][..k] == cs[..k];
  }

  /** Every run leaves what the reference leaves. */
  lemma {:induction false} Serializable(policy: Policy, s: State, cs: seq<Call>)
    requires Proper(cs) && Unforgeable(policy, s, cs)
    ensures Run(s, cs).agent == OnePiece(policy, s, cs)
    decreases |cs|
  {
    hide Step;
    if cs != [] {
      var n := |cs| - 1;
      var st, c := Run(s, cs[..n]), cs[n];
      UnforgeablePrefix(policy, s, cs);
      Serializable(policy, s, cs[..n]);
      DoMoves(st, c);
      if !Do(st, c).1.Failed? {
        if c.Apply? {
          CommitPiece(policy, s, cs);
        } else if c.Other? && c.event.Write? {
          WriteLays(st, c.event);
        }
      }
    }
  }

  lemma WriteLays(s: State, e: Event)
    requires e.Write? && !Step(s, e).1.Failed?
    ensures Step(s, e).0.agent == s.agent + e.writes
  {
  }

  lemma CommitPiece(policy: Policy, s: State, cs: seq<Call>)
    requires Unforgeable(policy, s, cs) && cs != []
    requires var c := cs[|cs| - 1]; c.Apply? && !Do(Run(s, cs[..|cs| - 1]), c).1.Failed?
    ensures var st, c := Run(s, cs[..|cs| - 1]), cs[|cs| - 1];
            Do(st, c).0.agent == st.agent + policy(View(st.agent, c.preview.keys), c.envelope).writes
  {
    hide Run, Step, Do;
    var n := |cs| - 1;
    var st, c := Run(s, cs[..n]), cs[n];
    CommittingSays(st, c);
    var k :| 0 <= k < n && Issued(policy, s, cs, k, c.preview);
    IssuedSays(policy, s, cs, k, c.preview);
    CommitEffect(st, Commit(c.pres, c.envelope, c.preview));
  }
}
