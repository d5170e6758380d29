/** Safety of the store over runs of any length, any ids and any mandates, from any starting state. */
module StoreRuns {
  import opened Wrappers
  import opened Authority
  import opened Ledger

  // ----- what every call keeps -----

  /** Where a lifecycle can get to by legal transitions. */
  predicate Reach(a: Lifecycle, b: Lifecycle) {
    a == b ||
    match a
    case Created => true
    case Active => b != Created
    case Paused => b != Created
    case Exhausted => b == RevokedLife
    case RevokedLife => false
    case Expired => false
  }

  predicate LegalPath(path: seq<Lifecycle>) {
    path != [] && forall i | 0 < i < |path| :: Legal(path[i - 1], path[i])
  }

  /** `Reach` is no more and no less than following legal transitions. */
  lemma {:induction false} ReachIsPath(a: Lifecycle, b: Lifecycle)
    ensures Reach(a, b) <==> exists path :: LegalPath(path) && path[0] == a && path[|path| - 1] == b
  {
    if Reach(a, b) {
      var path :=
        if a == b then [a]
        else if Legal(a, b) then [a, b]
        else if a == Created then [a, Active, b]
        else [a, Active, b];
      assert LegalPath(path) && path[0] == a && path[|path| - 1] == b;
    }
    if path :| LegalPath(path) && path[0] == a && path[|path| - 1] == b {
      PathReaches(path);
    }
  }

  lemma {:induction false} PathReaches(path: seq<Lifecycle>)
    requires LegalPath(path)
    ensures Reach(path[0], path[|path| - 1])
  {
    if |path| > 1 {
      var init := path[..|path| - 1];
      PathReaches(init);
      assert Legal(path[|path| - 2], path[|path| - 1]) && init[|init| - 1] == path[|path| - 2];
    }
  }

  predicate CapGrows(a: CapRow, b: CapRow) {
    b == a.(consumed := b.consumed, spendConsumed := b.spendConsumed) &&
    (a.consumed ==> b == a)
  }

  predicate MandateGrows(a: MandateRow, b: MandateRow) {
    Reach(a.life, b.life) &&
    a.spendLimit == b.spendLimit && a.actionsLimit == b.actionsLimit &&
    a.spendUsed <= b.spendUsed && a.actionsUsed <= b.actionsUsed &&
    (a.spendUsed != b.spendUsed || a.actionsUsed != b.actionsUsed ==> a.life !in {Exhausted, RevokedLife, Expired})
  }

  /** The later state keeps every row, burned stays burned, budgets and revocations only grow, and the
      agent state moves only with the version. */
  predicate Grows(a: State, b: State) {
    (forall id | id in a.caps :: id in b.caps && CapGrows(a.caps[id], b.caps[id])) &&
    (forall m | m in a.mandates :: m in b.mandates && MandateGrows(a.mandates[m], b.mandates[m])) &&
    a.revoked <= b.revoked && a.epoch <= b.epoch && a.version <= b.version &&
    (a.version == b.version ==> a.agent == b.agent)
  }

  /** Calls that burn a capability when they succeed. */
  predicate Burns(e: Event) {
    e.Consume? || e.Commit?
  }

  lemma GrantedIsLive(s: State, pres: Presentation, envelope: Option<Digest>, spend: int)
    requires Inspect(s, pres, envelope, spend).Granted?
    ensures pres.token.payload.id in s.caps && !s.caps[pres.token.payload.id].consumed
  {
  }

  lemma BurnGrows(s: State, id: string, spend: int)
    requires id in s.caps && !s.caps[id].consumed
    ensures Grows(s, Burn(s, id, spend))
  {
  }

  lemma BurningGrows(s: State, e: Event)
    requires Burns(e)
    ensures Grows(s, Step(s, e).0)
  {
    var envelope := if e.Consume? then e.envelope else Some(e.bound);
    var spend := if e.Consume? then e.spend else 0;
    if Inspect(s, e.pres, envelope, spend).Granted? {
      GrantedIsLive(s, e.pres, envelope, spend);
      BurnGrows(s, e.pres.token.payload.id, spend);
    }
  }

  lemma StepGrows(s: State, e: Event)
    ensures Grows(s, Step(s, e).0)
  {
    hide Inspect;
    if Burns(e) { BurningGrows(s, e); }
  }

  lemma GrowsReflexive(a: State)
    ensures Grows(a, a)
  {
  }

  lemma GrowsTransitive(a: State, b: State, c: State)
    requires Grows(a, b) && Grows(b, c)
    ensures Grows(a, c)
  {
    forall id | id in a.caps ensures id in c.caps && CapGrows(a.caps[id], c.caps[id]) {
      assert CapGrows(a.caps[id], b.caps[id]);
    }
    forall m | m in a.mandates ensures m in c.mandates && MandateGrows(a.mandates[m], c.mandates[m]) {
      assert MandateGrows(a.mandates[m], b.mandates[m]);
    }
  }

  lemma GrowsOn(a: State, b: State, e: Event)
    requires Grows(a, b)
    ensures Grows(a, Step(b, e).0)
  {
    StepGrows(b, e);
    GrowsTransitive(a, b, Step(b, e).0);
  }

  lemma {:induction false} RunGrows(s: State, es: seq<Event>, i: nat, j: nat)
    requires i <= j <= |es|
    ensures Grows(After(s, es[..i]), After(s, es[..j]))
    decreases j
  {
    hide Step, Grows, After;
    if i == j {
      GrowsReflexive(After(s, es[..i]));
    } else {
      RunGrows(s, es, i, j - 1);
      AfterSnoc(s, es, j - 1);
      GrowsOn(After(s, es[..i]), After(s, es[..j - 1]), es[j - 1]);
    }
  }

  /** A failed call leaves the state as it was. */
  lemma FailureChangesNothing(s: State, e: Event)
    requires Step(s, e).1.Failed?
    ensures Step(s, e).0 == s
  {
  }

  // ----- one use -----

  /** Calls that need a live capability. */
  predicate Presents(e: Event) {
    Burns(e) || e.Check?
  }

  function Presented(e: Event): string
    requires Presents(e)
  {
    e.pres.token.payload.id
  }

  lemma {:induction false} BurnedAfter(s: State, e: Event)
    requires Burns(e) && !Step(s, e).1.Failed?
    ensures Presented(e) in Step(s, e).0.caps && Step(s, e).0.caps[Presented(e)].consumed
  {
  }

  lemma {:induction false} BurnedRefused(s: State, e: Event)
    requires Presents(e) && Presented(e) in s.caps && s.caps[Presented(e)].consumed
    ensures Step(s, e).1.Failed?
  {
  }

  /** However a run goes on, an id that was consumed or committed once is refused from then on. */
  lemma {:induction false} OneUse(s: State, es: seq<Event>, i: nat, j: nat)
    requires i < j < |es| && Burns(es[i]) && Presents(es[j]) && Presented(es[i]) == Presented(es[j])
    requires !OutcomeAt(s, es, i).Failed?
    ensures OutcomeAt(s, es, j).Failed?
  {
    BurnedAfter(After(s, es[..i]), es[i]);
    AfterSnoc(s, es, i);
    RunGrows(s, es, i + 1, j);
    assert CapGrows(After(s, es[..i + 1]).caps[Presented(es[i])], After(s, es[..j]).caps[Presented(es[i])]);
    BurnedRefused(After(s, es[..j]), es[j]);
  }

  // ----- revocation -----

  /** The names whose revocation stops a capability.  A mandate named by the empty string is not among
      them. */
  predicate StoppedBy(row: CapRow, id: string, name: string) {
    name == id || (name != "" && row.mandate == Some(name))
  }

  lemma {:induction false} RevokedRefused(s: State, e: Event, name: string)
    requires Presents(e) && name in s.revoked
    requires Presented(e) in s.caps && StoppedBy(s.caps[Presented(e)], Presented(e), name)
    ensures Step(s, e).1.Failed?
  {
    assert name in RevocationTargets(Presented(e), s.caps[Presented(e)].mandate);
  }

  /** Once the id of a capability, or the mandate it is under, is revoked, no later call with it succeeds. */
  lemma {:induction false} RevocationIsFinal(s: State, es: seq<Event>, i: nat, j: nat, name: string)
    requires i <= j < |es| && Presents(es[j]) && name in After(s, es[..i]).revoked
    requires Presented(es[j]) in After(s, es[..j]).caps ==>
               StoppedBy(After(s, es[..j]).caps[Presented(es[j])], Presented(es[j]), name)
    ensures OutcomeAt(s, es, j).Failed?
  {
    RunGrows(s, es, i, j);
    if Presented(es[j]) in After(s, es[..j]).caps {
      RevokedRefused(After(s, es[..j]), es[j], name);
    }
  }

  /** Exactly which revocations stop a presentation that passes every other check. */
  lemma {:induction false} RevocationExact(s: State, pres: Presentation, envelope: Option<Digest>, spend: int)
    requires Inspect(s.(revoked := {}), pres, envelope, spend).Granted?
    ensures pres.token.payload.id in s.caps
    ensures var id := pres.token.payload.id;
            Inspect(s, pres, envelope, spend) ==
            if exists name | name in s.revoked :: StoppedBy(s.caps[id], id, name) then Failed(Revoked)
            else Granted(pres.token.payload)
  {
    var id := pres.token.payload.id;
    var targets := RevocationTargets(id, s.caps[id].mandate);
    forall name ensures name in targets <==> StoppedBy(s.caps[id], id, name) {
      assert targets[0] == id;
    }
  }

  /** A child of a mandate named "", consumed after that mandate was revoked. */
  function EmptyMandateRun(key: Key, digest: Digest): seq<Event> {
    var p := Payload("c", ExecutionKind, digest, key, None, None, 0.0, 10.0, "n", None, 300);
    var pres := Presentation(Token(key, p), Proof(key, Message("c", [])), [], {key}, 0.0);
    [CreateMandate("", None, None), Transition("", Active), Register(p, Some("")), Sync([""], 0.0), Consume(pres, None, 0)]
  }

  /** The gap: children of a mandate whose id is the empty string survive its revocation. */
  lemma {:induction false} EmptyMandateSurvives(key: Key, digest: Digest)
    ensures "" in After(Fresh(0.0), EmptyMandateRun(key, digest)[..4]).revoked
    ensures !OutcomeAt(Fresh(0.0), EmptyMandateRun(key, digest), 4).Failed?
  {
    hide Inspect, After;
    var es := EmptyMandateRun(key, digest);
    var s0 := Fresh(0.0);
    var s1 := s0.(mandates := map["" := MandateRow(Created, 0, None, 0, None)]);
    var s2 := s0.(mandates := map["" := MandateRow(Active, 0, None, 0, None)]);
    assert After(s0, es[..1]) == s1 by { AfterNone(s0); AfterSnoc(s0, es, 0); assert es[..0] == []; }
    assert After(s0, es[..2]) == s2 by { AfterSnoc(s0, es, 1); }
    var s3 := s2.(caps := map["c" := CapRow(digest, key, ExecutionKind, false, None, 0, Some(""))]);
    assert After(s0, es[..3]) == s3 by { AfterSnoc(s0, es, 2); }
    var s4 := s3.(revoked := {""}, epoch := 2);
    assert After(s0, es[..4]) == s4 by {
      AfterSnoc(s0, es, 3);
      assert (set x | x in [""]) == {""};
    }
    EmptyMandateGranted(s4, es[4], key, digest);
  }

  lemma EmptyMandateGranted(s: State, e: Event, key: Key, digest: Digest)
    requires s.caps == map["c" := CapRow(digest, key, ExecutionKind, false, None, 0, Some(""))]
    requires s.mandates == map["" := MandateRow(Active, 0, None, 0, None)] && s.revoked == {""} && s.lastSync == 0.0
    requires e == EmptyMandateRun(key, digest)[4]
    ensures !Step(s, e).1.Failed?
  {
    assert RevocationTargets("c", Some("")) == ["c"];
  }

  function SyncCount(es: seq<Event>): nat {
    if es == [] then 0 else SyncCount(es[..|es| - 1]) + if es[|es| - 1].Sync? then 1 else 0
  }

  /** The epoch counts the refreshes, whatever else happens. */
  lemma {:induction false} EpochCounts(s: State, es: seq<Event>)
    ensures After(s, es).epoch == s.epoch + SyncCount(es)
  {
    if es != [] { EpochCounts(s, es[..|es| - 1]); }
  }

  // ----- mandates -----

  predicate Finished(life: Lifecycle) {
    life in {Exhausted, RevokedLife, Expired}
  }

  /** Calls that a mandate must be active for. */
  predicate DependsOn(s: State, e: Event, mandate: string) {
    (e.Debit? && e.mandate == mandate) ||
    (Presents(e) && Presented(e) in s.caps && s.caps[Presented(e)].mandate == Some(mandate))
  }

  lemma {:induction false} InactiveRefuses(s: State, e: Event, mandate: string)
    requires mandate in s.mandates && s.mandates[mandate].life != Active && DependsOn(s, e, mandate)
    ensures Step(s, e).1.Failed?
  {
  }

  /** A mandate moves only along legal transitions; once exhausted, revoked or expired it is never active
      again, its budget stands still, and every debit and every use of a child of it fails. */
  lemma {:induction false} MandateEnds(s: State, es: seq<Event>, i: nat, j: nat, mandate: string)
    requires i <= j < |es| && mandate in After(s, es[..i]).mandates
    ensures mandate in After(s, es[..j]).mandates
    ensures Reach(After(s, es[..i]).mandates[mandate].life, After(s, es[..j]).mandates[mandate].life)
    ensures Finished(After(s, es[..i]).mandates[mandate].life) ==>
              Finished(After(s, es[..j]).mandates[mandate].life) &&
              After(s, es[..j]).mandates[mandate] ==
                After(s, es[..i]).mandates[mandate].(life := After(s, es[..j]).mandates[mandate].life) &&
              (DependsOn(After(s, es[..j]), es[j], mandate) ==> OutcomeAt(s, es, j).Failed?)
  {
    RunGrows(s, es, i, j);
    assert MandateGrows(After(s, es[..i]).mandates[mandate], After(s, es[..j]).mandates[mandate]);
    if Finished(After(s, es[..i]).mandates[mandate].life) && DependsOn(After(s, es[..j]), es[j], mandate) {
      InactiveRefuses(After(s, es[..j]), es[j], mandate);
    }
  }

  // ----- holders -----

  /** A successful use was proved by the holder the capability was registered for, over this id followed by
      this challenge, and the token was signed by an issuer the caller trusts.  No other id of the same
      length can have been meant, nor another challenge for it. */
  lemma {:induction false} HolderBound(s: State, es: seq<Event>, i: nat, j: nat)
    requires i < j < |es| && es[i].Register? && !OutcomeAt(s, es, i).Failed?
    requires Presents(es[j]) && Presented(es[j]) == es[i].payload.id && !OutcomeAt(s, es, j).Failed?
    ensures var registered := es[i].payload;
            var p := es[j].pres.token.payload;
            IsAscii(registered.id) &&
            es[j].pres.proof == Proof(registered.holder, Message(registered.id, es[j].pres.challenge)) &&
            (forall id, challenge | IsAscii(id) && |id| == |registered.id| && es[j].pres.proof.message == Message(id, challenge) ::
               id == registered.id && challenge == es[j].pres.challenge) &&
            es[j].pres.token.issuer in es[j].pres.trusted &&
            p.digest == registered.digest && p.kind == registered.kind && p.holder == registered.holder
  {
    hide After, Message, Burn;
    var id := es[i].payload.id;
    AfterSnoc(s, es, i);
    RunGrows(s, es, i + 1, j);
    assert CapGrows(After(s, es[..i + 1]).caps[id], After(s, es[..j]).caps[id]);
    forall id', challenge | IsAscii(id') && |id'| == |id| && es[j].pres.proof.message == Message(id', challenge)
      ensures id' == id && challenge == es[j].pres.challenge
    {
      MessageSplits(id, es[j].pres.challenge, id', challenge);
    }
  }

  /** Two capabilities of one holder, consumed with one proof: made for the id "ab", it is accepted for "a"
      with a challenge that begins with the rest of the longer id. */
  function SharedProofRun(key: Key, digest: Digest): seq<Event> {
    var p := Payload("ab", ExecutionKind, digest, key, None, None, 0.0, 10.0, "n", None, 300);
    var q := p.(id := "a");
    var proof := Proof(key, Message("ab", [99]));
    [Register(p, None), Register(q, None),
     Consume(Presentation(Token(key, p), proof, [99], {key}, 0.0), None, 0),
     Consume(Presentation(Token(key, q), proof, [98, 99], {key}, 0.0), None, 0)]
  }

  /** So ids of different lengths are not kept apart by the message. */
  lemma {:induction false} SharedProof(key: Key, digest: Digest)
    ensures var es := SharedProofRun(key, digest);
            es[2].pres.proof == es[3].pres.proof && Presented(es[2]) != Presented(es[3]) &&
            !OutcomeAt(Fresh(0.0), es, 2).Failed? && !OutcomeAt(Fresh(0.0), es, 3).Failed?
  {
    hide Inspect, After;
    var es := SharedProofRun(key, digest);
    var s0 := Fresh(0.0);
    var row := CapRow(digest, key, ExecutionKind, false, None, 0, None);
    var s1 := s0.(caps := map["ab" := row]);
    var s2 := s0.(caps := map["ab" := row, "a" := row]);
    assert After(s0, es[..1]) == s1 by { AfterNone(s0); AfterSnoc(s0, es, 0); assert es[..0] == []; }
    assert After(s0, es[..2]) == s2 by { AfterSnoc(s0, es, 1); }
    SharedProofGranted(s2, es[2]);
    var s3 := Burn(s2, "ab", 0);
    assert After(s0, es[..3]) == s3 by { AfterSnoc(s0, es, 2); }
    assert Message("ab", [99]) == Message("a", [98, 99]);
    SharedProofGranted(s3, es[3]);
  }

  lemma SharedProofGranted(s: State, e: Event)
    requires e.Consume? && e.envelope == None && e.spend == 0 && e.pres.now == 0.0 && s.revoked == {} && s.lastSync == 0.0
    requires VerifyToken(e.pres.token, e.pres.trusted, 0.0) == Some(e.pres.token.payload)
    requires var p := e.pres.token.payload;
             p.id in s.caps && s.caps[p.id] == CapRow(p.digest, p.holder, p.kind, false, None, 0, None) &&
             p.spendLimit == None && IsAscii(p.id) && ProofValid(e.pres.proof, p.holder, p.id, e.pres.challenge)
    ensures Step(s, e) == (Burn(s, e.pres.token.payload.id, 0), Granted(e.pres.token.payload))
  {
  }
}
