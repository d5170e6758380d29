/** When a use of a capability succeeds, told from the calls made before it and the fields of the presentation. */
module StoreUses {
  import opened Wrappers
  import opened Radix
  import opened Authority
  import opened Ledger
  import opened StoreRuns

  // ----- the presentation by itself -----

  /** Signed by a trusted issuer, named, sane, and within its own times; an issue time may lie 300 seconds ahead. */
  predicate TokenGood(t: Token, trusted: set<Key>, now: real) {
    var p := t.payload;
    t.issuer in trusted && p.id != "" && p.nonce != "" && p.staleness >= 0 &&
    (p.spendLimit.Some? ==> p.spendLimit.value >= 0) &&
    (p.spendAsset.Some? ==> p.spendLimit.Some? && p.spendAsset.value != "") &&
    p.issuedAt < p.expiresAt && p.issuedAt <= now + 300.0 && now <= p.expiresAt
  }

  /** The holder signed the characters of the id, all below 128, and then the challenge. */
  predicate SignedBy(proof: Proof, holder: Key, id: string, challenge: seq<byte>) {
    proof.signer == holder && |proof.message| == |id| + |challenge| &&
    (forall i | 0 <= i < |id| :: id[i] < 128 as char && proof.message[i] == id[i] as int) &&
    forall i | 0 <= i < |challenge| :: proof.message[|id| + i] == challenge[i]
  }

  lemma TokenGoodIff(t: Token, trusted: set<Key>, now: real)
    ensures VerifyToken(t, trusted, now).Some? <==> TokenGood(t, trusted, now)
    ensures VerifyToken(t, trusted, now).Some? ==> VerifyToken(t, trusted, now).value == t.payload
  {
  }

  lemma SignedByIff(proof: Proof, holder: Key, id: string, challenge: seq<byte>)
    ensures SignedBy(proof, holder, id, challenge) <==> IsAscii(id) && ProofValid(proof, holder, id, challenge)
  {
    if SignedBy(proof, holder, id, challenge) {
      assert IsAscii(id);
      assert proof.message == Message(id, challenge);
    }
    if IsAscii(id) && ProofValid(proof, holder, id, challenge) {
      var m := Message(id, challenge);
      forall i | 0 <= i < |challenge| ensures m[|id| + i] == challenge[i] {
      }
    }
  }

  // ----- what the tables remember of the calls -----

  /** The call registered the capability and was not refused. */
  predicate Registers(t0: real, es: seq<Event>, i: nat, id: string)
    requires i < |es|
  {
    es[i].Register? && es[i].payload.id == id && !OutcomeAt(Fresh(t0), es, i).Failed?
  }

  /** Every row goes back to one registration, whose fields it keeps. */
  lemma {:induction false} RowOf(t0: real, es: seq<Event>, j: nat, id: string) returns (i: nat)
    requires j <= |es| && id in After(Fresh(t0), es[..j]).caps
    ensures i < j && Registers(t0, es, i, id)
    ensures var row, p := After(Fresh(t0), es[..j]).caps[id], es[i].payload;
            row.digest == p.digest && row.holder == p.holder && row.kind == p.kind && row.spendLimit == p.spendLimit &&
            row.mandate == es[i].under
    decreases j
  {
    hide Inspect, After;
    AfterNone(Fresh(t0));
    assert es[..0] == [];
    assert j > 0;
    AfterSnoc(Fresh(t0), es, j - 1);
    var st := After(Fresh(t0), es[..j - 1]);
    if id in st.caps {
      i := RowOf(t0, es, j - 1, id);
      StepGrows(st, es[j - 1]);
      assert CapGrows(st.caps[id], Step(st, es[j - 1]).0.caps[id]);
    } else {
      NewRow(st, es[j - 1], id);
      i := j - 1;
    }
  }

  lemma NewRow(st: State, e: Event, id: string)
    requires id !in st.caps && id in Step(st, e).0.caps
    ensures e.Register? && e.payload.id == id && !Step(st, e).1.Failed?
    ensures var row, p := Step(st, e).0.caps[id], e.payload;
            row.digest == p.digest && row.holder == p.holder && row.kind == p.kind && row.spendLimit == p.spendLimit &&
            row.mandate == e.under && !row.consumed
  {
    hide Inspect;
    if Burns(e) {
      var envelope := if e.Consume? then e.envelope else Some(e.bound);
      var spend := if e.Consume? then e.spend else 0;
      if Inspect(st, e.pres, envelope, spend).Granted? { GrantedIsLive(st, e.pres, envelope, spend); }
    }
  }

  /** And no other registration of the id succeeds. */
  lemma {:induction false} OneRegistration(t0: real, es: seq<Event>, i: nat, k: nat, id: string)
    requires i < |es| && k < |es| && Registers(t0, es, i, id) && Registers(t0, es, k, id)
    ensures i == k
  {
    hide Inspect, After;
    if i < k {
      RegisteredBefore(t0, es, i, k, id);
    } else if k < i {
      RegisteredBefore(t0, es, k, i, id);
    }
  }

  lemma {:induction false} RegisteredBefore(t0: real, es: seq<Event>, i: nat, j: nat, id: string)
    requires i < j <= |es| && Registers(t0, es, i, id)
    ensures id in After(Fresh(t0), es[..j]).caps
  {
    hide Inspect, After;
    AfterSnoc(Fresh(t0), es, i);
    RunGrows(Fresh(t0), es, i + 1, j);
  }

  /** Some refresh before named it. */
  predicate Withdrawn(es: seq<Event>, j: nat, name: string)
    requires j <= |es|
  {
    exists i | 0 <= i < j :: es[i].Sync? && name in es[i].ids
  }

  lemma {:induction false} RevokedIff(t0: real, es: seq<Event>, j: nat, name: string)
    requires j <= |es|
    ensures name in After(Fresh(t0), es[..j]).revoked <==> Withdrawn(es, j, name)
    decreases j
  {
    hide Inspect, After;
    if j == 0 {
      AfterNone(Fresh(t0));
      assert es[..0] == [];
    } else {
      AfterSnoc(Fresh(t0), es, j - 1);
      RevokedIff(t0, es, j - 1, name);
      RevokedStep(After(Fresh(t0), es[..j - 1]), es[j - 1], name);
    }
  }

  lemma RevokedStep(st: State, e: Event, name: string)
    ensures name in Step(st, e).0.revoked <==> name in st.revoked || (e.Sync? && name in e.ids)
    ensures Step(st, e).0.lastSync == if e.Sync? then e.at else st.lastSync
  {
    hide Inspect;
  }

  /** `at` is the time of the last refresh before, or of the start when there was none. */
  predicate LastRefresh(t0: real, es: seq<Event>, j: nat, at: real)
    requires j <= |es|
  {
    (at == t0 && forall k | 0 <= k < j :: !es[k].Sync?) ||
    exists i | 0 <= i < j :: es[i].Sync? && es[i].at == at && forall k | i < k < j :: !es[k].Sync?
  }

  lemma {:induction false} ViewTime(t0: real, es: seq<Event>, j: nat)
    requires j <= |es|
    ensures forall at :: LastRefresh(t0, es, j, at) <==> at == After(Fresh(t0), es[..j]).lastSync
    decreases j
  {
    hide Inspect, After;
    if j == 0 {
      AfterNone(Fresh(t0));
      assert es[..0] == [];
    } else {
      AfterSnoc(Fresh(t0), es, j - 1);
      ViewTime(t0, es, j - 1);
      var st, e := After(Fresh(t0), es[..j - 1]), es[j - 1];
      RevokedStep(st, e, "");
      forall at ensures LastRefresh(t0, es, j, at) <==> at == if e.Sync? then e.at else st.lastSync {
        LastRefreshStep(t0, es, j, at);
        assert LastRefresh(t0, es, j - 1, at) <==> at == st.lastSync;
      }
    }
  }

  lemma LastRefreshStep(t0: real, es: seq<Event>, j: nat, at: real)
    requires 0 < j <= |es|
    ensures LastRefresh(t0, es, j, at) <==> if es[j - 1].Sync? then at == es[j - 1].at else LastRefresh(t0, es, j - 1, at)
  {
    if es[j - 1].Sync? {
      if i :| 0 <= i < j && es[i].Sync? && es[i].at == at && forall k | i < k < j :: !es[k].Sync? {
        assert i == j - 1;
      }
    } else {
      if i :| 0 <= i < j - 1 && es[i].Sync? && es[i].at == at && forall k | i < k < j - 1 :: !es[k].Sync? {
        assert forall k | i < k < j :: !es[k].Sync?;
      }
      if i :| 0 <= i < j && es[i].Sync? && es[i].at == at && forall k | i < k < j :: !es[k].Sync? {
        assert i < j - 1;
      }
    }
  }

  /** An earlier consumption or commit of the id succeeded. */
  predicate UsedUp(t0: real, es: seq<Event>, j: nat, id: string)
    requires j <= |es|
  {
    exists i | 0 <= i < j :: Burns(es[i]) && Presented(es[i]) == id && !OutcomeAt(Fresh(t0), es, i).Failed?
  }

  lemma {:induction false} UsedUpIff(t0: real, es: seq<Event>, j: nat, id: string)
    requires j <= |es|
    ensures (id in After(Fresh(t0), es[..j]).caps && After(Fresh(t0), es[..j]).caps[id].consumed) <==> UsedUp(t0, es, j, id)
    decreases j
  {
    hide Inspect, After;
    if j == 0 {
      AfterNone(Fresh(t0));
      assert es[..0] == [];
    } else {
      AfterSnoc(Fresh(t0), es, j - 1);
      UsedUpIff(t0, es, j - 1, id);
      ConsumedStep(After(Fresh(t0), es[..j - 1]), es[j - 1], id);
    }
  }

  lemma ConsumedStep(st: State, e: Event, id: string)
    ensures (id in Step(st, e).0.caps && Step(st, e).0.caps[id].consumed) <==>
            (id in st.caps && st.caps[id].consumed) || (Burns(e) && Presented(e) == id && !Step(st, e).1.Failed?)
  {
    hide Inspect;
    StepGrows(st, e);
    if id in st.caps { assert CapGrows(st.caps[id], Step(st, e).0.caps[id]); }
    if Burns(e) && !Step(st, e).1.Failed? { BurnedAfter(st, e); }
    if id !in st.caps && id in Step(st, e).0.caps { NewRow(st, e, id); }
  }

  /** The last transition of the mandate that was not refused made it active. */
  predicate InForce(t0: real, es: seq<Event>, j: nat, mandate: string)
    requires j <= |es|
  {
    exists i | 0 <= i < j :: Moved(t0, es, i, mandate) && es[i].to == Active && forall k | i < k < j :: !Moved(t0, es, k, mandate)
  }

  predicate Moved(t0: real, es: seq<Event>, i: nat, mandate: string)
    requires i < |es|
  {
    es[i].Transition? && es[i].mandate == mandate && !OutcomeAt(Fresh(t0), es, i).Failed?
  }

  lemma {:induction false} InForceIff(t0: real, es: seq<Event>, j: nat, mandate: string)
    requires j <= |es|
    ensures var st := After(Fresh(t0), es[..j]);
            (mandate in st.mandates && st.mandates[mandate].life == Active) <==> InForce(t0, es, j, mandate)
    decreases j
  {
    hide Inspect, After;
    if j == 0 {
      AfterNone(Fresh(t0));
      assert es[..0] == [];
    } else {
      AfterSnoc(Fresh(t0), es, j - 1);
      InForceIff(t0, es, j - 1, mandate);
      LifeStep(After(Fresh(t0), es[..j - 1]), es[j - 1], mandate);
      InForceStep(t0, es, j, mandate);
    }
  }

  lemma LifeStep(st: State, e: Event, mandate: string)
    ensures var st' := Step(st, e).0;
            (mandate in st'.mandates && st'.mandates[mandate].life == Active) <==>
            if e.Transition? && e.mandate == mandate && !Step(st, e).1.Failed? then e.to == Active
            else mandate in st.mandates && st.mandates[mandate].life == Active
  {
    hide Inspect;
  }

  lemma InForceStep(t0: real, es: seq<Event>, j: nat, mandate: string)
    requires 0 < j <= |es|
    ensures InForce(t0, es, j, mandate) <==>
            if Moved(t0, es, j - 1, mandate) then es[j - 1].to == Active else InForce(t0, es, j - 1, mandate)
  {
    if Moved(t0, es, j - 1, mandate) {
      if i :| 0 <= i < j && Moved(t0, es, i, mandate) && es[i].to == Active && forall k | i < k < j :: !Moved(t0, es, k, mandate) {
        assert i == j - 1;
      }
    } else {
      if i :| 0 <= i < j - 1 && Moved(t0, es, i, mandate) && es[i].to == Active && forall k | i < k < j - 1 :: !Moved(t0, es, k, mandate) {
        assert forall k | i < k < j :: !Moved(t0, es, k, mandate);
      }
      if i :| 0 <= i < j && Moved(t0, es, i, mandate) && es[i].to == Active && forall k | i < k < j :: !Moved(t0, es, k, mandate) {
        assert i < j - 1;
      }
    }
  }

  // ----- the exact condition -----

  /** What the tables must hold. */
  predicate TablesAllow(s: State, pres: Presentation, envelope: Option<Digest>, spend: int) {
    var p := pres.token.payload;
    p.id in s.caps &&
    var row := s.caps[p.id];
    row.holder == p.holder && row.digest == p.digest && row.kind == p.kind && !row.consumed &&
    (envelope.Some? ==> envelope.value == p.digest) &&
    p.id !in s.revoked && (row.mandate.Some? && row.mandate.value != "" ==> row.mandate.value !in s.revoked) &&
    pres.now - s.lastSync <= p.staleness as real &&
    (row.mandate.Some? ==> row.mandate.value in s.mandates && s.mandates[row.mandate.value].life == Active) &&
    (p.spendLimit.Some? ==> spend <= p.spendLimit.value)
  }

  lemma GrantedExactly(s: State, pres: Presentation, envelope: Option<Digest>, spend: int)
    ensures Inspect(s, pres, envelope, spend).Granted? <==>
            TokenGood(pres.token, pres.trusted, pres.now) && TablesAllow(s, pres, envelope, spend) &&
            SignedBy(pres.proof, pres.token.payload.holder, pres.token.payload.id, pres.challenge)
    ensures Inspect(s, pres, envelope, spend).Granted? ==> Inspect(s, pres, envelope, spend).payload == pres.token.payload
  {
    hide VerifyToken, TokenGood, ProofValid, SignedBy, IsAscii;
    var p := pres.token.payload;
    TokenGoodIff(pres.token, pres.trusted, pres.now);
    SignedByIff(pres.proof, p.holder, p.id, pres.challenge);
    if p.id in s.caps {
      var mandate := s.caps[p.id].mandate;
      var targets := RevocationTargets(p.id, mandate);
      assert targets[0] == p.id && (mandate.Some? && mandate.value != "" ==> targets[1] == mandate.value);
      assert forall t | t in targets :: t == p.id || (mandate == Some(t) && t != "");
    }
  }

  /** The call names the action it is for: none to check against, or the action to execute. */
  function ActionOf(e: Event): Option<Digest>
    requires Presents(e)
  {
    match e
    case Consume(_, envelope, _) => envelope
    case Commit(_, bound, _) => Some(bound)
    case _ => None
  }

  function SpendOf(e: Event): int {
    if e.Consume? then e.spend else 0
  }

  /** The state is the one the preview was taken on, and nothing else is to be written than was read. */
  predicate Unmoved(st: State, preview: Preview) {
    preview.writes.Keys <= (set k | k in preview.keys) && st.version == preview.version &&
    preview.digest.Keys == (set k | k in preview.keys) &&
    forall k | k in preview.keys :: preview.digest[k] == if k in st.agent then st.agent[k] else Null
  }

  /** The calls before j let a use of the registered capability pass. */
  ghost predicate History(t0: real, es: seq<Event>, j: nat, i: nat)
    requires i < j < |es| && es[i].Register? && Presents(es[j])
  {
    var p, r, under := es[j].pres.token.payload, es[i].payload, es[i].under;
    Registers(t0, es, i, p.id) &&
    r.holder == p.holder && r.digest == p.digest && r.kind == p.kind &&
    !Withdrawn(es, j, p.id) &&
    !UsedUp(t0, es, j, p.id) &&
    (under.Some? ==> InForce(t0, es, j, under.value) && (under.value != "" ==> !Withdrawn(es, j, under.value))) &&
    exists at :: LastRefresh(t0, es, j, at) && es[j].pres.now - at <= p.staleness as real
  }

  ghost predicate MayUse(t0: real, es: seq<Event>, j: nat)
    requires j < |es| && Presents(es[j])
  {
    var e := es[j];
    var p := e.pres.token.payload;
    TokenGood(e.pres.token, e.pres.trusted, e.pres.now) &&
    SignedBy(e.pres.proof, p.holder, p.id, e.pres.challenge) &&
    (ActionOf(e).Some? ==> ActionOf(e).value == p.digest) &&
    (p.spendLimit.Some? ==> SpendOf(e) <= p.spendLimit.value) && SpendOf(e) >= 0 &&
    (e.Commit? ==> Unmoved(After(Fresh(t0), es[..j]), e.preview)) &&
    exists i | 0 <= i < j && es[i].Register? :: History(t0, es, j, i)
  }

  lemma HistoryIff(t0: real, es: seq<Event>, j: nat)
    requires j < |es| && Presents(es[j])
    requires TokenGood(es[j].pres.token, es[j].pres.trusted, es[j].pres.now)
    ensures var st, p := After(Fresh(t0), es[..j]), es[j].pres.token.payload;
            TablesAllow(st, es[j].pres, ActionOf(es[j]), SpendOf(es[j])) <==>
            (ActionOf(es[j]).Some? ==> ActionOf(es[j]).value == p.digest) &&
            (p.spendLimit.Some? ==> SpendOf(es[j]) <= p.spendLimit.value) &&
            exists i | 0 <= i < j && es[i].Register? :: History(t0, es, j, i)
  {
    hide After, Step, Inspect, Withdrawn, UsedUp, InForce, LastRefresh, TokenGood, Registers;
    var st, p := After(Fresh(t0), es[..j]), es[j].pres.token.payload;
    RevokedIff(t0, es, j, p.id);
    UsedUpIff(t0, es, j, p.id);
    ViewTime(t0, es, j);
    assert LastRefresh(t0, es, j, st.lastSync);
    if k :| 0 <= k < j && es[k].Register? && History(t0, es, j, k) {
      RegisteredBefore(t0, es, k, j, p.id);
    }
    if p.id in st.caps {
      var i := RowOf(t0, es, j, p.id);
      IsRegistration(t0, es, i, p.id);
      var under := es[i].under;
      if under.Some? {
        InForceIff(t0, es, j, under.value);
        RevokedIff(t0, es, j, under.value);
      }
      forall k | 0 <= k < j && es[k].Register? && History(t0, es, j, k) ensures k == i {
        OneRegistration(t0, es, i, k, p.id);
      }
    }
  }

  lemma IsRegistration(t0: real, es: seq<Event>, i: nat, id: string)
    requires i < |es| && Registers(t0, es, i, id)
    ensures es[i].Register?
  {
  }

  /** A use succeeds exactly when the presentation is good by itself and the calls made before let it: the
      capability was registered with these fields, neither it nor its mandate was named by a refresh, it was not used,
      its mandate is active, and the last refresh is no older than it bears. */
  lemma UseExactly(t0: real, es: seq<Event>, j: nat)
    requires j < |es| && Presents(es[j])
    ensures !OutcomeAt(Fresh(t0), es, j).Failed? <==> MayUse(t0, es, j)
  {
    hide After, Step, Inspect, History, TokenGood, SignedBy, TablesAllow, Unmoved;
    var st, e := After(Fresh(t0), es[..j]), es[j];
    StepSucceeds(st, e);
    GrantedExactly(st, e.pres, ActionOf(e), SpendOf(e));
    if TokenGood(e.pres.token, e.pres.trusted, e.pres.now) { HistoryIff(t0, es, j); }
  }

  lemma StepSucceeds(s: State, e: Event)
    requires Presents(e)
    ensures !Step(s, e).1.Failed? <==>
            Inspect(s, e.pres, ActionOf(e), SpendOf(e)).Granted? && SpendOf(e) >= 0 && (e.Commit? ==> Unmoved(s, e.preview))
  {
    hide Inspect, Unmoved;
    NeverDone(s, e.pres, ActionOf(e), SpendOf(e));
    if e.Commit? { UnmovedIff(s, e.preview); }
  }

  lemma NeverDone(s: State, pres: Presentation, envelope: Option<Digest>, spend: int)
    ensures Inspect(s, pres, envelope, spend).Granted? || Inspect(s, pres, envelope, spend).Failed?
  {
  }

  lemma UnmovedIff(st: State, preview: Preview)
    ensures Unmoved(st, preview) <==>
            (forall k | k in preview.writes :: k in preview.keys) && st.version == preview.version &&
            View(st.agent, preview.keys) == preview.digest
  {
    var keys := set k | k in preview.keys;
    assert View(st.agent, preview.keys).Keys == keys;
    if (forall k | k in preview.writes :: k in preview.keys) {
      assert preview.writes.Keys <= keys;
    }
  }

  /** So every successful use was made on a view of the revocations no older than the capability bears, before it
      expired, and for the action it was registered for. */
  lemma UseIsFresh(t0: real, es: seq<Event>, j: nat, at: real)
    requires j < |es| && Presents(es[j]) && !OutcomeAt(Fresh(t0), es, j).Failed? && LastRefresh(t0, es, j, at)
    ensures var e, p := es[j], es[j].pres.token.payload;
            e.pres.now - at <= p.staleness as real && e.pres.now <= p.expiresAt &&
            exists i | 0 <= i < j && es[i].Register? ::
              es[i].payload.id == p.id && es[i].payload.digest == p.digest &&
              (e.Consume? && e.envelope.Some? ==> e.envelope.value == es[i].payload.digest) &&
              (e.Commit? ==> e.bound == es[i].payload.digest)
  {
    hide After, Inspect, LastRefresh, Withdrawn, UsedUp, InForce, SignedBy, Unmoved;
    UseExactly(t0, es, j);
    ViewTime(t0, es, j);
    var i :| 0 <= i < j && es[i].Register? && History(t0, es, j, i);
    var at' :| LastRefresh(t0, es, j, at') && es[j].pres.now - at' <= es[j].pres.token.payload.staleness as real;
    assert at == at';
  }

  // ----- what a successful use changes -----

  /** A consumption marks the capability and records the spend, a commit does so and lays the writes over the agent state
      at the next version, a check changes nothing; the rest of the store stays. */
  lemma UseEffect(s: State, e: Event)
    requires Presents(e) && !Step(s, e).1.Failed?
    ensures var s', id := Step(s, e).0, e.pres.token.payload.id;
            id in s.caps &&
            s'.mandates == s.mandates && s'.revoked == s.revoked && s'.epoch == s.epoch && s'.lastSync == s.lastSync &&
            (e.Check? ==> s' == s) &&
            (!e.Check? ==> s'.caps == s.caps[id := s.caps[id].(consumed := true, spendConsumed := SpendOf(e))]) &&
            (!e.Commit? ==> s'.agent == s.agent && s'.version == s.version) &&
            (e.Commit? ==> s'.version == s.version + 1 && s'.agent.Keys == s.agent.Keys + e.preview.writes.Keys &&
                           forall k | k in s'.agent ::
                             s'.agent[k] == if k in e.preview.writes then e.preview.writes[k] else s.agent[k])
    ensures Step(s, e).1 == if e.Commit? then Committed(e.pres.token.payload.id, s.version + 1) else Granted(e.pres.token.payload)
  {
    hide Inspect, Unmoved;
    StepSucceeds(s, e);
    GrantedExactly(s, e.pres, ActionOf(e), SpendOf(e));
  }
}
