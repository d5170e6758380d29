/** When minting and the calls of the store other than uses succeed, and all they change. */
module StoreLaws {
  import opened Wrappers
  import opened Authority
  import opened Ledger
  import opened StoreRuns
  import opened StoreUses

  // ----- minting -----

  /** The child's limit, asset, staleness and end, where the request leaves them to the mandate. */
  function ChildLimit(p: Payload, req: ChildRequest): Option<int> { if req.spendLimit.Some? then req.spendLimit else p.spendLimit }
  function ChildAsset(p: Payload, req: ChildRequest): Option<string> { if req.spendAsset.Some? then req.spendAsset else p.spendAsset }
  function ChildStaleness(p: Payload, req: ChildRequest): int { if req.staleness.Some? then req.staleness.value else p.staleness }
  function ChildEnd(req: ChildRequest, now: real): real { now + if req.ttl.Some? then req.ttl.value else 900.0 }

  /** A child is minted exactly from a good mandate for no more than it has: a limit no higher, the same asset if it
      names one, an end no later and a staleness no greater, and a limit and an asset that go together. */
  lemma MintExactly(t: Token, issuer: Key, trusted: set<Key>, req: ChildRequest, id: string, nonce: string, now: real)
    ensures var p := t.payload;
            var limit, asset := ChildLimit(p, req), ChildAsset(p, req);
            MintChild(t, issuer, trusted, req, id, nonce, now).Some? <==>
            TokenGood(t, trusted, now) && p.kind == MandateKind &&
            (limit.Some? ==> limit.value >= 0) && (asset.Some? ==> limit.Some? && asset.value != "") &&
            (p.spendLimit.Some? ==> limit.Some? && limit.value <= p.spendLimit.value) &&
            (p.spendAsset.Some? ==> asset.Some? && asset.value == p.spendAsset.value) &&
            ChildEnd(req, now) <= p.expiresAt && ChildStaleness(p, req) <= p.staleness
    ensures MintChild(t, issuer, trusted, req, id, nonce, now).Some? ==>
            var p := t.payload;
            MintChild(t, issuer, trusted, req, id, nonce, now).value ==
            Token(issuer, Payload(id, ExecutionKind, p.digest, if req.holder.Some? then req.holder.value else p.holder,
                                  ChildLimit(p, req), ChildAsset(p, req), now, ChildEnd(req, now), nonce, Some(p.id),
                                  ChildStaleness(p, req)))
  {
    TokenGoodIff(t, trusted, now);
  }

  // ----- budgets -----

  /** A debit is granted exactly to an active mandate with room for the reservation and for one more action, and takes both;
      a child without a limit reserves nothing. */
  lemma DebitExactly(s: State, mandate: string, childLimit: Option<int>)
    ensures var reserve := if childLimit.Some? then childLimit.value else 0;
            var (s', r) := Step(s, Debit(mandate, childLimit));
            (!r.Failed? <==>
             reserve >= 0 && mandate in s.mandates &&
             var m := s.mandates[mandate];
             m.life == Active && (m.spendLimit.Some? ==> m.spendUsed + reserve <= m.spendLimit.value) &&
             (m.actionsLimit.Some? ==> m.actionsUsed < m.actionsLimit.value)) &&
            (!r.Failed? ==>
             s' == s.(mandates := s.mandates[mandate := s.mandates[mandate].(
                        spendUsed := s.mandates[mandate].spendUsed + reserve,
                        actionsUsed := s.mandates[mandate].actionsUsed + 1)]))
  {
  }

  /** A mandate is opened under a new id with limits that are not negative, unused and not yet active. */
  lemma OpenExactly(s: State, mandate: string, spendLimit: Option<int>, actionsLimit: Option<int>)
    ensures var (s', r) := Step(s, CreateMandate(mandate, spendLimit, actionsLimit));
            (!r.Failed? <==>
             mandate !in s.mandates && (spendLimit.Some? ==> spendLimit.value >= 0) && (actionsLimit.Some? ==> actionsLimit.value >= 0)) &&
            (!r.Failed? ==> s' == s.(mandates := s.mandates[mandate := MandateRow(Created, 0, spendLimit, 0, actionsLimit)]))
  {
  }

  /** The lifecycle. */
  lemma TransitionExactly(s: State, mandate: string, to: Lifecycle)
    ensures var (s', r) := Step(s, Transition(mandate, to));
            (!r.Failed? <==>
             mandate in s.mandates &&
             (s.mandates[mandate].life, to) in
               {(Created, Active), (Created, RevokedLife), (Created, Expired),
                (Active, Paused), (Active, Exhausted), (Active, RevokedLife), (Active, Expired),
                (Paused, Active), (Paused, RevokedLife), (Paused, Expired), (Exhausted, RevokedLife)}) &&
            (!r.Failed? ==> s' == s.(mandates := s.mandates[mandate := s.mandates[mandate].(life := to)]))
  {
  }

  // ----- registration, refreshes and writes -----

  /** A capability is registered under a new id and a mandate the store knows, unused, as its payload says. */
  lemma RegisterSays(s: State, p: Payload, under: Option<string>)
    ensures var (s', r) := Step(s, Register(p, under));
            (!r.Failed? <==> p.id !in s.caps && (under.Some? ==> under.value in s.mandates)) &&
            (!r.Failed? ==> s' == s.(caps := s.caps[p.id := CapRow(p.digest, p.holder, p.kind, false, p.spendLimit, 0, under)]))
  {
  }

  /** A refresh adds the ids to the revoked ones, sets the time of the view and counts the epoch. */
  lemma SyncSays(s: State, ids: seq<string>, at: real)
    ensures var (s', r) := Step(s, Sync(ids, at));
            r == NewEpoch(s.epoch + 1) && s'.epoch == s.epoch + 1 && s'.lastSync == at &&
            (forall x :: x in s'.revoked <==> x in s.revoked || x in ids) &&
            s'.caps == s.caps && s'.mandates == s.mandates && s'.agent == s.agent && s'.version == s.version
  {
  }

  /** A write of something lays it over the agent state at the next version. */
  lemma WriteSays(s: State, writes: map<string, Json>)
    ensures var (s', r) := Step(s, Write(writes));
            (r.Failed? <==> writes == map[]) &&
            (!r.Failed? ==>
             r == NewVersion(s.version + 1) && s' == s.(agent := s'.agent, version := s.version + 1) &&
             s'.agent.Keys == s.agent.Keys + writes.Keys &&
             forall k | k in s'.agent :: s'.agent[k] == if k in writes then writes[k] else s.agent[k])
  {
  }

  // ----- budgets along a run -----

  /** The call opened the mandate and was not refused. */
  predicate Opens(t0: real, es: seq<Event>, i: nat, mandate: string)
    requires i < |es|
  {
    es[i].CreateMandate? && es[i].mandate == mandate && !OutcomeAt(Fresh(t0), es, i).Failed?
  }

  /** What the debit reserves of the mandate: nothing if it is of another one or was refused. */
  function Taken(t0: real, es: seq<Event>, i: nat, mandate: string): (int, nat)
    requires i < |es|
  {
    if es[i].Debit? && es[i].mandate == mandate && !OutcomeAt(Fresh(t0), es, i).Failed?
    then (if es[i].childLimit.Some? then es[i].childLimit.value else 0, 1) else (0, 0)
  }

  function TakenBefore(t0: real, es: seq<Event>, j: nat, mandate: string): (int, nat)
    requires j <= |es|
  {
    if j == 0 then (0, 0)
    else
      var sum, more := TakenBefore(t0, es, j - 1, mandate), Taken(t0, es, j - 1, mandate);
      (sum.0 + more.0, sum.1 + more.1)
  }

  /** A mandate has the limits it was opened with, and its use is what the debits before took. */
  lemma {:induction false} Account(t0: real, es: seq<Event>, j: nat, mandate: string) returns (i: nat)
    requires j <= |es| && mandate in After(Fresh(t0), es[..j]).mandates
    ensures i < j && Opens(t0, es, i, mandate)
    ensures var m := After(Fresh(t0), es[..j]).mandates[mandate];
            m.spendLimit == es[i].spendLimit && m.actionsLimit == es[i].actionsLimit &&
            (m.spendUsed, m.actionsUsed as int) == (TakenBefore(t0, es, j, mandate).0, TakenBefore(t0, es, j, mandate).1 as int)
    decreases j
  {
    hide Inspect, After, Step;
    AfterNone(Fresh(t0));
    assert es[..0] == [];
    assert j > 0;
    AfterSnoc(Fresh(t0), es, j - 1);
    var st := After(Fresh(t0), es[..j - 1]);
    MandateStep(st, es[j - 1], mandate);
    if mandate in st.mandates {
      i := Account(t0, es, j - 1, mandate);
    } else {
      NothingTaken(t0, es, j - 1, mandate);
      i := j - 1;
    }
  }

  lemma MandateStep(s: State, e: Event, mandate: string)
    ensures mandate in s.mandates ==> mandate in Step(s, e).0.mandates
    ensures mandate in Step(s, e).0.mandates ==>
              var m := Step(s, e).0.mandates[mandate];
              if mandate in s.mandates then
                m.spendLimit == s.mandates[mandate].spendLimit && m.actionsLimit == s.mandates[mandate].actionsLimit &&
                if e.Debit? && e.mandate == mandate && !Step(s, e).1.Failed? then
                  m.spendUsed == s.mandates[mandate].spendUsed + (if e.childLimit.Some? then e.childLimit.value else 0) &&
                  m.actionsUsed == s.mandates[mandate].actionsUsed + 1
                else m.spendUsed == s.mandates[mandate].spendUsed && m.actionsUsed == s.mandates[mandate].actionsUsed
              else
                e.CreateMandate? && e.mandate == mandate && !Step(s, e).1.Failed? &&
                m == MandateRow(Created, 0, e.spendLimit, 0, e.actionsLimit)
    ensures e.Debit? && e.mandate == mandate && !Step(s, e).1.Failed? ==> mandate in s.mandates
  {
    hide Inspect;
  }

  lemma {:induction false} NothingTaken(t0: real, es: seq<Event>, j: nat, mandate: string)
    requires j < |es| && mandate !in After(Fresh(t0), es[..j]).mandates
    ensures TakenBefore(t0, es, j + 1, mandate) == (0, 0)
    decreases j
  {
    hide Inspect, After, Step;
    MandateStep(After(Fresh(t0), es[..j]), es[j], mandate);
    if j > 0 {
      AfterSnoc(Fresh(t0), es, j - 1);
      MandateStep(After(Fresh(t0), es[..j - 1]), es[j - 1], mandate);
      NothingTaken(t0, es, j - 1, mandate);
    }
  }

  /** Along a run a debit is granted exactly when the mandate was opened, its last transition made it active, and what was
      taken of it before leaves room within the limits it was opened with. */
  lemma DebitOnRun(t0: real, es: seq<Event>, j: nat)
    requires j < |es| && es[j].Debit?
    ensures var reserve, taken := if es[j].childLimit.Some? then es[j].childLimit.value else 0, TakenBefore(t0, es, j, es[j].mandate);
            !OutcomeAt(Fresh(t0), es, j).Failed? <==>
            reserve >= 0 && InForce(t0, es, j, es[j].mandate) &&
            exists i | 0 <= i < j && es[i].CreateMandate? ::
              Opens(t0, es, i, es[j].mandate) &&
              (es[i].spendLimit.Some? ==> taken.0 + reserve <= es[i].spendLimit.value) &&
              (es[i].actionsLimit.Some? ==> taken.1 < es[i].actionsLimit.value)
  {
    hide Inspect, After, Step, InForce, TakenBefore;
    var st, m := After(Fresh(t0), es[..j]), es[j].mandate;
    DebitExactly(st, m, es[j].childLimit);
    InForceIff(t0, es, j, m);
    if m in st.mandates {
      var i := Account(t0, es, j, m);
      forall k | 0 <= k < j && es[k].CreateMandate? && Opens(t0, es, k, m) ensures k == i {
        OneOpening(t0, es, i, k, m);
      }
    }
  }

  /** No mandate is opened twice. */
  lemma OneOpening(t0: real, es: seq<Event>, i: nat, k: nat, mandate: string)
    requires i < |es| && k < |es| && Opens(t0, es, i, mandate) && Opens(t0, es, k, mandate)
    ensures i == k
  {
    hide Inspect, After;
    if i < k {
      OpenBefore(t0, es, i, k, mandate);
    } else if k < i {
      OpenBefore(t0, es, k, i, mandate);
    }
  }

  lemma OpenBefore(t0: real, es: seq<Event>, i: nat, j: nat, mandate: string)
    requires i < j <= |es| && Opens(t0, es, i, mandate)
    ensures mandate in After(Fresh(t0), es[..j]).mandates
  {
    hide Inspect, After;
    AfterSnoc(Fresh(t0), es, i);
    RunGrows(Fresh(t0), es, i + 1, j);
  }
}
