/** The store itself: tables updated in place, one atomic call at a time.  Every method is proved to do
    what Ledger.Step says of its call, on success and on failure. */
module CapabilityStores {
  import opened Wrappers
  import opened Authority
  import opened Ledger

  class CapabilityStore {
    var caps: map<string, CapRow>
    var mandates: map<string, MandateRow>
    var revoked: set<string>
    var epoch: nat
    var lastSync: real
    var agent: map<string, Json>
    var version: nat

    ghost function Tables(): State
      reads this
    {
      State(caps, mandates, revoked, epoch, lastSync, agent, version)
    }

    constructor (now: real)
      ensures Tables() == Fresh(now)
    {
      caps, mandates, revoked := map[], map[], {};
      epoch, lastSync := 1, now;
      agent, version := map[], 0;
    }

    method SyncRevocations(ids: seq<string>, at: real) returns (r: Outcome)
      modifies this
      ensures (Tables(), r) == Step(old(Tables()), Sync(ids, at))
    {
      epoch := epoch + 1;
      var i := 0;
      while i < |ids|
        invariant 0 <= i <= |ids|
        invariant revoked == old(revoked) + (set x | x in ids[..i])
        invariant Tables() == old(Tables()).(epoch := old(epoch) + 1, revoked := revoked)
      {
        revoked := revoked + {ids[i]};
        i := i + 1;
      }
      assert ids[..i] == ids;
      lastSync := at;
      r := NewEpoch(epoch);
    }

    method Revoke(id: string, at: real) returns (r: Outcome)
      modifies this
      ensures (Tables(), r) == Step(old(Tables()), Sync([id], at))
      ensures id in revoked
    {
      r := SyncRevocations([id], at);
    }

    method OpenMandate(mandate: string, spendLimit: Option<int>, actionsLimit: Option<int>) returns (r: Outcome)
      modifies this
      ensures (Tables(), r) == Step(old(Tables()), CreateMandate(mandate, spendLimit, actionsLimit))
    {
      if spendLimit.Some? && spendLimit.value < 0 { return Failed(StoreFault); }
      if actionsLimit.Some? && actionsLimit.value < 0 { return Failed(StoreFault); }
      if mandate in mandates { return Failed(StoreFault); }
      mandates := mandates[mandate := MandateRow(Created, 0, spendLimit, 0, actionsLimit)];
      r := Done;
    }

    method TransitionMandate(mandate: string, to: Lifecycle) returns (r: Outcome)
      modifies this
      ensures (Tables(), r) == Step(old(Tables()), Transition(mandate, to))
    {
      if mandate !in mandates { return Failed(StoreFault); }
      if !Legal(mandates[mandate].life, to) { return Failed(IllegalTransition); }
      mandates := mandates[mandate := mandates[mandate].(life := to)];
      r := Done;
    }

    method RegisterCapability(payload: Payload, under: Option<string>) returns (r: Outcome)
      modifies this
      ensures (Tables(), r) == Step(old(Tables()), Register(payload, under))
    {
      if under.Some? && under.value !in mandates { return Failed(StoreFault); }
      if payload.id in caps { return Failed(StoreFault); }
      caps := caps[payload.id := CapRow(payload.digest, payload.holder, payload.kind, false,
                                        payload.spendLimit, 0, under)];
      r := Done;
    }

    /** The guarded update: the row changes only if it is there, active and has room. */
    method DebitMandateForChild(mandate: string, childLimit: Option<int>) returns (r: Outcome)
      modifies this
      ensures (Tables(), r) == Step(old(Tables()), Debit(mandate, childLimit))
    {
      var reserve := childLimit.GetOr(0);
      if reserve < 0 { return Failed(OverBudget); }
      if mandate in mandates && DebitFits(mandates[mandate], reserve) {
        var row := mandates[mandate];
        mandates := mandates[mandate := row.(spendUsed := row.spendUsed + reserve, actionsUsed := row.actionsUsed + 1)];
        return Done;
      }
      if mandate !in mandates { return Failed(StoreFault); }
      if mandates[mandate].life != Active { return Failed(Denied); }
      r := Failed(OverBudget);
    }

    /** The critical section of consumption; `consume` is false for checks that must not burn. */
    method ConsumeInner(pres: Presentation, envelope: Option<Digest>, spend: int, consume: bool) returns (r: Outcome)
      modifies this
      ensures r == Inspect(old(Tables()), pres, envelope, spend)
      ensures r.Granted? ==> r.payload == pres.token.payload && r.payload.id in old(caps)
      ensures Tables() == if r.Granted? && consume then Burn(old(Tables()), pres.token.payload.id, spend) else old(Tables())
    {
      var verified := VerifyToken(pres.token, pres.trusted, pres.now);
      if verified.None? { return Failed(Denied); }
      var p := verified.value;
      if p.id !in caps { return Failed(UnknownCapability); }
      var row := caps[p.id];
      if row.holder != p.holder { return Failed(Denied); }
      if row.digest != p.digest { return Failed(Denied); }
      if row.kind != p.kind { return Failed(Denied); }
      if envelope.Some? && envelope.value != p.digest { return Failed(Denied); }
      var targets := RevocationTargets(p.id, row.mandate);
      var i := 0;
      while i < |targets|
        invariant 0 <= i <= |targets|
        invariant forall k | 0 <= k < i :: targets[k] !in revoked
      {
        if targets[i] in revoked { return Failed(Revoked); }
        i := i + 1;
      }
      if pres.now - lastSync > p.staleness as real { return Failed(Stale); }
      if row.consumed { return Failed(DoubleSpend); }
      if !IsAscii(p.id) { return Failed(NotAscii); }
      if !ProofValid(pres.proof, p.holder, p.id, pres.challenge) { return Failed(Denied); }
      if row.mandate.Some? {
        if row.mandate.value !in mandates || mandates[row.mandate.value].life != Active { return Failed(Denied); }
      }
      if p.spendLimit.Some? && spend > p.spendLimit.value { return Failed(OverBudget); }
      if consume {
        caps := caps[p.id := row.(consumed := true, spendConsumed := spend)];
      }
      r := Granted(p);
    }

    method ConsumeCapability(pres: Presentation, envelope: Option<Digest>, spend: int) returns (r: Outcome)
      modifies this
      ensures (Tables(), r) == Step(old(Tables()), Consume(pres, envelope, spend))
    {
      if spend < 0 { return Failed(Denied); }
      r := ConsumeInner(pres, envelope, spend, true);
    }

    method CheckCapability(pres: Presentation) returns (r: Outcome)
      modifies this
      ensures (Tables(), r) == Step(old(Tables()), Check(pres))
      ensures Tables() == old(Tables())
    {
      r := ConsumeInner(pres, None, 0, false);
    }

    /** One upsert for each planned write, in whatever order. */
    method Upsert(writes: map<string, Json>)
      modifies this`agent
      ensures agent == old(agent) + writes
    {
      var todo := writes.Keys;
      while todo != {}
        invariant todo <= writes.Keys
        invariant agent == old(agent) + (map k | k in writes.Keys - todo :: writes[k])
        decreases |todo|
      {
        var k :| k in todo;
        agent := agent[k := writes[k]];
        todo := todo - {k};
      }
      assert (map k | k in writes.Keys - todo :: writes[k]) == writes;
    }

    method WriteState(writes: map<string, Json>) returns (r: Outcome)
      modifies this
      ensures (Tables(), r) == Step(old(Tables()), Write(writes))
    {
      if writes == map[] { return Failed(StoreFault); }
      Upsert(writes);
      version := version + 1;
      r := NewVersion(version);
    }

    method ReadState(keys: seq<string>) returns (values: map<string, Json>, v: nat)
      ensures values == View(agent, keys) && v == version
    {
      values := map[];
      var i := 0;
      while i < |keys|
        invariant 0 <= i <= |keys| && values == View(agent, keys[..i])
      {
        values := values[keys[i] := if keys[i] in agent then agent[keys[i]] else Null];
        i := i + 1;
      }
      assert keys[..i] == keys;
      v := version;
    }

    /** Consumption, the recheck of the state and the writes in one transaction: the state is put back
        as it was when any of them fails. */
    method CommitStateBound(pres: Presentation, bound: Digest, preview: Preview) returns (r: Outcome)
      modifies this
      ensures (Tables(), r) == Step(old(Tables()), Commit(pres, bound, preview))
    {
      if exists k | k in preview.writes :: k !in preview.keys { return Failed(StateChanged); }
      var before := caps;
      r := ConsumeInner(pres, Some(bound), 0, true);
      if !r.Granted? { return; }
      var values, v := ReadState(preview.keys);
      if v != preview.version || values != preview.digest {
        caps := before;
        return Failed(StateChanged);
      }
      Upsert(preview.writes);
      version := v + 1;
      r := Committed(r.payload.id, version);
    }
  }
}
