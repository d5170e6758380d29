/** The tables of the capability store and what each call does to them. */
module Ledger {
  import opened Wrappers
  import opened Radix
  import opened Authority

  datatype Lifecycle = Created | Active | Paused | Exhausted | RevokedLife | Expired

  predicate Legal(a: Lifecycle, b: Lifecycle) {
    match a
    case Created => b in {Active, RevokedLife, Expired}
    case Active => b in {Paused, Exhausted, RevokedLife, Expired}
    case Paused => b in {Active, RevokedLife, Expired}
    case Exhausted => b == RevokedLife
    case RevokedLife => false
    case Expired => false
  }

  datatype CapRow = CapRow(
    digest: Digest, holder: Key, kind: Kind, consumed: bool, spendLimit: Option<int>, spendConsumed: int,
    mandate: Option<string>)

  datatype MandateRow = MandateRow(
    life: Lifecycle, spendUsed: int, spendLimit: Option<int>, actionsUsed: int, actionsLimit: Option<int>)

  /** A stored JSON document; a missing key reads as null. */
  datatype Json = Null | Doc(text: string)

  datatype State = State(
    caps: map<string, CapRow>, mandates: map<string, MandateRow>,
    revoked: set<string>, epoch: nat, lastSync: real,
    agent: map<string, Json>, version: nat)

  function Fresh(now: real): State {
    State(map[], map[], {}, 1, now, map[], 0)
  }

  datatype Error =
    | Denied | UnknownCapability | Revoked | Stale | DoubleSpend | OverBudget
    | StoreFault | IllegalTransition | StateChanged | NotAscii

  /** A capability presented with a holder proof for a challenge. */
  datatype Presentation = Presentation(
    token: Token, proof: Proof, challenge: seq<byte>, trusted: set<Key>, now: real)

  /** The values of some keys; it stands for their digest as well. */
  function View(agent: map<string, Json>, keys: seq<string>): map<string, Json> {
    map k | k in keys :: if k in agent then agent[k] else Null
  }

  /** What `prepare` promises about the state it read. */
  datatype Preview = Preview(
    id: string, envelope: Digest, version: nat, digest: map<string, Json>, keys: seq<string>,
    writes: map<string, Json>, allowed: bool, expiresAt: real, signer: Key)

  datatype Event =
    | Sync(ids: seq<string>, at: real)
    | CreateMandate(mandate: string, spendLimit: Option<int>, actionsLimit: Option<int>)
    | Transition(mandate: string, to: Lifecycle)
    | Register(payload: Payload, under: Option<string>)
    | Debit(mandate: string, childLimit: Option<int>)
    | Consume(pres: Presentation, envelope: Option<Digest>, spend: int)
    | Check(pres: Presentation)
    | Write(writes: map<string, Json>)
    | Commit(pres: Presentation, bound: Digest, preview: Preview)

  datatype Outcome =
    | Done
    | NewEpoch(epoch: nat)
    | Granted(payload: Payload)
    | NewVersion(version: nat)
    | Committed(id: string, version: nat)
    | Failed(error: Error)

  // ----- the checks of a presentation, in the order they are made -----

  function RevocationTargets(id: string, mandate: Option<string>): seq<string> {
    [id] + if mandate.Some? && mandate.value != "" then [mandate.value] else []
  }

  predicate MandateActive(s: State, mandate: Option<string>) {
    mandate.Some? ==> mandate.value in s.mandates && s.mandates[mandate.value].life == Active
  }

  function Inspect(s: State, pres: Presentation, envelope: Option<Digest>, spend: int): Outcome {
    match VerifyToken(pres.token, pres.trusted, pres.now)
    case None => Failed(Denied)
    case Some(p) =>
      if p.id !in s.caps then Failed(UnknownCapability)
      else
        var row := s.caps[p.id];
        if row.holder != p.holder || row.digest != p.digest || row.kind != p.kind then Failed(Denied)
        else if envelope.Some? && envelope.value != p.digest then Failed(Denied)
        else if exists t | t in RevocationTargets(p.id, row.mandate) :: t in s.revoked then Failed(Revoked)
        else if pres.now - s.lastSync > p.staleness as real then Failed(Stale)
        else if row.consumed then Failed(DoubleSpend)
        else if !IsAscii(p.id) then Failed(NotAscii)
        else if !ProofValid(pres.proof, p.holder, p.id, pres.challenge) then Failed(Denied)
        else if !MandateActive(s, row.mandate) then Failed(Denied)
        else if p.spendLimit.Some? && spend > p.spendLimit.value then Failed(OverBudget)
        else Granted(p)
  }

  function Burn(s: State, id: string, spend: int): State
    requires id in s.caps
  {
    s.(caps := s.caps[id := s.caps[id].(consumed := true, spendConsumed := spend)])
  }

  predicate DebitFits(m: MandateRow, reserve: int) {
    m.life == Active &&
    (m.spendLimit.Some? ==> m.spendUsed + reserve <= m.spendLimit.value) &&
    (m.actionsLimit.Some? ==> m.actionsUsed + 1 <= m.actionsLimit.value)
  }

  predicate NonNegative(limit: Option<int>) {
    limit.Some? ==> limit.value >= 0
  }

  // ----- one call -----

  function Step(s: State, e: Event): (State, Outcome) {
    match e
    case Sync(ids, at) =>
      (s.(revoked := s.revoked + (set x | x in ids), epoch := s.epoch + 1, lastSync := at), NewEpoch(s.epoch + 1))
    case CreateMandate(m, spendLimit, actionsLimit) =>
      if !NonNegative(spendLimit) || !NonNegative(actionsLimit) || m in s.mandates then (s, Failed(StoreFault))
      else (s.(mandates := s.mandates[m := MandateRow(Created, 0, spendLimit, 0, actionsLimit)]), Done)
    case Transition(m, to) =>
      if m !in s.mandates then (s, Failed(StoreFault))
      else if !Legal(s.mandates[m].life, to) then (s, Failed(IllegalTransition))
      else (s.(mandates := s.mandates[m := s.mandates[m].(life := to)]), Done)
    case Register(p, under) =>
      if under.Some? && under.value !in s.mandates then (s, Failed(StoreFault))
      else if p.id in s.caps then (s, Failed(StoreFault))
      else (s.(caps := s.caps[p.id := CapRow(p.digest, p.holder, p.kind, false, p.spendLimit, 0, under)]), Done)
    case Debit(m, childLimit) =>
      var reserve := childLimit.GetOr(0);
      if reserve < 0 then (s, Failed(OverBudget))
      else if m !in s.mandates then (s, Failed(StoreFault))
      else if s.mandates[m].life != Active then (s, Failed(Denied))
      else if !DebitFits(s.mandates[m], reserve) then (s, Failed(OverBudget))
      else
        var row := s.mandates[m];
        (s.(mandates := s.mandates[m := row.(spendUsed := row.spendUsed + reserve, actionsUsed := row.actionsUsed + 1)]),
         Done)
    case Consume(pres, envelope, spend) =>
      if spend < 0 then (s, Failed(Denied))
      else
        var r := Inspect(s, pres, envelope, spend);
        (if r.Granted? then Burn(s, pres.token.payload.id, spend) else s, r)
    case Check(pres) => (s, Inspect(s, pres, None, 0))
    case Write(writes) =>
      if writes == map[] then (s, Failed(StoreFault))
      else (s.(agent := s.agent + writes, version := s.version + 1), NewVersion(s.version + 1))
    case Commit(pres, bound, preview) =>
      if exists k | k in preview.writes :: k !in preview.keys then (s, Failed(StateChanged))
      else
        var r := Inspect(s, pres, Some(bound), 0);
        if !r.Granted? then (s, r)
        else if s.version != preview.version || View(s.agent, preview.keys) != preview.digest then
          (s, Failed(StateChanged))
        else
          (Burn(s, pres.token.payload.id, 0).(agent := s.agent + preview.writes, version := s.version + 1),
           Committed(pres.token.payload.id, s.version + 1))
  }

  /** The state after a run. */
  function After(s: State, es: seq<Event>): State {
    if es == [] then s else Step(After(s, es[..|es| - 1]), es[|es| - 1]).0
  }

  /** What the i-th call of a run returned. */
  function OutcomeAt(s: State, es: seq<Event>, i: nat): Outcome
    requires i < |es|
  {
    Step(After(s, es[..i]), es[i]).1
  }

  lemma AfterNone(s: State)
    ensures After(s, []) == s
  {
  }

  lemma AfterSnoc(s: State, es: seq<Event>, i: nat)
    requires i < |es|
    ensures After(s, es[..i + 1]) == Step(After(s, es[..i]), es[i]).0
  {
    assert es[..i + 1][..i] == es[..i];
  }
}
