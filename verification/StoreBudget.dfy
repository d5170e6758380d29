/** Budget conservation: over every run in which children are minted from bounded mandates, debited and
    then registered, what children spend is covered by what their mandate reserved. */
module StoreBudget {
  import opened Wrappers
  import opened Authority
  import opened Ledger
  import opened StoreRuns

  // ----- history read off a run -----

  datatype Reservation = Reservation(mandate: string, amount: int)

  datatype Child = Child(id: string, limit: int)

  predicate RegistersChild(e: Event) {
    e.Register? && e.under.Some? && e.payload.kind == ExecutionKind
  }

  function RemoveFirst(rs: seq<Reservation>, r: Reservation): seq<Reservation> {
    if rs == [] then [] else if rs[0] == r then rs[1..] else [rs[0]] + RemoveFirst(rs[1..], r)
  }

  function ReservationFor(e: Event): Reservation
    requires RegistersChild(e)
  {
    Reservation(e.under.value, e.payload.spendLimit.GetOr(0))
  }

  /** Debits that no registered child has taken up yet. */
  function Outstanding(s: State, es: seq<Event>): seq<Reservation> {
    if es == [] then []
    else
      var init, e := es[..|es| - 1], es[|es| - 1];
      var before := Outstanding(s, init);
      if Step(After(s, init), e).1.Failed? then before
      else if e.Debit? then before + [Reservation(e.mandate, e.childLimit.GetOr(0))]
      else if RegistersChild(e) then RemoveFirst(before, ReservationFor(e))
      else before
  }

  /** The children registered under a mandate, oldest first. */
  function Children(s: State, es: seq<Event>, mandate: string): seq<Child> {
    if es == [] then []
    else
      var init, e := es[..|es| - 1], es[|es| - 1];
      var before := Children(s, init, mandate);
      if RegistersChild(e) && e.under.value == mandate && !Step(After(s, init), e).1.Failed? then
        before + [Child(e.payload.id, e.payload.spendLimit.GetOr(0))]
      else before
  }

  /** The limit presented is no higher than the one registered. */
  predicate WithinRegistered(presented: Option<int>, registered: Option<int>) {
    registered.Some? ==> presented.Some? && presented.value <= registered.value
  }

  /** What the authority does around the store: a child is registered only with a limit and only after a
      debit of that limit that nothing else has taken up, and no payload under the id of a child carries
      more than its registered limit. */
  predicate Disciplined(s: State, es: seq<Event>) {
    es == [] ||
    (var init, e := es[..|es| - 1], es[|es| - 1];
     Disciplined(s, init) &&
     (RegistersChild(e) && !Step(After(s, init), e).1.Failed? ==>
        e.payload.spendLimit.Some? && ReservationFor(e) in Outstanding(s, init)) &&
     (e.Consume? && Presented(e) in After(s, init).caps && !Step(After(s, init), e).1.Failed? ==>
        WithinRegistered(e.pres.token.payload.spendLimit, After(s, init).caps[Presented(e)].spendLimit)))
  }

  // ----- sums -----

  function Owed(rs: seq<Reservation>, mandate: string): int {
    if rs == [] then 0 else Owed(rs[..|rs| - 1], mandate) + if rs[|rs| - 1].mandate == mandate then rs[|rs| - 1].amount else 0
  }

  function OwedCount(rs: seq<Reservation>, mandate: string): nat {
    if rs == [] then 0 else OwedCount(rs[..|rs| - 1], mandate) + if rs[|rs| - 1].mandate == mandate then 1 else 0
  }

  function Limits(kids: seq<Child>): int {
    if kids == [] then 0 else Limits(kids[..|kids| - 1]) + kids[|kids| - 1].limit
  }

  /** What the children of a mandate have spent. */
  function Spent(caps: map<string, CapRow>, kids: seq<Child>): int
    requires forall c | c in kids :: c.id in caps
  {
    if kids == [] then 0 else Spent(caps, kids[..|kids| - 1]) + caps[kids[|kids| - 1].id].spendConsumed
  }

  predicate NoNegative(rs: seq<Reservation>) {
    forall r | r in rs :: r.amount >= 0
  }

  lemma {:induction false} OwedNonNegative(rs: seq<Reservation>, mandate: string)
    requires NoNegative(rs)
    ensures Owed(rs, mandate) >= 0
  {
    if rs != [] {
      var init := rs[..|rs| - 1];
      assert forall r | r in init :: r in rs;
      OwedNonNegative(init, mandate);
      assert rs[|rs| - 1] in rs;
    }
  }

  lemma {:induction false} OwedCons(r: Reservation, rs: seq<Reservation>, mandate: string)
    ensures Owed([r] + rs, mandate) == Owed(rs, mandate) + if r.mandate == mandate then r.amount else 0
    ensures OwedCount([r] + rs, mandate) == OwedCount(rs, mandate) + if r.mandate == mandate then 1 else 0
  {
    if rs == [] {
      assert [r] + rs == [r] && [r][..0] == [];
    } else {
      OwedCons(r, rs[..|rs| - 1], mandate);
      assert ([r] + rs)[..|rs|] == [r] + rs[..|rs| - 1];
    }
  }

  lemma {:induction false} RemoveOwed(rs: seq<Reservation>, r: Reservation, mandate: string)
    requires r in rs
    ensures Owed(RemoveFirst(rs, r), mandate) == Owed(rs, mandate) - if r.mandate == mandate then r.amount else 0
    ensures OwedCount(RemoveFirst(rs, r), mandate) == OwedCount(rs, mandate) - if r.mandate == mandate then 1 else 0
    ensures forall x | x in RemoveFirst(rs, r) :: x in rs
  {
    assert rs == [rs[0]] + rs[1..];
    OwedCons(rs[0], rs[1..], mandate);
    if rs[0] != r {
      RemoveOwed(rs[1..], r, mandate);
      OwedCons(rs[0], RemoveFirst(rs[1..], r), mandate);
    }
  }

  /** A child as its row stands: spent no more than its limit. */
  predicate KidSound(caps: map<string, CapRow>, mandate: string, c: Child) {
    c.id in caps &&
    caps[c.id].kind == ExecutionKind && caps[c.id].mandate == Some(mandate) && caps[c.id].spendLimit == Some(c.limit) &&
    0 <= caps[c.id].spendConsumed <= c.limit
  }

  lemma {:induction false} SpentWithin(caps: map<string, CapRow>, mandate: string, kids: seq<Child>)
    requires forall c | c in kids :: KidSound(caps, mandate, c)
    ensures forall c | c in kids :: c.id in caps
    ensures 0 <= Spent(caps, kids) <= Limits(kids)
  {
    if kids != [] {
      assert kids[|kids| - 1] in kids;
      SpentWithin(caps, mandate, kids[..|kids| - 1]);
    }
  }

  // ----- the invariant -----

  /** The books of a mandate: everything used is either a registered child's or still outstanding. */
  predicate Books(st: State, mandate: string, kids: seq<Child>, rs: seq<Reservation>) {
    NoNegative(rs) &&
    (forall c | c in kids :: KidSound(st.caps, mandate, c)) &&
    if mandate in st.mandates then
      var row := st.mandates[mandate];
      Limits(kids) + Owed(rs, mandate) == row.spendUsed &&
      |kids| + OwedCount(rs, mandate) == row.actionsUsed &&
      (row.spendLimit.Some? ==> row.spendUsed <= row.spendLimit.value) &&
      (row.actionsLimit.Some? ==> row.actionsUsed <= row.actionsLimit.value)
    else kids == [] && Owed(rs, mandate) == 0 && OwedCount(rs, mandate) == 0
  }

  lemma {:induction false} DebitKeeps(st: State, e: Event, mandate: string, kids: seq<Child>, rs: seq<Reservation>)
    requires Books(st, mandate, kids, rs) && e.Debit? && !Step(st, e).1.Failed?
    ensures Books(Step(st, e).0, mandate, kids, rs + [Reservation(e.mandate, e.childLimit.GetOr(0))])
  {
    var r := Reservation(e.mandate, e.childLimit.GetOr(0));
    assert (rs + [r])[..|rs|] == rs;
  }

  lemma {:induction false} RegisterKeeps(st: State, e: Event, mandate: string, kids: seq<Child>, rs: seq<Reservation>)
    requires Books(st, mandate, kids, rs) && RegistersChild(e) && !Step(st, e).1.Failed?
    requires e.payload.spendLimit.Some? && ReservationFor(e) in rs
    ensures var kids' := if e.under.value == mandate then kids + [Child(e.payload.id, e.payload.spendLimit.value)] else kids;
            Books(Step(st, e).0, mandate, kids', RemoveFirst(rs, ReservationFor(e)))
  {
    var c := Child(e.payload.id, e.payload.spendLimit.value);
    RemoveOwed(rs, ReservationFor(e), mandate);
    assert (kids + [c])[..|kids|] == kids;
  }

  lemma {:induction false} BurnKeeps(st: State, e: Event, mandate: string, kids: seq<Child>, rs: seq<Reservation>)
    requires Books(st, mandate, kids, rs) && Burns(e) && !Step(st, e).1.Failed?
    requires Presented(e) in st.caps
    requires e.Consume? ==> WithinRegistered(e.pres.token.payload.spendLimit, st.caps[Presented(e)].spendLimit)
    ensures Books(Step(st, e).0, mandate, kids, rs)
  {
  }

  lemma {:induction false} OtherKeeps(st: State, e: Event, mandate: string, kids: seq<Child>, rs: seq<Reservation>)
    requires Books(st, mandate, kids, rs)
    requires Step(st, e).1.Failed? || !(e.Debit? || RegistersChild(e) || Burns(e))
    ensures Books(Step(st, e).0, mandate, kids, rs)
  {
  }

  lemma {:induction false} BooksBalance(now: real, es: seq<Event>, mandate: string)
    requires Disciplined(Fresh(now), es)
    ensures Books(After(Fresh(now), es), mandate, Children(Fresh(now), es, mandate), Outstanding(Fresh(now), es))
    decreases |es|
  {
    if es != [] {
      var init, e := es[..|es| - 1], es[|es| - 1];
      var st := After(Fresh(now), init);
      BooksBalance(now, init, mandate);
      var kids, rs := Children(Fresh(now), init, mandate), Outstanding(Fresh(now), init);
      if Step(st, e).1.Failed? || !(e.Debit? || RegistersChild(e) || Burns(e)) {
        OtherKeeps(st, e, mandate, kids, rs);
      } else if e.Debit? {
        DebitKeeps(st, e, mandate, kids, rs);
      } else if RegistersChild(e) {
        RegisterKeeps(st, e, mandate, kids, rs);
      } else {
        BurnKeeps(st, e, mandate, kids, rs);
      }
    }
  }

  /** The children of a mandate in the table are exactly those in the list. */
  predicate Lists(caps: map<string, CapRow>, mandate: string, kids: seq<Child>) {
    (forall c | c in kids :: c.id in caps) &&
    forall id | id in caps && caps[id].kind == ExecutionKind && caps[id].mandate == Some(mandate) :: HasId(kids, id)
  }

  predicate HasId(kids: seq<Child>, id: string) {
    exists c :: c in kids && c.id == id
  }

  lemma {:induction false} ListsStep(st: State, e: Event, mandate: string, kids: seq<Child>, kids': seq<Child>)
    requires Lists(st.caps, mandate, kids)
    requires kids' == if RegistersChild(e) && e.under.value == mandate && !Step(st, e).1.Failed?
                      then kids + [Child(e.payload.id, e.payload.spendLimit.GetOr(0))] else kids
    ensures Lists(Step(st, e).0.caps, mandate, kids')
  {
    var caps' := Step(st, e).0.caps;
    StepGrows(st, e);
    forall id | id in caps' && caps'[id].kind == ExecutionKind && caps'[id].mandate == Some(mandate)
      ensures HasId(kids', id)
    {
      if id in st.caps {
        assert CapGrows(st.caps[id], caps'[id]) && HasId(kids, id);
        var c :| c in kids && c.id == id;
        assert c in kids';
      } else {
        assert kids'[|kids'| - 1].id == id;
      }
    }
  }

  lemma {:induction false} ChildrenListed(now: real, es: seq<Event>, mandate: string)
    ensures Lists(After(Fresh(now), es).caps, mandate, Children(Fresh(now), es, mandate))
    decreases |es|
  {
    if es != [] {
      var init, e := es[..|es| - 1], es[|es| - 1];
      ChildrenListed(now, init, mandate);
      ListsStep(After(Fresh(now), init), e, mandate, Children(Fresh(now), init, mandate), Children(Fresh(now), es, mandate));
    }
  }

  predicate DistinctIds(kids: seq<Child>) {
    forall i, j | 0 <= i < j < |kids| :: kids[i].id != kids[j].id
  }

  lemma DistinctSnoc(st: State, mandate: string, kids: seq<Child>, c: Child)
    requires DistinctIds(kids) && Lists(st.caps, mandate, kids) && c.id !in st.caps
    ensures DistinctIds(kids + [c])
  {
    forall i | 0 <= i < |kids| ensures kids[i].id != c.id {
      assert kids[i] in kids;
    }
  }

  /** No child is counted twice. */
  lemma {:induction false} ChildrenDistinct(now: real, es: seq<Event>, mandate: string)
    ensures DistinctIds(Children(Fresh(now), es, mandate))
    decreases |es|
  {
    if es != [] {
      var init, e := es[..|es| - 1], es[|es| - 1];
      var st := After(Fresh(now), init);
      ChildrenDistinct(now, init, mandate);
      ChildrenListed(now, init, mandate);
      if RegistersChild(e) && !Step(st, e).1.Failed? {
        DistinctSnoc(st, mandate, Children(Fresh(now), init, mandate), Child(e.payload.id, e.payload.spendLimit.GetOr(0)));
      }
    }
  }

  /** Children spend no more than their limits, the limits no more than the mandate's reserved budget, and
      that no more than the mandate's limit; and there are no more children than actions used, nor
      more actions used than allowed. */
  lemma {:induction false} BudgetConserved(now: real, es: seq<Event>, mandate: string)
    requires Disciplined(Fresh(now), es) && mandate in After(Fresh(now), es).mandates
    ensures var st := After(Fresh(now), es);
            var row := st.mandates[mandate];
            var kids := Children(Fresh(now), es, mandate);
            (forall c | c in kids :: c.id in st.caps) &&
            0 <= Spent(st.caps, kids) <= Limits(kids) <= row.spendUsed &&
            |kids| <= row.actionsUsed &&
            (row.spendLimit.Some? ==> row.spendUsed <= row.spendLimit.value) &&
            (row.actionsLimit.Some? ==> row.actionsUsed <= row.actionsLimit.value)
  {
    var st := After(Fresh(now), es);
    var kids, rs := Children(Fresh(now), es, mandate), Outstanding(Fresh(now), es);
    BooksBalance(now, es, mandate);
    OwedNonNegative(rs, mandate);
    SpentWithin(st.caps, mandate, kids);
  }

  // ----- runs in which the authority does all the minting -----

  /** Minted from a token of the mandate that has a spend limit. */
  ghost predicate MintedUnder(p: Payload, mandate: string) {
    exists parent: Token, issuer, trusted, req, id, nonce, now ::
      parent.payload.id == mandate && parent.payload.spendLimit.Some? &&
      MintChild(parent, issuer, trusted, req, id, nonce, now) == Some(Token(issuer, p))
  }

  lemma MintedBounded(p: Payload, mandate: string)
    requires MintedUnder(p, mandate)
    ensures p.spendLimit.Some? && p.spendLimit.value >= 0 && p.kind == ExecutionKind && p.parent == Some(mandate)
  {
    var parent: Token, issuer, trusted, req, id, nonce, now :|
      parent.payload.id == mandate && parent.payload.spendLimit.Some? &&
      MintChild(parent, issuer, trusted, req, id, nonce, now) == Some(Token(issuer, p));
    MintAttenuates(parent, issuer, trusted, req, id, nonce, now);
  }

  /** Every child registered was minted under its mandate and debited before. */
  ghost predicate MintedRun(s: State, es: seq<Event>) {
    es == [] ||
    (var init, e := es[..|es| - 1], es[|es| - 1];
     MintedRun(s, init) &&
     (RegistersChild(e) && !Step(After(s, init), e).1.Failed? ==>
        MintedUnder(e.payload, e.under.value) && ReservationFor(e) in Outstanding(s, init)))
  }

  /** Issuers sign one payload under one id. */
  predicate OnePayload(es: seq<Event>) {
    forall i, j | 0 <= i < |es| && 0 <= j < |es| && es[i].Register? && es[j].Consume? && es[i].payload.id == Presented(es[j]) ::
      es[j].pres.token.payload == es[i].payload
  }

  /** Every row of the table goes back to a registration of the run. */
  lemma {:induction false} RowRegistered(now: real, es: seq<Event>, id: string) returns (i: nat)
    requires id in After(Fresh(now), es).caps
    ensures i < |es| && es[i].Register? && es[i].payload.id == id
    ensures After(Fresh(now), es).caps[id].spendLimit == es[i].payload.spendLimit
    decreases |es|
  {
    hide Inspect;
    var init, e := es[..|es| - 1], es[|es| - 1];
    var st := After(Fresh(now), init);
    if id in st.caps {
      i := RowRegistered(now, init, id);
      StepGrows(st, e);
      assert CapGrows(st.caps[id], Step(st, e).0.caps[id]);
    } else {
      NewRow(st, e, id);
      i := |es| - 1;
    }
  }

  lemma NewRow(st: State, e: Event, id: string)
    requires id !in st.caps && id in Step(st, e).0.caps
    ensures e.Register? && e.payload.id == id && Step(st, e).0.caps[id].spendLimit == e.payload.spendLimit
  {
    if Burns(e) && !Step(st, e).1.Failed? {
      var envelope := if e.Consume? then e.envelope else Some(e.bound);
      GrantedIsLive(st, e.pres, envelope, if e.Consume? then e.spend else 0);
    }
  }

  lemma OnePayloadPrefix(es: seq<Event>, n: nat)
    requires OnePayload(es) && n <= |es|
    ensures OnePayload(es[..n])
  {
  }

  lemma {:induction false} MintedDisciplined(now: real, es: seq<Event>)
    requires MintedRun(Fresh(now), es) && OnePayload(es)
    ensures Disciplined(Fresh(now), es)
    decreases |es|
  {
    hide Step, After, Outstanding;
    if es != [] {
      var init, e := es[..|es| - 1], es[|es| - 1];
      OnePayloadPrefix(es, |es| - 1);
      MintedDisciplined(now, init);
      if RegistersChild(e) && !Step(After(Fresh(now), init), e).1.Failed? {
        MintedBounded(e.payload, e.under.value);
      }
      if e.Consume? && Presented(e) in After(Fresh(now), init).caps {
        var i := RowRegistered(now, init, Presented(e));
        assert es[i] == init[i];
      }
    }
  }

  /** So the budget is conserved on every run in which children are minted from a bounded mandate, debited and
      registered, and no id is signed for twice. */
  lemma MintedBudgetConserved(now: real, es: seq<Event>, mandate: string)
    requires MintedRun(Fresh(now), es) && OnePayload(es) && mandate in After(Fresh(now), es).mandates
    ensures var st := After(Fresh(now), es);
            var row := st.mandates[mandate];
            var kids := Children(Fresh(now), es, mandate);
            (forall c | c in kids :: c.id in st.caps) &&
            0 <= Spent(st.caps, kids) <= Limits(kids) <= row.spendUsed &&
            |kids| <= row.actionsUsed &&
            (row.spendLimit.Some? ==> row.spendUsed <= row.spendLimit.value) &&
            (row.actionsLimit.Some? ==> row.actionsUsed <= row.actionsLimit.value)
  {
    MintedDisciplined(now, es);
    BudgetConserved(now, es, mandate);
  }

  // ----- why the discipline is needed -----

  /** Where the books balance, registering a child keeps the limits of the children within what the mandate
      has used exactly when its limit is no more than what is debited and not taken up; and as many
      children as actions exactly when some debit is not taken up. */
  lemma RegisterExactly(st: State, e: Event, mandate: string, kids: seq<Child>, rs: seq<Reservation>)
    requires Books(st, mandate, kids, rs) && RegistersChild(e) && e.under == Some(mandate) && !Step(st, e).1.Failed?
    ensures mandate in Step(st, e).0.mandates
    ensures var limit := e.payload.spendLimit.GetOr(0);
            var row := Step(st, e).0.mandates[mandate];
            var kids' := kids + [Child(e.payload.id, limit)];
            (Limits(kids') <= row.spendUsed <==> limit <= Owed(rs, mandate)) &&
            (|kids'| <= row.actionsUsed <==> OwedCount(rs, mandate) > 0)
  {
    var c := Child(e.payload.id, e.payload.spendLimit.GetOr(0));
    assert (kids + [c])[..|kids|] == kids;
  }

  /** A child without a limit reserves nothing and may spend anything, whatever is left of its mandate. */
  lemma UnboundedSpends(s: State, pres: Presentation, envelope: Option<Digest>, spend: nat)
    requires Inspect(s, pres, envelope, 0).Granted? && pres.token.payload.spendLimit.None?
    ensures var (s', r) := Step(s, Consume(pres, envelope, spend));
            r.Granted? && s'.caps[pres.token.payload.id].spendConsumed == spend && s'.mandates == s.mandates
  {
  }

  /** The store compares the spend with the presented limit, not with the registered one: a second
      payload under the same id, signed by a trusted issuer, lifts the limit. */
  lemma TwinSpends(s: State, pres: Presentation, envelope: Option<Digest>, spend: nat)
    requires Inspect(s, pres, envelope, 0).Granted?
    ensures var twin := pres.(token := pres.token.(payload := pres.token.payload.(spendLimit := Some(spend))));
            var (s', r) := Step(s, Consume(twin, envelope, spend));
            r.Granted? && s'.caps[pres.token.payload.id].spendConsumed == spend
  {
  }

  /** When the registered limit does hold: for a presentation that passes every other check, no spend above
      the registered limit is granted exactly when the presented payload has a limit no higher. */
  lemma RegisteredLimitHolds(s: State, pres: Presentation, envelope: Option<Digest>, limit: int)
    requires Inspect(s, pres, envelope, 0).Granted?
    requires pres.token.payload.id in s.caps && s.caps[pres.token.payload.id].spendLimit == Some(limit)
    ensures (forall spend: int :: Step(s, Consume(pres, envelope, spend)).1.Granted? ==> spend <= limit) <==>
            WithinRegistered(pres.token.payload.spendLimit, Some(limit))
  {
    forall spend: int
      ensures Step(s, Consume(pres, envelope, spend)).1.Granted? <==>
              spend >= 0 && (pres.token.payload.spendLimit.Some? ==> spend <= pres.token.payload.spendLimit.value)
    {
      GrantedUpTo(s, pres, envelope, spend);
    }
    var top := if pres.token.payload.spendLimit.Some? then pres.token.payload.spendLimit.value
               else if limit < 0 then 0 else limit + 1;
    assert Step(s, Consume(pres, envelope, top)).1.Granted?;
  }

  /** The spend is compared with the presented limit and with nothing else. */
  lemma GrantedUpTo(s: State, pres: Presentation, envelope: Option<Digest>, spend: int)
    requires Inspect(s, pres, envelope, 0).Granted?
    ensures Step(s, Consume(pres, envelope, spend)).1.Granted? <==>
            spend >= 0 && (pres.token.payload.spendLimit.Some? ==> spend <= pres.token.payload.spendLimit.value)
    ensures pres.token.payload.spendLimit.Some? ==> pres.token.payload.spendLimit.value >= 0
  {
  }

  /** A mandate of nothing, and a child of five registered under it without a debit. */
  function UndebitedRun(key: Key, digest: Digest): seq<Event> {
    var p := Payload("c", ExecutionKind, digest, key, Some(5), None, 0.0, 10.0, "n", Some("m"), 300);
    [CreateMandate("m", Some(0), None), Transition("m", Active), Register(p, Some("m"))]
  }

  /** The mandate of nothing, before and after it is activated. */
  function NothingGranted(lifecycle: Lifecycle): State {
    Fresh(0.0).(mandates := map["m" := MandateRow(lifecycle, 0, Some(0), 0, None)])
  }

  lemma UndebitedSteps(key: Key, digest: Digest)
    ensures var es := UndebitedRun(key, digest);
            Step(Fresh(0.0), es[0]).0 == NothingGranted(Created) &&
            Step(NothingGranted(Created), es[1]).0 == NothingGranted(Active) &&
            !Step(NothingGranted(Active), es[2]).1.Failed? &&
            Step(NothingGranted(Active), es[2]).0.mandates == NothingGranted(Active).mandates
  {
  }

  /** Registering does not ask for the debit: the limits of the children then exceed the mandate's. */
  lemma {:induction false} UndebitedExceeds(key: Key, digest: Digest)
    ensures var es := UndebitedRun(key, digest);
            var st := After(Fresh(0.0), es);
            "m" in st.mandates && st.mandates["m"].spendLimit == Some(0) && st.mandates["m"].spendUsed == 0 &&
            Limits(Children(Fresh(0.0), es, "m")) == 5
  {
    hide After, Children, Step;
    var es, s0 := UndebitedRun(key, digest), Fresh(0.0);
    UndebitedSteps(key, digest);
    assert es[..0] == [] && es[..3] == es;
    AfterNone(s0);
    AfterSnoc(s0, es, 0);
    AfterSnoc(s0, es, 1);
    AfterSnoc(s0, es, 2);
    ChildrenNone(s0, "m");
    ChildrenSnoc(s0, es, 0, "m");
    ChildrenSnoc(s0, es, 1, "m");
    ChildrenSnoc(s0, es, 2, "m");
    assert Children(s0, es, "m") == [Child("c", 5)];
    assert Limits([Child("c", 5)]) == 5 by { assert [Child("c", 5)][..0] == []; }
  }

  lemma ChildrenNone(s: State, mandate: string)
    ensures Children(s, [], mandate) == []
  {
  }

  lemma ChildrenSnoc(s: State, es: seq<Event>, i: nat, mandate: string)
    requires i < |es|
    ensures Children(s, es[..i + 1], mandate) ==
            Children(s, es[..i], mandate) +
            if RegistersChild(es[i]) && es[i].under.value == mandate && !Step(After(s, es[..i]), es[i]).1.Failed?
            then [Child(es[i].payload.id, es[i].payload.spendLimit.GetOr(0))] else []
  {
    assert es[..i + 1][..i] == es[..i] && es[..i + 1][i] == es[i];
  }
}
