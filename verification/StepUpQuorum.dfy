/** Step-up quorums and the process-wide registries that keep a challenge from serving twice.  Each call is
    one step; the registries and all quorums are objects that the calls update in place. */
module StepUpQuorum {
  import opened Wrappers

  type Challenge = seq<bv8>

  /** What finalizing signs. */
  datatype Record = Record(digest: string, challenge: Challenge, m: nat, n: nat, approvers: set<string>)

  datatype Approval = Approval(digest: string, challenge: Challenge)

  /** The fields of a quorum at one moment. */
  datatype View = View(m: nat, n: nat, approvals: map<string, Approval>, digest: Option<string>,
                       challenge: Option<Challenge>, finalized: bool, abandoned: bool)
  {
    predicate Live() {
      !finalized && !abandoned
    }

    /** Every approval is for the pair the quorum is bound to; it is bound from the first approval on. */
    predicate Sound() {
      1 <= m <= n && |approvals| <= n && !(finalized && abandoned) &&
      (digest.Some? <==> challenge.Some?) && (digest.Some? <==> approvals != map[]) &&
      (forall k <- approvals :: digest.Some? && approvals[k] == Approval(digest.value, challenge.value)) &&
      (finalized ==> m <= |approvals|)
    }
  }

  // ----- what holds of all quorums and the registries together -----

  predicate AllSound(views: map<QuorumApproval, View>) {
    forall q <- views :: views[q].Sound()
  }

  /** The challenges in flight are exactly those bound by live quorums, each held by one. */
  predicate FlightHeld(views: map<QuorumApproval, View>, inFlight: map<Challenge, QuorumApproval>) {
    (forall c <- inFlight :: inFlight[c] in views && views[inFlight[c]].Live() && views[inFlight[c]].challenge == Some(c)) &&
    forall q <- views | views[q].Live() && views[q].challenge.Some? ::
      views[q].challenge.value in inFlight && inFlight[views[q].challenge.value] == q
  }

  /** The burned challenges are exactly those of finalized quorums, each of one, and none is in flight. */
  predicate BurnedOnce(views: map<QuorumApproval, View>, inFlight: map<Challenge, QuorumApproval>, burned: set<Challenge>) {
    (forall q <- views | views[q].finalized :: views[q].challenge.Some? && views[q].challenge.value in burned) &&
    (forall c <- burned :: HasFinalized(views, c)) &&
    (forall p, q | p in views && q in views && views[p].finalized && views[q].finalized && views[p].challenge == views[q].challenge :: p == q) &&
    inFlight.Keys !! burned
  }

  predicate HasFinalized(views: map<QuorumApproval, View>, c: Challenge) {
    exists q :: q in views && views[q].finalized && views[q].challenge == Some(c)
  }

  /** No two records are for one challenge, and each has enough approvers. */
  predicate RecordsApart(records: seq<Record>, burned: set<Challenge>) {
    (forall r <- records :: r.challenge in burned && r.m <= |r.approvers| <= r.n) &&
    forall i, j | 0 <= i < j < |records| :: records[i].challenge != records[j].challenge
  }

  predicate Inv(views: map<QuorumApproval, View>, inFlight: map<Challenge, QuorumApproval>, burned: set<Challenge>, records: seq<Record>) {
    AllSound(views) && FlightHeld(views, inFlight) && BurnedOnce(views, inFlight, burned) && RecordsApart(records, burned)
  }

  // ----- what that means -----

  lemma LiveNotBurned(views: map<QuorumApproval, View>, inFlight: map<Challenge, QuorumApproval>, burned: set<Challenge>,
                      q: QuorumApproval)
    requires FlightHeld(views, inFlight) && BurnedOnce(views, inFlight, burned)
    requires q in views && views[q].Live() && views[q].challenge.Some?
    ensures views[q].challenge.value !in burned
    ensures views[q].challenge.value in inFlight && inFlight[views[q].challenge.value] == q
  {
    assert views[q].challenge.value in inFlight.Keys;
  }

  /** Two quorums hold one challenge only when one of them was abandoned; so no two live quorums share
      one, no live quorum holds a finalized one, and no two were finalized on one. */
  lemma Exclusive(views: map<QuorumApproval, View>, inFlight: map<Challenge, QuorumApproval>, burned: set<Challenge>,
                  records: seq<Record>, p: QuorumApproval, q: QuorumApproval)
    requires Inv(views, inFlight, burned, records) && p in views && q in views && p != q
    requires views[p].challenge.Some? && views[p].challenge == views[q].challenge
    ensures views[p].abandoned || views[q].abandoned
  {
    if views[p].Live() { LiveNotBurned(views, inFlight, burned, p); }
    if views[q].Live() { LiveNotBurned(views, inFlight, burned, q); }
  }

  // ----- what each step keeps, part by part -----

  lemma SoundUpdate(views: map<QuorumApproval, View>, q: QuorumApproval, v: View)
    requires AllSound(views) && v.Sound()
    ensures AllSound(views[q := v])
  {
  }

  lemma FlightBind(views: map<QuorumApproval, View>, inFlight: map<Challenge, QuorumApproval>, q: QuorumApproval, v: View, c: Challenge)
    requires FlightHeld(views, inFlight) && q in views && views[q].challenge == None && c !in inFlight
    requires v.Live() && v.challenge == Some(c)
    ensures FlightHeld(views[q := v], inFlight[c := q])
  {
  }

  lemma FlightSame(views: map<QuorumApproval, View>, inFlight: map<Challenge, QuorumApproval>, q: QuorumApproval, v: View)
    requires FlightHeld(views, inFlight)
    requires if q in views then v.Live() == views[q].Live() && v.challenge == views[q].challenge else v.challenge == None
    ensures FlightHeld(views[q := v], inFlight)
  {
  }

  function WithoutHolder(inFlight: map<Challenge, QuorumApproval>, q: QuorumApproval): map<Challenge, QuorumApproval> {
    map c | c in inFlight && inFlight[c] != q :: inFlight[c]
  }

  lemma FlightRelease(views: map<QuorumApproval, View>, inFlight: map<Challenge, QuorumApproval>, q: QuorumApproval, v: View)
    requires FlightHeld(views, inFlight) && !v.Live()
    ensures FlightHeld(views[q := v], WithoutHolder(inFlight, q))
  {
  }

  lemma FinalizedStays(views: map<QuorumApproval, View>, q: QuorumApproval, v: View, c: Challenge)
    requires HasFinalized(views, c) && (q in views ==> !views[q].finalized)
    ensures HasFinalized(views[q := v], c)
  {
    var x: QuorumApproval :| x in views && views[x].finalized && views[x].challenge == Some(c);
    assert views[q := v][x] == views[x];
  }

  /** A step of a quorum that neither was nor becomes finalized. */
  lemma BurnedSame(views: map<QuorumApproval, View>, inFlight: map<Challenge, QuorumApproval>,
                   flight': map<Challenge, QuorumApproval>, burned: set<Challenge>, q: QuorumApproval, v: View)
    requires BurnedOnce(views, inFlight, burned) && flight'.Keys !! burned
    requires (q in views ==> !views[q].finalized) && !v.finalized
    ensures BurnedOnce(views[q := v], flight', burned)
  {
    forall c <- burned ensures HasFinalized(views[q := v], c) {
      FinalizedStays(views, q, v, c);
    }
  }

  lemma BurnedMore(views: map<QuorumApproval, View>, inFlight: map<Challenge, QuorumApproval>,
                   flight': map<Challenge, QuorumApproval>, burned: set<Challenge>, q: QuorumApproval, v: View, c: Challenge)
    requires BurnedOnce(views, inFlight, burned) && c !in burned && flight'.Keys !! burned + {c}
    requires (q in views ==> !views[q].finalized) && v.finalized && v.challenge == Some(c)
    ensures BurnedOnce(views[q := v], flight', burned + {c})
  {
    forall b <- burned ensures HasFinalized(views[q := v], b) {
      FinalizedStays(views, q, v, b);
    }
    assert HasFinalized(views[q := v], c) by { assert views[q := v][q] == v; }
  }

  // ----- what each step keeps -----

  lemma OpenKeeps(views: map<QuorumApproval, View>, inFlight: map<Challenge, QuorumApproval>, burned: set<Challenge>,
                  records: seq<Record>, q: QuorumApproval, v: View)
    requires Inv(views, inFlight, burned, records) && q !in views
    requires v.Sound() && v.Live() && v.challenge == None
    ensures Inv(views[q := v], inFlight, burned, records)
  {
    hide RecordsApart;
    assert inFlight.Keys !! burned;
    SoundUpdate(views, q, v);
    FlightSame(views, inFlight, q, v);
    BurnedSame(views, inFlight, inFlight, burned, q, v);
  }

  function WithApproval(v: View, keyId: string, d: string, c: Challenge): View {
    v.(approvals := v.approvals[keyId := Approval(d, c)], digest := Some(d), challenge := Some(c))
  }

  lemma ApprovalSound(v: View, keyId: string, d: string, c: Challenge)
    requires v.Sound() && v.Live() && keyId !in v.approvals && |v.approvals| < v.n
    requires v.challenge.None? || (v.digest == Some(d) && v.challenge == Some(c))
    ensures WithApproval(v, keyId, d, c).Sound()
  {
    var more := v.approvals[keyId := Approval(d, c)];
    assert more.Keys == v.approvals.Keys + {keyId};
    assert |more| == |more.Keys| && |v.approvals| == |v.approvals.Keys|;
    assert keyId in more;
  }

  lemma ApproveKeeps(views: map<QuorumApproval, View>, inFlight: map<Challenge, QuorumApproval>, burned: set<Challenge>,
                     records: seq<Record>, q: QuorumApproval, keyId: string, d: string, c: Challenge)
    requires Inv(views, inFlight, burned, records) && q in views && views[q].Live()
    requires c !in burned && keyId !in views[q].approvals && |views[q].approvals| < views[q].n
    requires if views[q].challenge.None? then c !in inFlight else views[q].digest == Some(d) && views[q].challenge == Some(c)
    ensures Inv(views[q := WithApproval(views[q], keyId, d, c)], inFlight[c := q], burned, records)
  {
    hide RecordsApart, BurnedOnce;
    var v := WithApproval(views[q], keyId, d, c);
    ApprovalSound(views[q], keyId, d, c);
    SoundUpdate(views, q, v);
    if views[q].challenge.None? {
      FlightBind(views, inFlight, q, v, c);
    } else {
      FlightSame(views, inFlight, q, v);
      assert inFlight[c := q] == inFlight;
    }
    FlightApart(views, inFlight, burned);
    BurnedSame(views, inFlight, inFlight[c := q], burned, q, v);
  }

  lemma FlightApart(views: map<QuorumApproval, View>, inFlight: map<Challenge, QuorumApproval>, burned: set<Challenge>)
    requires BurnedOnce(views, inFlight, burned)
    ensures inFlight.Keys !! burned
  {
  }

  lemma AbandonKeeps(views: map<QuorumApproval, View>, inFlight: map<Challenge, QuorumApproval>, burned: set<Challenge>,
                     records: seq<Record>, q: QuorumApproval)
    requires Inv(views, inFlight, burned, records) && q in views && views[q].Live()
    ensures Inv(views[q := views[q].(abandoned := true)], WithoutHolder(inFlight, q), burned, records)
  {
    hide RecordsApart, BurnedOnce, FlightHeld;
    var v := views[q].(abandoned := true);
    SoundUpdate(views, q, v);
    FlightRelease(views, inFlight, q, v);
    FlightApart(views, inFlight, burned);
    BurnedSame(views, inFlight, WithoutHolder(inFlight, q), burned, q, v);
  }

  lemma FinalizeKeeps(views: map<QuorumApproval, View>, inFlight: map<Challenge, QuorumApproval>, burned: set<Challenge>,
                      records: seq<Record>, q: QuorumApproval, r: Record)
    requires Inv(views, inFlight, burned, records) && q in views && views[q].Live()
    requires |views[q].approvals| >= views[q].m && views[q].challenge.Some? && views[q].digest.Some?
    requires r == Record(views[q].digest.value, views[q].challenge.value, views[q].m, views[q].n, views[q].approvals.Keys)
    ensures Inv(views[q := views[q].(finalized := true)], WithoutHolder(inFlight, q), burned + {r.challenge}, records + [r])
  {
    hide BurnedOnce, FlightHeld;
    var v := views[q].(finalized := true);
    var c := r.challenge;
    assert |r.approvers| == |views[q].approvals|;
    LiveNotBurned(views, inFlight, burned, q);
    SoundUpdate(views, q, v);
    FlightRelease(views, inFlight, q, v);
    FlightApart(views, inFlight, burned);
    OnlyHolder(views, inFlight, q, c);
    BurnedMore(views, inFlight, WithoutHolder(inFlight, q), burned, q, v, c);
  }

  lemma OnlyHolder(views: map<QuorumApproval, View>, inFlight: map<Challenge, QuorumApproval>, q: QuorumApproval, c: Challenge)
    requires FlightHeld(views, inFlight) && c in inFlight && inFlight[c] == q
    ensures c !in WithoutHolder(inFlight, q)
  {
  }

  // ----- the objects -----

  class Registry {
    var burned: set<Challenge>
    var inFlight: map<Challenge, QuorumApproval>
    /** Every quorum made so far as it stands now, and every record signed so far. */
    ghost var views: map<QuorumApproval, View>
    ghost var records: seq<Record>

    ghost predicate Valid()
      reads this, views.Keys
    {
      UpToDate() && Inv(views, inFlight, burned, records)
    }

    ghost predicate UpToDate()
      reads this, views.Keys
    {
      forall q <- views :: views[q] == q.Now()
    }

    constructor ()
      ensures Valid() && views == map[] && records == [] && burned == {} && inFlight == map[]
    {
      burned, inFlight, views, records := {}, map[], map[], [];
    }

    /** A new quorum, or null for a shape that makes no sense. */
    method Open(m: int, n: int) returns (q: QuorumApproval?)
      requires Valid()
      modifies this`views
      ensures Valid()
      ensures q == null <==> !(1 <= m <= n)
      ensures q == null ==> views == old(views)
      ensures q != null ==> fresh(q) && views == old(views)[q := View(m, n, map[], None, None, false, false)]
    {
      hide Inv;
      if m < 1 || n < 1 || m > n { return null; }
      var made := new QuorumApproval(m, n);
      OpenKeeps(views, inFlight, burned, records, made, made.Now());
      views := views[made := made.Now()];
      q := made;
    }
  }

  class QuorumApproval {
    const m: nat
    const n: nat
    var approvals: map<string, Approval>
    var digest: Option<string>
    var challenge: Option<Challenge>
    var finalized: bool
    var abandoned: bool

    ghost function Now(): View
      reads this
    {
      View(m, n, approvals, digest, challenge, finalized, abandoned)
    }

    constructor (m: nat, n: nat)
      requires 1 <= m <= n
      ensures Now() == View(m, n, map[], None, None, false, false)
    {
      this.m, this.n := m, n;
      approvals, digest, challenge, finalized, abandoned := map[], None, None, false, false;
    }

    /** When an approval is recorded. */
    ghost predicate Admissible(reg: Registry, c: Challenge, d: string, keyId: Option<string>, bound: bool)
      reads this, reg
    {
      |c| == 32 && d != "" && !finalized && !abandoned && c !in reg.burned && keyId.Some? && bound &&
      keyId.value !in approvals && |approvals| < n &&
      if challenge.None? then c !in reg.inFlight else digest == Some(d) && challenge == Some(c)
    }

    /** The refusals of an approval, in the order they are made. */
    method Refuses(reg: Registry, c: Challenge, d: string, keyId: Option<string>, bound: bool) returns (no: bool)
      requires digest.Some? <==> challenge.Some?
      ensures no == !Admissible(reg, c, d, keyId, bound)
    {
      if |c| != 32 { return true; }
      if d == "" { return true; }
      if finalized { return true; }
      if abandoned { return true; }
      if c in reg.burned { return true; }
      if keyId.None? { return true; }
      if !bound { return true; }
      if keyId.value in approvals { return true; }
      if digest.None? {
        if c in reg.inFlight { return true; }
      } else if digest != Some(d) || challenge != Some(c) {
        return true;
      }
      no := |approvals| >= n;  // a first approval always finds room
    }

    /** `keyId` is who the authenticator says approved, None if the assertion does not verify; `bound` says
        whether a binding authenticator's assertion carries this digest. */
    method Approve(reg: Registry, c: Challenge, d: string, keyId: Option<string>, bound: bool) returns (ok: bool)
      requires reg.Valid() && this in reg.views
      modifies this`approvals, this`digest, this`challenge, reg`inFlight, reg`views
      ensures reg.Valid()
      ensures ok <==>
              |c| == 32 && d != "" && !old(finalized) && !old(abandoned) && c !in old(reg.burned) && keyId.Some? && bound &&
              keyId.value !in old(approvals) && |old(approvals)| < n &&
              if old(challenge).None? then c !in old(reg.inFlight) else old(digest) == Some(d) && old(challenge) == Some(c)
      ensures reg.views == if ok then old(reg.views)[this := WithApproval(old(Now()), keyId.value, d, c)] else old(reg.views)
      ensures reg.inFlight == if ok then old(reg.inFlight)[c := this] else old(reg.inFlight)
    {
      hide Inv, View.Sound;
      SoundAndApart(reg);
      var no := Refuses(reg, c, d, keyId, bound);
      if no { return false; }
      ApproveKeeps(reg.views, reg.inFlight, reg.burned, reg.records, this, keyId.value, d, c);
      if digest.None? {
        reg.inFlight := reg.inFlight[c := this];
        digest, challenge := Some(d), Some(c);
      } else {
        assert reg.inFlight[c := this] == reg.inFlight;
      }
      approvals := approvals[keyId.value := Approval(d, c)];
      reg.views := reg.views[this := Now()];
      ok := true;
    }

    /** For a sound quorum agreement on digest and challenge is never in question: what counts is the
        number of approvers. */
    method IsSatisfied() returns (ok: bool)
      requires Now().Sound()
      ensures ok <==> !abandoned && |approvals| >= m
    {
      if abandoned { return false; }
      if |approvals| < m { return false; }
      var digests := set k | k in approvals :: approvals[k].digest;
      var challenges := set k | k in approvals :: approvals[k].challenge;
      var someone :| someone in approvals;
      assert digests == {digest.value} && challenges == {challenge.value};
      ok := |digests| == 1 && |challenges| == 1;
    }

    method Abandon(reg: Registry) returns (ok: bool)
      requires reg.Valid() && this in reg.views
      modifies this`abandoned, reg`inFlight, reg`views
      ensures reg.Valid() && ok == !finalized
      ensures reg.views == if ok then old(reg.views)[this := old(Now()).(abandoned := true)] else old(reg.views)
      ensures reg.inFlight == if ok && !old(abandoned) then WithoutHolder(old(reg.inFlight), this) else old(reg.inFlight)
    {
      hide Inv, View.Sound;
      assert reg.views[this] == Now();
      if finalized { return false; }
      if abandoned {
        assert old(reg.views)[this := old(Now()).(abandoned := true)] == old(reg.views);
        return true;
      }
      AbandonKeeps(reg.views, reg.inFlight, reg.burned, reg.records, this);
      abandoned := true;
      reg.inFlight := map c | c in reg.inFlight && reg.inFlight[c] != this :: reg.inFlight[c];
      reg.views := reg.views[this := Now()];
      ok := true;
    }

    /** Signs the decision, burns the challenge and seals the quorum, or changes nothing. */
    method Finalize(reg: Registry) returns (r: Option<Record>)
      requires reg.Valid() && this in reg.views
      modifies this`finalized, reg`inFlight, reg`burned, reg`records, reg`views
      ensures reg.Valid()
      ensures r.Some? <==> !old(finalized) && !abandoned && |approvals| >= m
      ensures r.None? ==> reg.views == old(reg.views) && reg.burned == old(reg.burned) &&
                          reg.records == old(reg.records) && reg.inFlight == old(reg.inFlight)
      ensures r.Some? ==>
                challenge.Some? && digest.Some? && r.value == Record(digest.value, challenge.value, m, n, approvals.Keys) &&
                challenge.value !in old(reg.burned) && reg.burned == old(reg.burned) + {challenge.value} &&
                reg.records == old(reg.records) + [r.value] &&
                reg.inFlight == WithoutHolder(old(reg.inFlight), this) &&
                reg.views == old(reg.views)[this := old(Now()).(finalized := true)]
    {
      hide Inv, View.Sound;
      SoundAndApart(reg);
      if finalized { return None; }
      if abandoned { return None; }
      var satisfied := IsSatisfied();
      if !satisfied { return None; }
      var record := Record(digest.value, challenge.value, m, n, approvals.Keys);
      FinalizeKeeps(reg.views, reg.inFlight, reg.burned, reg.records, this, record);
      reg.burned := reg.burned + {challenge.value};
      reg.inFlight := map c | c in reg.inFlight && reg.inFlight[c] != this :: reg.inFlight[c];
      finalized := true;
      reg.records := reg.records + [record];
      reg.views := reg.views[this := Now()];
      r := Some(record);
    }

    lemma SoundAndApart(reg: Registry)
      requires reg.Valid() && this in reg.views
      ensures Now().Sound() && reg.views[this] == Now()
      ensures (digest.Some? <==> challenge.Some?) && m >= 1 && (approvals != map[] ==> challenge.Some?)
      ensures !finalized && !abandoned && challenge.Some? ==> challenge.value !in reg.burned
      ensures !finalized && !abandoned && challenge.Some? ==> challenge.value in reg.inFlight && reg.inFlight[challenge.value] == this
    {
      hide FlightHeld, BurnedOnce, RecordsApart;
      assert reg.views[this] == Now();
      if Now().Live() && challenge.Some? { LiveNotBurned(reg.views, reg.inFlight, reg.burned, this); }
    }
  }
}
