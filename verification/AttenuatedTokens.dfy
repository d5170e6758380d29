/** Attenuated tokens: caveats, when one is no weaker than another, and chains of tokens that only narrow. */
module AttenuatedTokens {
  import opened Wrappers

  type Key(==, !new)
  type Digest(==, !new)

  const TOKEN_VERSION: int := 2
  const MAX_CHAIN_DEPTH: nat := 8

  // ----- prefixes -----

  predicate IsPrefixAtBoundary(prefix: string, value: string) {
    value == prefix ||
    (prefix <= value && (EndsWithSlash(prefix) || (|value| > |prefix| && value[|prefix|] == '/')))
  }

  predicate EndsWithSlash(s: string) {
    s != "" && s[|s| - 1] == '/'
  }

  predicate UrlPrefixOk(allowed: string, url: string) {
    url == allowed || (allowed <= url && |url| > |allowed| && url[|allowed|] in {'/', '?', '#'})
  }

  lemma BoundaryTransitive(a: string, b: string, c: string)
    requires IsPrefixAtBoundary(a, b) && IsPrefixAtBoundary(b, c)
    ensures IsPrefixAtBoundary(a, c)
  {
  }

  // ----- caveats -----

  datatype Caveat =
    | Expiry(at: real)
    | Uses(max: int)
    | HttpAllowlist(hosts: Option<set<string>>, urls: Option<set<string>>)
    | ResourcePrefix(prefix: string)
    | SpendLimit(amount: real, currency: Option<string>)
    | OtherKind(kind: string, params: string)

  predicate SameKind(a: Caveat, b: Caveat) {
    match a
    case Expiry(_) => b.Expiry?
    case Uses(_) => b.Uses?
    case HttpAllowlist(_, _) => b.HttpAllowlist?
    case ResourcePrefix(_) => b.ResourcePrefix?
    case SpendLimit(_, _) => b.SpendLimit?
    case OtherKind(kind, _) => b.OtherKind? && b.kind == kind
  }

  /** What minting insists on. */
  predicate Mintable(c: Caveat) {
    match c
    case Uses(max) => max >= 1
    case HttpAllowlist(hosts, urls) =>
      (hosts.GetOr({}) != {} || urls.GetOr({}) != {}) && "" !in hosts.GetOr({}) && "" !in urls.GetOr({})
    case ResourcePrefix(prefix) => prefix != ""
    case SpendLimit(amount, currency) => amount >= 0.0 && currency != Some("")
    case OtherKind(_, _) => false
    case Expiry(_) => true
  }

  /** A value of the invocation context: missing, of some type, or of a type no caveat accepts. */
  datatype Arg = Absent | Text(s: string) | Whole(n: int) | Number(r: real) | Odd

  datatype Context = Context(host: Arg, url: Arg, resource: Arg, amount: Arg, currency: Arg, consumed: Arg)

  predicate UsesLeft(max: int, consumed: Arg) {
    match consumed
    case Absent => 0 < max
    case Whole(n) => n < max
    case _ => false
  }

  predicate AmountWithin(amount: Arg, limit: real) {
    match amount
    case Whole(n) => n as real <= limit
    case Number(r) => r <= limit
    case _ => false
  }

  /** Whether a caveat holds.  `resource` is that of the token; the context's own takes its place. */
  predicate Holds(c: Caveat, resource: string, ctx: Context, now: real, used: Option<set<string>>) {
    match c
    case Expiry(at) => now <= at
    case Uses(max) => if max == 1 then used.Some? else UsesLeft(max, ctx.consumed)
    case HttpAllowlist(hosts, urls) =>
      (hosts.Some? ==> ctx.host.Text? && ctx.host.s in hosts.value) &&
      (urls.Some? ==> ctx.url.Text? && exists a :: a in urls.value && UrlPrefixOk(a, ctx.url.s))
    case ResourcePrefix(prefix) =>
      var target := if ctx.resource.Absent? then Text(resource) else ctx.resource;
      target.Text? && IsPrefixAtBoundary(prefix, target.s)
    case SpendLimit(limit, currency) =>
      AmountWithin(ctx.amount, limit) && (currency.Some? ==> ctx.currency == Text(currency.value))
    case OtherKind(_, _) => false
  }

  /** The check that `child` is no weaker than `parent`, for caveats of one kind. */
  predicate Subsumed(parent: Caveat, child: Caveat)
    requires SameKind(parent, child)
  {
    match parent
    case Expiry(at) => child.at <= at
    case Uses(max) => child.max <= max
    case HttpAllowlist(hosts, urls) =>
      (hosts.Some? ==> child.hosts.Some? && child.hosts.value <= hosts.value) &&
      (urls.Some? ==> child.urls.Some? && child.urls.value <= urls.value)
    case ResourcePrefix(prefix) => IsPrefixAtBoundary(prefix, child.prefix)
    case SpendLimit(limit, currency) => (currency.Some? ==> child.currency == currency) && child.amount <= limit
    case OtherKind(_, params) => child.params == params
  }

  /** Where the check is not semantic: the limit of one use is judged by the nonce set, any other by the
      count, so one says nothing about the other. */
  predicate DifferentCounts(parent: Caveat, child: Caveat) {
    parent.Uses? && child.Uses? && (parent.max == 1) != (child.max == 1)
  }

  /** A caveat that passes the check and holds makes the parent's hold. */
  lemma {:induction false} SubsumedHolds(parent: Caveat, child: Caveat, resource: string, ctx: Context, now: real, used: Option<set<string>>)
    requires SameKind(parent, child) && Subsumed(parent, child)
    requires !DifferentCounts(parent, child)
    requires Holds(child, resource, ctx, now, used)
    ensures Holds(parent, resource, ctx, now, used)
  {
    match parent
    case ResourcePrefix(prefix) =>
      var target := if ctx.resource.Absent? then Text(resource) else ctx.resource;
      BoundaryTransitive(prefix, child.prefix, target.s);
    case HttpAllowlist(_, urls) =>
      if urls.Some? {
        var a :| a in child.urls.value && UrlPrefixOk(a, ctx.url.s);
        assert a in urls.value;
      }
    case _ =>
  }

  /** The check means that holding carries over in every situation exactly outside that case, for caveats
      with any parameters: verification does not repeat the checks made when minting. */
  lemma {:induction false} SubsumptionIsSemantic(parent: Caveat, child: Caveat)
    requires SameKind(parent, child) && Subsumed(parent, child)
    ensures (forall resource, ctx, now, used ::
               Holds(child, resource, ctx, now, used) ==> Holds(parent, resource, ctx, now, used)) <==>
            !DifferentCounts(parent, child)
  {
    if !DifferentCounts(parent, child) {
      forall resource, ctx, now, used | Holds(child, resource, ctx, now, used)
        ensures Holds(parent, resource, ctx, now, used)
      {
        SubsumedHolds(parent, child, resource, ctx, now, used);
      }
    } else {
      var ctx := Context(Absent, Absent, Absent, Absent, Absent, Whole(if child.max == 1 then parent.max else child.max - 1));
      var used: Option<set<string>> := if child.max == 1 then Some({}) else None;
      assert Holds(child, "", ctx, 0.0, used) && !Holds(parent, "", ctx, 0.0, used);
    }
  }

  /** Among caveats that minting lets through the exception is a single use under a limit of several. */
  lemma MintedSemantic(parent: Caveat, child: Caveat)
    requires SameKind(parent, child) && Mintable(parent) && Mintable(child) && Subsumed(parent, child)
    ensures (forall resource, ctx, now, used ::
               Holds(child, resource, ctx, now, used) ==> Holds(parent, resource, ctx, now, used)) <==>
            !(parent.Uses? && child.max == 1 && parent.max > 1)
  {
    SubsumptionIsSemantic(parent, child);
  }

  lemma SubsumedTransitive(a: Caveat, b: Caveat, c: Caveat)
    requires SameKind(a, b) && SameKind(b, c) && Subsumed(a, b) && Subsumed(b, c)
    ensures SameKind(a, c) && Subsumed(a, c)
  {
    if a.ResourcePrefix? { BoundaryTransitive(a.prefix, b.prefix, c.prefix); }
  }

  // ----- tokens -----

  datatype Payload = Payload(
    version: int, capabilityId: string, issuer: string, subject: string, audience: string, action: string,
    resource: string, parametersHash: Digest, caveats: seq<Caveat>, notBefore: real, expiresAt: real,
    nonce: string, parentHash: Option<Digest>, constitution: Digest)

  /** The key id the envelope names and the key that really signed it. */
  datatype Envelope = Envelope(keyId: string, signedBy: Key, payload: Payload)

  datatype HolderProof = HolderProof(signedBy: Key, capabilityId: string, nonce: string)

  /** A token's hash covers its payload. */
  type Hasher = Payload -> Digest

  /** Every parent caveat is matched, and every caveat that matches it is no weaker. */
  predicate CaveatsKept(child: seq<Caveat>, parent: seq<Caveat>) {
    forall p <- parent ::
      (exists c :: c in child && SameKind(p, c)) && forall c <- child | SameKind(p, c) :: Subsumed(p, c)
  }

  predicate Subsumes(child: Payload, parent: Payload) {
    child.action == parent.action &&
    IsPrefixAtBoundary(parent.resource, child.resource) &&
    child.audience == parent.audience &&
    child.expiresAt <= parent.expiresAt && parent.notBefore <= child.notBefore &&
    child.parametersHash == parent.parametersHash && child.constitution == parent.constitution &&
    CaveatsKept(child.caveats, parent.caveats)
  }

  lemma {:induction false} CaveatsKeptTransitive(a: seq<Caveat>, b: seq<Caveat>, c: seq<Caveat>)
    requires CaveatsKept(a, b) && CaveatsKept(b, c)
    ensures CaveatsKept(a, c)
  {
    forall p <- c
      ensures (exists x :: x in a && SameKind(p, x)) && forall x <- a | SameKind(p, x) :: Subsumed(p, x)
    {
      var m :| m in b && SameKind(p, m);
      var y :| y in a && SameKind(m, y);
      assert SameKind(p, y);
      forall x <- a | SameKind(p, x) ensures Subsumed(p, x) {
        assert SameKind(m, x);
        SubsumedTransitive(p, m, x);
      }
    }
  }

  lemma {:induction false} SubsumesTransitive(a: Payload, b: Payload, c: Payload)
    requires Subsumes(a, b) && Subsumes(b, c)
    ensures Subsumes(a, c)
  {
    BoundaryTransitive(c.resource, b.resource, a.resource);
    CaveatsKeptTransitive(a.caveats, b.caveats, c.caveats);
  }

  /** What a caller brings to verification. */
  datatype Request = Request(
    trusted: map<string, Key>, used: Option<set<string>>, chain: map<Digest, Envelope>,
    proofs: map<string, HolderProof>, holders: map<string, Key>, parametersHash: Digest, context: Context,
    audience: Option<string>, now: real)

  /** The checks of one token that do not look at its parent. */
  predicate TokenOk(e: Envelope, proof: HolderProof, req: Request) {
    var p := e.payload;
    e.keyId in req.trusted && req.trusted[e.keyId] == e.signedBy &&
    p.version == TOKEN_VERSION && p.issuer == e.keyId &&
    (req.audience.Some? ==> p.audience == req.audience.value) &&
    p.notBefore <= req.now <= p.expiresAt &&
    (req.used.Some? ==> p.nonce !in req.used.value) &&
    p.subject in req.holders && proof == HolderProof(req.holders[p.subject], p.capabilityId, p.nonce) &&
    p.parametersHash == req.parametersHash &&
    forall c <- p.caveats :: Holds(c, p.resource, req.context, req.now, req.used)
  }

  /** The parent handed over, if its hash is the one named; else whatever the caller's table has under
      that hash. */
  function FindParent(H: Hasher, hash: Digest, given: Option<Envelope>, req: Request): Option<Envelope> {
    if given.Some? && H(given.value.payload) == hash then given
    else if hash in req.chain then Some(req.chain[hash])
    else None
  }

  /** The payloads of the verified chain, the token's own first. */
  function Verify(H: Hasher, e: Envelope, proof: HolderProof, given: Option<Envelope>, req: Request, depth: nat): (r: Option<seq<Payload>>)
    ensures r.Some? ==> r.value != [] && r.value[0] == e.payload
    decreases MAX_CHAIN_DEPTH + 1 - depth
  {
    if depth > MAX_CHAIN_DEPTH || !TokenOk(e, proof, req) then None
    else if e.payload.parentHash.None? then Some([e.payload])
    else
      match FindParent(H, e.payload.parentHash.value, given, req)
      case None => None
      case Some(parent) =>
        if parent.payload.capabilityId !in req.proofs then None
        else
          match Verify(H, parent, req.proofs[parent.payload.capabilityId], None, req, depth + 1)
          case None => None
          case Some(ancestors) =>
            if Subsumes(e.payload, ancestors[0]) then Some([e.payload] + ancestors) else None
  }

  lemma VerifiedFirst(H: Hasher, e: Envelope, proof: HolderProof, given: Option<Envelope>, req: Request, depth: nat)
    requires Verify(H, e, proof, given, req, depth).Some?
    ensures depth <= MAX_CHAIN_DEPTH && PayloadOk(e.payload, req)
    ensures e.payload.parentHash.None? ==> Verify(H, e, proof, given, req, depth) == Some([e.payload])
  {
  }

  /** The parent that was found, and the proof it was verified with. */
  lemma VerifiedRest(H: Hasher, e: Envelope, proof: HolderProof, given: Option<Envelope>, req: Request, depth: nat)
    returns (parent: Envelope, proof': HolderProof)
    requires Verify(H, e, proof, given, req, depth).Some? && e.payload.parentHash.Some?
    ensures FindParent(H, e.payload.parentHash.value, given, req) == Some(parent)
    ensures Verify(H, parent, proof', None, req, depth + 1).Some? && Subsumes(e.payload, parent.payload)
    ensures Verify(H, e, proof, given, req, depth).value ==
            [e.payload] + Verify(H, parent, proof', None, req, depth + 1).value
  {
    hide Subsumes, FindParent, TokenOk;
    parent := FindParent(H, e.payload.parentHash.value, given, req).value;
    proof' := req.proofs[parent.payload.capabilityId];
  }

  /** Every token of an accepted chain is narrower than every ancestor: same action, audience, parameters
      and constitution, nested windows and resources, no caveat lost or weakened.  Each holds now, all
      their caveats hold, and there are at most MAX_CHAIN_DEPTH + 1 of them. */
  lemma {:induction false} ChainNarrows(H: Hasher, e: Envelope, proof: HolderProof, given: Option<Envelope>, req: Request, depth: nat)
    requires Verify(H, e, proof, given, req, depth).Some?
    ensures var ps := Verify(H, e, proof, given, req, depth).value;
            |ps| <= MAX_CHAIN_DEPTH + 1 - depth && ps[|ps| - 1].parentHash == None &&
            (forall i | 0 <= i < |ps| :: PayloadOk(ps[i], req)) &&
            forall i, j | 0 <= i < j < |ps| :: Subsumes(ps[i], ps[j])
    decreases MAX_CHAIN_DEPTH + 1 - depth
  {
    hide Verify, Subsumes, FindParent;
    VerifiedFirst(H, e, proof, given, req, depth);
    if e.payload.parentHash.Some? {
      var parent, p' := VerifiedRest(H, e, proof, given, req, depth);
      ChainNarrows(H, parent, p', None, req, depth + 1);
      var rest := Verify(H, parent, p', None, req, depth + 1).value;
      var ps := Verify(H, e, proof, given, req, depth).value;
      forall i, j | 0 <= i < j < |ps| ensures Subsumes(ps[i], ps[j]) {
        if i == 0 {
          if j > 1 {
            assert Subsumes(rest[0], rest[j - 1]);
            SubsumesTransitive(e.payload, rest[0], rest[j - 1]);
          }
        } else {
          assert Subsumes(rest[i - 1], rest[j - 1]);
        }
      }
      forall i | 0 <= i < |ps| ensures PayloadOk(ps[i], req) {
        if i > 0 { assert PayloadOk(rest[i - 1], req); }
      }
    }
  }

  /** What an enforcement point learns of each token of the chain. */
  predicate PayloadOk(p: Payload, req: Request) {
    p.issuer in req.trusted &&
    p.notBefore <= req.now <= p.expiresAt && p.parametersHash == req.parametersHash &&
    (req.audience.Some? ==> p.audience == req.audience.value) &&
    (req.used.Some? ==> p.nonce !in req.used.value) &&
    forall c <- p.caveats :: Holds(c, p.resource, req.context, req.now, req.used)
  }

  /** The parent found for a hash really has it: it was handed over, or the table keeps it under its own hash. */
  predicate HonestLink(H: Hasher, hash: Digest, given: Option<Envelope>, req: Request) {
    (given.Some? && H(given.value.payload) == hash) || (hash in req.chain ==> H(req.chain[hash].payload) == hash)
  }

  /** Every link that verification follows is honest. */
  predicate HonestWalk(H: Hasher, e: Envelope, given: Option<Envelope>, req: Request, depth: nat)
    decreases MAX_CHAIN_DEPTH + 1 - depth
  {
    depth > MAX_CHAIN_DEPTH || e.payload.parentHash.None? ||
    (HonestLink(H, e.payload.parentHash.value, given, req) &&
     var parent := FindParent(H, e.payload.parentHash.value, given, req);
     parent.Some? ==> HonestWalk(H, parent.value, None, req, depth + 1))
  }

  predicate AllNamed(H: Hasher, ps: seq<Payload>) {
    forall i | 0 <= i < |ps| - 1 :: ps[i].parentHash == Some(H(ps[i + 1]))
  }

  lemma AllNamedCons(H: Hasher, p: Payload, rest: seq<Payload>)
    requires rest != []
    ensures AllNamed(H, [p] + rest) <==> p.parentHash == Some(H(rest[0])) && AllNamed(H, rest)
  {
    var ps := [p] + rest;
    if AllNamed(H, ps) {
      assert ps[0].parentHash == Some(H(ps[1]));
      forall i | 0 <= i < |rest| - 1 ensures rest[i].parentHash == Some(H(rest[i + 1])) {
        assert ps[i + 1].parentHash == Some(H(ps[i + 2]));
      }
    }
  }

  /** The table is the caller's and its hashes are not checked: every token of an accepted chain names the
      next by its hash exactly when every link that was followed is honest. */
  lemma {:induction false} ParentsAreNamed(H: Hasher, e: Envelope, proof: HolderProof, given: Option<Envelope>, req: Request, depth: nat)
    requires Verify(H, e, proof, given, req, depth).Some?
    ensures AllNamed(H, Verify(H, e, proof, given, req, depth).value) <==> HonestWalk(H, e, given, req, depth)
    decreases MAX_CHAIN_DEPTH + 1 - depth
  {
    hide Verify, Subsumes, AllNamed;
    VerifiedFirst(H, e, proof, given, req, depth);
    if e.payload.parentHash.Some? {
      var parent, p' := VerifiedRest(H, e, proof, given, req, depth);
      ParentsAreNamed(H, parent, p', None, req, depth + 1);
      AllNamedCons(H, e.payload, Verify(H, parent, p', None, req, depth + 1).value);
    } else {
      AllNamedOne(H, e.payload);
    }
  }

  lemma AllNamedOne(H: Hasher, p: Payload)
    ensures AllNamed(H, [p])
  {
  }

  /** A table with a token under a hash that is not its own: the chain is accepted, and its tokens do not
      name each other. */
  lemma WrongEntryAccepted(H: Hasher, child: Envelope, parent: Envelope, proof: HolderProof, req: Request)
    requires TokenOk(child, proof, req) && parent.payload.parentHash == None && Subsumes(child.payload, parent.payload)
    requires parent.payload.capabilityId in req.proofs && TokenOk(parent, req.proofs[parent.payload.capabilityId], req)
    requires child.payload.parentHash.Some? && child.payload.parentHash.value != H(parent.payload)
    requires req.chain == map[child.payload.parentHash.value := parent]
    ensures Verify(H, child, proof, None, req, 0) == Some([child.payload, parent.payload])
    ensures !AllNamed(H, [child.payload, parent.payload])
  {
    hide TokenOk, Subsumes;
    var p := req.proofs[parent.payload.capabilityId];
    assert Verify(H, parent, p, None, req, 1) == Some([parent.payload]);
    assert [child.payload] + [parent.payload] == [child.payload, parent.payload];
    assert [child.payload, parent.payload][0].parentHash != Some(H([child.payload, parent.payload][1]));
  }

  // ----- attenuation -----

  datatype Narrowing = Narrowing(caveats: seq<Caveat>, subject: string, resource: Option<string>,
                                 notBefore: Option<real>, expiresAt: Option<real>)

  function Max(a: real, b: real): real { if a >= b then a else b }
  function Min(a: real, b: real): real { if a <= b then a else b }

  /** The payload `attenuate` signs, or None when it refuses. */
  function Attenuate(H: Hasher, parent: Envelope, n: Narrowing, capabilityId: string, nonce: string, keyId: string, key: Key): Option<Payload> {
    var p := parent.payload;
    var resource := n.resource.GetOr(p.resource);
    var notBefore := Max(n.notBefore.GetOr(p.notBefore), p.notBefore);
    var expiresAt := Min(n.expiresAt.GetOr(p.expiresAt), p.expiresAt);
    if parent.signedBy != key || parent.keyId != keyId then None
    else if exists c :: c in n.caveats && !Mintable(c) then None
    else if !IsPrefixAtBoundary(p.resource, resource) then None
    else if notBefore > expiresAt then None
    else
      var child := Payload(TOKEN_VERSION, capabilityId, keyId, n.subject, p.audience, p.action, resource, p.parametersHash,
                           p.caveats + n.caveats, notBefore, expiresAt, nonce, Some(H(p)), p.constitution);
      if Subsumes(child, p) then Some(child) else None
  }

  /** Two caveats that each pass for the other are the same caveat. */
  lemma SubsumedAntisymmetric(a: Caveat, b: Caveat)
    requires SameKind(a, b) && Subsumed(a, b) && Subsumed(b, a)
    ensures a == b
  {
    match a
    case ResourcePrefix(prefix) =>
      assert prefix <= b.prefix && b.prefix <= prefix;
      assert prefix == b.prefix;
    case HttpAllowlist(hosts, urls) =>
      assert hosts.Some? ==> hosts.value == b.hosts.value;
      assert urls.Some? ==> urls.value == b.urls.value;
    case _ =>
  }

  /** A token says each kind of thing in one way only. */
  predicate OneOfEachKind(caveats: seq<Caveat>) {
    forall p, c | p in caveats && c in caveats && SameKind(p, c) :: p == c
  }

  predicate EachNarrows(added: seq<Caveat>, caveats: seq<Caveat>) {
    forall p, c | p in caveats && c in added && SameKind(p, c) :: Subsumed(p, c)
  }

  /** The child keeps every caveat of the parent word for word, and still the last check of `attenuate`
      can refuse it: each caveat added must be no weaker than the parent's of that kind, and the parent
      must not have two different caveats of one kind. */
  lemma {:induction false} AttenuateExactly(H: Hasher, parent: Envelope, n: Narrowing, capabilityId: string, nonce: string, keyId: string, key: Key)
    requires parent.signedBy == key && parent.keyId == keyId && forall c <- n.caveats :: Mintable(c)
    requires IsPrefixAtBoundary(parent.payload.resource, n.resource.GetOr(parent.payload.resource))
    requires Max(n.notBefore.GetOr(parent.payload.notBefore), parent.payload.notBefore) <=
             Min(n.expiresAt.GetOr(parent.payload.expiresAt), parent.payload.expiresAt)
    ensures Attenuate(H, parent, n, capabilityId, nonce, keyId, key).Some? <==>
            OneOfEachKind(parent.payload.caveats) && EachNarrows(n.caveats, parent.payload.caveats)
  {
    KeptExactly(parent.payload.caveats, n.caveats);
  }

  lemma KeptExactly(caveats: seq<Caveat>, added: seq<Caveat>)
    ensures CaveatsKept(caveats + added, caveats) <==> OneOfEachKind(caveats) && EachNarrows(added, caveats)
  {
    var all := caveats + added;
    assert forall c :: c in all <==> c in caveats || c in added;
    forall p <- caveats ensures exists c :: c in all && SameKind(p, c) {
      assert p in all && SameKind(p, p);
    }
    if CaveatsKept(all, caveats) {
      forall p, c | p in caveats && c in caveats && SameKind(p, c) ensures p == c {
        SubsumedAntisymmetric(p, c);
      }
    } else if OneOfEachKind(caveats) {
      SubsumedReflexive(caveats);
    }
  }

  lemma SubsumedReflexive(caveats: seq<Caveat>)
    ensures forall c <- caveats :: Subsumed(c, c)
  {
  }

  /** A token that expires twice cannot be attenuated, not even by adding nothing. */
  lemma TwoExpiries(H: Hasher, payload: Payload, key: Key)
    requires payload.caveats == [Expiry(10.0), Expiry(20.0)]
    ensures Attenuate(H, Envelope("k", key, payload), Narrowing([], "s", None, None, None), "c", "n", "k", key) == None
  {
    var p := payload.caveats;
    assert p[0] in p && p[1] in p && SameKind(p[0], p[1]);
    assert !OneOfEachKind(p);
    KeptExactly(p, []);
    assert !CaveatsKept(p + [], p);
  }
}
