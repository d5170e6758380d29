/** What the verification of attenuated tokens amounts to: what each caveat says, when one is tighter than another, and
    exactly which chains are accepted, token by token. */
module TokenChains {
  import opened Wrappers
  import opened AttenuatedTokens

  // ----- prefixes -----

  /** The value is the prefix, or goes on behind a slash. */
  ghost predicate Under(prefix: string, value: string) {
    value == prefix ||
    exists rest: string ::
      value == prefix + rest && rest != "" && (rest[0] == '/' || (prefix != "" && prefix[|prefix| - 1] == '/'))
  }

  lemma UnderIff(prefix: string, value: string)
    ensures IsPrefixAtBoundary(prefix, value) <==> Under(prefix, value)
  {
    if prefix <= value && value != prefix {
      assert value == prefix + value[|prefix|..];
    }
    if Under(prefix, value) && value != prefix {
      var rest :| value == prefix + rest && rest != "" && (rest[0] == '/' || (prefix != "" && prefix[|prefix| - 1] == '/'));
      assert value[|prefix|] == rest[0];
    }
  }

  /** The url is the allowed one, or goes on with a path, a query or a fragment. */
  ghost predicate UrlUnder(allowed: string, url: string) {
    url == allowed || exists rest: string :: url == allowed + rest && rest != "" && rest[0] in {'/', '?', '#'}
  }

  lemma UrlUnderIff(allowed: string, url: string)
    ensures UrlPrefixOk(allowed, url) <==> UrlUnder(allowed, url)
  {
    if allowed <= url && url != allowed {
      assert url == allowed + url[|allowed|..];
    }
    if UrlUnder(allowed, url) && url != allowed {
      var rest :| url == allowed + rest && rest != "" && rest[0] in {'/', '?', '#'};
      assert url[|allowed|] == rest[0];
    }
  }

  // ----- caveats -----

  /** Each kind of caveat, in the terms of the invocation. */
  lemma CaveatMeaning(resource: string, ctx: Context, now: real, used: Option<set<string>>)
    ensures forall at: real :: Holds(Expiry(at), resource, ctx, now, used) <==> now <= at
    ensures Holds(Uses(1), resource, ctx, now, used) <==> used.Some?
    ensures forall max: int | max != 1 ::
              Holds(Uses(max), resource, ctx, now, used) <==>
              (ctx.consumed.Absent? && max > 0) || (ctx.consumed.Whole? && ctx.consumed.n < max)
    ensures forall hosts, urls ::
              Holds(HttpAllowlist(hosts, urls), resource, ctx, now, used) <==>
              (hosts.Some? ==> ctx.host.Text? && ctx.host.s in hosts.value) &&
              (urls.Some? ==> ctx.url.Text? && exists a :: a in urls.value && UrlUnder(a, ctx.url.s))
    ensures forall prefix ::
              Holds(ResourcePrefix(prefix), resource, ctx, now, used) <==>
              (ctx.resource.Absent? && Under(prefix, resource)) || (ctx.resource.Text? && Under(prefix, ctx.resource.s))
    ensures forall limit: real, currency ::
              Holds(SpendLimit(limit, currency), resource, ctx, now, used) <==>
              ((ctx.amount.Whole? && ctx.amount.n as real <= limit) || (ctx.amount.Number? && ctx.amount.r <= limit)) &&
              (currency.Some? ==> ctx.currency.Text? && ctx.currency.s == currency.value)
    ensures forall kind, params :: !Holds(OtherKind(kind, params), resource, ctx, now, used)
  {
    forall prefix
      ensures Holds(ResourcePrefix(prefix), resource, ctx, now, used) <==>
              (ctx.resource.Absent? && Under(prefix, resource)) || (ctx.resource.Text? && Under(prefix, ctx.resource.s))
    {
      UnderIff(prefix, resource);
      if ctx.resource.Text? { UnderIff(prefix, ctx.resource.s); }
    }
    if ctx.url.Text? {
      forall a ensures UrlPrefixOk(a, ctx.url.s) <==> UrlUnder(a, ctx.url.s) { UrlUnderIff(a, ctx.url.s); }
    }
  }

  /** For expiries, prefixes and spend limits the check of a child's caveat against the parent's is no more and no less than
      that whatever the child's allows the parent's allows. */
  lemma TighterExactly(parent: Caveat, child: Caveat)
    requires SameKind(parent, child) && (parent.Expiry? || parent.ResourcePrefix? || parent.SpendLimit?)
    ensures Subsumed(parent, child) <==>
            forall resource, ctx, now, used :: Holds(child, resource, ctx, now, used) ==> Holds(parent, resource, ctx, now, used)
  {
    if Subsumed(parent, child) {
      SubsumptionIsSemantic(parent, child);
    } else {
      var ctx := Context(Absent, Absent, Absent, Absent, Absent, Absent);
      match parent
      case Expiry(_) =>
        assert Holds(child, "", ctx, child.at, None) && !Holds(parent, "", ctx, child.at, None);
      case ResourcePrefix(_) =>
        assert Holds(child, child.prefix, ctx, 0.0, None) && !Holds(parent, child.prefix, ctx, 0.0, None);
      case SpendLimit(_, currency) =>
        var other := if currency == Some("") then "x" else "";
        var ctx' := ctx.(amount := Number(child.amount), currency := Text(child.currency.GetOr(other)));
        assert Holds(child, "", ctx', 0.0, None);
        assert !Holds(parent, "", ctx', 0.0, None);
    }
  }

  /** Counts and lists are compared as they stand, other kinds must be the same. */
  lemma OtherTighter(parent: Caveat, child: Caveat)
    requires SameKind(parent, child)
    ensures parent.Uses? ==> (Subsumed(parent, child) <==> child.max <= parent.max)
    ensures parent.HttpAllowlist? ==>
              (Subsumed(parent, child) <==>
               (parent.hosts.Some? ==> child.hosts.Some? && forall h | h in child.hosts.value :: h in parent.hosts.value) &&
               (parent.urls.Some? ==> child.urls.Some? && forall u | u in child.urls.value :: u in parent.urls.value))
    ensures parent.OtherKind? ==> (Subsumed(parent, child) <==> child == parent)
  {
  }

  /** So a url below an allowed one is refused as a narrower list, although it allows nothing more. */
  lemma NarrowerUrlRefused(url: string, path: string)
    requires path != "" && path[0] == '/'
    ensures var parent, child := HttpAllowlist(None, Some({url})), HttpAllowlist(None, Some({url + path}));
            !Subsumed(parent, child) &&
            forall resource, ctx, now, used :: Holds(child, resource, ctx, now, used) ==> Holds(parent, resource, ctx, now, used)
  {
    var parent, child := HttpAllowlist(None, Some({url})), HttpAllowlist(None, Some({url + path}));
    assert url + path in child.urls.value && url + path != url by { assert |url + path| > |url|; }
    forall resource, ctx, now, used | Holds(child, resource, ctx, now, used) ensures Holds(parent, resource, ctx, now, used) {
      assert UrlPrefixOk(url + path, ctx.url.s);
      assert url in parent.urls.value && UrlPrefixOk(url, ctx.url.s) by { assert url <= url + path <= ctx.url.s; }
    }
  }

  // ----- chains -----

  /** The child's authority lies within the parent's, field by field. */
  ghost predicate NarrowedBy(child: Payload, parent: Payload) {
    child.action == parent.action && child.audience == parent.audience &&
    child.parametersHash == parent.parametersHash && child.constitution == parent.constitution &&
    parent.notBefore <= child.notBefore && child.expiresAt <= parent.expiresAt &&
    Under(parent.resource, child.resource) &&
    forall p | p in parent.caveats ::
      (exists c :: c in child.caveats && SameKind(p, c)) &&
      forall c | c in child.caveats && SameKind(p, c) :: Subsumed(p, c)
  }

  lemma NarrowedIff(child: Payload, parent: Payload)
    ensures Subsumes(child, parent) <==> NarrowedBy(child, parent)
  {
    UnderIff(parent.resource, child.resource);
  }

  /** Signed by the key the request trusts for its issuer, current, for this audience, time and invocation, not
      used before, with caveats that hold, and presented by the holder: a proof over its id and nonce by the key the request
      has for its subject. */
  predicate Presentable(e: Envelope, proof: HolderProof, req: Request) {
    var p := e.payload;
    p.version == 2 && p.issuer == e.keyId && p.issuer in req.trusted && e.signedBy == req.trusted[p.issuer] &&
    (req.audience == None || req.audience == Some(p.audience)) &&
    p.notBefore <= req.now && req.now <= p.expiresAt &&
    (req.used == None || p.nonce !in req.used.value) &&
    p.subject in req.holders && proof.signedBy == req.holders[p.subject] &&
    proof.capabilityId == p.capabilityId && proof.nonce == p.nonce &&
    p.parametersHash == req.parametersHash &&
    forall i | 0 <= i < |p.caveats| :: Holds(p.caveats[i], p.resource, req.context, req.now, req.used)
  }

  lemma PresentableIff(e: Envelope, proof: HolderProof, req: Request)
    ensures TokenOk(e, proof, req) <==> Presentable(e, proof, req)
  {
    var p := e.payload;
    if Presentable(e, proof, req) {
      forall c <- p.caveats ensures Holds(c, p.resource, req.context, req.now, req.used) {
        var i :| 0 <= i < |p.caveats| && p.caveats[i] == c;
      }
    }
  }

  /** The parent handed over has the hash that is named; if it does not, the table has the parent under it. */
  predicate Supplied(H: Hasher, hash: Digest, given: Option<Envelope>, req: Request, parent: Envelope) {
    if given.Some? && H(given.value.payload) == hash then parent == given.value
    else hash in req.chain && req.chain[hash] == parent
  }

  /** Tokens from a leaf to a root, each with the proof it is presented with: the one handed over for the leaf, the one
      the request has under its id for an ancestor. */
  ghost predicate ChainOk(H: Hasher, es: seq<Envelope>, proofs: seq<HolderProof>, given: Option<Envelope>, req: Request) {
    |es| == |proofs| && es != [] &&
    (forall i | 0 <= i < |es| :: Presentable(es[i], proofs[i], req)) &&
    (forall i | 0 < i < |es| ::
       es[i].payload.capabilityId in req.proofs && proofs[i] == req.proofs[es[i].payload.capabilityId]) &&
    (forall i | 0 <= i < |es| - 1 ::
       es[i].payload.parentHash.Some? &&
       Supplied(H, es[i].payload.parentHash.value, if i == 0 then given else None, req, es[i + 1]) &&
       NarrowedBy(es[i].payload, es[i + 1].payload)) &&
    es[|es| - 1].payload.parentHash == None
  }

  function Payloads(es: seq<Envelope>): (ps: seq<Payload>)
    ensures |ps| == |es| && forall i | 0 <= i < |es| :: ps[i] == es[i].payload
  {
    seq(|es|, i requires 0 <= i < |es| => es[i].payload)
  }

  lemma ChainOkCons(H: Hasher, e: Envelope, proof: HolderProof, es: seq<Envelope>, proofs: seq<HolderProof>, given: Option<Envelope>, req: Request)
    requires |es| == |proofs| && es != []
    ensures ChainOk(H, [e] + es, [proof] + proofs, given, req) <==>
            Presentable(e, proof, req) && e.payload.parentHash.Some? &&
            Supplied(H, e.payload.parentHash.value, given, req, es[0]) && NarrowedBy(e.payload, es[0].payload) &&
            es[0].payload.capabilityId in req.proofs && proofs[0] == req.proofs[es[0].payload.capabilityId] &&
            ChainOk(H, es, proofs, None, req)
  {
    hide Presentable, Supplied, NarrowedBy;
    var all, ps := [e] + es, [proof] + proofs;
    if ChainOk(H, all, ps, given, req) {
      assert all[0] == e && all[1] == es[0] && ps[1] == proofs[0];
      forall i | 0 <= i < |es| ensures Presentable(es[i], proofs[i], req) {
        assert all[i + 1] == es[i] && ps[i + 1] == proofs[i];
      }
      forall i | 0 < i < |es|
        ensures es[i].payload.capabilityId in req.proofs && proofs[i] == req.proofs[es[i].payload.capabilityId]
      {
        assert all[i + 1] == es[i] && ps[i + 1] == proofs[i];
      }
      forall i | 0 <= i < |es| - 1
        ensures es[i].payload.parentHash.Some? && Supplied(H, es[i].payload.parentHash.value, None, req, es[i + 1])
        ensures NarrowedBy(es[i].payload, es[i + 1].payload)
      {
        assert all[i + 1] == es[i] && all[i + 2] == es[i + 1];
      }
    }
  }

  lemma ChainOkOne(H: Hasher, e: Envelope, proof: HolderProof, given: Option<Envelope>, req: Request)
    ensures ChainOk(H, [e], [proof], given, req) <==> Presentable(e, proof, req) && e.payload.parentHash == None
  {
  }

  lemma {:induction false} AcceptedChain(H: Hasher, e: Envelope, proof: HolderProof, given: Option<Envelope>, req: Request, depth: nat)
    returns (es: seq<Envelope>, proofs: seq<HolderProof>)
    requires Verify(H, e, proof, given, req, depth).Some?
    ensures ChainOk(H, es, proofs, given, req) && es[0] == e && proofs[0] == proof && depth + |es| <= 9
    ensures Verify(H, e, proof, given, req, depth) == Some(Payloads(es))
    decreases 9 - depth
  {
    hide ChainOk, Presentable, NarrowedBy, Subsumes, TokenOk;
    PresentableIff(e, proof, req);
    if e.payload.parentHash.None? {
      es, proofs := [e], [proof];
      ChainOkOne(H, e, proof, given, req);
      assert Payloads(es) == [e.payload];
    } else {
      var parent := FindParent(H, e.payload.parentHash.value, given, req).value;
      var p' := req.proofs[parent.payload.capabilityId];
      NarrowedIff(e.payload, parent.payload);
      var rest, more := AcceptedChain(H, parent, p', None, req, depth + 1);
      SameCount(H, rest, more, None, req);
      ChainOkCons(H, e, proof, rest, more, given, req);
      es, proofs := [e] + rest, [proof] + more;
      assert Payloads(es) == [e.payload] + Payloads(rest);
    }
  }

  lemma SameCount(H: Hasher, es: seq<Envelope>, proofs: seq<HolderProof>, given: Option<Envelope>, req: Request)
    requires ChainOk(H, es, proofs, given, req)
    ensures |es| == |proofs| && es != []
  {
  }

  lemma RootAccepted(H: Hasher, e: Envelope, proof: HolderProof, given: Option<Envelope>, req: Request, depth: nat)
    requires TokenOk(e, proof, req) && e.payload.parentHash == None && depth <= 8
    ensures Verify(H, e, proof, given, req, depth) == Some([e.payload])
  {
    hide TokenOk;
  }

  lemma LinkAccepted(H: Hasher, e: Envelope, proof: HolderProof, given: Option<Envelope>, req: Request, depth: nat, parent: Envelope,
                     ancestors: seq<Payload>)
    requires TokenOk(e, proof, req) && e.payload.parentHash.Some? && depth <= 8
    requires Supplied(H, e.payload.parentHash.value, given, req, parent) && parent.payload.capabilityId in req.proofs
    requires Verify(H, parent, req.proofs[parent.payload.capabilityId], None, req, depth + 1) == Some(ancestors)
    requires Subsumes(e.payload, parent.payload)
    ensures Verify(H, e, proof, given, req, depth) == Some([e.payload] + ancestors)
  {
    hide TokenOk, Subsumes;
  }

  lemma {:induction false} ChainAccepted(H: Hasher, es: seq<Envelope>, proofs: seq<HolderProof>, given: Option<Envelope>, req: Request, depth: nat)
    requires ChainOk(H, es, proofs, given, req) && depth + |es| <= 9
    ensures es != [] && proofs != []
    ensures Verify(H, es[0], proofs[0], given, req, depth) == Some(Payloads(es))
    decreases |es|
  {
    hide ChainOk, Presentable, NarrowedBy, Subsumes, TokenOk, Verify, Supplied, FindParent;
    SameCount(H, es, proofs, given, req);
    var e, proof := es[0], proofs[0];
    PresentableIff(e, proof, req);
    if |es| == 1 {
      assert es == [e] && proofs == [proof];
      ChainOkOne(H, e, proof, given, req);
      RootAccepted(H, e, proof, given, req, depth);
      assert Payloads(es) == [e.payload];
    } else {
      var rest, more := es[1..], proofs[1..];
      assert es == [e] + rest && proofs == [proof] + more;
      ChainOkCons(H, e, proof, rest, more, given, req);
      ChainAccepted(H, rest, more, None, req, depth + 1);
      NarrowedIff(e.payload, rest[0].payload);
      LinkAccepted(H, e, proof, given, req, depth, rest[0], Payloads(rest));
      assert Payloads(es) == [e.payload] + Payloads(rest);
    }
  }

  /** A token is accepted exactly when there is such a chain of at most nine tokens from it to a root. */
  lemma AcceptedExactly(H: Hasher, e: Envelope, proof: HolderProof, given: Option<Envelope>, req: Request)
    ensures Verify(H, e, proof, given, req, 0).Some? <==>
            exists es, proofs :: ChainOk(H, es, proofs, given, req) && es[0] == e && proofs[0] == proof && |es| <= 9
  {
    hide Verify, Presentable, Supplied, NarrowedBy;
    if Verify(H, e, proof, given, req, 0).Some? {
      var es, proofs := AcceptedChain(H, e, proof, given, req, 0);
    }
    if es, proofs :| ChainOk(H, es, proofs, given, req) && es[0] == e && proofs[0] == proof && |es| <= 9 {
      ChainAccepted(H, es, proofs, given, req, 0);
    }
  }

  // ----- minting -----

  /** What minting asks of each kind of caveat. */
  lemma MintRules(c: Caveat)
    ensures Mintable(c) <==>
            match c
            case Expiry(_) => true
            case Uses(max) => max > 0
            case HttpAllowlist(hosts, urls) =>
              ((hosts.Some? && hosts.value != {}) || (urls.Some? && urls.value != {})) &&
              (hosts.Some? ==> forall h | h in hosts.value :: h != "") && (urls.Some? ==> forall u | u in urls.value :: u != "")
            case ResourcePrefix(prefix) => prefix != ""
            case SpendLimit(amount, currency) => amount >= 0.0 && (currency.Some? ==> currency.value != "")
            case OtherKind(_, _) => false
  {
  }

  /** A child names its parent by hash, carries its caveats word for word before the new ones, and takes everything but holder,
      resource, window, id and nonce from it; what the caller asks for can only narrow the window. */
  lemma AttenuatedSays(H: Hasher, parent: Envelope, n: Narrowing, capabilityId: string, nonce: string, keyId: string, key: Key)
    requires Attenuate(H, parent, n, capabilityId, nonce, keyId, key).Some?
    ensures parent.signedBy == key && parent.keyId == keyId && forall i | 0 <= i < |n.caveats| :: Mintable(n.caveats[i])
    ensures var child, p := Attenuate(H, parent, n, capabilityId, nonce, keyId, key).value, parent.payload;
            child.parentHash == Some(H(p)) && child.caveats == p.caveats + n.caveats && child.version == 2 &&
            child.capabilityId == capabilityId && child.nonce == nonce && child.issuer == keyId && child.subject == n.subject &&
            child.resource == (if n.resource.Some? then n.resource.value else p.resource) &&
            (child.notBefore == p.notBefore || n.notBefore == Some(child.notBefore)) &&
            (n.notBefore.Some? ==> n.notBefore.value <= child.notBefore) &&
            (child.expiresAt == p.expiresAt || n.expiresAt == Some(child.expiresAt)) &&
            (n.expiresAt.Some? ==> child.expiresAt <= n.expiresAt.value) &&
            child.notBefore <= child.expiresAt && NarrowedBy(child, p)
  {
    var child := Attenuate(H, parent, n, capabilityId, nonce, keyId, key).value;
    NarrowedIff(child, parent.payload);
    forall i | 0 <= i < |n.caveats| ensures Mintable(n.caveats[i]) {
      assert n.caveats[i] in n.caveats;
    }
  }
}
