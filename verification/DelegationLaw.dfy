/** Delegation spelled out: which chains verify, which hops can be minted, and what a scope allows. */
module DelegationLaws {
  import opened Wrappers
  import opened DelegationChains

  /** The resource is the prefix or lies behind it and a slash; the empty prefix covers everything. */
  ghost predicate Behind(resource: string, prefix: string) {
    prefix == "" || resource == prefix || exists rest: string :: resource == prefix + "/" + rest
  }

  lemma BehindIff(resource: string, prefix: string)
    ensures IsSubPrefix(resource, prefix) <==> Behind(resource, prefix)
  {
    SubPrefixIsWithin(resource, prefix);
    if prefix + ['/'] <= resource {
      assert resource == prefix + "/" + resource[|prefix| + 1..];
    }
    if Behind(resource, prefix) && prefix != "" && resource != prefix {
      var rest: string :| resource == prefix + "/" + rest;
      assert prefix + ['/'] <= resource;
    }
  }

  ghost predicate BehindOne(resource: string, prefixes: seq<string>) {
    exists i | 0 <= i < |prefixes| :: Behind(resource, prefixes[i])
  }

  lemma BehindOneIff(resource: string, prefixes: seq<string>)
    ensures Covered(resource, prefixes) <==> BehindOne(resource, prefixes)
  {
    hide Behind, IsSubPrefix;
    if Covered(resource, prefixes) {
      var p :| p in prefixes && IsSubPrefix(resource, p);
      BehindIff(resource, p);
      var i :| 0 <= i < |prefixes| && prefixes[i] == p;
    }
    if i :| 0 <= i < |prefixes| && Behind(resource, prefixes[i]) {
      BehindIff(resource, prefixes[i]);
      assert prefixes[i] in prefixes;
    }
  }

  /** A scope allows an action it lists on what lies behind one of its prefixes. */
  lemma AllowsExactly(scope: Scope, action: string, resource: string)
    ensures Allows(scope, action, resource) <==> action in scope.actions && BehindOne(resource, scope.prefixes)
  {
    BehindOneIff(resource, scope.prefixes);
  }

  /** No action, no prefix and no fewer caveats than the parent has. */
  ghost predicate WithinScope(child: Scope, parent: Scope) {
    (forall a | a in child.actions :: a in parent.actions) &&
    (forall p | p in child.prefixes :: BehindOne(p, parent.prefixes)) &&
    forall c | c in parent.caveats :: c in child.caveats
  }

  lemma WithinScopeIff(child: Scope, parent: Scope)
    ensures Narrower(child, parent) <==> WithinScope(child, parent)
  {
    hide BehindOne, Covered;
    forall p | p in child.prefixes ensures Covered(p, parent.prefixes) <==> BehindOne(p, parent.prefixes) {
      BehindOneIff(p, parent.prefixes);
    }
  }

  /** Every receipt is signed by the key registered for the id its envelope names and is within its window, no id or hash
      comes twice, the first is a root receipt of an authority, and every other is signed and delegated by the one the
      receipt before went to, names it by hash, is one deeper, and is no wider in anything. */
  ghost predicate WholeChain(H: Hasher, chain: seq<Envelope>, trust: Trust, now: real) {
    chain != [] &&
    (forall i | 0 <= i < |chain| ::
       chain[i].keyId in trust.registry && trust.registry[chain[i].keyId] == chain[i].signedBy &&
       chain[i].receipt.notBefore <= now && now <= chain[i].receipt.expiresAt) &&
    (forall i, j | 0 <= i < j < |chain| :: chain[i].receipt.id != chain[j].receipt.id && H(chain[i]) != H(chain[j])) &&
    chain[0].keyId in trust.authorities && chain[0].receipt.delegator == chain[0].keyId &&
    chain[0].receipt.depth == 0 && chain[0].receipt.parentHash == None &&
    forall i | 0 < i < |chain| :: Handed(H, chain[i - 1], chain[i], i)
  }

  ghost predicate Handed(H: Hasher, prev: Envelope, e: Envelope, depth: nat) {
    var p, r := prev.receipt, e.receipt;
    e.keyId == p.delegatee && r.delegator == p.delegatee && r.parentHash == Some(H(prev)) &&
    r.depth == depth && r.depth <= r.maxDepth && r.maxDepth <= p.maxDepth && WithinScope(r.scope, p.scope) &&
    r.mandate == p.mandate && r.constitution == p.constitution &&
    p.notBefore <= r.notBefore && r.expiresAt <= p.expiresAt
  }

  /** Exactly these chains verify. */
  lemma {:induction false} VerifiesExactly(H: Hasher, chain: seq<Envelope>, trust: Trust, now: real)
    ensures Verifies(H, chain, trust, now) <==> WholeChain(H, chain, trust, now)
  {
    hide Verifies, WholeChain;
    if Verifies(H, chain, trust, now) { VerifiedIsWhole(H, chain, trust, now); }
    if WholeChain(H, chain, trust, now) { WholeVerifies(H, chain, trust, now); }
  }

  lemma VerifiedIsWhole(H: Hasher, chain: seq<Envelope>, trust: Trust, now: real)
    requires Verifies(H, chain, trust, now)
    ensures WholeChain(H, chain, trust, now)
  {
    hide Narrower, WithinScope;
    assert ReceiptOk(H, chain, trust, now, 0);
    forall i | 0 <= i < |chain|
      ensures chain[i].keyId in trust.registry && trust.registry[chain[i].keyId] == chain[i].signedBy
      ensures chain[i].receipt.notBefore <= now && now <= chain[i].receipt.expiresAt
    {
      assert ReceiptOk(H, chain, trust, now, i);
    }
    forall i, j | 0 <= i < j < |chain| ensures chain[i].receipt.id != chain[j].receipt.id && H(chain[i]) != H(chain[j]) {
      assert ReceiptOk(H, chain, trust, now, j);
    }
    forall i | 0 < i < |chain| ensures Handed(H, chain[i - 1], chain[i], i) {
      assert ReceiptOk(H, chain, trust, now, i);
      WithinScopeIff(chain[i].receipt.scope, chain[i - 1].receipt.scope);
    }
  }

  lemma WholeVerifies(H: Hasher, chain: seq<Envelope>, trust: Trust, now: real)
    requires WholeChain(H, chain, trust, now)
    ensures Verifies(H, chain, trust, now)
  {
    hide Narrower, WithinScope;
    Depths(H, chain, trust, now);
    forall i | 0 <= i < |chain| ensures ReceiptOk(H, chain, trust, now, i) {
      if i > 0 {
        assert Handed(H, chain[i - 1], chain[i], i);
        WithinScopeIff(chain[i].receipt.scope, chain[i - 1].receipt.scope);
      }
    }
  }

  lemma Depths(H: Hasher, chain: seq<Envelope>, trust: Trust, now: real)
    requires WholeChain(H, chain, trust, now)
    ensures forall i | 0 <= i < |chain| :: chain[i].receipt.depth == i
  {
    hide WithinScope;
    forall i | 0 < i < |chain| ensures chain[i].receipt.depth == i {
      assert Handed(H, chain[i - 1], chain[i], i);
    }
  }

  // ----- minting -----

  /** A hop is minted exactly by the holder of a receipt, for a scope and a window within it that is not empty, below its depth
      limit and with none greater. */
  lemma DelegateExactly(H: Hasher, parent: Envelope, g: Grant, keyId: string, key: Key)
    ensures var p := parent.receipt;
            var start, end := if g.notBefore.Some? then g.notBefore.value else p.notBefore, if g.expiresAt.Some? then g.expiresAt.value else p.expiresAt;
            var limit := if g.maxDepth.Some? then g.maxDepth.value else p.maxDepth;
            (Delegate(H, parent, g, keyId, key).Some? <==>
             keyId == p.delegatee && WithinScope(g.scope, p.scope) && p.notBefore <= start && end <= p.expiresAt && start < end &&
             p.depth < p.maxDepth && limit <= p.maxDepth) &&
            (Delegate(H, parent, g, keyId, key).Some? ==>
             Delegate(H, parent, g, keyId, key).value ==
             Envelope(keyId, key, Receipt(g.id, Some(H(parent)), p.mandate, p.delegatee, g.delegatee, g.scope, p.depth + 1, limit,
                                          start, end, g.nonce, p.constitution)))
  {
    WithinScopeIff(g.scope, parent.receipt.scope);
  }

  /** A root receipt is minted for any scope, a window that is not empty and a limit that is not negative. */
  lemma IssueExactly(mandate: Digest, constitution: Digest, delegatee: string, scope: Scope, maxDepth: int,
                     notBefore: real, expiresAt: real, keyId: string, key: Key, id: string, nonce: string)
    ensures IssueRoot(mandate, constitution, delegatee, scope, maxDepth, notBefore, expiresAt, keyId, key, id, nonce) ==
            if maxDepth >= 0 && notBefore < expiresAt then
              Some(Envelope(keyId, key, Receipt(id, None, mandate, keyId, delegatee, scope, 0, maxDepth, notBefore, expiresAt, nonce, constitution)))
            else None
  {
  }
}
