/** Delegation chains: every hop may only narrow what it was given, and an enforcement point checks the
    whole chain offline. */
module DelegationChains {
  import opened Wrappers
  import opened Base58

  type Key(==, !new)
  type Digest(==, !new)
  /** The hash by which a caveat is compared; a scope is modelled with these in place of the caveats. */
  type CaveatKey(==, !new)

  datatype Scope = Scope(actions: set<string>, prefixes: seq<string>, caveats: set<CaveatKey>)

  // ----- prefixes at segment boundaries -----

  predicate IsSubPrefix(child: string, parent: string) {
    parent == "" || Split(parent, '/') <= Split(child, '/')
  }

  /** What the segments amount to: the same string, or the parent, a slash, and more. */
  predicate Within(child: string, parent: string) {
    parent == "" || child == parent || (parent + ['/'] <= child)
  }

  /** A character put in front of the first part, or a new part where it is the separator. */
  lemma SplitFirst(c: char, p: seq<string>, q: seq<string>)
    requires p != []
    ensures [[c] + (p + q)[0]] + (p + q)[1..] == [[c] + p[0]] + p[1..] + q
    ensures [[]] + (p + q) == [[]] + p + q
  {
    assert (p + q)[0] == p[0] && (p + q)[1..] == p[1..] + q;
  }

  lemma {:induction false} SplitBoundary(a: string, b: string)
    ensures Split(a + ['/'] + b, '/') == Split(a, '/') + Split(b, '/')
    decreases |a|
  {
    var s := a + ['/'] + b;
    if a == [] {
      assert s[1..] == b;
    } else {
      SplitBoundary(a[1..], b);
      assert s[1..] == a[1..] + ['/'] + b;
      SplitFirst(a[0], Split(a[1..], '/'), Split(b, '/'));
    }
  }

  lemma {:induction false} JoinAppend(p: seq<string>, q: seq<string>)
    requires p != [] && q != []
    ensures Join(p + q, '/') == Join(p, '/') + ['/'] + Join(q, '/')
  {
    if |p| == 1 {
      assert (p + q)[1..] == q;
    } else {
      JoinAppend(p[1..], q);
      assert (p + q)[1..] == p[1..] + q;
      assert p[0] + ['/'] + (Join(p[1..], '/') + ['/'] + Join(q, '/')) == (p[0] + ['/'] + Join(p[1..], '/')) + ['/'] + Join(q, '/');
    }
  }

  /** Comparing segments is the same as looking for the parent followed by a slash. */
  lemma {:induction false} SubPrefixIsWithin(child: string, parent: string)
    ensures IsSubPrefix(child, parent) <==> Within(child, parent)
  {
    var c, p := Split(child, '/'), Split(parent, '/');
    if parent != "" && p <= c {
      JoinSplit(child, '/');
      JoinSplit(parent, '/');
      if |p| == |c| {
        assert p == c;
      } else {
        assert c == p + c[|p|..];
        JoinAppend(p, c[|p|..]);
      }
    }
    if parent + ['/'] <= child {
      var rest := child[|parent| + 1..];
      assert child == parent + ['/'] + rest;
      SplitBoundary(parent, rest);
    }
  }

  lemma SubPrefixTransitive(a: string, b: string, c: string)
    requires IsSubPrefix(a, b) && IsSubPrefix(b, c)
    ensures IsSubPrefix(a, c)
  {
    if b == "" && c != "" {
      SubPrefixIsWithin(b, c);
    }
  }

  // ----- narrowing -----

  predicate Covered(prefix: string, prefixes: seq<string>) {
    exists p :: p in prefixes && IsSubPrefix(prefix, p)
  }

  predicate Narrower(child: Scope, parent: Scope) {
    child.actions <= parent.actions &&
    (forall p <- child.prefixes :: Covered(p, parent.prefixes)) &&
    parent.caveats <= child.caveats
  }

  predicate Allows(scope: Scope, action: string, resource: string) {
    action in scope.actions && Covered(resource, scope.prefixes)
  }

  lemma CoveredTransitive(x: string, ps: seq<string>, qs: seq<string>)
    requires Covered(x, ps) && forall p <- ps :: Covered(p, qs)
    ensures Covered(x, qs)
  {
    var p :| p in ps && IsSubPrefix(x, p);
    assert Covered(p, qs);
    var q :| q in qs && IsSubPrefix(p, q);
    SubPrefixTransitive(x, p, q);
  }

  lemma {:induction false} NarrowerTransitive(a: Scope, b: Scope, c: Scope)
    requires Narrower(a, b) && Narrower(b, c)
    ensures Narrower(a, c)
  {
    forall p <- a.prefixes ensures Covered(p, c.prefixes) {
      CoveredTransitive(p, b.prefixes, c.prefixes);
    }
  }

  lemma NarrowerReflexive(a: Scope)
    ensures Narrower(a, a)
  {
    forall p <- a.prefixes ensures Covered(p, a.prefixes) {
      assert IsSubPrefix(p, p);
    }
  }

  /** A narrower scope allows nothing the wider one does not. */
  lemma NarrowerAllowsLess(child: Scope, parent: Scope, action: string, resource: string)
    requires Narrower(child, parent) && Allows(child, action, resource)
    ensures Allows(parent, action, resource)
  {
    CoveredTransitive(resource, child.prefixes, parent.prefixes);
  }

  // ----- receipts -----

  datatype Receipt = Receipt(
    id: string, parentHash: Option<Digest>, mandate: Digest, delegator: string, delegatee: string,
    scope: Scope, depth: nat, maxDepth: nat, notBefore: real, expiresAt: real, nonce: string, constitution: Digest)

  /** The key id the envelope names and the key that really signed it. */
  datatype Envelope = Envelope(keyId: string, signedBy: Key, receipt: Receipt)

  type Hasher = Envelope -> Digest

  /** What the enforcement point brings along. */
  datatype Trust = Trust(authorities: set<string>, registry: map<string, Key>)

  predicate SignatureValid(e: Envelope, trust: Trust) {
    e.keyId in trust.registry && trust.registry[e.keyId] == e.signedBy
  }

  predicate RootOk(e: Envelope, trust: Trust) {
    e.keyId in trust.authorities && e.receipt.delegator == e.keyId && e.receipt.depth == 0 && e.receipt.parentHash == None
  }

  predicate HopOk(H: Hasher, prev: Envelope, e: Envelope, index: nat) {
    var p, r := prev.receipt, e.receipt;
    e.keyId == p.delegatee && r.delegator == p.delegatee &&
    r.parentHash == Some(H(prev)) &&
    r.depth == index && r.depth == p.depth + 1 &&
    Narrower(r.scope, p.scope) &&
    r.mandate == p.mandate && r.constitution == p.constitution &&
    r.maxDepth <= p.maxDepth && r.depth <= r.maxDepth &&
    p.notBefore <= r.notBefore && r.expiresAt <= p.expiresAt
  }

  predicate LiveAt(r: Receipt, now: real) {
    r.notBefore <= now <= r.expiresAt
  }

  /** Everything that is checked of the receipt at one place. */
  predicate ReceiptOk(H: Hasher, chain: seq<Envelope>, trust: Trust, now: real, i: nat)
    requires i < |chain|
  {
    (forall j | 0 <= j < i :: H(chain[j]) != H(chain[i]) && chain[j].receipt.id != chain[i].receipt.id) &&
    SignatureValid(chain[i], trust) &&
    (if i == 0 then RootOk(chain[0], trust) else HopOk(H, chain[i - 1], chain[i], i)) &&
    LiveAt(chain[i].receipt, now)
  }

  predicate Verifies(H: Hasher, chain: seq<Envelope>, trust: Trust, now: real) {
    chain != [] && forall i | 0 <= i < |chain| :: ReceiptOk(H, chain, trust, now, i)
  }

  datatype Verified = Verified(scope: Scope, depth: nat, length: nat, ancestors: seq<Digest>, holders: seq<string>,
                               mandate: Digest, constitution: Digest, leaf: Digest)

  method VerifyChain(H: Hasher, chain: seq<Envelope>, trust: Trust, now: real) returns (r: Option<Verified>)
    ensures r.Some? <==> Verifies(H, chain, trust, now)
    ensures r.Some? ==>
              r.value.scope == chain[|chain| - 1].receipt.scope && r.value.depth == |chain| - 1 && r.value.length == |chain| &&
              r.value.ancestors == seq(|chain|, i requires 0 <= i < |chain| => H(chain[i])) &&
              r.value.holders == seq(|chain|, i requires 0 <= i < |chain| => chain[i].receipt.delegatee) &&
              r.value.mandate == chain[0].receipt.mandate && r.value.constitution == chain[0].receipt.constitution &&
              r.value.leaf == H(chain[|chain| - 1])
  {
    if chain == [] { return None; }
    var hashes: seq<Digest> := [];
    var holders: seq<string> := [];
    var seenHashes: set<Digest> := {};
    var seenIds: set<string> := {};
    var i := 0;
    while i < |chain|
      invariant 0 <= i <= |chain| && |hashes| == |holders| == i
      invariant forall j | 0 <= j < i :: hashes[j] == H(chain[j]) && holders[j] == chain[j].receipt.delegatee
      invariant seenHashes == set j | 0 <= j < i :: H(chain[j])
      invariant seenIds == set j | 0 <= j < i :: chain[j].receipt.id
      invariant forall j | 0 <= j < i :: ReceiptOk(H, chain, trust, now, j)
    {
      var e := chain[i];
      var h := H(e);
      if h in seenHashes || e.receipt.id in seenIds {
        assert !ReceiptOk(H, chain, trust, now, i);
        return None;
      }
      seenHashes := seenHashes + {h};
      seenIds := seenIds + {e.receipt.id};
      hashes := hashes + [h];
      var ok := CheckPlace(H, e, if i == 0 then None else Some(chain[i - 1]), i, trust, now);
      if !ok {
        assert !ReceiptOk(H, chain, trust, now, i);
        return None;
      }
      holders := holders + [e.receipt.delegatee];
      assert ReceiptOk(H, chain, trust, now, i);
      i := i + 1;
    }
    var leaf := chain[|chain| - 1].receipt;
    assert ReceiptOk(H, chain, trust, now, |chain| - 1);
    var root := chain[0].receipt;
    r := Some(Verified(leaf.scope, leaf.depth, |chain|, hashes, holders, root.mandate, root.constitution, hashes[|chain| - 1]));
  }

  method CheckPlace(H: Hasher, e: Envelope, prev: Option<Envelope>, index: nat, trust: Trust, now: real) returns (ok: bool)
    requires prev.None? <==> index == 0
    ensures ok <==> SignatureValid(e, trust) && LiveAt(e.receipt, now) &&
                    if prev.None? then RootOk(e, trust) else HopOk(H, prev.value, e, index)
  {
    if e.keyId !in trust.registry { return false; }
    if trust.registry[e.keyId] != e.signedBy { return false; }
    var r := e.receipt;
    if index == 0 {
      if e.keyId !in trust.authorities { return false; }
      if r.delegator != e.keyId { return false; }
      if r.depth != 0 { return false; }
      if r.parentHash != None { return false; }
    } else {
      var p := prev.value.receipt;
      if e.keyId != p.delegatee { return false; }
      if r.delegator != p.delegatee { return false; }
      if r.parentHash != Some(H(prev.value)) { return false; }
      if r.depth != index { return false; }
      if r.depth != p.depth + 1 { return false; }
      if !Narrower(r.scope, p.scope) { return false; }
      if r.mandate != p.mandate { return false; }
      if r.constitution != p.constitution { return false; }
      if r.maxDepth > p.maxDepth { return false; }
      if r.depth > r.maxDepth { return false; }
      if r.notBefore < p.notBefore { return false; }
      if r.expiresAt > p.expiresAt { return false; }
    }
    ok := r.notBefore <= now <= r.expiresAt;
  }

  // ----- what an accepted chain means -----

  /** Every receipt is no wider than any before it, in every respect. */
  lemma {:induction false} AncestorsBound(H: Hasher, chain: seq<Envelope>, trust: Trust, now: real, i: nat, j: nat)
    requires Verifies(H, chain, trust, now) && i <= j < |chain|
    ensures var a, d := chain[i].receipt, chain[j].receipt;
            Narrower(d.scope, a.scope) && a.notBefore <= d.notBefore && d.expiresAt <= a.expiresAt &&
            d.mandate == a.mandate && d.constitution == a.constitution && d.maxDepth <= a.maxDepth
    decreases j
  {
    if i == j {
      NarrowerReflexive(chain[i].receipt.scope);
    } else {
      AncestorsBound(H, chain, trust, now, i, j - 1);
      assert ReceiptOk(H, chain, trust, now, j);
      NarrowerTransitive(chain[j].receipt.scope, chain[j - 1].receipt.scope, chain[i].receipt.scope);
    }
  }

  /** Whatever the leaf allows every ancestor allows, every ancestor's caveats are kept, and the chain is
      no longer than its root permits. */
  lemma {:induction false} AuthorityOnlyNarrows(H: Hasher, chain: seq<Envelope>, trust: Trust, now: real, i: nat,
                                                action: string, resource: string)
    requires Verifies(H, chain, trust, now) && i < |chain|
    ensures var leaf := chain[|chain| - 1].receipt;
            (Allows(leaf.scope, action, resource) ==> Allows(chain[i].receipt.scope, action, resource)) &&
            chain[i].receipt.scope.caveats <= leaf.scope.caveats && LiveAt(chain[i].receipt, now)
    ensures |chain| <= chain[0].receipt.maxDepth + 1
    ensures chain[0].keyId in trust.authorities &&
            SignatureValid(chain[i], trust) && (i > 0 ==> chain[i].keyId == chain[i - 1].receipt.delegatee)
  {
    var n := |chain| - 1;
    AncestorsBound(H, chain, trust, now, i, n);
    AncestorsBound(H, chain, trust, now, 0, n);
    assert ReceiptOk(H, chain, trust, now, 0) && ReceiptOk(H, chain, trust, now, i) && ReceiptOk(H, chain, trust, now, n);
    if Allows(chain[n].receipt.scope, action, resource) {
      NarrowerAllowsLess(chain[n].receipt.scope, chain[i].receipt.scope, action, resource);
    }
  }

  predicate NoCollision(H: Hasher, a: seq<Envelope>, b: seq<Envelope>) {
    forall x, y | x in a + b && y in a + b && H(x) == H(y) :: x == y
  }

  /** The leaf names its whole chain: two accepted chains with one leaf are the same, unless two of their
      envelopes collide. */
  lemma {:induction false} LeafBindsChain(H: Hasher, a: seq<Envelope>, b: seq<Envelope>, trust: Trust, now: real)
    requires Verifies(H, a, trust, now) && Verifies(H, b, trust, now) && a[|a| - 1] == b[|b| - 1]
    requires NoCollision(H, a, b)
    ensures a == b
  {
    var n := |a| - 1;
    assert ReceiptOk(H, a, trust, now, n) && ReceiptOk(H, b, trust, now, |b| - 1);
    assert a[n].receipt.depth == n && b[|b| - 1].receipt.depth == |b| - 1;
    forall i | 0 <= i <= n ensures a[i] == b[i] {
      SameBelow(H, a, b, trust, now, i);
    }
  }

  lemma {:induction false} SameBelow(H: Hasher, a: seq<Envelope>, b: seq<Envelope>, trust: Trust, now: real, i: nat)
    requires Verifies(H, a, trust, now) && Verifies(H, b, trust, now) && |a| == |b| && i < |a|
    requires a[|a| - 1] == b[|b| - 1] && NoCollision(H, a, b)
    ensures a[i] == b[i]
    decreases |a| - i
  {
    if i < |a| - 1 {
      SameBelow(H, a, b, trust, now, i + 1);
      assert ReceiptOk(H, a, trust, now, i + 1) && ReceiptOk(H, b, trust, now, i + 1);
      assert HopOk(H, a[i], a[i + 1], i + 1) && HopOk(H, b[i], b[i + 1], i + 1);
      assert a[i] in a + b && b[i] in a + b;
    }
  }

  // ----- honest minting -----

  function NewReceipt(receipt: Receipt, keyId: string, key: Key): Option<Envelope> {
    if receipt.delegator != keyId || receipt.notBefore >= receipt.expiresAt then None
    else Some(Envelope(keyId, key, receipt))
  }

  function IssueRoot(mandate: Digest, constitution: Digest, delegatee: string, scope: Scope, maxDepth: int,
                     notBefore: real, expiresAt: real, keyId: string, key: Key, id: string, nonce: string): Option<Envelope>
  {
    if maxDepth < 0 then None
    else NewReceipt(Receipt(id, None, mandate, keyId, delegatee, scope, 0, maxDepth, notBefore, expiresAt, nonce, constitution),
                    keyId, key)
  }

  /** What a holder chooses when delegating on; what is left open is inherited. */
  datatype Grant = Grant(delegatee: string, scope: Scope, notBefore: Option<real>, expiresAt: Option<real>,
                         maxDepth: Option<nat>, id: string, nonce: string)

  function Delegate(H: Hasher, parent: Envelope, g: Grant, keyId: string, key: Key): Option<Envelope> {
    var p := parent.receipt;
    var notBefore, expiresAt := g.notBefore.GetOr(p.notBefore), g.expiresAt.GetOr(p.expiresAt);
    var maxDepth := g.maxDepth.GetOr(p.maxDepth);
    if keyId != p.delegatee then None
    else if !Narrower(g.scope, p.scope) then None
    else if notBefore < p.notBefore || expiresAt > p.expiresAt then None
    else if p.depth + 1 > p.maxDepth then None
    else if maxDepth > p.maxDepth then None
    else NewReceipt(Receipt(g.id, Some(H(parent)), p.mandate, p.delegatee, g.delegatee, g.scope, p.depth + 1, maxDepth,
                            notBefore, expiresAt, g.nonce, p.constitution), keyId, key)
  }

  /** Minted hop by hop, each holder signing with the key registered for it. */
  ghost predicate Minted(H: Hasher, chain: seq<Envelope>, trust: Trust)
  {
    chain != [] &&
    (forall e <- chain :: SignatureValid(e, trust)) &&
    chain[0].keyId in trust.authorities && RootMinted(chain[0]) &&
    forall i | 0 < i < |chain| :: HopMinted(H, chain[i - 1], chain[i])
  }

  ghost predicate RootMinted(e: Envelope) {
    var r := e.receipt;
    IssueRoot(r.mandate, r.constitution, r.delegatee, r.scope, r.maxDepth, r.notBefore, r.expiresAt, e.keyId, e.signedBy, r.id, r.nonce)
    == Some(e)
  }

  ghost predicate HopMinted(H: Hasher, prev: Envelope, e: Envelope) {
    exists g: Grant :: Delegate(H, prev, g, e.keyId, e.signedBy) == Some(e)
  }

  predicate DistinctIds(chain: seq<Envelope>) {
    forall i, j | 0 <= i < j < |chain| :: chain[i].receipt.id != chain[j].receipt.id
  }

  predicate DistinctHashes(H: Hasher, chain: seq<Envelope>) {
    forall i, j | 0 <= i < j < |chain| :: H(chain[i]) != H(chain[j])
  }

  /** No holder lowered the depth limit below the depth of the receipt it was minting. */
  predicate DepthsFit(chain: seq<Envelope>) {
    forall i | 0 < i < |chain| :: chain[i].receipt.depth <= chain[i].receipt.maxDepth
  }

  lemma {:induction false} MintedWindows(H: Hasher, chain: seq<Envelope>, trust: Trust, i: nat)
    requires Minted(H, chain, trust) && i < |chain|
    ensures chain[i].receipt.depth == i
    ensures chain[i].receipt.notBefore <= chain[|chain| - 1].receipt.notBefore
    ensures chain[|chain| - 1].receipt.expiresAt <= chain[i].receipt.expiresAt
  {
    MintedDepth(H, chain, trust, i);
    MintedNests(H, chain, trust, i);
  }

  lemma {:induction false} MintedDepth(H: Hasher, chain: seq<Envelope>, trust: Trust, i: nat)
    requires Minted(H, chain, trust) && i < |chain|
    ensures chain[i].receipt.depth == i
  {
    if i > 0 {
      MintedDepth(H, chain, trust, i - 1);
      assert HopMinted(H, chain[i - 1], chain[i]);
    }
  }

  lemma {:induction false} MintedNests(H: Hasher, chain: seq<Envelope>, trust: Trust, i: nat)
    requires Minted(H, chain, trust) && i < |chain|
    ensures chain[i].receipt.notBefore <= chain[|chain| - 1].receipt.notBefore
    ensures chain[|chain| - 1].receipt.expiresAt <= chain[i].receipt.expiresAt
    decreases |chain| - i
  {
    if i < |chain| - 1 {
      MintedNests(H, chain, trust, i + 1);
      assert HopMinted(H, chain[i], chain[i + 1]);
    }
  }

  lemma HopMintedOk(H: Hasher, prev: Envelope, e: Envelope, index: nat)
    requires HopMinted(H, prev, e) && prev.receipt.depth == index - 1 && index > 0
    ensures HopOk(H, prev, e, index) <==> e.receipt.depth <= e.receipt.maxDepth
  {
    var g: Grant :| Delegate(H, prev, g, e.keyId, e.signedBy) == Some(e);
  }

  /** An honestly minted chain verifies, at any moment in the window of its leaf, exactly when ids and
      hashes differ and no depth limit was set too low: minting does not check the last. */
  lemma {:induction false} MintedVerifies(H: Hasher, chain: seq<Envelope>, trust: Trust, now: real)
    requires Minted(H, chain, trust) && LiveAt(chain[|chain| - 1].receipt, now)
    ensures Verifies(H, chain, trust, now) <==> DistinctIds(chain) && DistinctHashes(H, chain) && DepthsFit(chain)
  {
    forall i | 0 <= i < |chain|
      ensures ReceiptOk(H, chain, trust, now, i) <==>
              (forall j | 0 <= j < i :: H(chain[j]) != H(chain[i]) && chain[j].receipt.id != chain[i].receipt.id) &&
              (i > 0 ==> chain[i].receipt.depth <= chain[i].receipt.maxDepth)
    {
      MintedWindows(H, chain, trust, i);
      assert SignatureValid(chain[i], trust) by { assert chain[i] in chain; }
      if i > 0 {
        MintedDepth(H, chain, trust, i - 1);
        assert HopMinted(H, chain[i - 1], chain[i]);
        HopMintedOk(H, chain[i - 1], chain[i], i);
      }
    }
  }

  /** Such a chain: one hop whose holder set the limit to zero. */
  lemma LowLimitMints(H: Hasher, root: Envelope, key: Key, delegatee: string)
    requires root.receipt.depth == 0 && root.receipt.maxDepth >= 1 && root.receipt.notBefore < root.receipt.expiresAt
    ensures var g := Grant(delegatee, root.receipt.scope, None, None, Some(0), "x", "n");
            var e := Delegate(H, root, g, root.receipt.delegatee, key);
            e.Some? && !HopOk(H, root, e.value, 1)
  {
    NarrowerReflexive(root.receipt.scope);
  }
}
