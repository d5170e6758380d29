/** Capabilities: what a token carries, when it is valid, and how a mandate mints a narrower child. */
module Authority {
  import opened Wrappers
  import opened Radix

  type Key(==, !new)
  type Digest(==, !new)

  datatype Kind = MandateKind | ExecutionKind | ReadKind

  /** Times are seconds. */
  datatype Payload = Payload(
    id: string, kind: Kind, digest: Digest, holder: Key,
    spendLimit: Option<int>, spendAsset: Option<string>,
    issuedAt: real, expiresAt: real, nonce: string, parent: Option<string>, staleness: int)

  /** A payload under an issuer's signature. */
  datatype Token = Token(issuer: Key, payload: Payload)

  /** A holder's signature over a message. */
  datatype Proof = Proof(signer: Key, message: seq<byte>)

  const FUTURE_ISSUANCE_SKEW := 300.0

  predicate SpendSane(limit: Option<int>, asset: Option<string>) {
    (limit.Some? ==> limit.value >= 0) &&
    (asset.Some? ==> asset.value != "") &&
    (asset.Some? ==> limit.Some?)
  }

  /** The checks on a payload that need no state. */
  predicate PayloadValid(p: Payload, now: real) {
    SpendSane(p.spendLimit, p.spendAsset) &&
    p.id != "" && p.nonce != "" &&
    p.staleness >= 0 &&
    p.expiresAt > p.issuedAt &&
    p.issuedAt - now <= FUTURE_ISSUANCE_SKEW &&
    now <= p.expiresAt
  }

  function VerifyToken(t: Token, trusted: set<Key>, now: real): Option<Payload> {
    if t.issuer in trusted && PayloadValid(t.payload, now) then Some(t.payload) else None
  }

  predicate IsAscii(s: string) {
    forall i | 0 <= i < |s| :: s[i] as int < 128
  }

  function Ascii(s: string): (r: seq<byte>)
    requires IsAscii(s)
    ensures |r| == |s| && forall i | 0 <= i < |s| :: r[i] == s[i] as int
  {
    seq(|s|, i requires 0 <= i < |s| => s[i] as int)
  }

  /** What the holder signs: the id and the challenge, one behind the other with nothing between them. */
  function Message(id: string, challenge: seq<byte>): seq<byte>
    requires IsAscii(id)
  {
    Ascii(id) + challenge
  }

  predicate ProofValid(proof: Proof, holder: Key, id: string, challenge: seq<byte>)
    requires IsAscii(id)
  {
    proof == Proof(holder, Message(id, challenge))
  }

  predicate Prefixes(a: string, b: string) {
    a <= b || b <= a
  }

  /** One message belongs to two pairs only if one id starts with the other. */
  lemma MessageSplits(id: string, challenge: seq<byte>, id': string, challenge': seq<byte>)
    requires IsAscii(id) && IsAscii(id') && Message(id, challenge) == Message(id', challenge')
    ensures Prefixes(id, id')
    ensures |id| == |id'| ==> id == id' && challenge == challenge'
  {
    var m := Message(id, challenge);
    var n := if |id| <= |id'| then |id| else |id'|;
    forall i | 0 <= i < n ensures id[i] == id'[i] {
      assert m[i] == Ascii(id)[i] == Ascii(id')[i];
    }
    assert challenge == m[|id|..] && challenge' == Message(id', challenge')[|id'|..];
  }

  /** A proof made for one id can be accepted for another exactly when one id starts with the other. */
  lemma ProofsConfused(holder: Key, id: string, id': string)
    requires IsAscii(id) && IsAscii(id')
    ensures (exists proof, challenge, challenge' ::
               ProofValid(proof, holder, id, challenge) && ProofValid(proof, holder, id', challenge')) <==>
            Prefixes(id, id')
  {
    if proof, challenge, challenge' :|
      ProofValid(proof, holder, id, challenge) && ProofValid(proof, holder, id', challenge')
    {
      MessageSplits(id, challenge, id', challenge');
    }
    if id <= id' { ProofCarries(holder, id, id'[|id|..], []); assert id + id'[|id|..] == id'; }
    if id' <= id { ProofCarries(holder, id', id[|id'|..], []); assert id' + id[|id'|..] == id; }
  }

  /** The proof for the longer id and a challenge is one for the shorter id and a longer challenge. */
  lemma ProofCarries(holder: Key, id: string, more: string, challenge: seq<byte>)
    requires IsAscii(id) && IsAscii(more)
    ensures IsAscii(id + more)
    ensures var proof := Proof(holder, Message(id + more, challenge));
            ProofValid(proof, holder, id + more, challenge) && ProofValid(proof, holder, id, Ascii(more) + challenge)
  {
    assert Ascii(id + more) == Ascii(id) + Ascii(more);
    assert Message(id + more, challenge) == Message(id, Ascii(more) + challenge);
  }

  /** What the caller of `mint_child` may choose; what is left open is inherited. */
  datatype ChildRequest = ChildRequest(
    holder: Option<Key>, spendLimit: Option<int>, spendAsset: Option<string>,
    ttl: Option<real>, staleness: Option<int>)

  const DEFAULT_TTL := 900.0

  function MintChild(parentToken: Token, issuer: Key, trusted: set<Key>, req: ChildRequest,
                     id: string, nonce: string, now: real): Option<Token>
  {
    match VerifyToken(parentToken, trusted, now)
    case None => None
    case Some(parent) =>
      var limit := if req.spendLimit.None? then parent.spendLimit else req.spendLimit;
      var asset := if req.spendAsset.None? then parent.spendAsset else req.spendAsset;
      var expiry := now + req.ttl.GetOr(DEFAULT_TTL);
      var staleness := req.staleness.GetOr(parent.staleness);
      if parent.kind != MandateKind then None
      else if !SpendSane(limit, asset) then None
      else if parent.spendLimit.Some? && limit.None? then None
      else if parent.spendLimit.Some? && limit.value > parent.spendLimit.value then None
      else if parent.spendAsset.Some? && asset != parent.spendAsset then None
      else if expiry > parent.expiresAt then None
      else if staleness > parent.staleness then None
      else
        Some(Token(issuer,
                   Payload(id, ExecutionKind, parent.digest, req.holder.GetOr(parent.holder), limit, asset,
                           now, expiry, nonce, Some(parent.id), staleness)))
  }

  /** The child allows no more than the parent. */
  predicate Narrower(child: Payload, parent: Payload) {
    child.digest == parent.digest &&
    child.expiresAt <= parent.expiresAt &&
    child.staleness <= parent.staleness &&
    (parent.spendLimit.Some? ==> child.spendLimit.Some? && child.spendLimit.value <= parent.spendLimit.value) &&
    (parent.spendAsset.Some? ==> child.spendAsset == parent.spendAsset)
  }

  /** Whatever the request, a minted child is narrower than its mandate, names it, and can mint nothing
      itself. */
  lemma MintAttenuates(parentToken: Token, issuer: Key, trusted: set<Key>, req: ChildRequest,
                       id: string, nonce: string, now: real)
    requires MintChild(parentToken, issuer, trusted, req, id, nonce, now).Some?
    ensures var child := MintChild(parentToken, issuer, trusted, req, id, nonce, now).value;
            Narrower(child.payload, parentToken.payload) && child.payload.parent == Some(parentToken.payload.id) &&
            SpendSane(child.payload.spendLimit, child.payload.spendAsset)
    ensures forall issuer', trusted', req', id', nonce', now' ::
              MintChild(MintChild(parentToken, issuer, trusted, req, id, nonce, now).value,
                        issuer', trusted', req', id', nonce', now') == None
  {
  }

  /** Minting does not check that the child itself is usable: it is, at its own birth, exactly when its
      lifetime is positive, its staleness bound is not negative, and its names are not empty. */
  lemma MintedVerifies(parentToken: Token, issuer: Key, trusted: set<Key>, req: ChildRequest,
                       id: string, nonce: string, now: real)
    requires MintChild(parentToken, issuer, trusted, req, id, nonce, now).Some? && issuer in trusted
    ensures VerifyToken(MintChild(parentToken, issuer, trusted, req, id, nonce, now).value, trusted, now).Some? <==>
            req.ttl.GetOr(DEFAULT_TTL) > 0.0 && req.staleness.GetOr(0) >= 0 && id != "" && nonce != ""
  {
  }

  /** A mandate that mints, for a request with a lifetime of zero or less, a child no one accepts. */
  lemma DeadChild(key: Key, digest: Digest, ttl: real)
    requires ttl <= 0.0
    ensures var mandate := Token(key, Payload("m", MandateKind, digest, key, None, None, 0.0, 100.0, "n", None, 300));
            var child := MintChild(mandate, key, {key}, ChildRequest(None, None, None, Some(ttl), None), "c", "n", 50.0);
            child.Some? && forall now :: VerifyToken(child.value, {key}, now) == None
  {
  }
}
