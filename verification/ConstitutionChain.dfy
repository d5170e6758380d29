/** Constitution versions under m-of-n signatures: a chain in which a change of signers takes effect only
    for later versions, and which anyone can rebuild from its parts. */
module ConstitutionChains {
  import opened Wrappers

  type Key(==, !new)
  type Digest(==, !new)

  datatype TrustConfig = TrustConfig(signers: map<string, Key>, quorum: nat)

  /** `policy` stands for everything a version says about actions. */
  datatype Constitution = Constitution(version: int, previous: Option<Digest>, policy: string, proposed: Option<TrustConfig>)

  /** Who the signature names, who really made it, and over what. */
  datatype Signature = Signature(keyId: string, signedBy: Key, over: Digest)

  datatype Signed = Signed(constitution: Constitution, signatures: seq<Signature>)

  type Hasher = Constitution -> Digest

  // ----- quorum -----

  predicate SignatureValid(H: Hasher, sig: Signature, key: Key, c: Constitution) {
    sig.signedBy == key && sig.over == H(c)
  }

  /** Every signature is valid, by a member of the active set, and of a different one each. */
  predicate SignaturesClean(H: Hasher, s: Signed, active: TrustConfig) {
    (forall i | 0 <= i < |s.signatures| ::
       s.signatures[i].keyId in active.signers &&
       SignatureValid(H, s.signatures[i], active.signers[s.signatures[i].keyId], s.constitution)) &&
    forall i, j | 0 <= i < j < |s.signatures| :: s.signatures[i].keyId != s.signatures[j].keyId
  }

  predicate QuorumMet(H: Hasher, s: Signed, active: TrustConfig) {
    SignaturesClean(H, s, active) && |s.signatures| >= active.quorum
  }

  method VerifyQuorum(H: Hasher, s: Signed, active: TrustConfig) returns (ok: bool)
    ensures ok == QuorumMet(H, s, active)
  {
    var seen: set<string> := {};
    var valid := 0;
    var i := 0;
    while i < |s.signatures|
      invariant 0 <= i <= |s.signatures| && valid == i
      invariant seen == set j | 0 <= j < i :: s.signatures[j].keyId
      invariant forall j | 0 <= j < i ::
                  s.signatures[j].keyId in active.signers &&
                  SignatureValid(H, s.signatures[j], active.signers[s.signatures[j].keyId], s.constitution)
      invariant forall j, k | 0 <= j < k < i :: s.signatures[j].keyId != s.signatures[k].keyId
    {
      var sig := s.signatures[i];
      if sig.keyId in seen { return false; }
      seen := seen + {sig.keyId};
      if sig.keyId !in active.signers { return false; }
      if !SignatureValid(H, sig, active.signers[sig.keyId], s.constitution) { return false; }
      valid := valid + 1;
      i := i + 1;
    }
    ok := valid >= active.quorum;
  }

  // ----- the chain -----

  /** The signer set for the version that comes after these: the last one proposed. */
  function ActiveAfter(bootstrap: TrustConfig, versions: seq<Signed>): TrustConfig {
    if versions == [] then bootstrap
    else
      var last := versions[|versions| - 1].constitution.proposed;
      if last.Some? then last.value else ActiveAfter(bootstrap, versions[..|versions| - 1])
  }

  /** Whether a version may follow these. */
  predicate Admissible(H: Hasher, bootstrap: TrustConfig, before: seq<Signed>, s: Signed) {
    var c := s.constitution;
    (forall v <- before :: H(v.constitution) != H(c)) &&
    (if before == [] then c.version == 1 && c.previous == None
     else
       var head := before[|before| - 1].constitution;
       c.version == head.version + 1 && c.previous == Some(H(head))) &&
    QuorumMet(H, s, ActiveAfter(bootstrap, before))
  }

  predicate Legitimate(H: Hasher, bootstrap: TrustConfig, versions: seq<Signed>) {
    forall i | 0 <= i < |versions| :: Admissible(H, bootstrap, versions[..i], versions[i])
  }

  function Index(H: Hasher, versions: seq<Signed>): map<Digest, Signed> {
    if versions == [] then map[]
    else
      var last := versions[|versions| - 1];
      Index(H, versions[..|versions| - 1])[H(last.constitution) := last]
  }

  lemma {:induction false} LegitimateSnoc(H: Hasher, bootstrap: TrustConfig, versions: seq<Signed>, s: Signed)
    requires Legitimate(H, bootstrap, versions)
    ensures Legitimate(H, bootstrap, versions + [s]) <==> Admissible(H, bootstrap, versions, s)
  {
    var more := versions + [s];
    assert more[..|versions|] == versions && more[|versions|] == s;
    forall i | 0 <= i < |versions| ensures more[..i] == versions[..i] && more[i] == versions[i] {
    }
  }

  /** Versions that come later, and the rotations they propose, change nothing before them. */
  lemma PrefixLegitimate(H: Hasher, bootstrap: TrustConfig, versions: seq<Signed>, n: nat)
    requires Legitimate(H, bootstrap, versions) && n <= |versions|
    ensures Legitimate(H, bootstrap, versions[..n])
  {
    forall i | 0 <= i < n ensures Admissible(H, bootstrap, versions[..n][..i], versions[..n][i]) {
      assert versions[..n][..i] == versions[..i];
    }
  }

  lemma IndexSnoc(H: Hasher, versions: seq<Signed>, s: Signed)
    ensures Index(H, versions + [s]) == Index(H, versions)[H(s.constitution) := s]
  {
    assert (versions + [s])[..|versions|] == versions;
  }

  class ConstitutionalChain {
    const H: Hasher
    const bootstrap: TrustConfig
    var versions: seq<Signed>
    var byHash: map<Digest, Signed>

    ghost predicate Valid()
      reads this
    {
      Legitimate(H, bootstrap, versions) && byHash == Index(H, versions)
    }

    constructor (H: Hasher, bootstrap: TrustConfig)
      ensures Valid() && versions == [] && this.H == H && this.bootstrap == bootstrap
    {
      this.H, this.bootstrap := H, bootstrap;
      versions, byHash := [], map[];
    }

    method TrustActiveForNext() returns (trust: TrustConfig)
      ensures trust == ActiveAfter(bootstrap, versions)
    {
      trust := bootstrap;
      var i := 0;
      while i < |versions|
        invariant 0 <= i <= |versions| && trust == ActiveAfter(bootstrap, versions[..i])
      {
        assert versions[..i + 1][..i] == versions[..i];
        if versions[i].constitution.proposed.Some? { trust := versions[i].constitution.proposed.value; }
        i := i + 1;
      }
      assert versions[..i] == versions;
    }

    /** Admits a version, the genesis if there is none yet, or leaves the chain as it was. */
    method Append(s: Signed) returns (ok: bool)
      requires Valid()
      modifies this
      ensures Valid()
      ensures ok == Admissible(H, bootstrap, old(versions), s)
      ensures versions == if ok then old(versions) + [s] else old(versions)
      ensures byHash == if ok then old(byHash)[H(s.constitution) := s] else old(byHash)
    {
      hide Legitimate, QuorumMet, ActiveAfter, Index;
      var active := TrustActiveForNext();
      var hash := H(s.constitution);
      IndexHas(H, versions, hash);
      if hash in byHash { return false; }
      var c := s.constitution;
      if versions == [] {
        if c.version != 1 { return false; }
        if c.previous != None { return false; }
      } else {
        var head := versions[|versions| - 1].constitution;
        if c.version != head.version + 1 { return false; }
        if c.previous != Some(H(head)) { return false; }
      }
      var met := VerifyQuorum(H, s, active);
      if !met { return false; }
      LegitimateSnoc(H, bootstrap, versions, s);
      IndexSnoc(H, versions, s);
      versions := versions + [s];
      byHash := byHash[hash := s];
      ok := true;
    }

    method Governed(hash: Digest) returns (r: Option<Signed>)
      requires Valid()
      ensures r == Lookup(H, versions, hash)
    {
      r := if hash in byHash then Some(byHash[hash]) else None;
    }
  }

  function Lookup(H: Hasher, versions: seq<Signed>, hash: Digest): Option<Signed> {
    if hash in Index(H, versions) then Some(Index(H, versions)[hash]) else None
  }

  lemma {:induction false} IndexHas(H: Hasher, versions: seq<Signed>, hash: Digest)
    ensures hash in Index(H, versions) <==> exists v :: v in versions && H(v.constitution) == hash
    ensures hash in Index(H, versions) ==> Index(H, versions)[hash] in versions && H(Index(H, versions)[hash].constitution) == hash
  {
    if versions != [] {
      var init, last := versions[..|versions| - 1], versions[|versions| - 1];
      IndexHas(H, init, hash);
      assert forall v :: v in versions <==> v in init || v == last;
    }
  }

  /** In a legitimate chain a hash pins one version, and the index finds exactly that one. */
  lemma {:induction false} LookupPins(H: Hasher, bootstrap: TrustConfig, versions: seq<Signed>, i: nat)
    requires Legitimate(H, bootstrap, versions) && i < |versions|
    ensures Lookup(H, versions, H(versions[i].constitution)) == Some(versions[i])
    ensures forall j | 0 <= j < |versions| && j != i :: H(versions[j].constitution) != H(versions[i].constitution)
  {
    var hash := H(versions[i].constitution);
    forall j | 0 <= j < |versions| && j != i ensures H(versions[j].constitution) != hash {
      if j < i {
        assert Admissible(H, bootstrap, versions[..i], versions[i]) && versions[j] in versions[..i];
      } else {
        assert Admissible(H, bootstrap, versions[..j], versions[j]) && versions[i] in versions[..j];
      }
    }
    assert versions[i] in versions;
    IndexHas(H, versions, hash);
    var found := Index(H, versions)[hash];
    var k :| 0 <= k < |versions| && versions[k] == found;
  }

  /** Offline resolution: rebuild the chain from untrusted parts, then look the hash up. */
  method ResolveGovernedVersion(H: Hasher, versions: seq<Signed>, bootstrap: TrustConfig, hash: Digest) returns (r: Option<Signed>)
    ensures r == if versions != [] && Legitimate(H, bootstrap, versions) then Lookup(H, versions, hash) else None
  {
    if versions == [] { return None; }
    var chain := new ConstitutionalChain(H, bootstrap);
    var i := 0;
    while i < |versions|
      invariant 0 <= i <= |versions| && chain.Valid() && fresh(chain)
      invariant chain.H == H && chain.bootstrap == bootstrap && chain.versions == versions[..i]
    {
      var ok := chain.Append(versions[i]);
      if !ok {
        assert !Admissible(H, bootstrap, versions[..i], versions[i]);
        return None;
      }
      assert versions[..i] + [versions[i]] == versions[..i + 1];
      i := i + 1;
    }
    assert versions[..i] == versions;
    r := chain.Governed(hash);
  }

  /** Rebuilding a chain that grew by appending never fails, and resolution agrees with the chain itself. */
  method RebuildAgrees(chain: ConstitutionalChain, hash: Digest) returns (rebuilt: Option<Signed>, own: Option<Signed>)
    requires chain.Valid() && chain.versions != []
    ensures rebuilt == own
  {
    rebuilt := ResolveGovernedVersion(chain.H, chain.versions, chain.bootstrap, hash);
    own := chain.Governed(hash);
  }

  // ----- what a chain proves -----

  function SignersOf(s: Signed): set<string> {
    FirstSigners(s, |s.signatures|)
  }

  function FirstSigners(s: Signed, n: nat): set<string>
    requires n <= |s.signatures|
  {
    set i | 0 <= i < n :: s.signatures[i].keyId
  }

  lemma OneMoreSigner(s: Signed, n: nat)
    requires n < |s.signatures|
    ensures FirstSigners(s, n + 1) == FirstSigners(s, n) + {s.signatures[n].keyId}
  {
  }

  lemma NoSigner(s: Signed)
    ensures FirstSigners(s, 0) == {}
  {
  }

  lemma NewSigner(s: Signed, n: nat)
    requires n < |s.signatures| && forall i | 0 <= i < n :: s.signatures[i].keyId != s.signatures[n].keyId
    ensures s.signatures[n].keyId !in FirstSigners(s, n)
  {
  }

  lemma {:induction false} DistinctCount(s: Signed, n: nat)
    requires n <= |s.signatures|
    requires forall i, j | 0 <= i < j < |s.signatures| :: s.signatures[i].keyId != s.signatures[j].keyId
    ensures |FirstSigners(s, n)| == n
  {
    hide FirstSigners;
    if n == 0 {
      NoSigner(s);
    } else {
      DistinctCount(s, n - 1);
      NewSigner(s, n - 1);
      OneMoreSigner(s, n - 1);
    }
  }

  /** Each version was signed by at least the quorum of different members of the set that the versions
      strictly before it left active. */
  lemma {:induction false} EveryVersionHadQuorum(H: Hasher, bootstrap: TrustConfig, versions: seq<Signed>, i: nat)
    requires Legitimate(H, bootstrap, versions) && i < |versions|
    ensures var active := ActiveAfter(bootstrap, versions[..i]);
            |SignersOf(versions[i])| >= active.quorum && SignersOf(versions[i]) <= active.signers.Keys
    ensures forall k | 0 <= k < |versions[i].signatures| :: versions[i].signatures[k].over == H(versions[i].constitution)
  {
    assert Admissible(H, bootstrap, versions[..i], versions[i]);
    DistinctCount(versions[i], |versions[i].signatures|);
  }

  /** The public keys behind the signatures. */
  function KeysOf(s: Signed): set<Key> {
    set i | 0 <= i < |s.signatures| :: s.signatures[i].signedBy
  }

  /** No public key stands under two key ids. */
  predicate KeysDiffer(trust: TrustConfig) {
    forall a, b | a in trust.signers && b in trust.signers && trust.signers[a] == trust.signers[b] :: a == b
  }

  lemma {:induction false} ImageCount(ids: set<string>, trust: TrustConfig)
    requires ids <= trust.signers.Keys && KeysDiffer(trust)
    ensures |set a | a in ids :: trust.signers[a]| == |ids|
    decreases |ids|
  {
    if ids != {} {
      var a :| a in ids;
      var fewer := ids - {a};
      ImageCount(fewer, trust);
      assert (set x | x in ids :: trust.signers[x]) == (set x | x in fewer :: trust.signers[x]) + {trust.signers[a]};
      assert trust.signers[a] !in (set x | x in fewer :: trust.signers[x]);
    } else {
      assert (set x | x in ids :: trust.signers[x]) == {};
    }
  }

  lemma KeysBehind(H: Hasher, s: Signed, trust: TrustConfig)
    requires SignaturesClean(H, s, trust)
    ensures SignersOf(s) <= trust.signers.Keys
    ensures KeysOf(s) == set a | a in SignersOf(s) :: trust.signers[a]
  {
    forall i | 0 <= i < |s.signatures|
      ensures s.signatures[i].keyId in trust.signers && s.signatures[i].signedBy == trust.signers[s.signatures[i].keyId]
    {
      assert SignatureValid(H, s.signatures[i], trust.signers[s.signatures[i].keyId], s.constitution);
    }
  }

  lemma CleanKeys(H: Hasher, s: Signed, trust: TrustConfig)
    requires SignaturesClean(H, s, trust) && KeysDiffer(trust)
    ensures |KeysOf(s)| == |s.signatures|
  {
    KeysBehind(H, s, trust);
    ImageCount(SignersOf(s), trust);
    DistinctCount(s, |s.signatures|);
  }

  /** One key under two ids signs twice. */
  lemma TwoIdsOneKey(H: Hasher, c: Constitution, trust: TrustConfig, a: string, b: string) returns (s: Signed)
    requires a in trust.signers && b in trust.signers && a != b && trust.signers[a] == trust.signers[b]
    ensures SignaturesClean(H, s, trust) && |s.signatures| == 2 && |KeysOf(s)| == 1
  {
    var key := trust.signers[a];
    s := Signed(c, [Signature(a, key, H(c)), Signature(b, key, H(c))]);
    assert s.signatures[0].signedBy == key && s.signatures[1].signedBy == key;
    assert KeysOf(s) == {key};
  }

  /** Only the uniqueness of key ids is checked.  As many public keys as signatures stand behind whatever the
      quorum check accepts exactly when no key of the set stands under two ids. */
  lemma DifferentKeysExactly(H: Hasher, c: Constitution, trust: TrustConfig)
    ensures (forall s: Signed | SignaturesClean(H, s, trust) :: |KeysOf(s)| == |s.signatures|) <==> KeysDiffer(trust)
  {
    if KeysDiffer(trust) {
      forall s: Signed | SignaturesClean(H, s, trust) ensures |KeysOf(s)| == |s.signatures| {
        CleanKeys(H, s, trust);
      }
    } else {
      var a, b :| a in trust.signers && b in trust.signers && trust.signers[a] == trust.signers[b] && a != b;
      var s := TwoIdsOneKey(H, c, trust, a, b);
    }
  }

  /** A quorum of two met by one key: a genesis version that is admitted. */
  lemma OneKeyQuorum(H: Hasher, key: Key)
    ensures var trust := TrustConfig(map["a" := key, "b" := key], 2);
            var c := Constitution(1, None, "p", None);
            var s := Signed(c, [Signature("a", key, H(c)), Signature("b", key, H(c))]);
            Legitimate(H, trust, [s]) && KeysOf(s) == {key}
  {
    var trust := TrustConfig(map["a" := key, "b" := key], 2);
    var c := Constitution(1, None, "p", None);
    var s := Signed(c, [Signature("a", key, H(c)), Signature("b", key, H(c))]);
    assert s.signatures[0].signedBy == key && s.signatures[1].signedBy == key;
    assert KeysOf(s) == {key};
    assert SignaturesClean(H, s, trust);
    assert [s][..0] == [];
    assert Admissible(H, trust, [s][..0], s);
  }

  /** Where the keys in force differ each version was signed with at least the quorum of different keys. */
  lemma {:induction false} EveryVersionHadKeys(H: Hasher, bootstrap: TrustConfig, versions: seq<Signed>, i: nat)
    requires Legitimate(H, bootstrap, versions) && i < |versions|
    requires KeysDiffer(ActiveAfter(bootstrap, versions[..i]))
    ensures |KeysOf(versions[i])| >= ActiveAfter(bootstrap, versions[..i]).quorum
    ensures KeysOf(versions[i]) <= ActiveAfter(bootstrap, versions[..i]).signers.Values
  {
    assert Admissible(H, bootstrap, versions[..i], versions[i]);
    var active := ActiveAfter(bootstrap, versions[..i]);
    CleanKeys(H, versions[i], active);
    KeysBehind(H, versions[i], active);
  }

  lemma {:induction false} VersionIsPlace(H: Hasher, bootstrap: TrustConfig, versions: seq<Signed>, i: nat)
    requires Legitimate(H, bootstrap, versions) && i < |versions|
    ensures versions[i].constitution.version == i + 1
    ensures versions[i].constitution.previous == if i == 0 then None else Some(H(versions[i - 1].constitution))
  {
    assert Admissible(H, bootstrap, versions[..i], versions[i]);
    if i > 0 { VersionIsPlace(H, bootstrap, versions, i - 1); }
  }

  predicate NoCollision(H: Hasher, a: seq<Signed>, b: seq<Signed>) {
    forall x, y | x in a + b && y in a + b && H(x.constitution) == H(y.constitution) :: x.constitution == y.constitution
  }

  lemma SameHash(H: Hasher, a: seq<Signed>, b: seq<Signed>, i: nat, j: nat)
    requires NoCollision(H, a, b) && i < |a| && j < |b| && H(a[i].constitution) == H(b[j].constitution)
    ensures a[i].constitution == b[j].constitution
  {
    assert a[i] in a + b && b[j] in a + b;
  }

  /** The content hash of the head determines the whole history of constitutions, though not the
      signatures on them, unless two of them collide. */
  lemma {:induction false} HeadBindsHistory(H: Hasher, boot: TrustConfig, boot': TrustConfig, a: seq<Signed>, b: seq<Signed>, i: nat)
    requires Legitimate(H, boot, a) && Legitimate(H, boot', b) && a != [] && b != [] && NoCollision(H, a, b)
    requires H(a[|a| - 1].constitution) == H(b[|b| - 1].constitution)
    ensures |a| == |b|
    ensures i < |a| ==> a[i].constitution == b[i].constitution
    decreases |a| - i
  {
    hide Legitimate, NoCollision;
    var n := |a| - 1;
    SameHash(H, a, b, n, |b| - 1);
    VersionIsPlace(H, boot, a, n);
    VersionIsPlace(H, boot', b, |b| - 1);
    if i < n {
      HeadBindsHistory(H, boot, boot', a, b, i + 1);
      VersionIsPlace(H, boot, a, i + 1);
      VersionIsPlace(H, boot', b, i + 1);
      SameHash(H, a, b, i, i);
    }
  }

  // ----- exactly which chains are legitimate -----

  /** The set that signs after some versions: the one proposed last, the first one when none was proposed. */
  predicate ProposedLast(bootstrap: TrustConfig, versions: seq<Signed>, n: nat, trust: TrustConfig)
    requires n <= |versions|
  {
    (trust == bootstrap && forall k | 0 <= k < n :: versions[k].constitution.proposed == None) ||
    exists i | 0 <= i < n :: versions[i].constitution.proposed == Some(trust) &&
                             forall k | i < k < n :: versions[k].constitution.proposed == None
  }

  lemma {:induction false} ActiveIsLast(bootstrap: TrustConfig, versions: seq<Signed>, n: nat)
    requires n <= |versions|
    ensures forall trust :: ProposedLast(bootstrap, versions, n, trust) <==> trust == ActiveAfter(bootstrap, versions[..n])
  {
    if n > 0 {
      ActiveIsLast(bootstrap, versions, n - 1);
      assert versions[..n][..n - 1] == versions[..n - 1];
      forall trust ensures ProposedLast(bootstrap, versions, n, trust) <==> trust == ActiveAfter(bootstrap, versions[..n]) {
        assert ProposedLast(bootstrap, versions, n - 1, trust) <==> trust == ActiveAfter(bootstrap, versions[..n - 1]);
        LastProposed(bootstrap, versions, n, trust);
      }
    }
  }

  lemma LastProposed(bootstrap: TrustConfig, versions: seq<Signed>, n: nat, trust: TrustConfig)
    requires 0 < n <= |versions|
    ensures ProposedLast(bootstrap, versions, n, trust) <==>
            if versions[n - 1].constitution.proposed.Some? then versions[n - 1].constitution.proposed == Some(trust)
            else ProposedLast(bootstrap, versions, n - 1, trust)
  {
    if i :| 0 <= i < n && versions[i].constitution.proposed == Some(trust) && forall k | i < k < n :: versions[k].constitution.proposed == None {
      if versions[n - 1].constitution.proposed.Some? { assert i == n - 1; }
    }
    if i :| 0 <= i < n - 1 && versions[i].constitution.proposed == Some(trust) && forall k | i < k < n - 1 :: versions[k].constitution.proposed == None {
      if versions[n - 1].constitution.proposed.None? { assert forall k | i < k < n :: versions[k].constitution.proposed == None; }
    }
  }

  /** Signed by at least the quorum of the set, every signature over the hash of this version, by the key the set has for the
      id it names, and no id twice. */
  predicate SignedBySet(H: Hasher, s: Signed, trust: TrustConfig) {
    |s.signatures| >= trust.quorum &&
    (forall i | 0 <= i < |s.signatures| ::
       var sig := s.signatures[i];
       sig.keyId in trust.signers && sig.signedBy == trust.signers[sig.keyId] && sig.over == H(s.constitution)) &&
    forall i, j | 0 <= i < j < |s.signatures| :: s.signatures[i].keyId != s.signatures[j].keyId
  }

  /** The version counts on from the one before and names it by hash, the first is version one and names none, its hash is new,
      and it is signed by the set proposed last before it. */
  ghost predicate Fits(H: Hasher, bootstrap: TrustConfig, versions: seq<Signed>, i: nat)
    requires i < |versions|
  {
    var c := versions[i].constitution;
    (if i == 0 then c.version == 1 && c.previous == None
     else c.version == versions[i - 1].constitution.version + 1 && c.previous == Some(H(versions[i - 1].constitution))) &&
    (forall k | 0 <= k < i :: H(versions[k].constitution) != H(c)) &&
    forall trust | ProposedLast(bootstrap, versions, i, trust) :: SignedBySet(H, versions[i], trust)
  }

  lemma QuorumIsSet(H: Hasher, s: Signed, trust: TrustConfig)
    ensures QuorumMet(H, s, trust) <==> SignedBySet(H, s, trust)
  {
  }

  lemma AdmissibleExactly(H: Hasher, bootstrap: TrustConfig, versions: seq<Signed>, i: nat)
    requires i < |versions|
    ensures Admissible(H, bootstrap, versions[..i], versions[i]) <==> Fits(H, bootstrap, versions, i)
  {
    hide ProposedLast, QuorumMet, SignedBySet, ActiveAfter;
    var before := versions[..i];
    ActiveIsLast(bootstrap, versions, i);
    QuorumIsSet(H, versions[i], ActiveAfter(bootstrap, before));
    assert ProposedLast(bootstrap, versions, i, ActiveAfter(bootstrap, before));
    if forall k | 0 <= k < i :: H(versions[k].constitution) != H(versions[i].constitution) {
      forall v <- before ensures H(v.constitution) != H(versions[i].constitution) {
        var k :| 0 <= k < i && versions[k] == v;
      }
    }
    if forall v <- before :: H(v.constitution) != H(versions[i].constitution) {
      forall k | 0 <= k < i ensures H(versions[k].constitution) != H(versions[i].constitution) {
        assert before[k] in before;
      }
    }
  }

  /** A chain is legitimate exactly when every version fits. */
  lemma LegitimateExactly(H: Hasher, bootstrap: TrustConfig, versions: seq<Signed>)
    ensures Legitimate(H, bootstrap, versions) <==> forall i | 0 <= i < |versions| :: Fits(H, bootstrap, versions, i)
  {
    hide Admissible, Fits;
    forall i | 0 <= i < |versions|
      ensures Admissible(H, bootstrap, versions[..i], versions[i]) <==> Fits(H, bootstrap, versions, i)
    {
      AdmissibleExactly(H, bootstrap, versions, i);
    }
  }
}
