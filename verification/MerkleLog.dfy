/** The Merkle tree of the transparency log: leaves and nodes are hashed apart, audit paths carry their
    siblings in an order of their own.  The hash is any function to 32 bytes; what depends on it not
    colliding says on which strings. */
module MerkleLog {
  import opened Wrappers
  import opened Radix

  type Hash = h: seq<byte> | |h| == 32 witness seq(32, _ => 0)

  type Hasher = seq<byte> -> Hash

  // ----- the tree -----

  function Leaf(H: Hasher, data: seq<byte>): Hash {
    H([0] + data)
  }

  function NodeInput(left: seq<byte>, right: seq<byte>): seq<byte> {
    [1] + left + right
  }

  function Node(H: Hasher, left: seq<byte>, right: seq<byte>): Hash {
    H(NodeInput(left, right))
  }

  function Doubled(k: nat, n: nat): (r: nat)
    requires 0 < k
    ensures k <= r && n <= 2 * r
    ensures k < n ==> r < n
    decreases n - k
  {
    if k * 2 < n then Doubled(k * 2, n) else k
  }

  /** Where a list of more than one leaf is cut. */
  function Split(n: nat): (k: nat)
    ensures 0 < k && n <= 2 * k
    ensures n > 1 ==> k < n
  {
    Doubled(1, n)
  }

  ghost predicate PowerOfTwo(k: nat) {
    exists e: nat :: Pow(2, e) == k
  }

  lemma {:induction false} DoubledPower(k: nat, n: nat)
    requires 0 < k && PowerOfTwo(k)
    ensures PowerOfTwo(Doubled(k, n))
    decreases n - k
  {
    if k * 2 < n {
      var e: nat :| Pow(2, e) == k;
      assert Pow(2, e + 1) == k * 2;
      DoubledPower(k * 2, n);
    }
  }

  /** The cut is the largest power of two below the length, as section 2.1 of RFC 6962 asks. */
  lemma {:induction false} SplitIsLargestPower(n: nat)
    requires n > 1
    ensures PowerOfTwo(Split(n)) && Split(n) < n
    ensures forall k: nat | PowerOfTwo(k) && k < n :: k <= Split(n)
  {
    assert Pow(2, 0) == 1;
    DoubledPower(1, n);
    var a: nat :| Pow(2, a) == Split(n);
    forall k: nat | PowerOfTwo(k) && k < n ensures k <= Split(n) {
      var b: nat :| Pow(2, b) == k;
      if a < b { PowMonotone(a + 1, b); }
      else { PowMonotone(b, a); }
    }
  }

  lemma {:induction false} PowMonotone(a: nat, b: nat)
    requires a <= b
    ensures Pow(2, a) <= Pow(2, b)
  {
    if a < b { PowMonotone(a, b - 1); }
  }

  method SplitLoop(n: nat) returns (k: nat)
    ensures k == Split(n)
  {
    k := 1;
    while k * 2 < n
      invariant 0 < k && Doubled(k, n) == Doubled(1, n)
    {
      k := k * 2;
    }
  }

  function Mth(H: Hasher, hashes: seq<Hash>): Hash
    requires hashes != []
    decreases |hashes|
  {
    if |hashes| == 1 then hashes[0]
    else
      var k := Split(|hashes|);
      Node(H, Mth(H, hashes[..k]), Mth(H, hashes[k..]))
  }

  function AuditPath(H: Hasher, hashes: seq<Hash>, i: nat): seq<seq<byte>>
    requires i < |hashes|
    decreases |hashes|
  {
    if |hashes| == 1 then []
    else
      var k := Split(|hashes|);
      if i < k then AuditPath(H, hashes[..k], i) + [Mth(H, hashes[k..])]
      else [Mth(H, hashes[..k])] + AuditPath(H, hashes[k..], i - k)
  }

  /** The root a proof leads to; None for a proof that does not fit the claimed size.  Siblings may have
      any length. */
  function RootFromProof(H: Hasher, leaf: Hash, i: int, proof: seq<seq<byte>>, size: int): Option<Hash>
    decreases size
  {
    if size <= 0 || i < 0 || i >= size then None
    else if size == 1 then if proof == [] then Some(leaf) else None
    else if proof == [] then None
    else
      var k := Split(size);
      if i < k then
        match RootFromProof(H, leaf, i, proof[..|proof| - 1], k)
        case None => None
        case Some(left) => Some(Node(H, left, proof[|proof| - 1]))
      else
        match RootFromProof(H, leaf, i - k, proof[1..], size - k)
        case None => None
        case Some(right) => Some(Node(H, proof[0], right))
  }

  /** The audit path of every leaf of every list leads to the root. */
  lemma {:induction false} ProofRebuildsRoot(H: Hasher, hashes: seq<Hash>, i: nat)
    requires i < |hashes|
    ensures RootFromProof(H, hashes[i], i, AuditPath(H, hashes, i), |hashes|) == Some(Mth(H, hashes))
    decreases |hashes|
  {
    if |hashes| > 1 {
      var k := Split(|hashes|);
      var path := AuditPath(H, hashes, i);
      if i < k {
        ProofRebuildsRoot(H, hashes[..k], i);
        assert path[..|path| - 1] == AuditPath(H, hashes[..k], i);
      } else {
        ProofRebuildsRoot(H, hashes[k..], i - k);
        assert path[1..] == AuditPath(H, hashes[k..], i - k);
      }
    }
  }

  // ----- binding -----

  function LeafHashes(H: Hasher, data: seq<seq<byte>>): (r: seq<Hash>)
    ensures |r| == |data| && forall i | 0 <= i < |r| :: r[i] == Leaf(H, data[i])
  {
    seq(|data|, i requires 0 <= i < |data| => Leaf(H, data[i]))
  }

  function Root(H: Hasher, data: seq<seq<byte>>): Hash
    requires data != []
  {
    Mth(H, LeafHashes(H, data))
  }

  lemma RootSplits(H: Hasher, data: seq<seq<byte>>)
    requires |data| > 1
    ensures var k := Split(|data|);
            Root(H, data) == Node(H, Root(H, data[..k]), Root(H, data[k..]))
  {
    var k := Split(|data|);
    assert LeafHashes(H, data)[..k] == LeafHashes(H, data[..k]);
    assert LeafHashes(H, data)[k..] == LeafHashes(H, data[k..]);
  }

  /** Every string hashed while building the tree over some data. */
  function TreeInputs(H: Hasher, data: seq<seq<byte>>): set<seq<byte>>
    requires data != []
    decreases |data|
  {
    if |data| == 1 then {[0] + data[0]}
    else
      var k := Split(|data|);
      {NodeInput(Root(H, data[..k]), Root(H, data[k..]))} + TreeInputs(H, data[..k]) + TreeInputs(H, data[k..])
  }

  /** Every string hashed while following a proof. */
  function ProofInputs(H: Hasher, x: seq<byte>, i: int, proof: seq<seq<byte>>, size: int): set<seq<byte>>
    decreases size
  {
    if size <= 1 || i < 0 || i >= size || proof == [] then {[0] + x}
    else
      var k := Split(size);
      if i < k then
        var inner := proof[..|proof| - 1];
        ProofInputs(H, x, i, inner, k) +
        match RootFromProof(H, Leaf(H, x), i, inner, k)
        case None => {}
        case Some(left) => {NodeInput(left, proof[|proof| - 1])}
      else
        var inner := proof[1..];
        ProofInputs(H, x, i - k, inner, size - k) +
        match RootFromProof(H, Leaf(H, x), i - k, inner, size - k)
        case None => {}
        case Some(right) => {NodeInput(proof[0], right)}
  }

  predicate NoCollision(H: Hasher, inputs: set<seq<byte>>) {
    forall a, b | a in inputs && b in inputs && H(a) == H(b) :: a == b
  }

  lemma NodeInputInjective(l: seq<byte>, r: seq<byte>, l': Hash, r': Hash)
    requires NodeInput(l, r) == NodeInput(l', r') && (|l| == 32 || |r| == 32)
    ensures l == l' && r == r'
  {
    var n := NodeInput(l, r);
    assert |n| == 1 + |l| + |r| && |n| == 65;
    assert n[1..33] == l == l' && n[33..] == r == r';
  }

  /** The top of a tree: a leaf input or a node input, whose hash is the root. */
  lemma TopInput(H: Hasher, data: seq<seq<byte>>) returns (top: seq<byte>)
    requires data != []
    ensures top in TreeInputs(H, data) && H(top) == Root(H, data)
    ensures if |data| == 1 then top == [0] + data[0]
            else top == NodeInput(Root(H, data[..Split(|data|)]), Root(H, data[Split(|data|)..]))
  {
    if |data| == 1 {
      top := [0] + data[0];
    } else {
      RootSplits(H, data);
      top := NodeInput(Root(H, data[..Split(|data|)]), Root(H, data[Split(|data|)..]));
    }
  }

  /** Unless two of the strings hashed collide, lists of any lengths with one root are one list. */
  lemma {:induction false} RootBindsData(H: Hasher, d: seq<seq<byte>>, e: seq<seq<byte>>)
    requires d != [] && e != [] && Root(H, d) == Root(H, e)
    requires NoCollision(H, TreeInputs(H, d) + TreeInputs(H, e))
    ensures d == e
    decreases |d|
  {
    var a := TopInput(H, d);
    var b := TopInput(H, e);
    assert a == b;
    if |d| == 1 || |e| == 1 {
      assert a[0] == b[0];
      assert |d| == |e| == 1;
      assert a[1..] == d[0] && b[1..] == e[0];
    } else {
      var j, k := Split(|d|), Split(|e|);
      NodeInputInjective(Root(H, d[..j]), Root(H, d[j..]), Root(H, e[..k]), Root(H, e[k..]));
      RootBindsData(H, d[..j], e[..k]);
      RootBindsData(H, d[j..], e[k..]);
      assert d == d[..j] + d[j..] && e == e[..k] + e[k..];
    }
  }

  /** The last string hashed on the way up a proof. */
  lemma {:induction false} ProofTop(H: Hasher, x: seq<byte>, i: int, proof: seq<seq<byte>>, size: int) returns (top: seq<byte>)
    requires RootFromProof(H, Leaf(H, x), i, proof, size).Some?
    ensures top in ProofInputs(H, x, i, proof, size) && Some(H(top)) == RootFromProof(H, Leaf(H, x), i, proof, size)
    ensures size == 1 ==> top == [0] + x
    ensures size > 1 && i < Split(size) ==>
              proof != [] &&
              RootFromProof(H, Leaf(H, x), i, proof[..|proof| - 1], Split(size)).Some? &&
              top == NodeInput(RootFromProof(H, Leaf(H, x), i, proof[..|proof| - 1], Split(size)).value, proof[|proof| - 1])
    ensures size > 1 && i >= Split(size) ==>
              proof != [] &&
              RootFromProof(H, Leaf(H, x), i - Split(size), proof[1..], size - Split(size)).Some? &&
              top == NodeInput(proof[0], RootFromProof(H, Leaf(H, x), i - Split(size), proof[1..], size - Split(size)).value)
  {
    if size == 1 {
      top := [0] + x;
    } else if i < Split(size) {
      top := NodeInput(RootFromProof(H, Leaf(H, x), i, proof[..|proof| - 1], Split(size)).value, proof[|proof| - 1]);
    } else {
      top := NodeInput(proof[0], RootFromProof(H, Leaf(H, x), i - Split(size), proof[1..], size - Split(size)).value);
    }
  }

  /** Where both the tree and the proof have a node on top, their children are the same, and the proof
      goes on into one of them. */
  lemma {:induction false} ProofDescends(H: Hasher, data: seq<seq<byte>>, x: seq<byte>, i: int, proof: seq<seq<byte>>, size: int)
    requires |data| > 1 && size > 1 && RootFromProof(H, Leaf(H, x), i, proof, size) == Some(Root(H, data))
    requires NoCollision(H, TreeInputs(H, data) + ProofInputs(H, x, i, proof, size))
    ensures proof != []
    ensures var left, right := data[..Split(|data|)], data[Split(|data|)..];
            var k := Split(size);
            if i < k then
              RootFromProof(H, Leaf(H, x), i, proof[..|proof| - 1], k) == Some(Root(H, left)) &&
              proof[|proof| - 1] == Root(H, right) &&
              NoCollision(H, TreeInputs(H, left) + ProofInputs(H, x, i, proof[..|proof| - 1], k))
            else
              RootFromProof(H, Leaf(H, x), i - k, proof[1..], size - k) == Some(Root(H, right)) &&
              proof[0] == Root(H, left) &&
              NoCollision(H, TreeInputs(H, right) + ProofInputs(H, x, i - k, proof[1..], size - k))
  {
    var a := TopInput(H, data);
    var b := ProofTop(H, x, i, proof, size);
    assert a == b;
    var left, right := Root(H, data[..Split(|data|)]), Root(H, data[Split(|data|)..]);
    var k := Split(size);
    if i < k {
      NodeInputInjective(RootFromProof(H, Leaf(H, x), i, proof[..|proof| - 1], k).value, proof[|proof| - 1], left, right);
    } else {
      NodeInputInjective(proof[0], RootFromProof(H, Leaf(H, x), i - k, proof[1..], size - k).value, left, right);
    }
  }

  /** A leaf on top of one is a leaf on top of the other. */
  lemma {:induction false} ProofAtLeaf(H: Hasher, data: seq<seq<byte>>, x: seq<byte>, i: int, proof: seq<seq<byte>>, size: int)
    requires data != [] && RootFromProof(H, Leaf(H, x), i, proof, size) == Some(Root(H, data))
    requires NoCollision(H, TreeInputs(H, data) + ProofInputs(H, x, i, proof, size))
    requires |data| == 1 || size == 1
    ensures |data| == 1 && size == 1 && data[0] == x && proof == []
  {
    var a := TopInput(H, data);
    var b := ProofTop(H, x, i, proof, size);
    assert a == b && a[0] == b[0];
    assert a[1..] == data[0] && b[1..] == x;
  }

  /** A proof that leads to the root of some data is for an element of that data, whatever index and tree
      size it claims and however long its siblings are. */
  lemma {:induction false} ProofBindsData(H: Hasher, data: seq<seq<byte>>, x: seq<byte>, i: int, proof: seq<seq<byte>>, size: int)
    requires data != [] && RootFromProof(H, Leaf(H, x), i, proof, size) == Some(Root(H, data))
    requires NoCollision(H, TreeInputs(H, data) + ProofInputs(H, x, i, proof, size))
    ensures x in data
    decreases |data|
  {
    if |data| == 1 || size == 1 {
      ProofAtLeaf(H, data, x, i, proof, size);
    } else {
      ProofDescends(H, data, x, i, proof, size);
      var j, k := Split(|data|), Split(size);
      if i < k {
        ProofBindsData(H, data[..j], x, i, proof[..|proof| - 1], k);
      } else {
        ProofBindsData(H, data[j..], x, i - k, proof[1..], size - k);
      }
    }
  }

  lemma PathLeadsToRoot(H: Hasher, data: seq<seq<byte>>, i: nat)
    requires i < |data|
    ensures RootFromProof(H, Leaf(H, data[i]), i, AuditPath(H, LeafHashes(H, data), i), |data|) == Some(Root(H, data))
  {
    ProofRebuildsRoot(H, LeafHashes(H, data), i);
  }

  lemma NodeInputHalves(l: seq<byte>, r: seq<byte>, l': seq<byte>, r': seq<byte>)
    requires NodeInput(l, r) == NodeInput(l', r') && (|l| == |l'| || |r| == |r'|)
    ensures l == l' && r == r'
  {
    var n := NodeInput(l, r);
    assert n[1..1 + |l|] == l && n[1 + |l|..] == r;
    assert n[1..1 + |l'|] == l' && n[1 + |l'|..] == r';
  }

  /** Two proofs of one root at one index and size are the same proof of the same element. */
  lemma {:induction false} ProofUnique(H: Hasher, x: seq<byte>, p: seq<seq<byte>>, y: seq<byte>, q: seq<seq<byte>>, i: int, size: int)
    requires RootFromProof(H, Leaf(H, x), i, p, size).Some?
    requires RootFromProof(H, Leaf(H, x), i, p, size) == RootFromProof(H, Leaf(H, y), i, q, size)
    requires NoCollision(H, ProofInputs(H, x, i, p, size) + ProofInputs(H, y, i, q, size))
    ensures x == y && p == q
    decreases size
  {
    var a := ProofTop(H, x, i, p, size);
    var b := ProofTop(H, y, i, q, size);
    assert a == b;
    if size == 1 {
      assert a[1..] == x && b[1..] == y;
    } else {
      var k := Split(size);
      if i < k {
        var p', q' := p[..|p| - 1], q[..|q| - 1];
        NodeInputHalves(RootFromProof(H, Leaf(H, x), i, p', k).value, p[|p| - 1],
                        RootFromProof(H, Leaf(H, y), i, q', k).value, q[|q| - 1]);
        ProofUnique(H, x, p', y, q', i, k);
        assert p == p' + [p[|p| - 1]] && q == q' + [q[|q| - 1]];
      } else {
        var p', q' := p[1..], q[1..];
        NodeInputHalves(p[0], RootFromProof(H, Leaf(H, x), i - k, p', size - k).value,
                        q[0], RootFromProof(H, Leaf(H, y), i - k, q', size - k).value);
        ProofUnique(H, x, p', y, q', i - k, size - k);
        assert p == [p[0]] + p' && q == [q[0]] + q';
      }
    }
  }

  /** So with the true tree size a proof is for the element at its index, and is the audit path. */
  lemma {:induction false} ProofIsAuditPath(H: Hasher, data: seq<seq<byte>>, x: seq<byte>, i: nat, proof: seq<seq<byte>>)
    requires i < |data| && RootFromProof(H, Leaf(H, x), i, proof, |data|) == Some(Root(H, data))
    requires var path := AuditPath(H, LeafHashes(H, data), i);
             NoCollision(H, ProofInputs(H, x, i, proof, |data|) + ProofInputs(H, data[i], i, path, |data|))
    ensures x == data[i] && proof == AuditPath(H, LeafHashes(H, data), i)
  {
    PathLeadsToRoot(H, data, i);
    ProofUnique(H, x, proof, data[i], AuditPath(H, LeafHashes(H, data), i), i, |data|);
  }

  // ----- the order of section 2.1.1 of RFC 6962 -----

  /** Siblings from the leaf to the root. */
  function RfcPath(H: Hasher, hashes: seq<Hash>, i: nat): seq<seq<byte>>
    requires i < |hashes|
    decreases |hashes|
  {
    if |hashes| == 1 then []
    else
      var k := Split(|hashes|);
      if i < k then RfcPath(H, hashes[..k], i) + [Mth(H, hashes[k..])]
      else RfcPath(H, hashes[k..], i - k) + [Mth(H, hashes[..k])]
  }

  /** Descending to leaf i of n, the first step to the right reaches the leaf. */
  predicate RightOnlyLast(n: nat, i: nat)
    requires i < n
    decreases n
  {
    n == 1 || (var k := Split(n); if i < k then RightOnlyLast(k, i) else n - k == 1)
  }

  lemma {:induction false} PathsPermute(H: Hasher, hashes: seq<Hash>, i: nat)
    requires i < |hashes|
    ensures multiset(AuditPath(H, hashes, i)) == multiset(RfcPath(H, hashes, i))
    ensures |AuditPath(H, hashes, i)| == |RfcPath(H, hashes, i)|
    ensures |hashes| > 1 ==> AuditPath(H, hashes, i) != []
    decreases |hashes|
  {
    if |hashes| > 1 {
      var k := Split(|hashes|);
      if i < k { PathsPermute(H, hashes[..k], i); } else { PathsPermute(H, hashes[k..], i - k); }
    }
  }

  lemma PathsUnfold(H: Hasher, hashes: seq<Hash>, i: nat)
    requires i < |hashes|
    ensures |hashes| == 1 ==> AuditPath(H, hashes, i) == RfcPath(H, hashes, i) == []
    ensures |hashes| > 1 ==>
              var k := Split(|hashes|);
              if i < k then
                AuditPath(H, hashes, i) == AuditPath(H, hashes[..k], i) + [Mth(H, hashes[k..])] &&
                RfcPath(H, hashes, i) == RfcPath(H, hashes[..k], i) + [Mth(H, hashes[k..])]
              else
                AuditPath(H, hashes, i) == [Mth(H, hashes[..k])] + AuditPath(H, hashes[k..], i - k) &&
                RfcPath(H, hashes, i) == RfcPath(H, hashes[k..], i - k) + [Mth(H, hashes[..k])]
  {
  }

  predicate NoRepeats(s: seq<seq<byte>>) {
    forall i, j | 0 <= i < j < |s| :: s[i] != s[j]
  }

  /** A list that can give its head to the end of a permuted tail holds the head twice. */
  lemma RotatedRepeats(x: seq<byte>, tail: seq<seq<byte>>, permuted: seq<seq<byte>>)
    requires tail != [] && multiset(tail) == multiset(permuted) && [x] + tail == permuted + [x]
    ensures !NoRepeats([x] + tail)
  {
    assert |permuted| == |multiset(permuted)| == |tail|;
    assert ([x] + tail)[0] == (permuted + [x])[0] == permuted[0];
    assert x in multiset(permuted);
    var j :| 0 <= j < |tail| && tail[j] == x;
    assert ([x] + tail)[j + 1] == x;
  }

  /** The path is the one of the RFC exactly for leaves reached by going right only at the very end. */
  lemma {:induction false} PathOrder(H: Hasher, hashes: seq<Hash>, i: nat)
    requires i < |hashes|
    ensures RightOnlyLast(|hashes|, i) ==> AuditPath(H, hashes, i) == RfcPath(H, hashes, i)
    ensures NoRepeats(AuditPath(H, hashes, i)) && AuditPath(H, hashes, i) == RfcPath(H, hashes, i) ==>
              RightOnlyLast(|hashes|, i)
    decreases |hashes|
  {
    hide AuditPath, RfcPath, Mth, Split;
    PathsUnfold(H, hashes, i);
    if |hashes| > 1 {
      var k := Split(|hashes|);
      var path, rfc := AuditPath(H, hashes, i), RfcPath(H, hashes, i);
      if i < k {
        PathOrder(H, hashes[..k], i);
        assert path[..|path| - 1] == AuditPath(H, hashes[..k], i);
        assert rfc[..|rfc| - 1] == RfcPath(H, hashes[..k], i);
      } else {
        PathsPermute(H, hashes[k..], i - k);
        PathsUnfold(H, hashes[k..], i - k);
        if |hashes| - k > 1 && path == rfc {
          RotatedRepeats(Mth(H, hashes[..k]), AuditPath(H, hashes[k..], i - k), RfcPath(H, hashes[k..], i - k));
        }
      }
    }
  }

  // ----- the log -----

  /** A receipt: the log signed the subject and the root; index, size and path come along unsigned. */
  datatype Receipt = Receipt(log: string, subject: Hash, root: Hash, index: int, size: int, path: seq<seq<byte>>)

  predicate ReceiptVerifies(H: Hasher, r: Receipt, statement: seq<byte>, trusted: set<string>) {
    r.subject == H(statement) && r.log in trusted &&
    RootFromProof(H, Leaf(H, statement), r.index, r.path, r.size) == Some(r.root)
  }

  /** The receipt the log issued for its i-th statement. */
  predicate IssuedFor(H: Hasher, keyId: string, r: Receipt, all: seq<seq<byte>>, i: nat)
    requires i < |all|
  {
    r.log == keyId && r.index == i && r.size == i + 1 && r.root == Root(H, all[..i + 1]) &&
    ReceiptVerifies(H, r, all[i], {keyId})
  }

  predicate AllIssued(H: Hasher, keyId: string, issued: seq<Receipt>, all: seq<seq<byte>>) {
    |issued| == |all| && forall i | 0 <= i < |issued| :: IssuedFor(H, keyId, issued[i], all, i)
  }

  lemma IssueOne(H: Hasher, keyId: string, issued: seq<Receipt>, all: seq<seq<byte>>, r: Receipt, statement: seq<byte>)
    requires AllIssued(H, keyId, issued, all) && IssuedFor(H, keyId, r, all + [statement], |all|)
    ensures AllIssued(H, keyId, issued + [r], all + [statement])
  {
    var more := all + [statement];
    forall i | 0 <= i < |issued| ensures IssuedFor(H, keyId, issued[i], more, i) {
      assert more[..i + 1] == all[..i + 1];
      assert IssuedFor(H, keyId, issued[i], all, i);
    }
  }

  function ReceiptFor(H: Hasher, keyId: string, data: seq<seq<byte>>, i: nat): Receipt
    requires i < |data|
  {
    Receipt(keyId, H(data[i]), Root(H, data), i, |data|, AuditPath(H, LeafHashes(H, data), i))
  }

  lemma FreshReceiptVerifies(H: Hasher, keyId: string, data: seq<seq<byte>>, i: nat)
    requires i < |data|
    ensures ReceiptVerifies(H, ReceiptFor(H, keyId, data, i), data[i], {keyId})
  {
    PathLeadsToRoot(H, data, i);
  }

  lemma LastReceipt(H: Hasher, keyId: string, data: seq<seq<byte>>)
    requires data != []
    ensures IssuedFor(H, keyId, ReceiptFor(H, keyId, data, |data| - 1), data, |data| - 1)
  {
    var i := |data| - 1;
    assert data[..i + 1] == data;
    FreshReceiptVerifies(H, keyId, data, i);
  }

  class TransparencyLog {
    const H: Hasher
    const keyId: string
    var statements: seq<seq<byte>>
    var leafHashes: seq<Hash>
    /** Everything issued so far, in order. */
    ghost var issued: seq<Receipt>

    /** The two lists agree, and the i-th receipt is for the i-th statement under the root of the first
        i + 1 statements, whatever was registered since. */
    ghost predicate Valid()
      reads this
    {
      leafHashes == LeafHashes(H, statements) && AllIssued(H, keyId, issued, statements)
    }

    constructor (H: Hasher, keyId: string)
      ensures Valid() && statements == [] && this.H == H && this.keyId == keyId
    {
      this.H, this.keyId := H, keyId;
      statements, leafHashes, issued := [], [], [];
    }

    method TreeRoot() returns (root: Option<Hash>)
      requires Valid()
      ensures root == if statements == [] then None else Some(Root(H, statements))
    {
      if leafHashes == [] { return None; }
      root := Some(Mth(H, leafHashes));
    }

    /** `admitted` is what parsing, the issuer check and the registration policy decided. */
    method Register(statement: seq<byte>, admitted: bool) returns (r: Option<Receipt>)
      requires Valid()
      modifies this
      ensures Valid()
      ensures !admitted ==> r == None && statements == old(statements) && issued == old(issued)
      ensures admitted ==>
                statements == old(statements) + [statement] && r.Some? && issued == old(issued) + [r.value] &&
                ReceiptVerifies(H, r.value, statement, {keyId}) &&
                r.value == Receipt(keyId, H(statement), Root(H, statements), |old(statements)|, |old(statements)| + 1,
                                   AuditPath(H, LeafHashes(H, statements), |old(statements)|))
    {
      if !admitted { return None; }
      statements := statements + [statement];
      leafHashes := leafHashes + [Leaf(H, statement)];
      var index := |statements| - 1;
      var size := |statements|;
      var root := Mth(H, leafHashes);
      var path := AuditPath(H, leafHashes, index);
      var receipt := Receipt(keyId, H(statement), root, index, size, path);
      assert leafHashes == LeafHashes(H, statements);
      LastReceipt(H, keyId, statements);
      IssueOne(H, keyId, issued, old(statements), receipt, statement);
      issued := issued + [receipt];
      r := Some(receipt);
    }
  }

  /** A verifying receipt whose signed root is that of some log is for a statement in that log, even when
      its index, size and path were not made by the log. */
  lemma {:induction false} ReceiptBindsStatement(H: Hasher, log: seq<seq<byte>>, r: Receipt, statement: seq<byte>, trusted: set<string>)
    requires log != [] && r.root == Root(H, log) && ReceiptVerifies(H, r, statement, trusted)
    requires NoCollision(H, TreeInputs(H, log) + ProofInputs(H, statement, r.index, r.path, r.size))
    ensures statement in log
  {
    ProofBindsData(H, log, statement, r.index, r.path, r.size);
  }
}
