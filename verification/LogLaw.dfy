/** The two trees, the two logs and the checkpoints, spelled out: what is hashed, what a proof must fit, what links. */
module LogLaws {
  import opened Wrappers
  import opened Radix
  import ML = MerkleLog
  import opened EventMerkle
  import opened EventRoots
  import opened CheckpointChains

  // ----- the transparency log, section 2.1 of RFC 6962 -----

  lemma CutIs(n: nat, k: nat)
    requires ML.PowerOfTwo(k) && k < n <= 2 * k
    ensures ML.Split(n) == k
  {
    ML.SplitIsLargestPower(n);
    var a: nat :| Pow(2, a) == k;
    var b: nat :| Pow(2, b) == ML.Split(n);
    if k < ML.Split(n) {
      if b <= a { ML.PowMonotone(b, a); } else { ML.PowMonotone(a + 1, b); }
    }
  }

  /** A leaf is the hash of a zero byte and the data; a node is the hash of a one byte and the roots of the two
      parts, the first as long as the largest power of two below the length. */
  lemma TreeLaw(H: ML.Hasher, data: seq<seq<byte>>, k: nat)
    ensures |data| == 1 ==> ML.Root(H, data) == H([0x00] + data[0])
    ensures ML.PowerOfTwo(k) && k < |data| <= 2 * k ==>
              ML.Root(H, data) == H([0x01] + ML.Root(H, data[..k]) + ML.Root(H, data[k..]))
  {
    if |data| > 1 {
      if ML.PowerOfTwo(k) && k < |data| <= 2 * k { CutIs(|data|, k); }
      ML.RootSplits(H, data);
    }
  }

  /** The root a proof leads to: the leaf for a tree of one; else the root of the part the leaf is in, joined with the last
      element of the path on its right or with the first on its left. */
  lemma ProofLaw(H: ML.Hasher, leaf: ML.Hash, i: int, path: seq<seq<byte>>, size: int, k: nat)
    ensures !(0 <= i < size) ==> ML.RootFromProof(H, leaf, i, path, size) == None
    ensures 0 <= i < size == 1 ==> ML.RootFromProof(H, leaf, i, path, size) == if path == [] then Some(leaf) else None
    ensures 0 <= i < size && ML.PowerOfTwo(k) && k < size <= 2 * k ==>
              ML.RootFromProof(H, leaf, i, path, size) ==
              if path == [] then None
              else if i < k then
                (match ML.RootFromProof(H, leaf, i, path[..|path| - 1], k)
                 case None => None
                 case Some(left) => Some(H([0x01] + left + path[|path| - 1])))
              else
                match ML.RootFromProof(H, leaf, i - k, path[1..], size - k)
                case None => None
                case Some(right) => Some(H([0x01] + path[0] + right))
  {
    if 0 <= i < size && ML.PowerOfTwo(k) && k < size <= 2 * k { CutIs(size, k); }
  }

  /** The path of a leaf: that of its part, with the root of the other part behind it or in front of it. */
  lemma PathLaw(H: ML.Hasher, hashes: seq<ML.Hash>, i: nat, k: nat)
    requires i < |hashes|
    ensures |hashes| == 1 ==> ML.AuditPath(H, hashes, i) == []
    ensures ML.PowerOfTwo(k) && k < |hashes| <= 2 * k ==>
              ML.AuditPath(H, hashes, i) ==
              if i < k then ML.AuditPath(H, hashes[..k], i) + [ML.Mth(H, hashes[k..])]
              else [ML.Mth(H, hashes[..k])] + ML.AuditPath(H, hashes[k..], i - k)
  {
    if ML.PowerOfTwo(k) && k < |hashes| <= 2 * k { CutIs(|hashes|, k); }
  }

  /** A receipt verifies exactly when it names the hash of the statement, a trusted log signed it, and the root the log signed
      is the one its path leads to from the statement. */
  lemma ReceiptLaw(H: ML.Hasher, r: ML.Receipt, statement: seq<byte>, trusted: set<string>)
    ensures ML.ReceiptVerifies(H, r, statement, trusted) <==>
            r.subject == H(statement) && r.log in trusted &&
            ML.RootFromProof(H, H([0x00] + statement), r.index, r.path, r.size) == Some(r.root)
  {
  }

  // ----- the evidence log -----

  /** Sequences count from zero, the first event has no predecessor, every other carries the hash of the one before. */
  lemma ChainedExactly(H: Hasher, events: seq<Event>)
    ensures Chained(H, events) <==>
            (events != [] ==> events[0].sequence == 0 && events[0].previous == None) &&
            forall i | 0 < i < |events| ::
              events[i].sequence == events[i - 1].sequence + 1 && events[i].previous == Some(H(OfEvent(events[i - 1])))
  {
    if Chained(H, events) {
      forall i | 0 < i < |events|
        ensures events[i].sequence == events[i - 1].sequence + 1 && events[i].previous == Some(H(OfEvent(events[i - 1])))
      {
        assert Linked(H, events, i) && Linked(H, events, i - 1);
      }
      if events != [] { assert Linked(H, events, 0); }
    } else {
      var k :| 0 <= k < |events| && !Linked(H, events, k);
      if k > 0 && forall i | 0 < i < |events| :: events[i].sequence == events[i - 1].sequence + 1 {
        Counted(events, k);
      }
    }
  }

  lemma {:induction false} Counted(events: seq<Event>, k: nat)
    requires k < |events| && forall i | 0 < i < |events| :: events[i].sequence == events[i - 1].sequence + 1
    ensures events[k].sequence == events[0].sequence + k
  {
    if k > 0 { Counted(events, k - 1); }
  }

  /** A slice is fit to be sealed exactly when consecutive events count up and link. */
  lemma ContiguousExactly(H: Hasher, events: seq<Event>)
    ensures Contiguous(H, events) <==>
            forall i | 0 < i < |events| ::
              events[i].sequence == events[i - 1].sequence + 1 && events[i].previous == Some(H(OfEvent(events[i - 1])))
  {
    if Contiguous(H, events) {
      forall i | 0 < i < |events| ensures events[i].sequence == events[i - 1].sequence + 1 {
        assert events[i].sequence == events[0].sequence + i;
        if i > 1 { assert events[i - 1].sequence == events[0].sequence + (i - 1); }
      }
    } else {
      var k :| 0 < k < |events| &&
               !(events[k].sequence == events[0].sequence + k && events[k].previous == Some(H(OfEvent(events[k - 1]))));
      if forall i | 0 < i < |events| :: events[i].sequence == events[i - 1].sequence + 1 {
        Counted(events, k);
      }
    }
  }

  // ----- the tree over events -----

  /** Pairs are hashed left before right, and a last one without a partner is its own. */
  lemma SmallTrees(H: Hasher, a: Digest, b: Digest, c: Digest)
    ensures RootOf(H, [a]) == a
    ensures RootOf(H, [a, b]) == H(OfPair(a, b))
    ensures RootOf(H, [a, b, c]) == H(OfPair(H(OfPair(a, b)), H(OfPair(c, c))))
  {
    assert Up(H, [a, b]) == [H(PairAt([a, b], 0))] == [H(OfPair(a, b))];
    assert Padded([a, b, c]) == [a, b, c, c];
    var up := Up(H, [a, b, c]);
    assert up == [H(PairAt([a, b, c], 0)), H(PairAt([a, b, c], 1))] == [H(OfPair(a, b)), H(OfPair(c, c))];
    assert Up(H, up) == [H(PairAt(up, 0))] == [H(OfPair(up[0], up[1]))];
    assert RootOf(H, [a, b, c]) == RootOf(H, up) == RootOf(H, Up(H, up));
  }

  /** The level above hashes each node with its neighbour, the last one with itself when it has none. */
  lemma LevelLaw(H: Hasher, level: seq<Digest>)
    requires |level| > 1
    ensures var n := |level|;
            RootOf(H, level) ==
            RootOf(H, seq((n + 1) / 2, i requires 0 <= i < (n + 1) / 2 =>
                                         H(OfPair(level[2 * i], if 2 * i + 1 < n then level[2 * i + 1] else level[2 * i]))))
  {
    var n := |level|;
    var up := seq((n + 1) / 2, i requires 0 <= i < (n + 1) / 2 =>
                                 H(OfPair(level[2 * i], if 2 * i + 1 < n then level[2 * i + 1] else level[2 * i])));
    forall i | 0 <= i < |up| ensures up[i] == Up(H, level)[i] {
      NeighbourIs(level, i);
    }
    assert up == Up(H, level);
  }

  lemma NeighbourIs(level: seq<Digest>, i: nat)
    requires 2 * i < |level|
    ensures 2 * i + 1 < |Padded(level)|
    ensures PairAt(level, i) == OfPair(level[2 * i], if 2 * i + 1 < |level| then level[2 * i + 1] else level[2 * i])
  {
    assert Padded(level)[..|level|] == level;
    assert level[2 * i] == Padded(level)[2 * i];
  }

  /** An inclusion proof is accepted exactly when it carries the event's hash and the number of leaves and folds to the root. */
  lemma InclusionExactly(H: Hasher, root: Digest, count: nat, event: Event, proof: InclusionProof)
    ensures VerifyInclusion(H, root, count, event, proof) <==>
            proof.leaf == H(OfEvent(event)) && proof.total == count && Fold(H, H(OfEvent(event)), proof.steps) == root
  {
  }

  /** Folding joins the sibling of each step on the side that the step says. */
  lemma FoldLaw(H: Hasher, node: Digest, sibling: Digest, rest: seq<Step>)
    ensures Fold(H, node, []) == node
    ensures Fold(H, node, [Step(sibling, true)] + rest) == Fold(H, H(OfPair(sibling, node)), rest)
    ensures Fold(H, node, [Step(sibling, false)] + rest) == Fold(H, H(OfPair(node, sibling)), rest)
  {
    assert ([Step(sibling, true)] + rest)[1..] == rest && ([Step(sibling, false)] + rest)[1..] == rest;
  }

  // ----- checkpoints -----

  /** The signer in force is the one declared last, the first one when none was declared. */
  predicate DeclaredLast(chain: seq<Envelope>, bootstrap: Signer, signer: Signer) {
    (signer == bootstrap && forall k | 0 <= k < |chain| :: chain[k].checkpoint.next == None) ||
    exists i | 0 <= i < |chain| :: chain[i].checkpoint.next == Some(signer) &&
                                   forall k | i < k < |chain| :: chain[k].checkpoint.next == None
  }

  lemma {:induction false} InForceIsLast(chain: seq<Envelope>, bootstrap: Signer)
    ensures forall signer :: DeclaredLast(chain, bootstrap, signer) <==> signer == InForce(chain, bootstrap)
  {
    if chain != [] {
      var n := |chain| - 1;
      var init := chain[..n];
      InForceIsLast(init, bootstrap);
      forall signer ensures DeclaredLast(chain, bootstrap, signer) <==> signer == InForce(chain, bootstrap) {
        assert DeclaredLast(init, bootstrap, signer) <==> signer == InForce(init, bootstrap);
        LastDeclared(chain, bootstrap, signer);
      }
    }
  }

  lemma LastDeclared(chain: seq<Envelope>, bootstrap: Signer, signer: Signer)
    requires chain != []
    ensures var n := |chain| - 1;
            DeclaredLast(chain, bootstrap, signer) <==>
            if chain[n].checkpoint.next.Some? then chain[n].checkpoint.next == Some(signer)
            else DeclaredLast(chain[..n], bootstrap, signer)
  {
    var n := |chain| - 1;
    var init := chain[..n];
    if chain[n].checkpoint.next.Some? {
      if i :| 0 <= i < |chain| && chain[i].checkpoint.next == Some(signer) && forall k | i < k < |chain| :: chain[k].checkpoint.next == None {
        assert i == n;
      }
    } else {
      if i :| 0 <= i < |chain| && chain[i].checkpoint.next == Some(signer) && forall k | i < k < |chain| :: chain[k].checkpoint.next == None {
        assert i < n && init[i] == chain[i];
        forall k | i < k < |init| ensures init[k].checkpoint.next == None { assert init[k] == chain[k]; }
      }
      if forall k | 0 <= k < |chain| :: chain[k].checkpoint.next == None {
        forall k | 0 <= k < |init| ensures init[k].checkpoint.next == None { assert init[k] == chain[k]; }
      }
      if i :| 0 <= i < |init| && init[i].checkpoint.next == Some(signer) && forall k | i < k < |init| :: init[k].checkpoint.next == None {
        assert chain[i] == init[i];
        forall k | i < k < |chain| ensures chain[k].checkpoint.next == None { if k < n { assert init[k] == chain[k]; } }
      }
      if forall k | 0 <= k < |init| :: init[k].checkpoint.next == None {
        forall k | 0 <= k < |chain| ensures chain[k].checkpoint.next == None { if k < n { assert init[k] == chain[k]; } }
      }
    }
  }

  /** The checkpoint is signed by the key of the signer declared last and under its id, is anchored, has a range, names
      the root before it, starts behind the end before it and is no older. */
  predicate InPlace(chain: seq<Envelope>, bootstrap: Signer, anchor: Anchor, i: nat)
    requires i < |chain|
  {
    var c := chain[i].checkpoint;
    DeclaredLast(chain[..i], bootstrap, Signer(chain[i].keyId, chain[i].signedBy)) &&
    c.start <= c.end && anchor(c) &&
    c.previousRoot == (if i == 0 then None else Some(chain[i - 1].checkpoint.root)) &&
    (i > 0 ==> c.start == chain[i - 1].checkpoint.end + 1 && chain[i - 1].checkpoint.at <= c.at)
  }

  /** Exactly the chains with every checkpoint in its place are accepted. */
  lemma AcceptedSays(chain: seq<Envelope>, bootstrap: Signer, anchor: Anchor)
    ensures Accepted(chain, bootstrap, anchor) <==>
            chain != [] && forall i | 0 <= i < |chain| :: InPlace(chain, bootstrap, anchor, i)
  {
    hide WalkThrough, DeclaredLast, InForce;
    AcceptedExactly(chain, bootstrap, anchor);
    forall i | 0 <= i < |chain|
      ensures Follows(chain, bootstrap, anchor, i) <==> InPlace(chain, bootstrap, anchor, i)
    {
      InForceIsLast(chain[..i], bootstrap);
    }
  }

  /** A slice can be sealed exactly when it is not empty, counts up and links, starts where the last one ended or at zero, time does
      not run back, the key of the signer in force is at hand, and the anchor takes the checkpoint. */
  lemma SealableExactly(H: Hasher, before: seq<Envelope>, bootstrap: Signer, anchor: Anchor, signers: map<string, Key>,
                        events: seq<Event>, next: Option<Signer>, at: real)
    ensures Sealable(H, before, bootstrap, anchor, signers, events, next, at) <==>
            events != [] &&
            (forall i | 0 < i < |events| ::
               events[i].sequence == events[i - 1].sequence + 1 && events[i].previous == Some(H(OfEvent(events[i - 1])))) &&
            events[0].sequence == (if before == [] then 0 else before[|before| - 1].checkpoint.end + 1) &&
            (before != [] ==> before[|before| - 1].checkpoint.at <= at) &&
            (exists signer :: DeclaredLast(before, bootstrap, signer) && signer.id in signers && signers[signer.id] == signer.key) &&
            events[0].sequence >= 0 && anchor(Candidate(H, before, events, next, at))
  {
    hide DeclaredLast, InForce, Contiguous, Candidate;
    ContiguousExactly(H, events);
    InForceIsLast(before, bootstrap);
    assert DeclaredLast(before, bootstrap, InForce(before, bootstrap));
  }

  /** What is sealed: the range of the slice, the root over its events, the root before, the time and the next signer. */
  lemma CandidateSays(H: Hasher, before: seq<Envelope>, events: seq<Event>, next: Option<Signer>, at: real)
    requires events != [] && events[0].sequence >= 0 && Contiguous(H, events)
    ensures var c := Candidate(H, before, events, next, at);
            c.start == events[0].sequence && c.end == events[|events| - 1].sequence && c.at == at && c.next == next &&
            c.previousRoot == (if before == [] then None else Some(before[|before| - 1].checkpoint.root)) &&
            c.root == RootOf(H, seq(|events|, i requires 0 <= i < |events| => H(OfEvent(events[i]))))
  {
    assert EventHashes(H, events) == seq(|events|, i requires 0 <= i < |events| => H(OfEvent(events[i])));
  }
}
