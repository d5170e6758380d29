/** What an accepted inclusion path says: it has the height of the tree, and its directions spell the place
    of the event in the padded list.  The index that a proof carries is not looked at. */
module EventInclusions {
  import opened Wrappers
  import opened Radix
  import opened EventMerkle
  import opened EventRoots

  // ----- the place a path leads to -----

  /** The directions as binary digits, lowest level first: 1 where the sibling stands on the left. */
  function Place(steps: seq<Step>): nat {
    if steps == [] then 0 else (if steps[0].isLeft then 1 else 0) + 2 * Place(steps[1..])
  }

  lemma {:induction false} PlaceSnoc(steps: seq<Step>, last: Step)
    ensures Place(steps + [last]) == Place(steps) + if last.isLeft then Pow(2, |steps|) else 0
    decreases |steps|
  {
    if steps == [] {
      assert [last][1..] == [] && [] + [last] == [last];
    } else {
      PlaceSnoc(steps[1..], last);
      assert (steps + [last])[1..] == steps[1..] + [last];
    }
  }

  /** A path made for an index spells that index. */
  lemma {:induction false} PlaceOfProof(H: Hasher, level: seq<Digest>, i: nat)
    requires i < |level|
    ensures Place(StepsOf(H, level, i)) == i
    decreases |level|
  {
    hide Padded, Up;
    if |level| > 1 {
      PlaceOfProof(H, Up(H, level), i / 2);
      assert StepsOf(H, level, i)[1..] == StepsOf(H, Up(H, level), i / 2);
    }
  }

  // ----- folding to the root of a full tree -----

  lemma FullUnfolds(H: Hasher, s: seq<Digest>)
    requires s != []
    ensures |s| == 1 ==> Full(H, s) == s[0]
    ensures |s| > 1 ==>
              var x, y := s[..|s| / 2], s[|s| / 2..];
              Full(H, s) == H(OfPair(Full(H, x), Full(H, y))) && OfPair(Full(H, x), Full(H, y)) in FullInputs(H, s) &&
              FullInputs(H, x) <= FullInputs(H, s) && FullInputs(H, y) <= FullInputs(H, s)
  {
  }

  lemma PowerHalf(n: nat)
    requires IsPower(n) && n > 1
    ensures n == 2 * (n / 2) && IsPower(n / 2) && n / 2 > 0
  {
  }

  /** A path from a leaf to the root of a full tree has the height of the tree, and its directions name the
      place where the leaf stands. */
  lemma {:induction false} FoldAtPlace(H: Hasher, leaf: Digest, steps: seq<Step>, s: seq<Digest>, inputs: set<Input>)
    requires s != [] && IsPower(|s|) && Fold(H, leaf, steps) == Full(H, s)
    requires NoCollision(H, inputs) && FullInputs(H, s) <= inputs && FoldInputs(H, leaf, steps) <= inputs
    requires LeavesApart(H, s + [leaf], inputs)
    ensures Pow(2, |steps|) == |s| && Place(steps) < |s| && s[Place(steps)] == leaf
    decreases |steps|
  {
    hide Full, FullInputs, Fold, FoldInputs, LeavesApart, NoCollision, IsPower;
    FullUnfolds(H, s);
    if steps == [] {
      FoldNone(H, leaf);
      if |s| > 1 { NodeOnTop(H, leaf, s, s + [leaf], inputs); }
    } else {
      var init, last := steps[..|steps| - 1], steps[|steps| - 1];
      assert steps == init + [last];
      FoldSnoc(H, leaf, init, last);
      PlaceSnoc(init, last);
      var top := Join(last, Fold(H, leaf, init));
      assert top in inputs;
      if |s| == 1 {
        LeafNoNode(H, s[0], top, s + [leaf], inputs);
      } else {
        PowerHalf(|s|);
        var k := |s| / 2;
        var x, y := s[..k], s[k..];
        SameInput(H, top, OfPair(Full(H, x), Full(H, y)), inputs);
        var half := if last.isLeft then y else x;
        ApartPart(H, s + [leaf], half + [leaf], inputs);
        FoldAtPlace(H, leaf, init, half, inputs);
      }
    }
  }

  lemma SameInput(H: Hasher, a: Input, b: Input, inputs: set<Input>)
    requires NoCollision(H, inputs) && a in inputs && b in inputs && H(a) == H(b)
    ensures a == b
  {
  }

  lemma LeafNoNode(H: Hasher, leaf: Digest, top: Input, leaves: seq<Digest>, inputs: set<Input>)
    requires LeavesApart(H, leaves, inputs) && leaf in leaves && top in inputs
    ensures H(top) != leaf
  {
  }

  // ----- padded lists and the list they come from -----

  function Indices(n: nat): (r: seq<nat>)
    ensures |r| == n && forall i | 0 <= i < n :: r[i] == i
  {
    seq(n, i => i)
  }

  /** The index of the element that stands at a place of the padded list of `n` elements. */
  function Source(n: nat, place: nat): (i: nat)
    requires n > 0 && place < |Stretch(Indices(n))|
    ensures i < n
    ensures place < n ==> i == place
  {
    StretchKeeps(Indices(n));
    assert Stretch(Indices(n))[place] in Indices(n);
    assert place < n ==> Stretch(Indices(n))[place] == Indices(n)[place];
    Stretch(Indices(n))[place]
  }

  /** The second list of blocks holds what the first one points to. */
  predicate Picks<T(==)>(at: seq<seq<nat>>, blocks: seq<seq<T>>, s: seq<T>) {
    |at| == |blocks| && forall k | 0 <= k < |at| :: PicksBlock(at[k], blocks[k], s)
  }

  predicate PicksBlock<T(==)>(at: seq<nat>, block: seq<T>, s: seq<T>) {
    |at| == |block| && forall j | 0 <= j < |at| :: at[j] < |s| && block[j] == s[at[j]]
  }

  lemma PicksUp<T>(at: seq<seq<nat>>, blocks: seq<seq<T>>, s: seq<T>)
    requires at != [] && Picks(at, blocks, s)
    ensures Picks(UpBlocks(at), UpBlocks(blocks), s)
  {
    hide PicksBlock;
    var p, q := EvenBlocks(at), EvenBlocks(blocks);
    forall k | 0 <= k < |UpBlocks(at)| ensures PicksBlock(UpBlocks(at)[k], UpBlocks(blocks)[k], s) {
      PicksJoin(p[2 * k], p[2 * k + 1], q[2 * k], q[2 * k + 1], s);
    }
  }

  lemma PicksJoin<T>(a: seq<nat>, b: seq<nat>, x: seq<T>, y: seq<T>, s: seq<T>)
    requires PicksBlock(a, x, s) && PicksBlock(b, y, s)
    ensures PicksBlock(a + b, x + y, s)
  {
  }

  lemma {:induction false} StretchedPicks<T>(at: seq<seq<nat>>, blocks: seq<seq<T>>, s: seq<T>)
    requires at != [] && Picks(at, blocks, s)
    ensures PicksBlock(Stretched(at), Stretched(blocks), s)
    decreases |at|
  {
    hide PicksBlock, UpBlocks;
    if |at| > 1 {
      PicksUp(at, blocks, s);
      StretchedPicks(UpBlocks(at), UpBlocks(blocks), s);
    }
  }

  /** Padding looks at places only, not at what stands there. */
  lemma StretchPicks<T>(s: seq<T>)
    requires s != []
    ensures PicksBlock(Stretch(Indices(|s|)), Stretch(s), s)
  {
    StretchedPicks(Singles(Indices(|s|)), Singles(s), s);
  }

  lemma {:induction false} StretchedPower<T>(blocks: seq<seq<T>>, w: nat)
    requires blocks != [] && AllLong(blocks, w) && IsPower(w)
    ensures IsPower(|Stretched(blocks)|)
    decreases |blocks|
  {
    if |blocks| > 1 {
      assert 2 * w / 2 == w && IsPower(2 * w);
      StretchedPower(UpBlocks(blocks), 2 * w);
    }
  }

  // ----- inclusion -----

  /** Everything hashed for the tree, for the events, and along the path. */
  function AllInputs(H: Hasher, events: seq<Event>, event: Event, steps: seq<Step>): set<Input>
    requires events != []
  {
    TreeInputs(H, EventHashes(H, events)) + EventInputs(events) + {OfEvent(event)} + FoldInputs(H, H(OfEvent(event)), steps)
  }

  lemma {:induction false} FoldPairs(H: Hasher, node: Digest, steps: seq<Step>)
    ensures forall p | p in FoldInputs(H, node, steps) :: p.OfPair?
    decreases |steps|
  {
    if steps != [] { FoldPairs(H, H(Join(steps[0], node)), steps[1..]); }
  }

  lemma EventApart(H: Hasher, events: seq<Event>, event: Event, pairs: set<Input>, inputs: set<Input>)
    requires NoCollision(H, inputs) && pairs <= inputs && forall p | p in pairs :: p.OfPair?
    requires EventInputs(events) + {OfEvent(event)} <= inputs
    ensures forall x | x in EventHashes(H, events) || x == H(OfEvent(event)) :: forall p | p in pairs :: H(p) != x
  {
    forall x, p | (x in EventHashes(H, events) || x == H(OfEvent(event))) && p in pairs ensures H(p) != x {
      var e := if x == H(OfEvent(event)) then event else EventBehind(H, events, x);
      assert OfEvent(e) != p;
    }
  }

  /** An accepted path has the height of the padded tree, and its directions lead to the event: it is the
      one whose index stands at that place of the padded list. */
  lemma {:induction false} InclusionBindsPlace(H: Hasher, events: seq<Event>, event: Event, proof: InclusionProof, count: nat)
    requires events != [] && VerifyInclusion(H, RootOf(H, EventHashes(H, events)), count, event, proof)
    requires NoCollision(H, AllInputs(H, events, event, proof.steps))
    ensures var n, place := |events|, Place(proof.steps);
            Pow(2, |proof.steps|) == |Stretch(Indices(n))| && place < |Stretch(Indices(n))| &&
            events[Source(n, place)] == event
  {
    hide RootOf, Full, FullInputs, Fold, FoldInputs, TreeInputs, Stretch, Stretched, Place, IsPower;
    var leaves, leaf := EventHashes(H, events), H(OfEvent(event));
    var all := AllInputs(H, events, event, proof.steps);
    var pairs := TreeInputs(H, leaves) + FoldInputs(H, leaf, proof.steps);
    RootIsFull(H, leaves);
    OnlyPairs(H, leaves);
    FoldPairs(H, leaf, proof.steps);
    EventApart(H, events, event, pairs, all);
    StretchKeeps(leaves);
    StretchPower(leaves);
    FoldAtPlace(H, leaf, proof.steps, Stretch(leaves), pairs);
    StretchPicks(leaves);
    var i := Source(|events|, Place(proof.steps));
    assert leaves[i] == leaf;
    SameInput(H, OfEvent(events[i]), OfEvent(event), all);
  }

  lemma StretchPower<T>(s: seq<T>)
    requires s != []
    ensures IsPower(|Stretch(s)|)
  {
    StretchedPower(Singles(s), 1);
  }

  /** So for different events the index a proof carries is right exactly when the directions say so: when it
      is the index that stands at their place, which for a place within the list is the place itself. */
  lemma {:induction false} IndexExactly(H: Hasher, events: seq<Event>, event: Event, proof: InclusionProof, count: nat)
    requires events != [] && NoRepeats(events)
    requires VerifyInclusion(H, RootOf(H, EventHashes(H, events)), count, event, proof)
    requires NoCollision(H, AllInputs(H, events, event, proof.steps))
    ensures Place(proof.steps) < |Stretch(Indices(|events|))|
    ensures proof.index < |events| && events[proof.index] == event <==>
            proof.index == Source(|events|, Place(proof.steps))
  {
    InclusionBindsPlace(H, events, event, proof, count);
  }

  /** The index itself is never read: every accepted proof is accepted under a wrong index of the list too. */
  lemma WrongIndexAccepted(H: Hasher, events: seq<Event>, event: Event, proof: InclusionProof, count: nat)
    requires |events| > 1 && NoRepeats(events)
    requires VerifyInclusion(H, RootOf(H, EventHashes(H, events)), count, event, proof)
    ensures exists index: nat | index < |events| ::
              VerifyInclusion(H, RootOf(H, EventHashes(H, events)), count, event, proof.(index := index)) && events[index] != event
  {
    var index := if events[0] == event then 1 else 0;
    assert VerifyInclusion(H, RootOf(H, EventHashes(H, events)), count, event, proof.(index := index));
  }
}
