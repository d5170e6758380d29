/** The evidence log and the Merkle tree over its events: levels of odd length repeat their last node. */
module EventMerkle {
  import opened Wrappers

  type Digest = string

  /** An event carries the hash of the one before it.  `body` stands for its type, data and time. */
  datatype Event = Event(sequence: int, body: string, previous: Option<Digest>)

  /** What is hashed: the canonical form of an event, or of a pair of child hashes.  The two forms are
      different JSON objects. */
  datatype Input = OfEvent(event: Event) | OfPair(left: Digest, right: Digest)

  type Hasher = Input -> Digest

  predicate NoCollision(H: Hasher, inputs: set<Input>) {
    forall a, b | a in inputs && b in inputs && H(a) == H(b) :: a == b
  }

  // ----- the tree -----

  function Padded(level: seq<Digest>): (r: seq<Digest>)
    requires level != []
    ensures |r| % 2 == 0 && |level| <= |r| <= |level| + 1 && r[..|level|] == level
  {
    if |level| % 2 == 1 then level + [level[|level| - 1]] else level
  }

  function PairAt(level: seq<Digest>, i: nat): Input
    requires level != [] && 2 * i + 1 < |Padded(level)|
  {
    OfPair(Padded(level)[2 * i], Padded(level)[2 * i + 1])
  }

  function Up(H: Hasher, level: seq<Digest>): (r: seq<Digest>)
    requires level != []
    ensures |r| == (|level| + 1) / 2 && (|level| > 1 ==> 0 < |r| < |level|)
    ensures forall i | 0 <= i < |r| :: r[i] == H(PairAt(level, i))
  {
    seq(|Padded(level)| / 2, i requires 0 <= i < |Padded(level)| / 2 => H(PairAt(level, i)))
  }

  function RootOf(H: Hasher, level: seq<Digest>): Digest
    requires level != []
    decreases |level|
  {
    if |level| == 1 then level[0] else RootOf(H, Up(H, level))
  }

  datatype Step = Step(sibling: Digest, isLeft: bool)

  function StepAt(level: seq<Digest>, i: nat): Step
    requires i < |level|
  {
    if i % 2 == 0 then Step(Padded(level)[i + 1], false) else Step(Padded(level)[i - 1], true)
  }

  function StepsOf(H: Hasher, level: seq<Digest>, i: nat): seq<Step>
    requires i < |level|
    decreases |level|
  {
    if |level| == 1 then [] else [StepAt(level, i)] + StepsOf(H, Up(H, level), i / 2)
  }

  function Join(step: Step, node: Digest): Input {
    if step.isLeft then OfPair(step.sibling, node) else OfPair(node, step.sibling)
  }

  function Fold(H: Hasher, node: Digest, steps: seq<Step>): Digest
    decreases |steps|
  {
    if steps == [] then node else Fold(H, H(Join(steps[0], node)), steps[1..])
  }

  method BuildMerkleRoot(H: Hasher, leaves: seq<Digest>) returns (r: Option<Digest>)
    ensures r == if leaves == [] then None else Some(RootOf(H, leaves))
  {
    if leaves == [] { return None; }
    var level := leaves;
    while |level| > 1
      invariant level != [] && RootOf(H, level) == RootOf(H, leaves)
      decreases |level|
    {
      level := NextLevel(H, level);
    }
    r := Some(level[0]);
  }

  /** One round of the level loops: the last node is repeated on odd levels, then pairs are hashed. */
  method NextLevel(H: Hasher, below: seq<Digest>) returns (level: seq<Digest>)
    requires below != []
    ensures level == Up(H, below)
  {
    var padded := below;
    if |padded| % 2 == 1 { padded := padded + [padded[|padded| - 1]]; }
    level := [];
    var i := 0;
    while i < |padded|
      invariant 0 <= i <= |padded| && i % 2 == 0 && |level| == i / 2
      invariant forall k | 0 <= k < |level| :: level[k] == H(PairAt(below, k))
    {
      level := level + [H(OfPair(padded[i], padded[i + 1]))];
      i := i + 2;
    }
  }

  method Prove(H: Hasher, leaves: seq<Digest>, leafIndex: nat) returns (steps: seq<Step>)
    requires leafIndex < |leaves|
    ensures steps == StepsOf(H, leaves, leafIndex)
  {
    hide StepsOf;
    steps := [];
    var level := leaves;
    var index: nat := leafIndex;
    while |level| > 1
      invariant index < |level| && steps + StepsOf(H, level, index) == StepsOf(H, leaves, leafIndex)
      decreases |level|
    {
      var padded := if |level| % 2 == 1 then level + [level[|level| - 1]] else level;
      var step := if index % 2 == 0 then Step(padded[index + 1], false) else Step(padded[index - 1], true);
      StepsContinue(H, steps, level, index);
      steps := steps + [step];
      level := NextLevel(H, level);
      index := index / 2;
    }
    StepsEnd(H, steps, level, index);
  }

  lemma StepsEnd(H: Hasher, steps: seq<Step>, level: seq<Digest>, i: nat)
    requires i < |level| == 1
    ensures steps + StepsOf(H, level, i) == steps
  {
  }

  lemma StepsContinue(H: Hasher, steps: seq<Step>, level: seq<Digest>, i: nat)
    requires i < |level| && |level| > 1
    ensures steps + StepsOf(H, level, i) == steps + [StepAt(level, i)] + StepsOf(H, Up(H, level), i / 2)
  {
  }

  lemma StepJoins(level: seq<Digest>, i: nat)
    requires i < |level|
    ensures 2 * (i / 2) + 1 < |Padded(level)| && Join(StepAt(level, i), level[i]) == PairAt(level, i / 2)
  {
  }

  /** The path of every leaf of every list folds to the root. */
  lemma {:induction false} FoldRebuildsRoot(H: Hasher, level: seq<Digest>, i: nat)
    requires i < |level|
    ensures Fold(H, level[i], StepsOf(H, level, i)) == RootOf(H, level)
    decreases |level|
  {
    hide Padded, PairAt, Join;
    if |level| > 1 {
      var step := StepAt(level, i);
      StepJoins(level, i);
      FoldRebuildsRoot(H, Up(H, level), i / 2);
      assert StepsOf(H, level, i)[1..] == StepsOf(H, Up(H, level), i / 2);
    }
  }

  // ----- the root determines the leaves of lists of one length -----

  function PairInputs(level: seq<Digest>): set<Input>
    requires level != []
  {
    set i: nat | i < |Padded(level)| / 2 :: PairAt(level, i)
  }

  /** Every pair hashed on the way to the root. */
  function TreeInputs(H: Hasher, level: seq<Digest>): set<Input>
    requires level != []
    decreases |level|
  {
    if |level| == 1 then {} else PairInputs(level) + TreeInputs(H, Up(H, level))
  }

  lemma UpInjective(H: Hasher, a: seq<Digest>, b: seq<Digest>)
    requires a != [] && |a| == |b| && Up(H, a) == Up(H, b) && NoCollision(H, PairInputs(a) + PairInputs(b))
    ensures a == b
  {
    forall i | 0 <= i < |a| ensures a[i] == b[i] {
      var j := i / 2;
      assert H(PairAt(a, j)) == Up(H, a)[j] == Up(H, b)[j] == H(PairAt(b, j));
      assert PairAt(a, j) in PairInputs(a) && PairAt(b, j) in PairInputs(b);
      assert PairAt(a, j) == PairAt(b, j);
      assert Padded(a)[i] == a[i] && Padded(b)[i] == b[i];
    }
  }

  lemma {:induction false} RootBindsLeaves(H: Hasher, a: seq<Digest>, b: seq<Digest>)
    requires a != [] && |a| == |b| && RootOf(H, a) == RootOf(H, b)
    requires NoCollision(H, TreeInputs(H, a) + TreeInputs(H, b))
    ensures a == b
    decreases |a|
  {
    if |a| == 1 {
      assert a == [a[0]] && b == [b[0]];
    } else {
      RootBindsLeaves(H, Up(H, a), Up(H, b));
      UpInjective(H, a, b);
    }
  }

  // ----- inclusion -----

  function EventHashes(H: Hasher, events: seq<Event>): (r: seq<Digest>)
    ensures |r| == |events| && forall i | 0 <= i < |r| :: r[i] == H(OfEvent(events[i]))
  {
    seq(|events|, i requires 0 <= i < |events| => H(OfEvent(events[i])))
  }

  function FoldInputs(H: Hasher, node: Digest, steps: seq<Step>): set<Input>
    decreases |steps|
  {
    if steps == [] then {} else {Join(steps[0], node)} + FoldInputs(H, H(Join(steps[0], node)), steps[1..])
  }

  lemma {:induction false} FoldSnoc(H: Hasher, node: Digest, steps: seq<Step>, last: Step)
    ensures Fold(H, node, steps + [last]) == H(Join(last, Fold(H, node, steps)))
    ensures FoldInputs(H, node, steps + [last]) == FoldInputs(H, node, steps) + {Join(last, Fold(H, node, steps))}
    decreases |steps|
  {
    if steps == [] {
      assert [last][1..] == [] && [] + [last] == [last];
    } else {
      FoldSnoc(H, H(Join(steps[0], node)), steps[1..], last);
      assert (steps + [last])[1..] == steps[1..] + [last];
    }
  }

  /** The levels of the tree, leaves first. */
  function LevelAt(H: Hasher, leaves: seq<Digest>, j: nat): (r: seq<Digest>)
    requires leaves != []
    ensures r != []
  {
    if j == 0 then leaves else Up(H, LevelAt(H, leaves, j - 1))
  }

  function LevelInputs(H: Hasher, leaves: seq<Digest>, j: nat): set<Input>
    requires leaves != []
  {
    if j == 0 then {} else LevelInputs(H, leaves, j - 1) + PairInputs(LevelAt(H, leaves, j - 1))
  }

  lemma LevelZero(H: Hasher, leaves: seq<Digest>)
    requires leaves != []
    ensures LevelAt(H, leaves, 0) == leaves && LevelInputs(H, leaves, 0) == {}
  {
  }

  function EventInputs(events: seq<Event>): set<Input> {
    set e | e in events :: OfEvent(e)
  }

  lemma UpMember(H: Hasher, level: seq<Digest>, node: Digest) returns (pair: Input)
    requires level != [] && node in Up(H, level)
    ensures pair in PairInputs(level) && pair.OfPair? && H(pair) == node && pair.left in level && pair.right in level
  {
    var i: nat :| i < |Up(H, level)| && Up(H, level)[i] == node;
    pair := PairAt(level, i);
    var p := Padded(level);
    assert forall k | 0 <= k < |p| :: p[k] in level;
  }

  /** Everything hashed for the levels up to `j`, for the events, and along a path. */
  function PathInputs(H: Hasher, events: seq<Event>, j: nat, event: Event, steps: seq<Step>): set<Input>
    requires events != []
  {
    LevelInputs(H, EventHashes(H, events), j) + EventInputs(events) + {OfEvent(event)} +
    FoldInputs(H, H(OfEvent(event)), steps)
  }

  /** A hash among the leaves was made from an event, not from a pair. */
  lemma LeafInput(H: Hasher, events: seq<Event>, input: Input, inputs: set<Input>)
    requires H(input) in EventHashes(H, events) && input in inputs
    requires EventInputs(events) <= inputs && NoCollision(H, inputs)
    ensures input.OfEvent? && input.event in events
  {
    var i :| 0 <= i < |events| && EventHashes(H, events)[i] == H(input);
    assert OfEvent(events[i]) in EventInputs(events);
    assert OfEvent(events[i]) == input;
  }

  /** A hash on a higher level was made from a pair of hashes one level down. */
  lemma NodeInput(H: Hasher, level: seq<Digest>, input: Input, inputs: set<Input>)
    requires level != [] && H(input) in Up(H, level) && input in inputs
    requires PairInputs(level) <= inputs && NoCollision(H, inputs)
    ensures input.OfPair? && input.left in level && input.right in level
  {
    var pair := UpMember(H, level, H(input));
    assert pair == input;
  }

  /** One level down and one step back. */
  lemma PathDown(H: Hasher, events: seq<Event>, j: nat, event: Event, init: seq<Step>, last: Step)
    requires events != [] && j > 0
    ensures PathInputs(H, events, j - 1, event, init) <= PathInputs(H, events, j, event, init + [last])
    ensures PairInputs(LevelAt(H, EventHashes(H, events), j - 1)) <= PathInputs(H, events, j, event, init + [last])
    ensures LevelAt(H, EventHashes(H, events), j) == Up(H, LevelAt(H, EventHashes(H, events), j - 1))
  {
    FoldSnoc(H, H(OfEvent(event)), init, last);
  }

  /** A path that folds to a node of some level started at an event of the log. */
  lemma {:induction false} FoldStartsAtEvent(H: Hasher, events: seq<Event>, j: nat, event: Event, steps: seq<Step>)
    requires events != [] && Fold(H, H(OfEvent(event)), steps) in LevelAt(H, EventHashes(H, events), j)
    requires NoCollision(H, PathInputs(H, events, j, event, steps))
    ensures event in events
    decreases |steps|
  {
    hide LevelAt, LevelInputs, Fold, FoldInputs, Up, PairInputs;
    var leaf := OfEvent(event);
    var inputs := PathInputs(H, events, j, event, steps);
    LevelZero(H, EventHashes(H, events));
    if steps == [] {
      FoldNone(H, H(leaf));
      if j == 0 {
        LeafInput(H, events, leaf, inputs);
      } else {
        PathDown(H, events, j, event, [], Step("", false));
        LevelPairs(H, EventHashes(H, events), j);
        NodeInput(H, LevelAt(H, EventHashes(H, events), j - 1), leaf, inputs);
      }
    } else {
      var init, last := steps[..|steps| - 1], steps[|steps| - 1];
      assert steps == init + [last];
      FoldSnoc(H, H(leaf), init, last);
      var top := Join(last, Fold(H, H(leaf), init));
      if j == 0 {
        LeafInput(H, events, top, inputs);
      } else {
        PathDown(H, events, j, event, init, last);
        NodeInput(H, LevelAt(H, EventHashes(H, events), j - 1), top, inputs);
        FoldStartsAtEvent(H, events, j - 1, event, init);
      }
    }
  }

  lemma FoldNone(H: Hasher, node: Digest)
    ensures Fold(H, node, []) == node && FoldInputs(H, node, []) == {}
  {
  }

  lemma LevelPairs(H: Hasher, leaves: seq<Digest>, j: nat)
    requires leaves != [] && j > 0
    ensures PairInputs(LevelAt(H, leaves, j - 1)) <= LevelInputs(H, leaves, j)
  {
  }

  datatype InclusionProof = InclusionProof(leaf: Digest, index: nat, total: nat, steps: seq<Step>)

  /** The verifier sees the root and the count of a checkpoint, not its events. */
  predicate VerifyInclusion(H: Hasher, root: Digest, count: nat, event: Event, proof: InclusionProof) {
    H(OfEvent(event)) == proof.leaf && proof.total == count && Fold(H, proof.leaf, proof.steps) == root
  }

  method ProveEvent(H: Hasher, root: Digest, count: nat, start: int, events: seq<Event>, sequence: int)
    returns (r: Option<InclusionProof>)
    ensures r.Some? <==>
            events != [] && |events| == count && RootOf(H, EventHashes(H, events)) == root && 0 <= sequence - start < count
    ensures r.Some? ==> VerifyInclusion(H, root, count, events[sequence - start], r.value)
    ensures r.Some? ==> r.value.index == sequence - start && r.value.steps == StepsOf(H, EventHashes(H, events), r.value.index)
  {
    var leaves := EventHashes(H, events);
    if count != |leaves| { return None; }
    var rebuilt := BuildMerkleRoot(H, leaves);
    if rebuilt != Some(root) { return None; }
    var index := sequence - start;
    if !(0 <= index < |leaves|) { return None; }
    var steps := Prove(H, leaves, index);
    FoldRebuildsRoot(H, leaves, index);
    r := Some(InclusionProof(leaves[index], index, |leaves|, steps));
  }

  // ----- the hash chain of the log -----

  /** Sequences count up from zero and every event carries the hash of the one before. */
  predicate Chained(H: Hasher, events: seq<Event>) {
    forall i | 0 <= i < |events| :: Linked(H, events, i)
  }

  predicate Linked(H: Hasher, events: seq<Event>, i: nat)
    requires i < |events|
  {
    events[i].sequence == i &&
    events[i].previous == (if i == 0 then None else Some(H(OfEvent(events[i - 1]))))
  }

  lemma ChainedPrefix(H: Hasher, events: seq<Event>, n: nat)
    requires n <= |events|
    ensures Chained(H, events[..n]) <==> forall i | 0 <= i < n :: Linked(H, events, i)
  {
    forall i | 0 <= i < n ensures Linked(H, events[..n], i) <==> Linked(H, events, i) {
    }
  }

  lemma ChainedSnoc(H: Hasher, events: seq<Event>, event: Event)
    requires Chained(H, events) && Linked(H, events + [event], |events|)
    ensures Chained(H, events + [event])
  {
    var more := events + [event];
    forall i | 0 <= i < |events| ensures Linked(H, more, i) {
      assert Linked(H, events, i);
    }
  }

  class EvidenceLog {
    const H: Hasher
    var events: seq<Event>

    ghost predicate Valid()
      reads this
    {
      Chained(H, events)
    }

    constructor (H: Hasher)
      ensures Valid() && events == [] && this.H == H
    {
      this.H, events := H, [];
    }

    method Append(body: string) returns (event: Event)
      requires Valid()
      modifies this
      ensures Valid() && events == old(events) + [event] && event.body == body
    {
      var previous := if events == [] then None else Some(H(OfEvent(events[|events| - 1])));
      event := Event(|events|, body, previous);
      ChainedSnoc(H, events, event);
      events := events + [event];
    }

    method VerifyHashChain() returns (ok: bool)
      ensures ok == Chained(H, events)
    {
      var i := 0;
      while i < |events|
        invariant 0 <= i <= |events| && forall k | 0 <= k < i :: Linked(H, events, k)
      {
        var expected := if i == 0 then None else Some(H(OfEvent(events[i - 1])));
        if events[i].sequence != i || events[i].previous != expected {
          assert !Linked(H, events, i);
          return false;
        }
        i := i + 1;
      }
      ok := true;
    }
  }

  /** The last event of a chained log determines the whole log: rewriting or reordering anything changes
      it, unless two of the events collide. */
  lemma {:induction false} HeadBindsHistory(H: Hasher, a: seq<Event>, b: seq<Event>)
    requires Chained(H, a) && Chained(H, b) && a != [] && b != [] && a[|a| - 1] == b[|b| - 1]
    requires NoCollision(H, EventInputs(a) + EventInputs(b))
    ensures a == b
    decreases |a|
  {
    var n := |a| - 1;
    assert Linked(H, a, n) && Linked(H, b, |b| - 1);
    if n > 0 {
      assert OfEvent(a[n - 1]) in EventInputs(a) && OfEvent(b[n - 1]) in EventInputs(b);
      assert a[n - 1] == b[n - 1];
      ChainedPrefix(H, a, n);
      ChainedPrefix(H, b, n);
      FewerInputs(H, a, b, n);
      HeadBindsHistory(H, a[..n], b[..n]);
    }
    assert a == a[..n] + [a[n]] && b == b[..n] + [b[n]];
  }

  lemma FewerInputs(H: Hasher, a: seq<Event>, b: seq<Event>, n: nat)
    requires n <= |a| && n <= |b| && NoCollision(H, EventInputs(a) + EventInputs(b))
    ensures NoCollision(H, EventInputs(a[..n]) + EventInputs(b[..n]))
  {
    assert forall e | e in a[..n] :: e in a;
    assert forall e | e in b[..n] :: e in b;
  }
}
