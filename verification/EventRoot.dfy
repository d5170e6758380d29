/** Which lists of leaves share a root in the tree that repeats its last nodes.  Building the tree with
    concatenation in place of hashing pads the list to a power of two; two lists share a root exactly when
    they pad to the same list. */
module EventRoots {
  import opened Wrappers
  import opened EventMerkle

  // ----- padding -----

  function EvenBlocks<T>(blocks: seq<seq<T>>): (r: seq<seq<T>>)
    requires blocks != []
    ensures |r| == if |blocks| % 2 == 1 then |blocks| + 1 else |blocks|
    ensures forall i | 0 <= i < |r| :: r[i] == blocks[if i < |blocks| then i else |blocks| - 1]
  {
    if |blocks| % 2 == 1 then blocks + [blocks[|blocks| - 1]] else blocks
  }

  /** One level up: the last block is repeated if their number is odd, then blocks are joined in pairs. */
  function UpBlocks<T>(blocks: seq<seq<T>>): (r: seq<seq<T>>)
    requires blocks != []
    ensures |r| == (|blocks| + 1) / 2 && (|blocks| > 1 ==> 0 < |r| < |blocks|)
    ensures forall i | 0 <= i < |r| :: r[i] == EvenBlocks(blocks)[2 * i] + EvenBlocks(blocks)[2 * i + 1]
  {
    var p := EvenBlocks(blocks);
    seq(|p| / 2, i requires 0 <= i < |p| / 2 => p[2 * i] + p[2 * i + 1])
  }

  function Stretched<T>(blocks: seq<seq<T>>): seq<T>
    requires blocks != []
    decreases |blocks|
  {
    if |blocks| == 1 then blocks[0] else Stretched(UpBlocks(blocks))
  }

  function Singles<T>(s: seq<T>): (r: seq<seq<T>>)
    ensures |r| == |s| && forall i | 0 <= i < |s| :: r[i] == [s[i]]
  {
    seq(|s|, i requires 0 <= i < |s| => [s[i]])
  }

  /** The padded list.  No hash is involved. */
  function Stretch<T>(s: seq<T>): seq<T>
    requires s != []
  {
    Stretched(Singles(s))
  }

  predicate AllLong<T>(blocks: seq<seq<T>>, w: nat) {
    forall i | 0 <= i < |blocks| :: |blocks[i]| == w
  }

  // ----- the root is that of a full tree over the padded list -----

  /** The tree cut in halves down to single leaves. */
  function Full(H: Hasher, s: seq<Digest>): Digest
    requires s != []
    decreases |s|
  {
    if |s| == 1 then s[0] else H(OfPair(Full(H, s[..|s| / 2]), Full(H, s[|s| / 2..])))
  }

  function FullInputs(H: Hasher, s: seq<Digest>): set<Input>
    requires s != []
    decreases |s|
  {
    if |s| == 1 then {}
    else
      var k := |s| / 2;
      {OfPair(Full(H, s[..k]), Full(H, s[k..]))} + FullInputs(H, s[..k]) + FullInputs(H, s[k..])
  }

  lemma FullJoins(H: Hasher, x: seq<Digest>, y: seq<Digest>)
    requires x != [] && |x| == |y|
    ensures Full(H, x + y) == H(OfPair(Full(H, x), Full(H, y)))
    ensures FullInputs(H, x + y) == {OfPair(Full(H, x), Full(H, y))} + FullInputs(H, x) + FullInputs(H, y)
  {
    assert (x + y)[..|x + y| / 2] == x && (x + y)[|x + y| / 2..] == y;
  }

  /** The nodes of a level are the roots of full trees over blocks of one length. */
  predicate Stands(H: Hasher, level: seq<Digest>, blocks: seq<seq<Digest>>, w: nat, inputs: set<Input>) {
    w > 0 && |level| == |blocks| > 0 && AllLong(blocks, w) &&
    forall i | 0 <= i < |blocks| :: Full(H, blocks[i]) == level[i] && FullInputs(H, blocks[i]) <= inputs
  }

  lemma StandsUp(H: Hasher, level: seq<Digest>, blocks: seq<seq<Digest>>, w: nat, inputs: set<Input>)
    requires Stands(H, level, blocks, w, inputs) && |level| > 1 && PairInputs(level) <= inputs
    ensures Stands(H, Up(H, level), UpBlocks(blocks), 2 * w, inputs)
  {
    hide Full, FullInputs;
    var p, q := EvenBlocks(blocks), Padded(level);
    forall i | 0 <= i < |UpBlocks(blocks)|
      ensures Full(H, UpBlocks(blocks)[i]) == Up(H, level)[i] && FullInputs(H, UpBlocks(blocks)[i]) <= inputs
    {
      assert Full(H, p[2 * i]) == q[2 * i] && Full(H, p[2 * i + 1]) == q[2 * i + 1];
      FullJoins(H, p[2 * i], p[2 * i + 1]);
      assert PairAt(level, i) in PairInputs(level);
    }
  }

  lemma {:induction false} LevelIsFull(H: Hasher, level: seq<Digest>, blocks: seq<seq<Digest>>, w: nat, inputs: set<Input>)
    requires Stands(H, level, blocks, w, inputs) && TreeInputs(H, level) <= inputs
    ensures Stretched(blocks) != []
    ensures RootOf(H, level) == Full(H, Stretched(blocks)) && FullInputs(H, Stretched(blocks)) <= inputs
    decreases |level|
  {
    hide Full, FullInputs, Up, UpBlocks;
    if |level| > 1 {
      StandsUp(H, level, blocks, w, inputs);
      LevelIsFull(H, Up(H, level), UpBlocks(blocks), 2 * w, inputs);
    }
  }

  /** The root is that of the full tree over the padded list, which hashes nothing that the tree did not. */
  lemma RootIsFull(H: Hasher, s: seq<Digest>)
    requires s != []
    ensures Stretch(s) != []
    ensures RootOf(H, s) == Full(H, Stretch(s)) && FullInputs(H, Stretch(s)) <= TreeInputs(H, s)
  {
    LevelIsFull(H, s, Singles(s), 1, TreeInputs(H, s));
  }

  /** No leaf is the hash of one of these pairs. */
  predicate LeavesApart(H: Hasher, leaves: seq<Digest>, inputs: set<Input>) {
    forall p | p in inputs :: H(p) !in leaves
  }

  lemma ApartPart(H: Hasher, leaves: seq<Digest>, part: seq<Digest>, inputs: set<Input>)
    requires LeavesApart(H, leaves, inputs) && forall x | x in part :: x in leaves
    ensures LeavesApart(H, part, inputs)
  {
  }

  lemma HalvesMatch(H: Hasher, s: seq<Digest>, t: seq<Digest>, inputs: set<Input>)
    requires |s| > 1 && |t| > 1 && Full(H, s) == Full(H, t)
    requires NoCollision(H, inputs) && FullInputs(H, s) + FullInputs(H, t) <= inputs
    ensures var j, k := |s| / 2, |t| / 2;
            Full(H, s[..j]) == Full(H, t[..k]) && Full(H, s[j..]) == Full(H, t[k..]) &&
            FullInputs(H, s[..j]) + FullInputs(H, t[..k]) <= inputs && FullInputs(H, s[j..]) + FullInputs(H, t[k..]) <= inputs
  {
    var j, k := |s| / 2, |t| / 2;
    assert OfPair(Full(H, s[..j]), Full(H, s[j..])) == OfPair(Full(H, t[..k]), Full(H, t[k..]));
  }

  /** Full trees with one root are over one list, when they have one size or no leaf passes for a node. */
  lemma {:induction false} FullBinds(H: Hasher, s: seq<Digest>, t: seq<Digest>, inputs: set<Input>)
    requires s != [] && t != [] && Full(H, s) == Full(H, t)
    requires NoCollision(H, inputs) && FullInputs(H, s) + FullInputs(H, t) <= inputs
    requires |s| == |t| || LeavesApart(H, s + t, inputs)
    ensures s == t
    decreases |s|
  {
    hide Full, FullInputs, LeavesApart, NoCollision;
    if |s| > 1 && |t| > 1 {
      var j, k := |s| / 2, |t| / 2;
      HalvesMatch(H, s, t, inputs);
      if |s| != |t| {
        ApartPart(H, s + t, s[..j] + t[..k], inputs);
        ApartPart(H, s + t, s[j..] + t[k..], inputs);
      }
      FullBinds(H, s[..j], t[..k], inputs);
      FullBinds(H, s[j..], t[k..], inputs);
      assert s == s[..j] + s[j..] && t == t[..k] + t[k..];
    } else if |s| == 1 {
      assert s == [s[0]] && s[0] in s + t;
      LeafOnTop(H, s[0], t, s + t, inputs);
    } else {
      assert t == [t[0]] && t[0] in s + t;
      LeafOnTop(H, t[0], s, s + t, inputs);
    }
  }

  /** A leaf that is the root of a full tree is its only leaf. */
  lemma LeafOnTop(H: Hasher, leaf: Digest, s: seq<Digest>, leaves: seq<Digest>, inputs: set<Input>)
    requires s != [] && Full(H, [leaf]) == Full(H, s) && FullInputs(H, s) <= inputs && leaf in leaves
    requires |s| == 1 || LeavesApart(H, leaves, inputs)
    ensures s == [leaf]
  {
    if |s| > 1 { NodeOnTop(H, leaf, s, leaves, inputs); }
  }

  lemma NodeOnTop(H: Hasher, leaf: Digest, s: seq<Digest>, leaves: seq<Digest>, inputs: set<Input>)
    requires |s| > 1 && FullInputs(H, s) <= inputs && leaf in leaves && LeavesApart(H, leaves, inputs)
    ensures Full(H, s) != leaf
  {
    assert OfPair(Full(H, s[..|s| / 2]), Full(H, s[|s| / 2..])) in inputs;
  }

  // ----- where the elements of the padded list come from -----

  function Flat<T>(blocks: seq<seq<T>>): seq<T> {
    if blocks == [] then [] else blocks[0] + Flat(blocks[1..])
  }

  lemma {:induction false} FlatSnoc<T>(blocks: seq<seq<T>>, last: seq<T>)
    ensures Flat(blocks + [last]) == Flat(blocks) + last
  {
    if blocks == [] {
      assert Flat([last]) == last + Flat([]) && [] + [last] == [last];
    } else {
      FlatSnoc(blocks[1..], last);
      assert (blocks + [last])[1..] == blocks[1..] + [last];
    }
  }

  lemma {:induction false} FlatPairs<T>(p: seq<seq<T>>, q: seq<seq<T>>)
    requires |p| == 2 * |q| && forall i | 0 <= i < |q| :: q[i] == p[2 * i] + p[2 * i + 1]
    ensures Flat(q) == Flat(p)
    decreases |q|
  {
    if q != [] {
      assert forall i | 0 <= i < |q[1..]| :: q[1..][i] == p[2..][2 * i] + p[2..][2 * i + 1];
      FlatPairs(p[2..], q[1..]);
      assert p[1..][1..] == p[2..];
      assert Flat(p) == p[0] + (p[1] + Flat(p[2..]));
    }
  }

  lemma FlatUp<T>(blocks: seq<seq<T>>)
    requires blocks != []
    ensures Flat(UpBlocks(blocks)) == Flat(blocks) + if |blocks| % 2 == 1 then blocks[|blocks| - 1] else []
  {
    FlatPairs(EvenBlocks(blocks), UpBlocks(blocks));
    FlatSnoc(blocks, blocks[|blocks| - 1]);
  }

  lemma {:induction false} BlockInFlat<T>(blocks: seq<seq<T>>, i: nat, x: T)
    requires i < |blocks| && x in blocks[i]
    ensures x in Flat(blocks)
  {
    if i > 0 { BlockInFlat(blocks[1..], i - 1, x); }
  }

  /** Padding only adds, and adds nothing new. */
  lemma {:induction false} StretchedKeeps<T>(blocks: seq<seq<T>>)
    requires blocks != []
    ensures Flat(blocks) <= Stretched(blocks)
    ensures forall x | x in Stretched(blocks) :: x in Flat(blocks)
    decreases |blocks|
  {
    hide Flat, UpBlocks;
    if |blocks| == 1 {
      FlatOne(blocks[0]);
      assert blocks == [blocks[0]];
    } else {
      FlatUp(blocks);
      StretchedKeeps(UpBlocks(blocks));
      forall x | x in Stretched(blocks) ensures x in Flat(blocks) {
        if x in blocks[|blocks| - 1] { BlockInFlat(blocks, |blocks| - 1, x); }
      }
    }
  }

  lemma FlatOne<T>(block: seq<T>)
    ensures Flat([block]) == block
  {
    assert Flat([block]) == block + Flat([]);
  }

  lemma {:induction false} FlatSingles<T>(s: seq<T>)
    ensures Flat(Singles(s)) == s
  {
    if s != [] {
      assert Singles(s)[1..] == Singles(s[1..]);
      FlatSingles(s[1..]);
    }
  }

  lemma StretchKeeps<T>(s: seq<T>)
    requires s != []
    ensures s <= Stretch(s)
    ensures forall x | x in Stretch(s) :: x in s
  {
    FlatSingles(s);
    StretchedKeeps(Singles(s));
  }

  // ----- when two lists share a root -----

  /** Lists share a root exactly when they pad to the same list: always, when the padded lists have one
      length; otherwise provided that no leaf is the hash of a pair. */
  lemma RootsExactly(H: Hasher, a: seq<Digest>, b: seq<Digest>)
    requires a != [] && b != [] && NoCollision(H, TreeInputs(H, a) + TreeInputs(H, b))
    requires |Stretch(a)| == |Stretch(b)| || LeavesApart(H, a + b, TreeInputs(H, a) + TreeInputs(H, b))
    ensures RootOf(H, a) == RootOf(H, b) <==> Stretch(a) == Stretch(b)
  {
    hide RootOf, TreeInputs, Full, FullInputs, Stretch;
    RootIsFull(H, a);
    RootIsFull(H, b);
    StretchKeeps(a);
    StretchKeeps(b);
    if RootOf(H, a) == RootOf(H, b) {
      assert forall x | x in Stretch(a) + Stretch(b) :: x in a + b;
      FullBinds(H, Stretch(a), Stretch(b), TreeInputs(H, a) + TreeInputs(H, b));
    }
  }

  predicate NoRepeats<T(==)>(s: seq<T>) {
    forall i, j | 0 <= i < j < |s| :: s[i] != s[j]
  }

  /** What pads alike differs at most in what the longer list repeats. */
  lemma PadsAlike<T>(a: seq<T>, b: seq<T>)
    requires a != [] && |a| <= |b| && Stretch(a) == Stretch(b) && NoRepeats(b)
    ensures a == b
  {
    hide Stretch;
    StretchKeeps(a);
    StretchKeeps(b);
    assert a == Stretch(a)[..|a|] == b[..|a|];
    if |a| < |b| {
      AllInPrefix(a, b);
    }
  }

  lemma AllInPrefix<T>(a: seq<T>, b: seq<T>)
    requires a < b && forall x | x in b :: x in a
    ensures !NoRepeats(b)
  {
    assert b[|a|] in b;
    var i :| 0 <= i < |a| && a[i] == b[|a|];
    assert b[i] == b[|a|];
  }

  /** So among lists without repeats the root determines the list, whatever the lengths. */
  lemma RootBindsDistinct(H: Hasher, a: seq<Digest>, b: seq<Digest>)
    requires a != [] && b != [] && NoRepeats(if |a| <= |b| then b else a) && RootOf(H, a) == RootOf(H, b)
    requires NoCollision(H, TreeInputs(H, a) + TreeInputs(H, b))
    requires |Stretch(a)| == |Stretch(b)| || LeavesApart(H, a + b, TreeInputs(H, a) + TreeInputs(H, b))
    ensures a == b
  {
    RootsExactly(H, a, b);
    if |a| <= |b| { PadsAlike(a, b); } else { PadsAlike(b, a); }
  }

  // ----- how lists with repeats collide -----

  function Half<T>(blocks: seq<seq<T>>, w: nat, i: nat): (r: seq<T>)
    requires AllLong(blocks, 2 * w) && i / 2 < |blocks|
    ensures |r| == w
  {
    if i % 2 == 0 then blocks[i / 2][..w] else blocks[i / 2][w..]
  }

  lemma HalvesJoin<T>(blocks: seq<seq<T>>, w: nat, i: nat)
    requires AllLong(blocks, 2 * w) && i < |blocks|
    ensures blocks[i] == Half(blocks, w, 2 * i) + Half(blocks, w, 2 * i + 1)
  {
  }

  lemma {:induction false} HalveBlocks<T>(blocks: seq<seq<T>>, w: nat) returns (halves: seq<seq<T>>)
    requires blocks != [] && AllLong(blocks, 2 * w)
    ensures |halves| == 2 * |blocks| && AllLong(halves, w) && UpBlocks(halves) == blocks && Flat(halves) == Flat(blocks)
  {
    hide Half, Flat;
    halves := seq(2 * |blocks|, i requires 0 <= i < 2 * |blocks| => Half(blocks, w, i));
    forall i | 0 <= i < |blocks| ensures blocks[i] == halves[2 * i] + halves[2 * i + 1] {
      HalvesJoin(blocks, w, i);
    }
    FlatPairs(halves, blocks);
    assert EvenBlocks(halves) == halves;
    assert UpBlocks(halves) == blocks;
  }

  predicate IsPower(n: nat) {
    n == 1 || (n > 1 && n % 2 == 0 && IsPower(n / 2))
  }

  /** Cutting a list into blocks whose length is a power of two does not matter. */
  lemma {:induction false} StretchOfBlocks<T>(blocks: seq<seq<T>>, w: nat)
    requires blocks != [] && AllLong(blocks, w) && IsPower(w)
    ensures Flat(blocks) != [] && Stretch(Flat(blocks)) == Stretched(blocks)
    decreases w
  {
    BlockInFlat(blocks, 0, blocks[0][0]);
    if w == 1 {
      FlatOfSingles(blocks);
    } else {
      var halves := HalveBlocks(blocks, w / 2);
      StretchOfBlocks(halves, w / 2);
      assert Stretched(halves) == Stretched(blocks);
    }
  }

  lemma {:induction false} FlatOfSingles<T>(blocks: seq<seq<T>>)
    requires AllLong(blocks, 1)
    ensures Singles(Flat(blocks)) == blocks
  {
    if blocks != [] {
      FlatOfSingles(blocks[1..]);
      assert blocks[0] == [blocks[0][0]];
      assert Flat(blocks) == [blocks[0][0]] + Flat(blocks[1..]);
      assert forall i | 0 < i < |blocks| :: Flat(blocks)[i] == Flat(blocks[1..])[i - 1] && Singles(Flat(blocks[1..]))[i - 1] == blocks[i];
    }
  }

  /** Whatever the hash, a list of an odd number of blocks keeps its root when its last block is repeated,
      for blocks of any power of two. */
  lemma RepeatedLastBlock(H: Hasher, blocks: seq<seq<Digest>>, w: nat)
    requires |blocks| > 1 && |blocks| % 2 == 1 && AllLong(blocks, w) && IsPower(w)
    ensures Flat(blocks) != [] && RootOf(H, Flat(blocks) + blocks[|blocks| - 1]) == RootOf(H, Flat(blocks))
  {
    hide RootOf, Stretch, Full, FullInputs, TreeInputs;
    RepeatedPadsAlike(blocks, w);
    RootIsFull(H, Flat(blocks));
    RootIsFull(H, Flat(blocks) + blocks[|blocks| - 1]);
  }

  lemma RepeatedPadsAlike<T>(blocks: seq<seq<T>>, w: nat)
    requires |blocks| > 1 && |blocks| % 2 == 1 && AllLong(blocks, w) && IsPower(w)
    ensures Flat(blocks) != [] && Stretch(Flat(blocks) + blocks[|blocks| - 1]) == Stretch(Flat(blocks))
  {
    hide Stretch, Flat, IsPower, UpBlocks;
    var last := blocks[|blocks| - 1];
    FlatSnoc(blocks, last);
    StretchOfBlocks(blocks, w);
    StretchOfBlocks(blocks + [last], w);
    OneMoreBlock(blocks);
  }

  lemma OneMoreBlock<T>(blocks: seq<seq<T>>)
    requires |blocks| > 1 && |blocks| % 2 == 1
    ensures UpBlocks(blocks + [blocks[|blocks| - 1]]) == UpBlocks(blocks)
  {
    assert EvenBlocks(blocks + [blocks[|blocks| - 1]]) == EvenBlocks(blocks);
  }

  /** Lists of even length collide as well: six leaves, and the same with the last two repeated. */
  lemma SixLeaves(H: Hasher, a: Digest, b: Digest, c: Digest, d: Digest, e: Digest, f: Digest)
    ensures RootOf(H, [a, b, c, d, e, f, e, f]) == RootOf(H, [a, b, c, d, e, f])
  {
    hide RootOf;
    var blocks := [[a, b], [c, d], [e, f]];
    RepeatedLastBlock(H, blocks, 2);
    FlatOne([e, f]);
    assert blocks[1..] == [[c, d], [e, f]] && blocks[1..][1..] == [[e, f]];
    assert Flat(blocks) == [a, b] + ([c, d] + [e, f]) == [a, b, c, d, e, f];
    assert [a, b, c, d, e, f] + [e, f] == [a, b, c, d, e, f, e, f];
  }

  // ----- event hashes -----

  function EventBehind(H: Hasher, events: seq<Event>, x: Digest): (e: Event)
    requires x in EventHashes(H, events)
    ensures H(OfEvent(e)) == x && OfEvent(e) in EventInputs(events)
  {
    if H(OfEvent(events[0])) == x then events[0]
    else
      assert EventHashes(H, events)[1..] == EventHashes(H, events[1..]);
      EventBehind(H, events[1..], x)
  }

  /** With no collision among events and pairs, no event hash is the hash of a pair. */
  lemma EventsApart(H: Hasher, a: seq<Event>, b: seq<Event>)
    requires a != [] && b != []
    requires var la, lb := EventHashes(H, a), EventHashes(H, b);
             NoCollision(H, TreeInputs(H, la) + TreeInputs(H, lb) + EventInputs(a) + EventInputs(b))
    ensures var la, lb := EventHashes(H, a), EventHashes(H, b);
            LeavesApart(H, la + lb, TreeInputs(H, la) + TreeInputs(H, lb))
  {
    var la, lb := EventHashes(H, a), EventHashes(H, b);
    OnlyPairs(H, la);
    OnlyPairs(H, lb);
    hide TreeInputs, EventHashes;
    forall p, x | p in TreeInputs(H, la) + TreeInputs(H, lb) && x in la + lb ensures H(p) != x {
      var e := if x in la then EventBehind(H, a, x) else EventBehind(H, b, x);
      assert OfEvent(e) != p;
    }
  }

  lemma {:induction false} OnlyPairs(H: Hasher, level: seq<Digest>)
    requires level != []
    ensures forall p | p in TreeInputs(H, level) :: p.OfPair?
    decreases |level|
  {
    if |level| > 1 { OnlyPairs(H, Up(H, level)); }
  }

  /** Different events have different hashes, so lists of different events with one root are one list. */
  lemma RootBindsEvents(H: Hasher, a: seq<Event>, b: seq<Event>)
    requires a != [] && b != [] && NoRepeats(a) && NoRepeats(b)
    requires RootOf(H, EventHashes(H, a)) == RootOf(H, EventHashes(H, b))
    requires var la, lb := EventHashes(H, a), EventHashes(H, b);
             NoCollision(H, TreeInputs(H, la) + TreeInputs(H, lb) + EventInputs(a) + EventInputs(b))
    ensures a == b
  {
    hide RootOf, TreeInputs;
    var la, lb := EventHashes(H, a), EventHashes(H, b);
    EventsApart(H, a, b);
    forall i, j | 0 <= i < j < |a| ensures la[i] != la[j] {
      assert OfEvent(a[i]) in EventInputs(a) && OfEvent(a[j]) in EventInputs(a);
    }
    forall i, j | 0 <= i < j < |b| ensures lb[i] != lb[j] {
      assert OfEvent(b[i]) in EventInputs(b) && OfEvent(b[j]) in EventInputs(b);
    }
    RootBindsDistinct(H, la, lb);
    forall i | 0 <= i < |a| ensures a[i] == b[i] {
      assert la[i] == lb[i];
      assert OfEvent(a[i]) in EventInputs(a) && OfEvent(b[i]) in EventInputs(b);
    }
  }
}
