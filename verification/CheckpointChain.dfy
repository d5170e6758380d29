/** The chain of signed checkpoints: how it grows, and how a stranger re-validates it with nothing but the
    first signer's key. */
module CheckpointChains {
  import opened Wrappers
  import opened EventMerkle
  import opened EventRoots

  type Key(==)

  /** A key id with the public key it stands for. */
  datatype Signer = Signer(id: string, key: Key)

  datatype Checkpoint = Checkpoint(
    start: nat, end: nat, root: Digest, previousRoot: Option<Digest>, at: real, next: Option<Signer>)

  /** The id the envelope names and the key that really signed it. */
  datatype Envelope = Envelope(keyId: string, signedBy: Key, checkpoint: Checkpoint)

  /** Which checkpoints the anchor vouches for. */
  type Anchor = Checkpoint -> bool

  /** What the verifier carries from one checkpoint to the next. */
  datatype Walk = Walk(registry: map<string, Key>, active: string, previous: Option<Checkpoint>)

  function Begin(bootstrap: Signer): Walk {
    Walk(map[bootstrap.id := bootstrap.key], bootstrap.id, None)
  }

  /** One round of the verifier; None refuses the chain. */
  function Admit(w: Walk, e: Envelope, anchor: Anchor): Option<Walk> {
    var c := e.checkpoint;
    if e.keyId != w.active then None
    else if e.keyId !in w.registry then None
    else if e.signedBy != w.registry[e.keyId] then None
    else if c.end < c.start then None
    else if c.previousRoot != (if w.previous.Some? then Some(w.previous.value.root) else None) then None
    else if w.previous.Some? && c.at < w.previous.value.at then None
    else if w.previous.Some? && c.start != w.previous.value.end + 1 then None
    else if !anchor(c) then None
    else if c.next.Some? then Some(Walk(w.registry[c.next.value.id := c.next.value.key], c.next.value.id, Some(c)))
    else Some(w.(previous := Some(c)))
  }

  function WalkThrough(chain: seq<Envelope>, bootstrap: Signer, anchor: Anchor): Option<Walk> {
    if chain == [] then Some(Begin(bootstrap))
    else
      match WalkThrough(chain[..|chain| - 1], bootstrap, anchor)
      case None => None
      case Some(w) => Admit(w, chain[|chain| - 1], anchor)
  }

  predicate Accepted(chain: seq<Envelope>, bootstrap: Signer, anchor: Anchor) {
    chain != [] && WalkThrough(chain, bootstrap, anchor).Some?
  }

  method VerifyChain(chain: seq<Envelope>, bootstrap: Signer, anchor: Anchor) returns (ok: bool)
    ensures ok == Accepted(chain, bootstrap, anchor)
  {
    if chain == [] { return false; }
    var registry := map[bootstrap.id := bootstrap.key];
    var active := bootstrap.id;
    var previous: Option<Checkpoint> := None;
    var i := 0;
    while i < |chain|
      invariant 0 <= i <= |chain|
      invariant WalkThrough(chain[..i], bootstrap, anchor) == Some(Walk(registry, active, previous))
    {
      var e := chain[i];
      assert chain[..i + 1][..i] == chain[..i];
      if Admit(Walk(registry, active, previous), e, anchor).None? {
        RefusedStays(chain, bootstrap, anchor, i + 1);
      }
      if e.keyId != active { return false; }
      if e.keyId !in registry || e.signedBy != registry[e.keyId] { return false; }
      var c := e.checkpoint;
      if c.end < c.start { return false; }
      var expected := if previous.Some? then Some(previous.value.root) else None;
      if c.previousRoot != expected { return false; }
      if previous.Some? && c.at < previous.value.at { return false; }
      if previous.Some? && c.start != previous.value.end + 1 { return false; }
      if !anchor(c) { return false; }
      if c.next.Some? {
        registry := registry[c.next.value.id := c.next.value.key];
        active := c.next.value.id;
      }
      previous := Some(c);
      i := i + 1;
    }
    assert chain[..i] == chain;
    ok := true;
  }

  lemma {:induction false} RefusedStays(chain: seq<Envelope>, bootstrap: Signer, anchor: Anchor, i: nat)
    requires i <= |chain| && WalkThrough(chain[..i], bootstrap, anchor).None?
    ensures WalkThrough(chain, bootstrap, anchor).None?
    decreases |chain|
  {
    if i < |chain| {
      assert chain[..|chain| - 1][..i] == chain[..i];
      RefusedStays(chain[..|chain| - 1], bootstrap, anchor, i);
    } else {
      assert chain[..i] == chain;
    }
  }

  /** Nothing a later checkpoint says, a rotation least of all, changes what is accepted before it. */
  lemma {:induction false} PrefixAccepted(chain: seq<Envelope>, bootstrap: Signer, anchor: Anchor, n: nat)
    requires Accepted(chain, bootstrap, anchor) && 0 < n <= |chain|
    ensures Accepted(chain[..n], bootstrap, anchor)
  {
    if WalkThrough(chain[..n], bootstrap, anchor).None? { RefusedStays(chain, bootstrap, anchor, n); }
  }

  // ----- who signs -----

  /** The signer in force after some checkpoints: the last one declared, the first one if none was. */
  function InForce(chain: seq<Envelope>, bootstrap: Signer): Signer {
    if chain == [] then bootstrap
    else if chain[|chain| - 1].checkpoint.next.Some? then chain[|chain| - 1].checkpoint.next.value
    else InForce(chain[..|chain| - 1], bootstrap)
  }

  /** The registry and the active id of the verifier always name the signer in force, even when a rotation
      reuses an id. */
  lemma {:induction false} WalkInForce(chain: seq<Envelope>, bootstrap: Signer, anchor: Anchor)
    requires WalkThrough(chain, bootstrap, anchor).Some?
    ensures var w := WalkThrough(chain, bootstrap, anchor).value;
            w.active == InForce(chain, bootstrap).id &&
            w.active in w.registry && w.registry[w.active] == InForce(chain, bootstrap).key &&
            w.previous == if chain == [] then None else Some(chain[|chain| - 1].checkpoint)
  {
    if chain != [] { WalkInForce(chain[..|chain| - 1], bootstrap, anchor); }
  }

  /** What acceptance means for each checkpoint, told without the walk. */
  predicate Follows(chain: seq<Envelope>, bootstrap: Signer, anchor: Anchor, i: nat)
    requires i < |chain|
  {
    var c := chain[i].checkpoint;
    Signer(chain[i].keyId, chain[i].signedBy) == InForce(chain[..i], bootstrap) &&
    c.start <= c.end && anchor(c) &&
    if i == 0 then c.previousRoot == None
    else
      var p := chain[i - 1].checkpoint;
      c.previousRoot == Some(p.root) && p.at <= c.at && c.start == p.end + 1
  }

  /** A chain is accepted exactly when every checkpoint is signed by the signer in force at its place, is
      anchored, links to the root before it, starts where that ends, and is no older. */
  lemma {:induction false} AcceptedExactly(chain: seq<Envelope>, bootstrap: Signer, anchor: Anchor)
    ensures WalkThrough(chain, bootstrap, anchor).Some? <==>
            forall i | 0 <= i < |chain| :: Follows(chain, bootstrap, anchor, i)
  {
    if chain != [] {
      var n := |chain| - 1;
      var init := chain[..n];
      AcceptedExactly(init, bootstrap, anchor);
      forall i | 0 <= i < n ensures Follows(init, bootstrap, anchor, i) <==> Follows(chain, bootstrap, anchor, i) {
        assert init[..i] == chain[..i];
      }
      if WalkThrough(init, bootstrap, anchor).Some? {
        WalkInForce(init, bootstrap, anchor);
        AdmitExactly(chain, bootstrap, anchor);
      }
    }
  }

  lemma AdmitExactly(chain: seq<Envelope>, bootstrap: Signer, anchor: Anchor)
    requires chain != []
    requires WalkThrough(chain[..|chain| - 1], bootstrap, anchor).Some?
    ensures var n := |chain| - 1;
            WalkThrough(chain, bootstrap, anchor).Some? <==> Follows(chain, bootstrap, anchor, n)
  {
    WalkInForce(chain[..|chain| - 1], bootstrap, anchor);
  }

  lemma InForceSnoc(chain: seq<Envelope>, e: Envelope, bootstrap: Signer)
    ensures InForce(chain + [e], bootstrap) ==
            if e.checkpoint.next.Some? then e.checkpoint.next.value else InForce(chain, bootstrap)
  {
    assert (chain + [e])[..|chain|] == chain;
  }

  // ----- what the chain covers -----

  predicate Covers(e: Envelope, sequence: int) {
    e.checkpoint.start <= sequence <= e.checkpoint.end
  }

  /** The ranges of an accepted chain ascend. */
  lemma {:induction false} RangesAscend(chain: seq<Envelope>, bootstrap: Signer, anchor: Anchor, i: nat, j: nat)
    requires WalkThrough(chain, bootstrap, anchor).Some? && i < j < |chain|
    ensures chain[i].checkpoint.end < chain[j].checkpoint.start
    ensures chain[i].checkpoint.at <= chain[j].checkpoint.at
    decreases j
  {
    AcceptedExactly(chain, bootstrap, anchor);
    assert Follows(chain, bootstrap, anchor, j) && Follows(chain, bootstrap, anchor, j - 1);
    if i < j - 1 { RangesAscend(chain, bootstrap, anchor, i, j - 1); }
  }

  lemma {:induction false} SomeCovers(chain: seq<Envelope>, bootstrap: Signer, anchor: Anchor, sequence: int) returns (i: nat)
    requires WalkThrough(chain, bootstrap, anchor).Some? && chain != []
    requires chain[0].checkpoint.start <= sequence <= chain[|chain| - 1].checkpoint.end
    ensures i < |chain| && Covers(chain[i], sequence)
    decreases |chain|
  {
    var n := |chain| - 1;
    if sequence >= chain[n].checkpoint.start {
      i := n;
    } else {
      AcceptedExactly(chain, bootstrap, anchor);
      assert Follows(chain, bootstrap, anchor, n);
      i := SomeCovers(chain[..n], bootstrap, anchor, sequence);
    }
  }

  /** Every sequence from the first start to the last end lies in exactly one checkpoint. */
  lemma {:induction false} RangesTile(chain: seq<Envelope>, bootstrap: Signer, anchor: Anchor, sequence: int)
    requires Accepted(chain, bootstrap, anchor)
    requires chain[0].checkpoint.start <= sequence <= chain[|chain| - 1].checkpoint.end
    ensures exists i :: 0 <= i < |chain| && Covers(chain[i], sequence)
    ensures forall i, j | 0 <= i < |chain| && 0 <= j < |chain| && Covers(chain[i], sequence) && Covers(chain[j], sequence) :: i == j
  {
    var i := SomeCovers(chain, bootstrap, anchor, sequence);
    forall i, j | 0 <= i < j < |chain| ensures !(Covers(chain[i], sequence) && Covers(chain[j], sequence)) {
      RangesAscend(chain, bootstrap, anchor, i, j);
    }
  }

  /** Any start will do for the first checkpoint: a stranger accepts a chain that leaves out the beginning. */
  lemma LateStart(c: Checkpoint, bootstrap: Signer, anchor: Anchor)
    requires c.start <= c.end && c.previousRoot == None && anchor(c)
    ensures Accepted([Envelope(bootstrap.id, bootstrap.key, c)], bootstrap, anchor)
  {
    assert WalkThrough([], bootstrap, anchor).Some?;
  }

  // ----- sealing -----

  /** A slice of the log fit to be sealed. */
  predicate Contiguous(H: Hasher, events: seq<Event>) {
    forall i | 0 < i < |events| ::
      events[i].sequence == events[0].sequence + i && events[i].previous == Some(H(OfEvent(events[i - 1])))
  }

  /** Two sealed slices with one root are one slice, whatever their lengths, unless two of the strings
      hashed collide: events of a slice have different sequences, so padding is never mistaken for them. */
  lemma SliceBound(H: Hasher, a: seq<Event>, b: seq<Event>)
    requires a != [] && b != [] && Contiguous(H, a) && Contiguous(H, b)
    requires RootOf(H, EventHashes(H, a)) == RootOf(H, EventHashes(H, b))
    requires var la, lb := EventHashes(H, a), EventHashes(H, b);
             NoCollision(H, TreeInputs(H, la) + TreeInputs(H, lb) + EventInputs(a) + EventInputs(b))
    ensures a == b
  {
    hide RootOf, TreeInputs;
    SequencesDiffer(H, a);
    SequencesDiffer(H, b);
    RootBindsEvents(H, a, b);
  }

  lemma SequencesDiffer(H: Hasher, events: seq<Event>)
    requires Contiguous(H, events)
    ensures NoRepeats(events)
  {
    forall i, j | 0 <= i < j < |events| ensures events[i] != events[j] {
      assert events[j].sequence == events[0].sequence + j;
      assert i > 0 ==> events[i].sequence == events[0].sequence + i;
    }
  }

  // ----- what the head determines -----

  /** The head of an accepted chain names the root one back, and so the slice sealed there. */
  lemma PreviousSliceBound(H: Hasher, a: seq<Envelope>, b: seq<Envelope>, bootstrap: Signer, anchor: Anchor,
                           before: seq<Event>, before': seq<Event>)
    requires |a| > 1 && |b| > 1 && Accepted(a, bootstrap, anchor) && Accepted(b, bootstrap, anchor)
    requires a[|a| - 1] == b[|b| - 1]
    requires before != [] && before' != [] && Contiguous(H, before) && Contiguous(H, before')
    requires a[|a| - 2].checkpoint.root == RootOf(H, EventHashes(H, before))
    requires b[|b| - 2].checkpoint.root == RootOf(H, EventHashes(H, before'))
    requires var la, lb := EventHashes(H, before), EventHashes(H, before');
             NoCollision(H, TreeInputs(H, la) + TreeInputs(H, lb) + EventInputs(before) + EventInputs(before'))
    ensures before == before'
  {
    hide RootOf, TreeInputs, WalkThrough, Contiguous;
    AcceptedExactly(a, bootstrap, anchor);
    AcceptedExactly(b, bootstrap, anchor);
    assert Follows(a, bootstrap, anchor, |a| - 1) && Follows(b, bootstrap, anchor, |b| - 1);
    SliceBound(H, before, before');
  }

  /** The link goes no further: two accepted chains of three with one head and different beginnings. */
  lemma HeadForgets(bootstrap: Signer, first: Digest, other: Digest, second: Digest, third: Digest)
    returns (a: seq<Envelope>, b: seq<Envelope>)
    requires first != other
    ensures Accepted(a, bootstrap, _ => true) && Accepted(b, bootstrap, _ => true) && |a| == |b| == 3
    ensures a[2] == b[2] && a[1].checkpoint.root == b[1].checkpoint.root && a[0].checkpoint.root != b[0].checkpoint.root
  {
    a := ThreeCheckpoints(bootstrap, first, second, third);
    b := ThreeCheckpoints(bootstrap, other, second, third);
    ThreeAccepted(bootstrap, first, second, third);
    ThreeAccepted(bootstrap, other, second, third);
  }

  function ThreeCheckpoints(bootstrap: Signer, first: Digest, second: Digest, third: Digest): seq<Envelope> {
    [Envelope(bootstrap.id, bootstrap.key, Checkpoint(0, 0, first, None, 0.0, None)),
     Envelope(bootstrap.id, bootstrap.key, Checkpoint(1, 1, second, Some(first), 0.0, None)),
     Envelope(bootstrap.id, bootstrap.key, Checkpoint(2, 2, third, Some(second), 0.0, None))]
  }

  lemma ThreeAccepted(bootstrap: Signer, first: Digest, second: Digest, third: Digest)
    ensures Accepted(ThreeCheckpoints(bootstrap, first, second, third), bootstrap, _ => true)
  {
    var chain := ThreeCheckpoints(bootstrap, first, second, third);
    assert InForce(chain[..0], bootstrap) == InForce(chain[..1], bootstrap) == InForce(chain[..2], bootstrap) == bootstrap by {
      assert chain[..1][..0] == [] && chain[..2][..1] == chain[..1];
    }
    var anchor: Anchor := _ => true;
    assert Follows(chain, bootstrap, anchor, 0) && Follows(chain, bootstrap, anchor, 1) && Follows(chain, bootstrap, anchor, 2);
    AcceptedExactly(chain, bootstrap, anchor);
  }

  /** What the checkpoints forget the events remember: a root over the end of a chained log determines the
      whole log. */
  lemma HeadBindsLog(H: Hasher, a: seq<Event>, b: seq<Event>, i: nat, j: nat)
    requires Chained(H, a) && Chained(H, b) && i < |a| && j < |b|
    requires RootOf(H, EventHashes(H, a[i..])) == RootOf(H, EventHashes(H, b[j..]))
    requires var la, lb := EventHashes(H, a[i..]), EventHashes(H, b[j..]);
             NoCollision(H, TreeInputs(H, la) + TreeInputs(H, lb) + EventInputs(a) + EventInputs(b))
    ensures a == b
  {
    hide RootOf, TreeInputs, Chained, Contiguous, EventHashes, EventInputs, NoCollision;
    var la, lb := EventHashes(H, a[i..]), EventHashes(H, b[j..]);
    var inputs := TreeInputs(H, la) + TreeInputs(H, lb) + EventInputs(a) + EventInputs(b);
    SuffixContiguous(H, a, i);
    SuffixContiguous(H, b, j);
    SuffixInputs(a, i);
    SuffixInputs(b, j);
    FewerCollide(H, inputs, TreeInputs(H, la) + TreeInputs(H, lb) + EventInputs(a[i..]) + EventInputs(b[j..]));
    FewerCollide(H, inputs, EventInputs(a) + EventInputs(b));
    SliceBound(H, a[i..], b[j..]);
    assert a[|a| - 1] == a[i..][|a| - i - 1] && b[|b| - 1] == b[j..][|b| - j - 1];
    HeadBindsHistory(H, a, b);
  }

  lemma FewerCollide(H: Hasher, all: set<Input>, some: set<Input>)
    requires NoCollision(H, all) && some <= all
    ensures NoCollision(H, some)
  {
  }

  lemma SuffixInputs(events: seq<Event>, i: nat)
    requires i <= |events|
    ensures EventInputs(events[i..]) <= EventInputs(events)
  {
    assert forall e | e in events[i..] :: e in events;
  }

  lemma SuffixContiguous(H: Hasher, events: seq<Event>, i: nat)
    requires Chained(H, events) && i <= |events|
    ensures Contiguous(H, events[i..])
  {
    forall k | 0 < k < |events[i..]|
      ensures events[i..][k].sequence == events[i..][0].sequence + k && events[i..][k].previous == Some(H(OfEvent(events[i..][k - 1])))
    {
      assert Linked(H, events, i + k) && Linked(H, events, i);
    }
  }

  /** The checkpoint over a slice behind the checkpoints sealed so far. */
  function Candidate(H: Hasher, before: seq<Envelope>, events: seq<Event>, next: Option<Signer>, at: real): Checkpoint
    requires events != [] && events[0].sequence >= 0
  {
    Checkpoint(events[0].sequence, events[0].sequence + |events| - 1, RootOf(H, EventHashes(H, events)),
               if before == [] then None else Some(before[|before| - 1].checkpoint.root), at, next)
  }

  function NextStart(before: seq<Envelope>): nat {
    if before == [] then 0 else before[|before| - 1].checkpoint.end + 1
  }

  /** When a slice can be sealed: the active key is registered and is the one in force, the slice is whole
      and starts where the last one ended, time does not run back, and the anchor takes the checkpoint. */
  predicate Sealable(H: Hasher, before: seq<Envelope>, bootstrap: Signer, anchor: Anchor, signers: map<string, Key>,
                     events: seq<Event>, next: Option<Signer>, at: real)
  {
    var signer := InForce(before, bootstrap);
    signer.id in signers && signers[signer.id] == signer.key &&
    events != [] && Contiguous(H, events) && events[0].sequence == NextStart(before) &&
    (before != [] ==> before[|before| - 1].checkpoint.at <= at) &&
    anchor(Candidate(H, before, events, next, at))
  }

  lemma EmptyWalk(bootstrap: Signer, anchor: Anchor)
    ensures WalkThrough([], bootstrap, anchor).Some?
  {
  }

  lemma CandidateFollows(H: Hasher, before: seq<Envelope>, bootstrap: Signer, anchor: Anchor, signers: map<string, Key>,
                         events: seq<Event>, next: Option<Signer>, at: real, e: Envelope)
    requires WalkThrough(before, bootstrap, anchor).Some?
    requires events != [] && Contiguous(H, events) && events[0].sequence == NextStart(before)
    requires InForce(before, bootstrap).id in signers
    requires e == Envelope(InForce(before, bootstrap).id, signers[InForce(before, bootstrap).id], Candidate(H, before, events, next, at))
    ensures Accepted(before + [e], bootstrap, anchor) <==> Sealable(H, before, bootstrap, anchor, signers, events, next, at)
  {
    hide WalkThrough, Contiguous, RootOf, InForce;
    var chain := before + [e];
    assert chain[..|chain| - 1] == before;
    AdmitExactly(chain, bootstrap, anchor);
  }

  class CheckpointChain {
    const H: Hasher
    const bootstrap: Signer
    const anchor: Anchor
    var checkpoints: seq<Envelope>
    var signers: map<string, Key>
    var activeKeyId: string

    /** The chain is empty or accepted by a stranger, starts at the first event, and the key used next is
        the one the stranger expects. */
    ghost predicate Valid()
      reads this
    {
      (checkpoints != [] ==> Accepted(checkpoints, bootstrap, anchor) && checkpoints[0].checkpoint.start == 0) &&
      activeKeyId == InForce(checkpoints, bootstrap).id
    }

    constructor (H: Hasher, bootstrap: Signer, anchor: Anchor)
      ensures Valid() && checkpoints == []
      ensures this.H == H && this.bootstrap == bootstrap && this.anchor == anchor
    {
      this.H, this.bootstrap, this.anchor := H, bootstrap, anchor;
      checkpoints, signers, activeKeyId := [], map[], bootstrap.id;
    }

    method RegisterSigner(signer: Signer)
      requires Valid()
      modifies this`signers
      ensures Valid() && signers == old(signers)[signer.id := signer.key]
    {
      signers := signers[signer.id := signer.key];
    }

    /** Seals the next slice, or refuses and leaves the chain alone. */
    method Seal(events: seq<Event>, next: Option<Signer>, at: real) returns (r: Option<Envelope>)
      requires Valid()
      modifies this`checkpoints, this`activeKeyId
      ensures Valid()
      ensures r.None? ==> checkpoints == old(checkpoints) && activeKeyId == old(activeKeyId)
      ensures r.Some? <==> Sealable(H, old(checkpoints), bootstrap, anchor, signers, events, next, at)
      ensures r.Some? ==>
                old(activeKeyId) in signers && events[|events| - 1].sequence == events[0].sequence + |events| - 1 &&
                r.value == Envelope(old(activeKeyId), signers[old(activeKeyId)], Candidate(H, old(checkpoints), events, next, at)) &&
                checkpoints == old(checkpoints) + [r.value] &&
                activeKeyId == if next.Some? then next.value.id else old(activeKeyId)
    {
      hide RootOf, WalkThrough, Admit, Contiguous, Padded, Up, InForce;
      EmptyWalk(bootstrap, anchor);
      if activeKeyId !in signers { return None; }
      var previousRoot: Option<Digest> := None;
      if checkpoints != [] {
        var head := checkpoints[|checkpoints| - 1].checkpoint;
        if events != [] && events[0].sequence != head.end + 1 { return None; }
        previousRoot := Some(head.root);
      } else {
        if events != [] && events[0].sequence != 0 { return None; }
      }
      if events == [] { return None; }
      var contiguous := CheckContiguous(H, events);
      if !contiguous || events[0].sequence < 0 { return None; }
      LastSequence(H, events);
      var root := BuildMerkleRoot(H, EventHashes(H, events));
      var c := Checkpoint(events[0].sequence, events[|events| - 1].sequence, root.value, previousRoot, at, next);
      var e := Envelope(activeKeyId, signers[activeKeyId], c);
      var candidate := checkpoints + [e];
      CandidateFollows(H, checkpoints, bootstrap, anchor, signers, events, next, at, e);
      var ok := VerifyChain(candidate, bootstrap, anchor);
      if !ok { return None; }
      InForceSnoc(checkpoints, e, bootstrap);
      checkpoints := candidate;
      if next.Some? { activeKeyId := next.value.id; }
      r := Some(e);
    }

    method Verify() returns (ok: bool)
      requires Valid()
      ensures ok == (checkpoints != [])
    {
      ok := VerifyChain(checkpoints, bootstrap, anchor);
    }
  }

  method CheckContiguous(H: Hasher, events: seq<Event>) returns (ok: bool)
    requires events != []
    ensures ok == Contiguous(H, events)
  {
    var i := 1;
    while i < |events|
      invariant 1 <= i <= |events|
      invariant forall k | 0 < k < i ::
                  events[k].sequence == events[0].sequence + k && events[k].previous == Some(H(OfEvent(events[k - 1])))
    {
      if events[i].sequence != events[0].sequence + i { return false; }
      if events[i].previous != Some(H(OfEvent(events[i - 1]))) { return false; }
      i := i + 1;
    }
    ok := true;
  }

  lemma LastSequence(H: Hasher, events: seq<Event>)
    requires events != [] && Contiguous(H, events)
    ensures EventHashes(H, events) != []
    ensures events[|events| - 1].sequence == events[0].sequence + |events| - 1
  {
  }

  /** A chain grown by sealing covers every event from the first to the last sealed, each once. */
  lemma {:induction false} SealedCoversAll(chain: seq<Envelope>, bootstrap: Signer, anchor: Anchor, sequence: nat)
    requires Accepted(chain, bootstrap, anchor) && chain[0].checkpoint.start == 0
    ensures (exists i :: 0 <= i < |chain| && Covers(chain[i], sequence)) <==>
            sequence <= chain[|chain| - 1].checkpoint.end
  {
    if sequence <= chain[|chain| - 1].checkpoint.end {
      RangesTile(chain, bootstrap, anchor, sequence);
    }
    if i :| 0 <= i < |chain| && Covers(chain[i], sequence) {
      if i < |chain| - 1 { RangesAscend(chain, bootstrap, anchor, i, |chain| - 1); }
      AcceptedExactly(chain, bootstrap, anchor);
      assert Follows(chain, bootstrap, anchor, |chain| - 1);
    }
  }
}
