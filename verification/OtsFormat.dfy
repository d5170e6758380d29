/** The OpenTimestamps format itself: tags, framing, order, messages and limits, spelled out. */
module OtsFormat {
  import opened Wrappers
  import opened Radix
  import opened CborSyntax
  import opened CborOrder
  import opened MerkleLog
  import opened OtsCodec

  // ----- numbers -----

  /** What bytes of seven bits each stand for, the lowest first. */
  function SevenBits(s: seq<byte>): nat {
    if s == [] then 0 else s[0] % 128 + 128 * SevenBits(s[1..])
  }

  /** All bytes but the last have the high bit. */
  predicate Continued(s: seq<byte>) {
    s != [] && s[|s| - 1] < 128 && forall i | 0 <= i < |s| - 1 :: s[i] >= 128
  }

  /** A number is written in groups of seven bits, the lowest first, the last without the high bit and not
      zero unless it stands alone. */
  lemma {:induction false} NumberWritten(n: nat)
    ensures var s := VarEnc(n);
            Continued(s) && SevenBits(s) == n && (|s| > 1 ==> s[|s| - 1] != 0)
    decreases n
  {
    var s := VarEnc(n);
    if n < 128 {
      assert s[1..] == [];
    } else {
      NumberWritten(n / 128);
      var t := VarEnc(n / 128);
      assert s[1..] == t && s[|s| - 1] == t[|t| - 1];
      forall i | 0 <= i < |s| - 1 ensures s[i] >= 128 {
        if i > 0 { assert s[i] == t[i - 1]; }
      }
      assert s[0] % 128 == n % 128 && n == n % 128 + 128 * (n / 128);
      if |t| == 1 { assert t[0] == n / 128; }
    }
  }

  /** A number is read from up to ten such groups, whatever stands in the last. */
  lemma {:induction false} NumberRead(s: seq<byte>, rest: seq<byte>, left: nat)
    requires Continued(s)
    ensures VarDec(s + rest, left) == if |s| <= left then Some((SevenBits(s), rest)) else None
    decreases |s|
  {
    var all := s + rest;
    assert all[0] == s[0];
    if |s| == 1 {
      assert all[1..] == rest && s[1..] == [];
    } else if left > 0 {
      assert all[1..] == s[1..] + rest;
      forall i | 0 <= i < |s[1..]| - 1 ensures s[1..][i] >= 128 {
        assert s[1..][i] == s[i + 1];
      }
      NumberRead(s[1..], rest, left - 1);
    }
  }

  /** The limits of the reader. */
  lemma Limits()
    ensures VAR_BYTES == 10 && VarLimit() == 0x40_0000_0000_0000_0000
    ensures MAX_NESTING == 64 && MAX_MSG == 4_194_304
  {
    VarLimitIs();
  }

  // ----- attestations and operations -----

  /** Length and content. */
  function Counted(b: seq<byte>): seq<byte> {
    VarEnc(|b|) + b
  }

  /** An attestation: eight bytes of tag and its payload behind the length. */
  lemma AttestationWritten(uri: seq<byte>, height: nat, tag: seq<byte>, payload: seq<byte>)
    ensures AttEnc(Pending(uri)) == [0x83, 0xDF, 0xE3, 0x0D, 0x2E, 0xF9, 0x0C, 0x8E] + Counted(Counted(uri))
    ensures AttEnc(Bitcoin(height)) == [0x05, 0x88, 0x96, 0x0D, 0x73, 0xD7, 0x19, 0x01] + Counted(VarEnc(height))
    ensures AttEnc(Unknown(tag, payload)) == tag + Counted(payload)
  {
  }

  /** An operation: append, prepend or hash. */
  lemma OperationWritten(operand: seq<byte>)
    ensures OpEnc(Append(operand)) == [0xF0] + Counted(operand)
    ensures OpEnc(Prepend(operand)) == [0xF1] + Counted(operand)
    ensures OpEnc(Sha256) == [0xF7]
  {
  }

  // ----- nodes -----

  /** The elements of a node: attestations behind a zero byte, operations before the node they lead to. */
  function Elements(n: Stamp): seq<seq<byte>> {
    seq(|n.atts|, i requires 0 <= i < |n.atts| => [0] + AttEnc(n.atts[i])) +
    seq(|n.ops|, i requires 0 <= i < |n.ops| => OpEnc(n.ops[i].op) + NodeEnc(n.ops[i].child))
  }

  /** The byte 0xFF in front of every element but the last. */
  function Framed(elements: seq<seq<byte>>): seq<byte> {
    if elements == [] then []
    else if |elements| == 1 then elements[0]
    else [0xFF] + elements[0] + Framed(elements[1..])
  }

  lemma {:induction false} NodeWritten(n: Stamp)
    ensures NodeEnc(n) == Framed(Elements(n))
    decreases n
  {
    hide AttEnc, OpEnc;
    AttsFramed(n, 0);
    assert n.atts[0..] == n.atts && Elements(n)[0..] == Elements(n);
  }

  lemma {:induction false} AttsFramed(n: Stamp, i: nat)
    requires i <= |n.atts|
    ensures Framed(Elements(n)[i..]) == AttsEnc(n.atts[i..], n.ops != []) + EdgesEnc(n.ops)
    decreases |n.atts| - i
  {
    hide AttEnc, OpEnc, NodeEnc;
    var es := Elements(n);
    if i == |n.atts| {
      EdgesFramed(n, 0);
      assert n.ops[0..] == n.ops && n.atts[i..] == [];
      assert [] + EdgesEnc(n.ops) == EdgesEnc(n.ops);
    } else {
      AttsFramed(n, i + 1);
      assert es[i..][0] == [0] + AttEnc(n.atts[i]) && es[i..][1..] == es[i + 1..];
      assert n.atts[i..][0] == n.atts[i] && n.atts[i..][1..] == n.atts[i + 1..];
      if i + 1 < |es| {
        FrameGroup([0] + AttEnc(n.atts[i]), AttEnc(n.atts[i]), AttsEnc(n.atts[i + 1..], n.ops != []), EdgesEnc(n.ops));
      } else {
        assert n.ops == [];
        assert [0] + AttEnc(n.atts[i]) + [] == [0] + AttEnc(n.atts[i]);
      }
    }
  }

  lemma FrameGroup(element: seq<byte>, att: seq<byte>, atts: seq<byte>, edges: seq<byte>)
    requires element == [0] + att
    ensures [0xFF] + element + (atts + edges) == [0xFF, 0] + att + atts + edges
  {
  }

  lemma {:induction false} EdgesFramed(n: Stamp, i: nat)
    requires i <= |n.ops|
    ensures Framed(Elements(n)[|n.atts| + i..]) == EdgesEnc(n.ops[i..])
    decreases |n.ops| - i
  {
    hide AttEnc, OpEnc, NodeEnc;
    var es, k := Elements(n), |n.atts| + i;
    if i < |n.ops| {
      EdgesFramed(n, i + 1);
      assert es[k] == OpEnc(n.ops[i].op) + NodeEnc(n.ops[i].child) == EdgeEnc(n.ops[i]);
      assert es[k..][0] == es[k] && es[k..][1..] == es[k + 1..];
      assert n.ops[i..][0] == n.ops[i] && n.ops[i..][1..] == n.ops[i + 1..];
    }
  }

  // ----- order -----

  /** The attestations with one tag, in their order. */
  function Tagged(atts: seq<Attestation>, tag: seq<byte>): seq<Attestation> {
    if atts == [] then [] else (if AttTag(atts[0]) == tag then [atts[0]] else []) + Tagged(atts[1..], tag)
  }

  lemma TaggedCons(a: Attestation, atts: seq<Attestation>, tag: seq<byte>)
    ensures Tagged([a] + atts, tag) == (if AttTag(a) == tag then [a] else []) + Tagged(atts, tag)
  {
    hide AttTag;
    assert ([a] + atts)[1..] == atts;
  }

  lemma {:induction false} InsertTagged(a: Attestation, atts: seq<Attestation>, tag: seq<byte>)
    ensures Tagged(InsertAtt(a, atts), tag) == Tagged([a] + atts, tag)
  {
    hide AttTag, Tagged, LexLess, InsertAtt;
    InsertAttStep(a, atts);
    if atts != [] && LexLess(AttTag(atts[0]), AttTag(a)) {
      var x, rest := atts[0], atts[1..];
      InsertTagged(a, rest, tag);
      LexIrreflexive(AttTag(a));
      Exchange(if AttTag(x) == tag then [x] else [], if AttTag(a) == tag then [a] else [], Tagged(rest, tag));
      TaggedCons(x, InsertAtt(a, rest), tag);
      TaggedCons(a, rest, tag);
      TaggedCons(a, atts, tag);
      TaggedCons(x, rest, tag);
    }
  }

  lemma InsertAttStep(a: Attestation, atts: seq<Attestation>)
    ensures InsertAtt(a, atts) ==
            if atts != [] && LexLess(AttTag(atts[0]), AttTag(a)) then [atts[0]] + InsertAtt(a, atts[1..]) else [a] + atts
    ensures atts != [] ==> atts == [atts[0]] + atts[1..]
  {
    hide LexLess, AttTag;
    if atts == [] { assert [a] + atts == [a]; }
  }

  /** Sorting is stable: attestations with one tag keep their order. */
  lemma {:induction false} SortAttsStable(atts: seq<Attestation>, tag: seq<byte>)
    ensures Tagged(SortAtts(atts), tag) == Tagged(atts, tag)
  {
    hide AttTag, InsertAtt;
    if atts != [] {
      SortAttsStable(atts[1..], tag);
      InsertTagged(atts[0], SortAtts(atts[1..]), tag);
      TaggedCons(atts[0], SortAtts(atts[1..]), tag);
    }
  }

  /** The operations that are the same one, in their order. */
  function Alike(ops: seq<Edge>, op: Op): seq<Edge> {
    if ops == [] then [] else (if ops[0].op == op then [ops[0]] else []) + Alike(ops[1..], op)
  }

  lemma AlikeCons(e: Edge, ops: seq<Edge>, op: Op)
    ensures Alike([e] + ops, op) == (if e.op == op then [e] else []) + Alike(ops, op)
  {
    assert ([e] + ops)[1..] == ops;
  }

  lemma {:induction false} InsertAlike(e: Edge, ops: seq<Edge>, op: Op)
    ensures Alike(InsertEdge(e, ops), op) == Alike([e] + ops, op)
  {
    hide OpBefore, Alike, InsertEdge;
    InsertEdgeStep(e, ops);
    if ops != [] && OpBefore(ops[0].op, e.op) {
      var x, rest := ops[0], ops[1..];
      InsertAlike(e, rest, op);
      OpBeforeOrder(e.op, e.op, e.op);
      Exchange(if x.op == op then [x] else [], if e.op == op then [e] else [], Alike(rest, op));
      AlikeCons(x, InsertEdge(e, rest), op);
      AlikeCons(e, rest, op);
      AlikeCons(e, ops, op);
      AlikeCons(x, rest, op);
    }
  }

  lemma InsertEdgeStep(e: Edge, ops: seq<Edge>)
    ensures InsertEdge(e, ops) ==
            if ops != [] && OpBefore(ops[0].op, e.op) then [ops[0]] + InsertEdge(e, ops[1..]) else [e] + ops
    ensures ops != [] ==> ops == [ops[0]] + ops[1..]
  {
    hide OpBefore;
    if ops == [] { assert [e] + ops == [e]; }
  }

  lemma Exchange<T>(x: seq<T>, y: seq<T>, rest: seq<T>)
    requires x == [] || y == []
    ensures x + (y + rest) == y + (x + rest)
  {
  }

  lemma {:induction false} SortEdgesStable(ops: seq<Edge>, op: Op)
    ensures Alike(SortEdges(ops), op) == Alike(ops, op)
  {
    hide InsertEdge;
    if ops != [] {
      SortEdgesStable(ops[1..], op);
      InsertAlike(ops[0], SortEdges(ops[1..]), op);
      AlikeCons(ops[0], SortEdges(ops[1..]), op);
    }
  }

  // The order is that of the tag, then of the operand.

  lemma SortedOrder(atts: seq<Attestation>, i: nat, j: nat)
    requires i < j < |atts|
    ensures |SortAtts(atts)| == |atts| && !Smaller(AttTag(SortAtts(atts)[j]), AttTag(SortAtts(atts)[i]))
  {
    SameMembers(atts, SortAtts(atts));
    SortAttsAscends(atts);
    SmallerIff(AttTag(SortAtts(atts)[j]), AttTag(SortAtts(atts)[i]));
  }

  lemma SortedOperations(ops: seq<Edge>, i: nat, j: nat)
    requires i < j < |ops|
    ensures |SortEdges(ops)| == |ops|
    ensures var a, b := SortEdges(ops)[i].op, SortEdges(ops)[j].op;
            OpEnc(a)[0] < OpEnc(b)[0] || (OpEnc(a)[0] == OpEnc(b)[0] && !Smaller(Operand(b), Operand(a)))
  {
    SameMembers(ops, SortEdges(ops));
    SortEdgesAscends(ops);
    SmallerIff(Operand(SortEdges(ops)[j].op), Operand(SortEdges(ops)[i].op));
  }

  // ----- messages -----

  /** Every message below is that of its node with the operand behind it, in front of it, or hashed. */
  predicate Replayed(H: Hasher, n: Stamp) {
    forall i | 0 <= i < |n.ops| ::
      var e := n.ops[i];
      e.child.msg == (match e.op
                      case Append(operand) => n.msg + operand
                      case Prepend(operand) => operand + n.msg
                      case Sha256 => H(n.msg)) &&
      Replayed(H, e.child)
  }

  lemma {:induction false} ConsistentReplayed(H: Hasher, n: Stamp)
    ensures Consistent(H, n) <==> Replayed(H, n)
    decreases n
  {
    forall i | 0 <= i < |n.ops| ensures Consistent(H, n.ops[i].child) <==> Replayed(H, n.ops[i].child) {
      ConsistentReplayed(H, n.ops[i].child);
    }
  }

  /** Reading replays the operations from the message at the root. */
  lemma MessagesRead(H: Hasher, s: seq<byte>, msg: seq<byte>, depth: nat)
    requires NodeDec(H, s, msg, depth).Some?
    ensures NodeDec(H, s, msg, depth).value.0.msg == msg && Replayed(H, NodeDec(H, s, msg, depth).value.0)
  {
    NodeRead(H, s, msg, depth);
    ConsistentReplayed(H, NodeDec(H, s, msg, depth).value.0);
  }

  // ----- limits -----

  /** `n` hashes above a node with one attestation. */
  function Tower(n: nat): Stamp {
    if n == 0 then Stamp([], [Bitcoin(0)], []) else Stamp([], [], [Edge(Sha256, Tower(n - 1))])
  }

  function TowerBytes(n: nat): seq<byte> {
    if n == 0 then [0] + AttEnc(Bitcoin(0)) else [0xF7] + TowerBytes(n - 1)
  }

  lemma {:induction false} TowerWritten(n: nat)
    ensures Shaped(Tower(n)) && NodeEnc(Tower(n)) == TowerBytes(n)
  {
    hide AttEnc;
    if n == 0 {
      assert Tower(0).atts[0] == Bitcoin(0) && AttsEnc([Bitcoin(0)], false) == [0] + AttEnc(Bitcoin(0));
      assert TowerBytes(0) + [] == TowerBytes(0);
    } else {
      TowerWritten(n - 1);
      var e := Edge(Sha256, Tower(n - 1));
      assert Tower(n).ops == [e] && EdgesEnc([e]) == EdgeEnc(e) == [0xF7] + TowerBytes(n - 1);
    }
  }

  lemma {:induction false} TowerWithin(H: Hasher, n: nat, msg: seq<byte>, depth: nat)
    requires |msg| <= 4_194_304
    ensures Within(H, Tower(n), msg, depth) <==> depth + n <= 64
    decreases n
  {
    Limits();
    if n == 0 {
      assert VarEnc(0) == [0];
      assert Tower(0).atts[0] == Bitcoin(0);
    } else {
      TowerWithin(H, n - 1, H(msg), depth + 1);
      assert Tower(n).ops[0] == Edge(Sha256, Tower(n - 1));
    }
  }

  /** Sixty-four operations above each other are read, one more is refused. */
  lemma DepthLaw(H: Hasher, n: nat, msg: seq<byte>)
    requires |msg| <= 4_194_304
    ensures NodeDec(H, TowerBytes(n), msg, 0).Some? <==> n <= 64
  {
    hide NodeDec;
    TowerWritten(n);
    TowerWithin(H, n, msg, 0);
    NodeRound(H, Tower(n), [], msg, 0);
    assert TowerBytes(n) + [] == TowerBytes(n);
  }

  /** An operation on a message of more than four mebibytes is refused. */
  lemma MessageLaw(H: Hasher, msg: seq<byte>)
    ensures NodeDec(H, TowerBytes(1), msg, 0).Some? <==> |msg| <= 4_194_304
  {
    hide NodeDec, AttEnc;
    Limits();
    TowerWritten(1);
    TowerWithin(H, 0, H(msg), 1);
    assert Tower(1).ops[0] == Edge(Sha256, Tower(0));
    NodeRound(H, Tower(1), [], msg, 0);
    assert TowerBytes(1) + [] == TowerBytes(1);
  }

  // ----- files -----

  /** Zero, OpenTimestamps, two zeros, Proof, a zero and eight bytes. */
  lemma FileWritten(digest: seq<byte>, n: Stamp)
    ensures FileEnc(digest, n) ==
            [0x00, 0x4F, 0x70, 0x65, 0x6E, 0x54, 0x69, 0x6D, 0x65, 0x73, 0x74, 0x61, 0x6D, 0x70, 0x73, 0x00,
             0x00, 0x50, 0x72, 0x6F, 0x6F, 0x66, 0x00, 0xBF, 0x89, 0xE2, 0xE8, 0x84, 0xE8, 0x92, 0x94] +
            [0x01, 0x08] + digest + NodeEnc(Sorted(n))
  {
    hide NodeEnc, Sorted;
    assert VarEnc(1) == [1];
  }

  /** A file is those bytes, a number that is 1, the byte 8, a digest of 32 bytes, and a tree over it to the very end. */
  lemma FileRead(H: Hasher, data: seq<byte>) returns (version: seq<byte>, tree: seq<byte>)
    requires FileDec(H, data).Some?
    ensures var (digest, n) := FileDec(H, data).value;
            Continued(version) && |version| <= 10 && SevenBits(version) == 1 && |digest| == 32 &&
            data == MAGIC + (version + ([0x08] + (digest + tree))) && NodeDec(H, tree, digest, 0) == Some((n, []))
  {
    hide NodeDec;
    var s := data[|MAGIC|..];
    var t := VarDec(s, VAR_BYTES).value.1;
    version := VersionBytes(s, VAR_BYTES);
    tree := t[33..];
    assert t == [0x08] + (t[1..33] + tree);
    assert data == MAGIC + s;
  }

  /** The bytes a number was read from. */
  lemma {:induction false} VersionBytes(s: seq<byte>, left: nat) returns (v: seq<byte>)
    requires VarDec(s, left).Some?
    ensures Continued(v) && |v| <= left && SevenBits(v) == VarDec(s, left).value.0 && s == v + VarDec(s, left).value.1
    decreases left
  {
    if s[0] < 128 {
      v := [s[0]];
      assert v[1..] == [];
    } else {
      var w := VersionBytes(s[1..], left - 1);
      v := [s[0]] + w;
      assert v[1..] == w && v[|v| - 1] == w[|w| - 1];
      forall i | 0 <= i < |v| - 1 ensures v[i] >= 128 {
        if i > 0 { assert v[i] == w[i - 1]; }
      }
    }
  }
}
