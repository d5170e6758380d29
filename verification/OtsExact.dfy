/** Which accepted OpenTimestamps bytes are the ones the writer produces: those whose numbers are not padded,
    whose attestations stand before the operations of their node, and whose lists are in order. */
module OtsExact {
  import opened Wrappers
  import opened Radix
  import opened CborSyntax
  import opened MerkleLog
  import opened OtsCodec

  // ----- numbers and strings -----

  /** The number read off the front of `s`, leaving `t`, ends in its only digit or in one that is not zero. */
  predicate TidyNumber(s: seq<byte>, t: seq<byte>)
    requires |t| < |s|
  {
    |s| - |t| == 1 || s[|s| - |t| - 1] != 0
  }

  lemma {:induction false} NumberExactly(s: seq<byte>, left: nat)
    requires VarDec(s, left).Some?
    ensures var (n, t) := VarDec(s, left).value;
            s == VarEnc(n) + t <==> TidyNumber(s, t)
  {
    var (n, t) := VarDec(s, left).value;
    if s[0] < 128 {
      assert s == [s[0]] + s[1..];
    } else {
      NumberExactly(s[1..], left - 1);
      var v := VarDec(s[1..], left - 1).value.0;
      assert n / 128 == v && n % 128 == s[0] - 128;
      assert s == [s[0]] + s[1..];
      if v > 0 {
        assert VarEnc(n) + t == [s[0]] + (VarEnc(v) + t);
      } else {
        assert (VarEnc(n) + t)[0] == n;
      }
    }
  }

  predicate TidyBytes(s: seq<byte>)
    requires VarBytesDec(s).Some?
  {
    TidyNumber(s, VarDec(s, VAR_BYTES).value.1)
  }

  lemma BytesExactly(s: seq<byte>)
    requires VarBytesDec(s).Some?
    ensures var (b, t) := VarBytesDec(s).value;
            s == VarBytesEnc(b) + t <==> TidyBytes(s)
  {
    hide VarEnc, VarDec;
    var (b, t) := VarBytesDec(s).value;
    NumberExactly(s, VAR_BYTES);
    assert VarBytesEnc(b) + t == VarEnc(|b|) + (b + t);
  }

  // ----- attestations and operations -----

  predicate TidyPayload(tag: seq<byte>, payload: seq<byte>)
    requires |tag| == 8 && PayloadDec(tag, payload).Some?
  {
    if tag == PENDING_TAG then TidyBytes(payload)
    else if tag == BITCOIN_TAG then TidyNumber(payload, [])
    else true
  }

  lemma PayloadExactly(tag: seq<byte>, payload: seq<byte>)
    requires |tag| == 8 && PayloadDec(tag, payload).Some?
    ensures payload == AttPayload(PayloadDec(tag, payload).value) <==> TidyPayload(tag, payload)
  {
    hide VarEnc, VarDec;
    if tag == PENDING_TAG {
      BytesExactly(payload);
      var uri := VarBytesDec(payload).value.0;
      assert VarBytesEnc(uri) + [] == VarBytesEnc(uri);
    } else if tag == BITCOIN_TAG {
      NumberExactly(payload, VAR_BYTES);
      var height := VarDec(payload, VAR_BYTES).value.0;
      assert VarEnc(height) + [] == VarEnc(height);
    }
  }

  predicate TidyAtt(s: seq<byte>)
    requires AttDec(s).Some?
  {
    TidyBytes(s[8..]) && TidyPayload(s[..8], VarBytesDec(s[8..]).value.0)
  }

  lemma AttExactly(s: seq<byte>)
    requires AttDec(s).Some?
    ensures var (a, t) := AttDec(s).value;
            s == AttEnc(a) + t <==> TidyAtt(s)
  {
    hide VarBytesEnc, VarBytesDec, PayloadDec, AttPayload, TidyPayload, TidyBytes;
    var (a, t) := AttDec(s).value;
    var payload := VarBytesDec(s[8..]).value.0;
    BytesExactly(s[8..]);
    PayloadExactly(s[..8], payload);
    assert s == s[..8] + s[8..];
    assert AttEnc(a) + t == AttTag(a) + (VarBytesEnc(AttPayload(a)) + t);
    if s == AttEnc(a) + t {
      assert s[8..] == VarBytesEnc(AttPayload(a)) + t;
      AttReadWithin(s);
      VarBytesRound(AttPayload(a), t);
      assert AttPayload(a) == payload;
    }
  }

  predicate TidyOp(s: seq<byte>)
    requires OpDec(s).Some?
  {
    s[0] == 0xF7 || TidyBytes(s[1..])
  }

  lemma OpExactly(s: seq<byte>)
    requires OpDec(s).Some?
    ensures var (op, t) := OpDec(s).value;
            s == OpEnc(op) + t <==> TidyOp(s)
  {
    hide VarBytesEnc, VarBytesDec, TidyBytes;
    var (op, t) := OpDec(s).value;
    assert s == [s[0]] + s[1..];
    if s[0] != 0xF7 {
      BytesExactly(s[1..]);
      assert OpEnc(op) + t == [s[0]] + (VarBytesEnc(op.operand) + t);
      if s == OpEnc(op) + t { assert s[1..] == VarBytesEnc(op.operand) + t; }
    }
  }

  // ----- nodes -----

  /** Every number inside is tidy, and in every node attestations stand before operations. */
  predicate TidyNode(H: Hasher, s: seq<byte>, msg: seq<byte>, depth: nat)
    requires NodeDec(H, s, msg, depth).Some?
    decreases |s|, 2
  {
    TidyItems(H, s, msg, depth)
  }

  predicate TidyItems(H: Hasher, s: seq<byte>, msg: seq<byte>, depth: nat)
    requires ItemsDec(H, s, msg, depth).Some?
    decreases |s|, 1
  {
    if s[0] != SEP then TidyItem(H, s, msg, depth)
    else
      var (_, ops, t) := ItemDec(H, s[1..], msg, depth).value;
      TidyItem(H, s[1..], msg, depth) && TidyItems(H, t, msg, depth) &&
      (ops != [] ==> ItemsDec(H, t, msg, depth).value.0 == [])
  }

  predicate TidyItem(H: Hasher, s: seq<byte>, msg: seq<byte>, depth: nat)
    requires ItemDec(H, s, msg, depth).Some?
    decreases |s|, 0
  {
    if s[0] == 0 then TidyAtt(s[1..])
    else
      var (op, t) := OpDec(s).value;
      TidyOp(s) && TidyNode(H, t, Apply(H, op, msg), depth + 1)
  }

  /** How a node with these lists is written. */
  function ListEnc(atts: seq<Attestation>, ops: seq<Edge>): seq<byte> {
    AttsEnc(atts, ops != []) + EdgesEnc(ops)
  }

  function ItemEnc(atts: seq<Attestation>, ops: seq<Edge>): seq<byte>
    requires |atts| + |ops| == 1
  {
    if atts != [] then [0] + AttEnc(atts[0]) else EdgeEnc(ops[0])
  }

  lemma OneItem(H: Hasher, s: seq<byte>, msg: seq<byte>, depth: nat)
    requires ItemDec(H, s, msg, depth).Some?
    ensures var (atts, ops, _) := ItemDec(H, s, msg, depth).value;
            |atts| + |ops| == 1 && (atts != [] <==> s[0] == 0)
  {
  }

  lemma {:induction false} NodeExactly(H: Hasher, s: seq<byte>, msg: seq<byte>, depth: nat)
    requires NodeDec(H, s, msg, depth).Some?
    ensures var (n, t) := NodeDec(H, s, msg, depth).value;
            s == NodeEnc(n) + t <==> TidyNode(H, s, msg, depth)
    decreases |s|, 2
  {
    ItemsExactly(H, s, msg, depth);
  }

  lemma {:induction false} ItemExactly(H: Hasher, s: seq<byte>, msg: seq<byte>, depth: nat)
    requires ItemDec(H, s, msg, depth).Some?
    ensures var (atts, ops, t) := ItemDec(H, s, msg, depth).value;
            |atts| + |ops| == 1 && (s == ItemEnc(atts, ops) + t <==> TidyItem(H, s, msg, depth))
    decreases |s|, 0
  {
    hide AttDec, AttEnc, TidyAtt, OpDec, OpEnc, TidyOp, NodeEnc;
    assert s == [s[0]] + s[1..];
    if s[0] == 0 {
      AttExactly(s[1..]);
      var (a, t) := AttDec(s[1..]).value;
      assert [0] + AttEnc(a) + t == [0] + (AttEnc(a) + t);
      if s == [0] + AttEnc(a) + t { assert s[1..] == AttEnc(a) + t; }
    } else {
      var (op, t) := OpDec(s).value;
      OpExactly(s);
      NodeExactly(H, t, Apply(H, op, msg), depth + 1);
      var (child, u) := NodeDec(H, t, Apply(H, op, msg), depth + 1).value;
      EdgeSplits(s, op, child, u, t);
    }
  }

  /** The operation's bytes end where the reader says they end. */
  lemma EdgeSplits(s: seq<byte>, op: Op, child: Stamp, u: seq<byte>, t: seq<byte>)
    requires OpDec(s) == Some((op, t))
    ensures s == EdgeEnc(Edge(op, child)) + u <==> s == OpEnc(op) + t && t == NodeEnc(child) + u
  {
    hide OpDec, OpEnc, NodeEnc;
    assert EdgeEnc(Edge(op, child)) == OpEnc(op) + NodeEnc(child);
    assert OpEnc(op) + NodeEnc(child) + u == OpEnc(op) + (NodeEnc(child) + u);
    if s == EdgeEnc(Edge(op, child)) + u {
      OpReadWithin(s);
      OpRound(op, NodeEnc(child) + u);
    }
  }

  lemma AttFirst(a: Attestation, atts: seq<Attestation>, ops: seq<Edge>)
    requires atts != [] || ops != []
    ensures ListEnc([a] + atts, ops) == [SEP] + ItemEnc([a], []) + ListEnc(atts, ops)
  {
    hide AttEnc, EdgesEnc;
    var more := AttsEnc(atts, ops != []);
    assert ([a] + atts)[1..] == atts;
    assert AttsEnc([a] + atts, ops != []) == [SEP, 0] + AttEnc(a) + more;
    assert [SEP, 0] + AttEnc(a) == [SEP] + ([0] + AttEnc(a));
    assert [SEP] + ([0] + AttEnc(a)) + more + EdgesEnc(ops) == [SEP] + ([0] + AttEnc(a)) + (more + EdgesEnc(ops));
  }

  lemma EdgeFirst(e: Edge, ops: seq<Edge>)
    requires ops != []
    ensures ListEnc([], [e] + ops) == [SEP] + ItemEnc([], [e]) + ListEnc([], ops)
  {
    hide EdgeEnc;
    assert ([e] + ops)[1..] == ops;
    assert EdgesEnc([e] + ops) == [SEP] + EdgeEnc(e) + EdgesEnc(ops);
  }

  /** Attestations come first in what is written. */
  lemma StartsWithAtt(atts: seq<Attestation>, ops: seq<Edge>, t: seq<byte>)
    requires atts != [] && ops != []
    ensures var s := ListEnc(atts, ops) + t; |s| > 1 && s[0] == SEP && s[1] == 0
  {
    hide AttEnc, EdgesEnc;
  }

  lemma LastItem(atts: seq<Attestation>, ops: seq<Edge>)
    requires |atts| + |ops| == 1
    ensures ListEnc(atts, ops) == ItemEnc(atts, ops)
  {
    hide AttEnc, EdgeEnc;
  }

  /** The item's bytes end where the reader says they end. */
  lemma ItemSplits(H: Hasher, s: seq<byte>, msg: seq<byte>, depth: nat, after: seq<byte>)
    requires ItemDec(H, s, msg, depth).Some?
    requires var (atts, ops, _) := ItemDec(H, s, msg, depth).value;
             |atts| + |ops| == 1 && s == ItemEnc(atts, ops) + after
    ensures ItemDec(H, s, msg, depth).value.2 == after
  {
    var (atts, ops, t) := ItemDec(H, s, msg, depth).value;
    ItemRead(H, s, msg, depth);
    hide AttEnc, EdgeEnc, ItemDec;
    if atts != [] {
      AttItem(H, atts[0], after, msg, depth);
    } else {
      EdgeRound(H, ops[0], after, msg, depth);
    }
  }

  lemma {:induction false} ItemsExactly(H: Hasher, s: seq<byte>, msg: seq<byte>, depth: nat)
    requires ItemsDec(H, s, msg, depth).Some?
    ensures var (atts, ops, t) := ItemsDec(H, s, msg, depth).value;
            s == ListEnc(atts, ops) + t <==> TidyItems(H, s, msg, depth)
    decreases |s|, 1
  {
    hide ItemDec, TidyItem, ListEnc, ItemEnc;
    if s[0] != SEP {
      ItemExactly(H, s, msg, depth);
      var (atts, ops, t) := ItemDec(H, s, msg, depth).value;
      LastItem(atts, ops);
    } else {
      ItemExactly(H, s[1..], msg, depth);
      var u := ItemDec(H, s[1..], msg, depth).value.2;
      ItemsExactly(H, u, msg, depth);
      ItemsRead(H, u, msg, depth);
      SepExactly(H, s, msg, depth);
    }
  }

  /** The step over one separator. */
  lemma SepExactly(H: Hasher, s: seq<byte>, msg: seq<byte>, depth: nat)
    requires ItemsDec(H, s, msg, depth).Some? && s[0] == SEP
    requires var (atts, ops, u) := ItemDec(H, s[1..], msg, depth).value;
             var (atts', ops', t) := ItemsDec(H, u, msg, depth).value;
             |atts| + |ops| == 1 && (atts' != [] || ops' != []) &&
             (s[1..] == ItemEnc(atts, ops) + u <==> TidyItem(H, s[1..], msg, depth)) &&
             (u == ListEnc(atts', ops') + t <==> TidyItems(H, u, msg, depth))
    ensures var (atts, ops, t) := ItemsDec(H, s, msg, depth).value;
            s == ListEnc(atts, ops) + t <==> TidyItems(H, s, msg, depth)
  {
    hide ItemDec, TidyItem, ListEnc, ItemEnc;
    var (atts, ops, u) := ItemDec(H, s[1..], msg, depth).value;
    var (atts', ops', t) := ItemsDec(H, u, msg, depth).value;
    OneItem(H, s[1..], msg, depth);
    if atts == [] && atts' != [] {
      assert atts + atts' == atts';
      StartsWithAtt(atts', ops + ops', t);
    } else {
      if atts != [] {
        assert atts == [atts[0]] && ops + ops' == ops';
        AttFirst(atts[0], atts', ops');
      } else {
        assert ops == [ops[0]] && atts + atts' == [];
        EdgeFirst(ops[0], ops');
      }
      SepSplits(H, s, msg, depth, ItemEnc(atts, ops), ListEnc(atts', ops') + t, ListEnc(atts + atts', ops + ops') + t);
    }
  }

  lemma SepSplits(H: Hasher, s: seq<byte>, msg: seq<byte>, depth: nat, item: seq<byte>, after: seq<byte>, all: seq<byte>)
    requires s != [] && s[0] == SEP && ItemDec(H, s[1..], msg, depth).Some?
    requires var (atts, ops, _) := ItemDec(H, s[1..], msg, depth).value;
             |atts| + |ops| == 1 && item == ItemEnc(atts, ops)
    requires all == [SEP] + item + after
    ensures var u := ItemDec(H, s[1..], msg, depth).value.2;
            s == all <==> s[1..] == item + u && u == after
  {
    hide ItemDec, ItemEnc;
    assert s == [SEP] + s[1..] && all == [SEP] + (item + after);
    if s == all {
      assert s[1..] == item + after;
      ItemSplits(H, s[1..], msg, depth, after);
    }
  }

  // ----- order -----

  /** Both lists are in order, in this node and in all below. */
  predicate InOrder(n: Stamp) {
    TagsAscend(n.atts) && OpsAscend(n.ops) && forall i | 0 <= i < |n.ops| :: InOrder(n.ops[i].child)
  }

  lemma {:induction false} SortedInOrder(n: Stamp)
    ensures InOrder(Sorted(n))
    decreases n
  {
    var ops, r := SortChildren(n.ops), Sorted(n);
    SortAttsAscends(n.atts);
    SortEdgesAscends(ops);
    SameMembers(ops, r.ops);
    forall i | 0 <= i < |r.ops| ensures InOrder(r.ops[i].child) {
      assert r.ops[i] in ops;
      var j :| 0 <= j < |ops| && ops[j] == r.ops[i];
      SortChildrenAt(n.ops, j);
      SortedInOrder(n.ops[j].child);
    }
  }

  lemma {:induction false} AttsInPlace(atts: seq<Attestation>)
    requires TagsAscend(atts)
    ensures SortAtts(atts) == atts
  {
    if atts != [] {
      AttsInPlace(atts[1..]);
      assert atts == [atts[0]] + atts[1..];
    }
  }

  lemma {:induction false} EdgesInPlace(ops: seq<Edge>)
    requires OpsAscend(ops)
    ensures SortEdges(ops) == ops
  {
    if ops != [] {
      EdgesInPlace(ops[1..]);
      assert ops == [ops[0]] + ops[1..];
    }
  }

  /** Sorting moves nothing exactly when everything is in order already. */
  lemma {:induction false} SortedInPlace(n: Stamp)
    ensures Sorted(n) == n <==> InOrder(n)
    decreases n
  {
    SortedInOrder(n);
    if InOrder(n) {
      AttsInPlace(n.atts);
      forall i | 0 <= i < |n.ops| ensures SortChildren(n.ops)[i] == n.ops[i] {
        SortChildrenAt(n.ops, i);
        SortedInPlace(n.ops[i].child);
      }
      assert SortChildren(n.ops) == n.ops;
      EdgesInPlace(n.ops);
    }
  }

  // ----- the writer's bytes -----

  /** Accepted bytes are what the writer produces for the tree read exactly when they are tidy and the tree
      is in order. */
  lemma WriterExactly(H: Hasher, s: seq<byte>, msg: seq<byte>)
    requires NodeDec(H, s, msg, 0).Some?
    ensures var (n, t) := NodeDec(H, s, msg, 0).value;
            s == NodeEnc(Sorted(n)) + t <==> TidyNode(H, s, msg, 0) && InOrder(n)
  {
    hide NodeDec, NodeEnc, TidyNode, Sorted, InOrder;
    var (n, t) := NodeDec(H, s, msg, 0).value;
    NodeExactly(H, s, msg, 0);
    NodeRead(H, s, msg, 0);
    DecodeEncode(H, n, t);
    SortedInPlace(n);
  }

  predicate TidyFile(H: Hasher, data: seq<byte>)
    requires FileDec(H, data).Some?
  {
    var s := data[|MAGIC|..];
    var t := VarDec(s, VAR_BYTES).value.1;
    TidyNumber(s, t) && TidyNode(H, t[33..], t[1..33], 0)
  }

  /** The same for files. */
  lemma FileExactly(H: Hasher, data: seq<byte>)
    requires FileDec(H, data).Some?
    ensures var (digest, n) := FileDec(H, data).value;
            data == FileEnc(digest, n) <==> TidyFile(H, data) && InOrder(n)
  {
    hide VarDec, VarEnc, NodeDec, NodeEnc, TidyNode, Sorted, InOrder;
    var (digest, n) := FileDec(H, data).value;
    var s := data[|MAGIC|..];
    var t := VarDec(s, VAR_BYTES).value.1;
    NumberExactly(s, VAR_BYTES);
    WriterExactly(H, t[33..], digest);
    var tree := NodeEnc(Sorted(n));
    assert tree + [] == tree;
    assert data == MAGIC + s;
    assert t == [FILE_HASH] + (digest + t[33..]);
    FileSplits(data, s, t, digest, tree);
  }

  lemma FileSplits(data: seq<byte>, s: seq<byte>, t: seq<byte>, digest: seq<byte>, tree: seq<byte>)
    requires data == MAGIC + s && VarDec(s, VAR_BYTES) == Some((VERSION, t))
    requires |digest| == 32 && |t| >= 33 && t == [FILE_HASH] + (digest + t[33..])
    ensures data == MAGIC + (VarEnc(VERSION) + ([FILE_HASH] + (digest + tree))) <==> s == VarEnc(VERSION) + t && t[33..] == tree
  {
    hide VarDec, VarEnc;
    var body := [FILE_HASH] + (digest + tree);
    if data == MAGIC + (VarEnc(VERSION) + body) {
      MagicThen(s);
      MagicThen(VarEnc(VERSION) + body);
      assert s == VarEnc(VERSION) + body;
      VarLimitIs();
      VarRound(VERSION, body, VAR_BYTES);
      assert t == body;
      BodyLayout(digest, tree);
    }
  }

  lemma PaddedOne(t: seq<byte>)
    ensures VarDec([0x81, 0x00] + t, VAR_BYTES) == Some((1, t))
  {
    var s := [0x81 as byte, 0x00] + t;
    assert s[0] == 0x81 && s[1..] == [0x00 as byte] + t;
    assert s[1..][0] == 0 && s[1..][1..] == t;
    assert VarDec(s[1..], VAR_BYTES - 1) == Some((0, t));
  }

  /** The version written as `81 00`: whatever can be written is accepted in this form too, which the writer
      never produces. */
  lemma PaddedFile(H: Hasher, digest: seq<byte>, n: Stamp)
    requires |digest| == 32 && n.msg == digest && Shaped(n) && Consistent(H, n) && Within(H, n, digest, 0)
    ensures var data := MAGIC + ([0x81, 0x00] + ([FILE_HASH] + (digest + NodeEnc(Sorted(n)))));
            FileDec(H, data) == Some((digest, Sorted(n))) && data != FileEnc(digest, Sorted(n))
  {
    hide NodeEnc, Sorted, Within, Shaped, Consistent, NodeDec;
    var t := [FILE_HASH] + (digest + NodeEnc(Sorted(n)));
    var s := [0x81 as byte, 0x00] + t;
    MagicThen(s);
    PaddedOne(t);
    assert NodeEnc(Sorted(n)) + [] == NodeEnc(Sorted(n));
    BodyRound(H, digest, n, []);
    FileExactly(H, MAGIC + s);
  }
}
