/** The OpenTimestamps codec as it runs: loops over lists and positions, proved equal to the functions
    of OtsCodec. */
module OtsStream {
  import opened Wrappers
  import opened Radix
  import opened CborSyntax
  import opened MerkleLog
  import opened OtsCodec

  // ----- writing -----

  predicate NonEmpty(n: Stamp) {
    (n.atts != [] || n.ops != []) && forall i | 0 <= i < |n.ops| :: NonEmpty(n.ops[i].child)
  }

  lemma {:induction false} SortEdgesKeepsChildren(ops: seq<Edge>)
    ensures SortEdges(SortChildren(ops)) == SortChildren(SortEdges(ops))
  {
    if ops != [] {
      SortEdgesKeepsChildren(ops[1..]);
      InsertKeepsChildren(ops[0], SortEdges(ops[1..]));
    }
  }

  lemma {:induction false} InsertKeepsChildren(e: Edge, ops: seq<Edge>)
    ensures InsertEdge(SortChild(e), SortChildren(ops)) == SortChildren(InsertEdge(e, ops))
  {
    if ops == [] {
      assert SortChildren([e]) == [SortChild(e)] + SortChildren([]);
    } else {
      var r := SortChildren(ops);
      assert r[0] == SortChild(ops[0]) && r[1..] == SortChildren(ops[1..]);
      if OpBefore(ops[0].op, e.op) {
        InsertKeepsChildren(e, ops[1..]);
        assert ([ops[0]] + InsertEdge(e, ops[1..]))[1..] == InsertEdge(e, ops[1..]);
      } else {
        assert ([e] + ops)[1..] == ops;
      }
    }
  }

  /** The writer of one node: attestations and operations sorted, a separator in front of all but the last. */
  method EncodeNode(n: Stamp) returns (r: Option<seq<byte>>)
    ensures r == if NonEmpty(n) then Some(NodeEnc(Sorted(n))) else None
    decreases n, 2
  {
    if n.atts == [] && n.ops == [] { return None; }
    var atts := SortAtts(n.atts);
    var ops := SortEdges(n.ops);
    SameMembers(n.atts, atts);
    SameMembers(n.ops, ops);
    NonEmptyIs(n, ops);
    var head := EncodeAttestations(atts, ops != []);
    var tail := EncodeEdges(n, ops);
    if tail.None? { return None; }
    SortEdgesKeepsChildren(n.ops);
    r := Some(head + tail.value);
  }

  method EncodeAttestations(atts: seq<Attestation>, more: bool) returns (out: seq<byte>)
    ensures out == AttsEnc(atts, more)
  {
    out := [];
    var i := 0;
    while i + 1 < |atts|
      invariant 0 <= i <= |atts| && (atts != [] ==> i < |atts|)
      invariant out + AttsEnc(atts[i..], more) == AttsEnc(atts, more)
    {
      var item := [SEP, 0] + AttEnc(atts[i]);
      assert atts[i..][1..] == atts[i + 1..];
      Joined(out, item, AttsEnc(atts[i + 1..], more));
      out := out + item;
      i := i + 1;
    }
    if atts != [] {
      assert atts[i..] == [atts[i]] && atts[i..][1..] == [];
      var item := (if more then [SEP, 0] else [0]) + AttEnc(atts[i]);
      Joined(out, item, []);
      out := out + item;
    }
  }

  lemma Joined(a: seq<byte>, b: seq<byte>, c: seq<byte>)
    ensures a + (b + c) == a + b + c && a + b + [] == a + b && b + [] == b
  {
  }

  lemma EdgeOf(n: Stamp, ops: seq<Edge>, i: nat) returns (j: nat)
    requires (forall e :: e in ops <==> e in n.ops) && i < |ops|
    ensures j < |n.ops| && n.ops[j] == ops[i]
  {
    assert ops[i] in n.ops;
    j :| 0 <= j < |n.ops| && n.ops[j] == ops[i];
  }

  lemma EdgesStep(sorted: seq<Edge>, i: nat)
    requires i < |sorted|
    ensures EdgesEnc(sorted[i..]) ==
            (if i + 1 < |sorted| then [SEP] + EdgeEnc(sorted[i]) else EdgeEnc(sorted[i])) + EdgesEnc(sorted[i + 1..])
  {
    assert sorted[i..][0] == sorted[i] && sorted[i..][1..] == sorted[i + 1..];
    if i + 1 == |sorted| { assert EdgeEnc(sorted[i]) + [] == EdgeEnc(sorted[i]); }
  }

  lemma EdgesLoop(sorted: seq<Edge>, i: nat, out: seq<byte>, item: seq<byte>)
    requires i < |sorted| && out + EdgesEnc(sorted[i..]) == EdgesEnc(sorted)
    requires item == if i + 1 < |sorted| then [SEP] + EdgeEnc(sorted[i]) else EdgeEnc(sorted[i])
    ensures out + item + EdgesEnc(sorted[i + 1..]) == EdgesEnc(sorted)
  {
    EdgesStep(sorted, i);
    Joined(out, item, EdgesEnc(sorted[i + 1..]));
  }

  lemma EdgesLoopEnd(sorted: seq<Edge>, out: seq<byte>)
    requires out + EdgesEnc(sorted[|sorted|..]) == EdgesEnc(sorted)
    ensures out == EdgesEnc(sorted)
  {
    assert sorted[|sorted|..] == [] && out + [] == out;
  }

  predicate AllNonEmpty(ops: seq<Edge>, count: nat)
    requires count <= |ops|
  {
    forall i | 0 <= i < count :: NonEmpty(ops[i].child)
  }

  /** One operation and the node it leads to. */
  method EncodeEdge(n: Stamp, ghost j: nat, e: Edge) returns (r: Option<seq<byte>>)
    requires j < |n.ops| && n.ops[j] == e
    ensures r == if NonEmpty(e.child) then Some(EdgeEnc(SortChild(e))) else None
    decreases n, 0
  {
    assert e.child == n.ops[j].child;
    var child := EncodeNode(e.child);
    if child.None? { return None; }
    r := Some(OpEnc(e.op) + child.value);
  }

  method EncodeEdges(n: Stamp, ops: seq<Edge>) returns (r: Option<seq<byte>>)
    requires (forall e :: e in ops <==> e in n.ops) && |ops| == |n.ops|
    ensures r == if AllNonEmpty(ops, |ops|) then Some(EdgesEnc(SortChildren(ops))) else None
    decreases n, 1
  {
    hide EdgesEnc, NodeEnc, Sorted, SortChildren, NonEmpty;
    var out := [];
    var i := 0;
    ghost var sorted := SortChildren(ops);
    while i < |ops|
      invariant 0 <= i <= |ops|
      invariant out + EdgesEnc(sorted[i..]) == EdgesEnc(sorted)
      invariant AllNonEmpty(ops, i)
    {
      ghost var j := EdgeOf(n, ops, i);
      var edge := EncodeEdge(n, j, ops[i]);
      if edge.None? { return None; }
      SortChildrenAt(ops, i);
      var item := if i + 1 < |ops| then [SEP] + edge.value else edge.value;
      EdgesLoop(sorted, i, out, item);
      out := out + item;
      i := i + 1;
    }
    EdgesLoopEnd(sorted, out);
    r := Some(out);
  }

  lemma NonEmptyIs(n: Stamp, ops: seq<Edge>)
    requires forall e :: e in ops <==> e in n.ops
    ensures NonEmpty(n) <==> (n.atts != [] || n.ops != []) && AllNonEmpty(ops, |ops|)
  {
    if AllNonEmpty(ops, |ops|) {
      forall j | 0 <= j < |n.ops| ensures NonEmpty(n.ops[j].child) {
        assert n.ops[j] in ops;
        var k :| 0 <= k < |ops| && ops[k] == n.ops[j];
      }
    }
    if forall j | 0 <= j < |n.ops| :: NonEmpty(n.ops[j].child) {
      forall i | 0 <= i < |ops| ensures NonEmpty(ops[i].child) {
        var j := EdgeOf(n, ops, i);
      }
    }
  }

  // ----- reading -----

  method VarBytesDecode(data: seq<byte>, start: nat) returns (r: Option<(seq<byte>, nat)>)
    requires start <= |data|
    ensures match VarBytesDec(data[start..])
            case None => r == None
            case Some((b, t)) => r.Some? && r.value.0 == b && LeftAt(data, r.value.1, t)
  {
    var length := VarUintDecode(data, start);
    if length.None? { return None; }
    var (n, pos) := length.value;
    if n > |data| - pos { return None; }
    assert data[pos..][..n] == data[pos..pos + n] && data[pos..][n..] == data[pos + n..];
    r := Some((data[pos..pos + n], pos + n));
  }

  method AttestationDecode(data: seq<byte>, start: nat) returns (r: Option<(Attestation, nat)>)
    requires start <= |data|
    ensures match AttDec(data[start..])
            case None => r == None
            case Some((a, t)) => r.Some? && r.value.0 == a && LeftAt(data, r.value.1, t)
  {
    if start + 8 > |data| { return None; }
    var tag := data[start..start + 8];
    assert data[start..][..8] == tag && data[start..][8..] == data[start + 8..];
    var body := VarBytesDecode(data, start + 8);
    if body.None? { return None; }
    var (payload, pos) := body.value;
    assert payload[0..] == payload;
    if tag == PENDING_TAG {
      var uri := VarBytesDecode(payload, 0);
      if uri.None? || uri.value.1 != |payload| || !ValidUtf8(uri.value.0) { return None; }
      return Some((Pending(uri.value.0), pos));
    }
    if tag == BITCOIN_TAG {
      var height := VarUintDecode(payload, 0);
      if height.None? || height.value.1 != |payload| { return None; }
      return Some((Bitcoin(height.value.0), pos));
    }
    r := Some((Unknown(tag, payload), pos));
  }

  method OpDecode(data: seq<byte>, start: nat) returns (r: Option<(Op, nat)>)
    requires start <= |data|
    ensures match OpDec(data[start..])
            case None => r == None
            case Some((op, t)) => r.Some? && r.value.0 == op && LeftAt(data, r.value.1, t)
  {
    if start >= |data| { return None; }
    var tag := data[start];
    assert data[start..][1..] == data[start + 1..];
    if tag == 0xF0 || tag == 0xF1 {
      var operand := VarBytesDecode(data, start + 1);
      if operand.None? { return None; }
      return Some((if tag == 0xF0 then Append(operand.value.0) else Prepend(operand.value.0), operand.value.1));
    }
    if tag == 0xF7 { return Some((Sha256, start + 1)); }
    return None;
  }

  function Behind(atts: seq<Attestation>, ops: seq<Edge>, r: Option<(seq<Attestation>, seq<Edge>, seq<byte>)>)
    : Option<(seq<Attestation>, seq<Edge>, seq<byte>)>
  {
    if r.None? then None else Some((atts + r.value.0, ops + r.value.1, r.value.2))
  }

  /** The same elements, with a position instead of what is left. */
  predicate Reads(data: seq<byte>, r: Option<(seq<Attestation>, seq<Edge>, nat)>,
                  spec: Option<(seq<Attestation>, seq<Edge>, seq<byte>)>)
  {
    r.Some? == spec.Some? &&
    (r.Some? ==> r.value.0 == spec.value.0 && r.value.1 == spec.value.1 && LeftAt(data, r.value.2, spec.value.2))
  }

  /** One element of a node, put behind those read before it. */
  method DecodeItem(H: Hasher, data: seq<byte>, start: nat, msg: seq<byte>, depth: nat,
                    atts: seq<Attestation>, ops: seq<Edge>)
    returns (r: Option<(seq<Attestation>, seq<Edge>, nat)>)
    requires start <= |data|
    ensures Reads(data, r, Behind(atts, ops, ItemDec(H, data[start..], msg, depth)))
    decreases |data| - start, 0
  {
    if start >= |data| { return None; }
    assert data[start..][1..] == data[start + 1..];
    if data[start] == 0 {
      var att := AttestationDecode(data, start + 1);
      if att.None? { return None; }
      assert ops + [] == ops;
      return Some((atts + [att.value.0], ops, att.value.1));
    }
    var op := OpDecode(data, start);
    if op.None? || |msg| > MAX_MSG { return None; }
    var child := DecodeNode(H, data, op.value.1, Apply(H, op.value.0, msg), depth + 1);
    if child.None? { return None; }
    assert atts + [] == atts;
    r := Some((atts, ops + [Edge(op.value.0, child.value.0)], child.value.1));
  }

  /** What the loop has still to read, put behind what it has read. */
  function Rest(H: Hasher, s: seq<byte>, msg: seq<byte>, depth: nat, atts: seq<Attestation>, ops: seq<Edge>)
    : Option<(seq<Attestation>, seq<Edge>, seq<byte>)>
  {
    Behind(atts, ops, ItemsDec(H, s, msg, depth))
  }

  lemma RestSep(H: Hasher, s: seq<byte>, msg: seq<byte>, depth: nat, atts: seq<Attestation>, ops: seq<Edge>)
    requires s != [] && s[0] == SEP
    ensures var item := ItemDec(H, s[1..], msg, depth);
            Rest(H, s, msg, depth, atts, ops) ==
            if item.None? then None
            else Rest(H, item.value.2, msg, depth, atts + item.value.0, ops + item.value.1)
  {
    var item := ItemDec(H, s[1..], msg, depth);
    if item.Some? {
      var more := ItemsDec(H, item.value.2, msg, depth);
      if more.Some? {
        assert atts + (item.value.0 + more.value.0) == atts + item.value.0 + more.value.0;
        assert ops + (item.value.1 + more.value.1) == ops + item.value.1 + more.value.1;
      }
    }
  }

  lemma RestLast(H: Hasher, s: seq<byte>, msg: seq<byte>, depth: nat, atts: seq<Attestation>, ops: seq<Edge>)
    requires s != [] && s[0] != SEP
    ensures Rest(H, s, msg, depth, atts, ops) == Behind(atts, ops, ItemDec(H, s, msg, depth))
  {
  }

  /** The reader of one node: elements behind separators, then the last one. */
  method DecodeNode(H: Hasher, data: seq<byte>, start: nat, msg: seq<byte>, depth: nat) returns (r: Option<(Stamp, nat)>)
    requires start <= |data|
    ensures match NodeDec(H, data[start..], msg, depth)
            case None => r == None
            case Some((n, t)) => r.Some? && r.value.0 == n && LeftAt(data, r.value.1, t)
    decreases |data| - start, 2
  {
    if depth > MAX_NESTING { return None; }
    var items := DecodeItems(H, data, start, msg, depth);
    if items.None? { return None; }
    r := Some((Stamp(msg, items.value.0, items.value.1), items.value.2));
  }

  method DecodeItems(H: Hasher, data: seq<byte>, start: nat, msg: seq<byte>, depth: nat)
    returns (r: Option<(seq<Attestation>, seq<Edge>, nat)>)
    requires start <= |data|
    ensures Reads(data, r, ItemsDec(H, data[start..], msg, depth))
    decreases |data| - start, 1
  {
    hide ItemsDec, ItemDec, NodeDec;
    var atts: seq<Attestation>, ops: seq<Edge>, pos := [], [], start;
    ghost var goal := ItemsDec(H, data[start..], msg, depth);
    RestStart(H, data[start..], msg, depth);
    while pos < |data| && data[pos] == SEP
      invariant start <= pos <= |data|
      invariant goal == Rest(H, data[pos..], msg, depth, atts, ops)
      decreases |data| - pos
    {
      var item := DecodeItem(H, data, pos + 1, msg, depth, atts, ops);
      ItemsLoop(H, data, pos, msg, depth, atts, ops, item);
      if item.None? { return None; }
      atts, ops, pos := item.value.0, item.value.1, item.value.2;
    }
    if pos >= |data| {
      assert data[pos..] == [];
      return None;
    }
    RestLast(H, data[pos..], msg, depth, atts, ops);
    r := DecodeItem(H, data, pos, msg, depth, atts, ops);
  }

  /** One round of the loop: what is left to read stays the same. */
  lemma ItemsLoop(H: Hasher, data: seq<byte>, pos: nat, msg: seq<byte>, depth: nat, atts: seq<Attestation>, ops: seq<Edge>,
                  r: Option<(seq<Attestation>, seq<Edge>, nat)>)
    requires pos < |data| && data[pos] == SEP
    requires Reads(data, r, Behind(atts, ops, ItemDec(H, data[pos + 1..], msg, depth)))
    ensures Rest(H, data[pos..], msg, depth, atts, ops) ==
            if r.None? then None else Rest(H, data[r.value.2..], msg, depth, r.value.0, r.value.1)
  {
    assert data[pos..][1..] == data[pos + 1..];
    RestSep(H, data[pos..], msg, depth, atts, ops);
  }

  lemma RestStart(H: Hasher, s: seq<byte>, msg: seq<byte>, depth: nat)
    ensures Rest(H, s, msg, depth, [], []) == ItemsDec(H, s, msg, depth)
  {
    var r := ItemsDec(H, s, msg, depth);
    if r.Some? { assert [] + r.value.0 == r.value.0 && [] + r.value.1 == r.value.1; }
  }

  method DecodeFile(H: Hasher, data: seq<byte>) returns (r: Option<(seq<byte>, Stamp)>)
    ensures r == FileDec(H, data)
  {
    if !(MAGIC <= data) { return None; }
    var version := VarUintDecode(data, |MAGIC|);
    if version.None? || version.value.0 != VERSION { return None; }
    var pos := version.value.1;
    if pos >= |data| || data[pos] != FILE_HASH { return None; }
    if pos + 33 > |data| { return None; }
    var digest := data[pos + 1..pos + 33];
    assert data[pos..][1..33] == digest && data[pos..][33..] == data[pos + 33..];
    var node := DecodeNode(H, data, pos + 33, digest, 0);
    if node.None? || node.value.1 != |data| { return None; }
    r := Some((digest, node.value.0));
  }
}
