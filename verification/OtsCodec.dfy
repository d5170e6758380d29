/** The OpenTimestamps wire codec: variable-length integers, attestations, and trees of operations. */
module OtsCodec {
  import opened Wrappers
  import opened Radix
  import opened CborSyntax
  import opened CborOrder
  import opened MerkleLog

  const MAX_MSG := 4 * 1024 * 1024
  const MAX_NESTING := 64
  const SEP: byte := 0xFF

  // ----- variable-length integers -----

  function VarEnc(n: nat): (r: seq<byte>)
    ensures r != []
  {
    if n < 128 then [n] else [128 + n % 128] + VarEnc(n / 128)
  }

  /** At most `left` bytes are read. */
  function VarDec(s: seq<byte>, left: nat): (r: Option<(nat, seq<byte>)>)
    ensures r.Some? ==> |r.value.1| < |s|
  {
    if left == 0 || s == [] then None
    else if s[0] < 128 then Some((s[0], s[1..]))
    else
      match VarDec(s[1..], left - 1)
      case None => None
      case Some((v, t)) => Some((s[0] - 128 + 128 * v, t))
  }

  const VAR_BYTES: nat := 10

  function VarLimit(): nat {
    Pow(128, VAR_BYTES)
  }

  lemma {:induction false} VarRound(n: nat, rest: seq<byte>, left: nat)
    requires left > 0 || n > 0
    ensures VarDec(VarEnc(n) + rest, left) == if n < Pow(128, left) then Some((n, rest)) else None
    decreases n
  {
    var s := VarEnc(n) + rest;
    PowPositive(128, left);
    if n < 128 {
      if left > 0 {
        PowPositive(128, left - 1);
        assert s[0] == n && s[1..] == rest;
      }
    } else if left > 0 {
      VarRound(n / 128, rest, left - 1);
      assert s[0] == 128 + n % 128 && s[1..] == VarEnc(n / 128) + rest;
      DivLess(n, Pow(128, left - 1), 128);
    }
  }

  /** The limit is 2 to the 70th. */
  lemma VarLimitIs()
    ensures VarLimit() == 0x40_0000_0000_0000_0000
  {
    assert Pow(128, 2) == 0x4000;
    assert Pow(128, 4) == 0x1000_0000;
    assert Pow(128, 6) == 0x400_0000_0000;
    assert Pow(128, 8) == 0x100_0000_0000_0000;
  }

  /** The encoder writes the shortest form: whatever was read for a number is no shorter. */
  lemma {:induction false} VarShortest(s: seq<byte>, left: nat)
    requires VarDec(s, left).Some?
    ensures var (n, t) := VarDec(s, left).value;
            n < Pow(128, left) && |VarEnc(n)| + |t| <= |s|
  {
    PowPositive(128, left - 1);
    if s[0] >= 128 {
      VarShortest(s[1..], left - 1);
      var (v, t) := VarDec(s[1..], left - 1).value;
      var n := s[0] - 128 + 128 * v;
      assert n / 128 == v;
    }
  }

  method VarUintEncode(number: nat) returns (out: seq<byte>)
    ensures out == VarEnc(number)
  {
    out := [];
    var n := number;
    while true
      invariant out + VarEnc(n) == VarEnc(number)
      decreases n
    {
      var bits := n % 128;
      var high := n / 128;
      if high != 0 {
        assert VarEnc(n) == [128 + bits] + VarEnc(high);
        assert out + [128 + bits] + VarEnc(high) == out + ([128 + bits] + VarEnc(high));
        out := out + [128 + bits];
        n := high;
      } else {
        assert VarEnc(n) == [bits];
        return out + [bits];
      }
    }
  }

  /** The position behind which a reader left `t`. */
  predicate LeftAt(data: seq<byte>, pos: nat, t: seq<byte>) {
    pos <= |data| && data[pos..] == t
  }

  /** A digit put above what is known already. */
  function WithDigit(value: nat, digit: nat, scale: nat): nat {
    value + digit * scale
  }

  /** A number whose lower digits are already known. */
  function Scaled(r: Option<(nat, seq<byte>)>, value: nat, scale: nat): Option<(nat, seq<byte>)> {
    match r
    case None => None
    case Some((v, t)) => Some((WithDigit(value, v, scale), t))
  }

  /** The reader of a varuint at a position of the input: the value and the position behind it. */
  method VarUintDecode(data: seq<byte>, start: nat) returns (r: Option<(nat, nat)>)
    requires start <= |data|
    ensures match VarDec(data[start..], VAR_BYTES)
            case None => r == None
            case Some((v, t)) => r.Some? && r.value.0 == v && LeftAt(data, r.value.1, t)
  {
    var value: nat, scale: nat, read: nat, pos := 0, 1, 0, start;
    while true
      invariant start <= pos <= |data| && read < VAR_BYTES
      invariant VarDec(data[start..], VAR_BYTES) == Scaled(VarDec(data[pos..], VAR_BYTES - read), value, scale)
      decreases |data| - pos
    {
      if pos >= |data| { return None; }
      var b: nat := data[pos];
      assert data[pos..][1..] == data[pos + 1..];
      VarContinues(data[pos..], VAR_BYTES - read, value, scale);
      pos := pos + 1;
      if b < 128 { return Some((WithDigit(value, b, scale), pos)); }
      value := WithDigit(value, b - 128, scale);
      scale := scale * 128;
      read := read + 1;
      if read == VAR_BYTES { return None; }
    }
  }

  lemma VarContinues(s: seq<byte>, left: nat, value: nat, scale: nat)
    requires left > 0 && s != []
    ensures Scaled(VarDec(s, left), value, scale) ==
            if s[0] < 128 then Some((WithDigit(value, s[0], scale), s[1..]))
            else Scaled(VarDec(s[1..], left - 1), WithDigit(value, s[0] - 128, scale), scale * 128)
  {
    if s[0] >= 128 && VarDec(s[1..], left - 1).Some? {
      var b, v := s[0] - 128, VarDec(s[1..], left - 1).value.0;
      assert (b + 128 * v) * scale == b * scale + v * (scale * 128);
    }
  }

  function VarBytesEnc(b: seq<byte>): seq<byte> {
    VarEnc(|b|) + b
  }

  function VarBytesDec(s: seq<byte>): (r: Option<(seq<byte>, seq<byte>)>)
    ensures r.Some? ==> |r.value.1| < |s|
  {
    match VarDec(s, VAR_BYTES)
    case None => None
    case Some((n, t)) => if n > |t| then None else Some((t[..n], t[n..]))
  }

  lemma {:induction false} VarBytesRound(b: seq<byte>, rest: seq<byte>)
    ensures VarBytesDec(VarBytesEnc(b) + rest) == if |b| < VarLimit() then Some((b, rest)) else None
  {
    assert VarBytesEnc(b) + rest == VarEnc(|b|) + (b + rest);
    VarRound(|b|, b + rest, VAR_BYTES);
    assert (b + rest)[..|b|] == b && (b + rest)[|b|..] == rest;
  }

  // ----- attestations -----

  datatype Attestation =
    | Pending(uri: seq<byte>)
    | Bitcoin(height: nat)
    | Unknown(tag: seq<byte>, payload: seq<byte>)

  const PENDING_TAG: seq<byte> := [0x83, 0xDF, 0xE3, 0x0D, 0x2E, 0xF9, 0x0C, 0x8E]
  const BITCOIN_TAG: seq<byte> := [0x05, 0x88, 0x96, 0x0D, 0x73, 0xD7, 0x19, 0x01]

  function AttTag(a: Attestation): seq<byte> {
    match a
    case Pending(_) => PENDING_TAG
    case Bitcoin(_) => BITCOIN_TAG
    case Unknown(tag, _) => tag
  }

  function AttPayload(a: Attestation): seq<byte> {
    match a
    case Pending(uri) => VarBytesEnc(uri)
    case Bitcoin(height) => VarEnc(height)
    case Unknown(_, payload) => payload
  }

  /** URIs are UTF-8; a tag has eight bytes and is not one of the two known ones. */
  predicate AttShaped(a: Attestation) {
    match a
    case Pending(uri) => ValidUtf8(uri)
    case Bitcoin(_) => true
    case Unknown(tag, _) => |tag| == 8 && tag != PENDING_TAG && tag != BITCOIN_TAG
  }

  predicate AttWithin(a: Attestation) {
    |AttPayload(a)| < VarLimit() &&
    match a
    case Pending(uri) => |uri| < VarLimit()
    case Bitcoin(height) => height < VarLimit()
    case Unknown(_, _) => true
  }

  function AttEnc(a: Attestation): seq<byte> {
    AttTag(a) + VarBytesEnc(AttPayload(a))
  }

  function AttDec(s: seq<byte>): (r: Option<(Attestation, seq<byte>)>)
    ensures r.Some? ==> |r.value.1| < |s| && AttShaped(r.value.0)
  {
    if |s| < 8 then None
    else
      match VarBytesDec(s[8..])
      case None => None
      case Some((payload, rest)) =>
        match PayloadDec(s[..8], payload)
        case None => None
        case Some(a) => Some((a, rest))
  }

  function PayloadDec(tag: seq<byte>, payload: seq<byte>): (r: Option<Attestation>)
    requires |tag| == 8
    ensures r.Some? ==> AttShaped(r.value) && AttTag(r.value) == tag
  {
    if tag == PENDING_TAG then
      match VarBytesDec(payload)
      case None => None
      case Some((uri, after)) => if after != [] || !ValidUtf8(uri) then None else Some(Pending(uri))
    else if tag == BITCOIN_TAG then
      match VarDec(payload, VAR_BYTES)
      case None => None
      case Some((height, after)) => if after != [] then None else Some(Bitcoin(height))
    else Some(Unknown(tag, payload))
  }

  lemma {:induction false} PayloadRound(a: Attestation)
    requires AttShaped(a)
    ensures PayloadDec(AttTag(a), AttPayload(a)) ==
            if (a.Pending? && |a.uri| >= VarLimit()) || (a.Bitcoin? && a.height >= VarLimit()) then None else Some(a)
  {
    match a
    case Pending(uri) => VarBytesRound(uri, []); assert VarBytesEnc(uri) + [] == AttPayload(a);
    case Bitcoin(height) => VarRound(height, [], VAR_BYTES); assert VarEnc(height) + [] == AttPayload(a);
    case Unknown(_, _) =>
  }

  lemma {:induction false} AttRound(a: Attestation, rest: seq<byte>)
    requires AttShaped(a)
    ensures AttDec(AttEnc(a) + rest) == if AttWithin(a) then Some((a, rest)) else None
  {
    var s := AttEnc(a) + rest;
    var payload := AttPayload(a);
    assert s == AttTag(a) + (VarBytesEnc(payload) + rest);
    assert s[..8] == AttTag(a) && s[8..] == VarBytesEnc(payload) + rest;
    VarBytesRound(payload, rest);
    PayloadRound(a);
  }

  /** What was read can be written again within the limits. */
  lemma {:induction false} AttReadWithin(s: seq<byte>)
    requires AttDec(s).Some?
    ensures AttWithin(AttDec(s).value.0)
  {
    VarShortest(s[8..], VAR_BYTES);
    var payload := VarBytesDec(s[8..]).value.0;
    if s[..8] == PENDING_TAG || s[..8] == BITCOIN_TAG {
      VarShortest(payload, VAR_BYTES);
    }
  }

  // ----- operations and trees -----

  datatype Op = Append(operand: seq<byte>) | Prepend(operand: seq<byte>) | Sha256

  datatype Stamp = Stamp(msg: seq<byte>, atts: seq<Attestation>, ops: seq<Edge>)

  datatype Edge = Edge(op: Op, child: Stamp)

  function OpTag(op: Op): byte {
    match op
    case Append(_) => 0xF0
    case Prepend(_) => 0xF1
    case Sha256 => 0xF7
  }

  function OpEnc(op: Op): seq<byte> {
    if op.Sha256? then [0xF7] else [OpTag(op)] + VarBytesEnc(op.operand)
  }

  function OpDec(s: seq<byte>): (r: Option<(Op, seq<byte>)>)
    ensures r.Some? ==> |r.value.1| < |s|
  {
    if s == [] then None
    else if s[0] == 0xF0 || s[0] == 0xF1 then
      match VarBytesDec(s[1..])
      case None => None
      case Some((operand, t)) => Some((if s[0] == 0xF0 then Append(operand) else Prepend(operand), t))
    else if s[0] == 0xF7 then Some((Sha256, s[1..]))
    else None
  }

  predicate OpWithin(op: Op) {
    op.Sha256? || |op.operand| < VarLimit()
  }

  function Apply(H: Hasher, op: Op, msg: seq<byte>): seq<byte> {
    match op
    case Append(operand) => msg + operand
    case Prepend(operand) => operand + msg
    case Sha256 => H(msg)
  }

  lemma {:induction false} OpRound(op: Op, rest: seq<byte>)
    ensures OpDec(OpEnc(op) + rest) == if OpWithin(op) then Some((op, rest)) else None
  {
    var s := OpEnc(op) + rest;
    if op.Sha256? {
      assert s[1..] == rest;
    } else {
      assert s[1..] == VarBytesEnc(op.operand) + rest;
      VarBytesRound(op.operand, rest);
    }
  }

  // ----- writing a tree whose lists are in order -----

  predicate Shaped(n: Stamp) {
    (n.atts != [] || n.ops != []) &&
    (forall i | 0 <= i < |n.atts| :: AttShaped(n.atts[i])) &&
    forall i | 0 <= i < |n.ops| :: Shaped(n.ops[i].child)
  }

  /** Every element but the last of a node follows a separator. */
  function NodeEnc(n: Stamp): seq<byte>
    decreases n, 0
  {
    AttsEnc(n.atts, n.ops != []) + EdgesEnc(n.ops)
  }

  function AttsEnc(atts: seq<Attestation>, more: bool): seq<byte> {
    if atts == [] then []
    else if |atts| == 1 && !more then [0] + AttEnc(atts[0])
    else [SEP, 0] + AttEnc(atts[0]) + AttsEnc(atts[1..], more)
  }

  function EdgesEnc(ops: seq<Edge>): seq<byte>
    decreases ops, 2
  {
    if ops == [] then []
    else if |ops| == 1 then EdgeEnc(ops[0])
    else [SEP] + EdgeEnc(ops[0]) + EdgesEnc(ops[1..])
  }

  function EdgeEnc(e: Edge): seq<byte>
    decreases e, 1
  {
    OpEnc(e.op) + NodeEnc(e.child)
  }

  // ----- reading -----

  function NodeDec(H: Hasher, s: seq<byte>, msg: seq<byte>, depth: nat): (r: Option<(Stamp, seq<byte>)>)
    ensures r.Some? ==> |r.value.1| < |s|
    decreases |s|, 2
  {
    if depth > MAX_NESTING then None
    else
      match ItemsDec(H, s, msg, depth)
      case None => None
      case Some((atts, ops, t)) => Some((Stamp(msg, atts, ops), t))
  }

  function ItemsDec(H: Hasher, s: seq<byte>, msg: seq<byte>, depth: nat)
    : (r: Option<(seq<Attestation>, seq<Edge>, seq<byte>)>)
    ensures r.Some? ==> |r.value.2| < |s|
    decreases |s|, 1
  {
    if s == [] then None
    else if s[0] != SEP then ItemDec(H, s, msg, depth)
    else
      match ItemDec(H, s[1..], msg, depth)
      case None => None
      case Some((atts, ops, t)) =>
        match ItemsDec(H, t, msg, depth)
        case None => None
        case Some((atts', ops', u)) => Some((atts + atts', ops + ops', u))
  }

  /** One element: an attestation or an operation with the node it leads to. */
  function ItemDec(H: Hasher, s: seq<byte>, msg: seq<byte>, depth: nat)
    : (r: Option<(seq<Attestation>, seq<Edge>, seq<byte>)>)
    ensures r.Some? ==> |r.value.2| < |s|
    decreases |s|, 0
  {
    if s == [] then None
    else if s[0] == 0 then
      match AttDec(s[1..])
      case None => None
      case Some((a, t)) => Some(([a], [], t))
    else
      match OpDec(s)
      case None => None
      case Some((op, t)) =>
        if |msg| > MAX_MSG then None
        else
          match NodeDec(H, t, Apply(H, op, msg), depth + 1)
          case None => None
          case Some((child, u)) => Some(([], [Edge(op, child)], u))
  }

  // ----- the round trip on ordered trees -----

  predicate EdgeWithin(H: Hasher, e: Edge, msg: seq<byte>, depth: nat)
    decreases e, 0
  {
    OpWithin(e.op) && |msg| <= MAX_MSG && Within(H, e.child, Apply(H, e.op, msg), depth + 1)
  }

  /** Nesting, lengths and messages stay within the limits of the reader. */
  predicate Within(H: Hasher, n: Stamp, msg: seq<byte>, depth: nat)
    decreases n, 1
  {
    depth <= MAX_NESTING &&
    (forall i | 0 <= i < |n.atts| :: AttWithin(n.atts[i])) &&
    forall i | 0 <= i < |n.ops| :: EdgeWithin(H, n.ops[i], msg, depth)
  }

  /** The tree with the messages that follow from the message at its root. */
  function Rehash(H: Hasher, n: Stamp, msg: seq<byte>): Stamp
    decreases n, 0
  {
    Stamp(msg, n.atts, RehashAll(H, n.ops, msg))
  }

  function RehashAll(H: Hasher, ops: seq<Edge>, msg: seq<byte>): (r: seq<Edge>)
    ensures |r| == |ops|
    decreases ops, 2
  {
    if ops == [] then [] else [RehashEdge(H, ops[0], msg)] + RehashAll(H, ops[1..], msg)
  }

  function RehashEdge(H: Hasher, e: Edge, msg: seq<byte>): Edge
    decreases e, 1
  {
    Edge(e.op, Rehash(H, e.child, Apply(H, e.op, msg)))
  }

  predicate AttsWithin(atts: seq<Attestation>) {
    forall i | 0 <= i < |atts| :: AttWithin(atts[i])
  }

  predicate EdgesWithin(H: Hasher, ops: seq<Edge>, msg: seq<byte>, depth: nat) {
    forall i | 0 <= i < |ops| :: EdgeWithin(H, ops[i], msg, depth)
  }

  lemma {:induction false} NodeRound(H: Hasher, n: Stamp, rest: seq<byte>, msg: seq<byte>, depth: nat)
    requires Shaped(n)
    ensures NodeDec(H, NodeEnc(n) + rest, msg, depth) ==
            if Within(H, n, msg, depth) then Some((Rehash(H, n, msg), rest)) else None
    decreases n, 0
  {
    ItemsRound(H, n.atts, n.ops, rest, msg, depth);
  }

  lemma {:induction false} AttItem(H: Hasher, a: Attestation, rest: seq<byte>, msg: seq<byte>, depth: nat)
    requires AttShaped(a)
    ensures ItemDec(H, [0] + AttEnc(a) + rest, msg, depth) == if AttWithin(a) then Some(([a], [], rest)) else None
  {
    var s := [0] + AttEnc(a) + rest;
    AttRound(a, rest);
    var t := AttEnc(a) + rest;
    assert s == [0] + t && s[1..] == t;
  }

  lemma {:induction false} EdgeRound(H: Hasher, e: Edge, rest: seq<byte>, msg: seq<byte>, depth: nat)
    requires Shaped(e.child)
    ensures EdgeEnc(e)[0] !in {SEP, 0}
    ensures ItemDec(H, EdgeEnc(e) + rest, msg, depth) ==
            if EdgeWithin(H, e, msg, depth) then Some(([], [RehashEdge(H, e, msg)], rest)) else None
    decreases e, 1
  {
    assert EdgeEnc(e) + rest == OpEnc(e.op) + (NodeEnc(e.child) + rest);
    OpRound(e.op, NodeEnc(e.child) + rest);
    NodeRound(H, e.child, rest, Apply(H, e.op, msg), depth + 1);
  }

  /** The items behind a separator, or the last item. */
  lemma ItemsSep(H: Hasher, item: seq<byte>, after: seq<byte>, msg: seq<byte>, depth: nat)
    ensures var first := ItemDec(H, item + after, msg, depth);
            ItemsDec(H, [SEP] + item + after, msg, depth) ==
            if first.None? then None
            else
              var rest := ItemsDec(H, first.value.2, msg, depth);
              if rest.None? then None
              else Some((first.value.0 + rest.value.0, first.value.1 + rest.value.1, rest.value.2))
  {
    var s := [SEP] + item + after;
    assert s[0] == SEP && s[1..] == item + after;
  }

  lemma ItemsLast(H: Hasher, s: seq<byte>, msg: seq<byte>, depth: nat)
    requires s != [] && s[0] != SEP
    ensures ItemsDec(H, s, msg, depth) == ItemDec(H, s, msg, depth)
  {
  }

  lemma EdgeLayout(edge: seq<byte>, edges: seq<byte>, rest: seq<byte>)
    ensures [SEP] + edge + edges + rest == [SEP] + edge + (edges + rest)
  {
  }

  lemma AttLayout(att: seq<byte>, atts: seq<byte>, edges: seq<byte>, rest: seq<byte>)
    ensures [SEP, 0] + att + atts + edges + rest == [SEP] + ([0] + att) + (atts + edges + rest)
  {
  }

  lemma {:induction false} EdgesRound(H: Hasher, ops: seq<Edge>, rest: seq<byte>, msg: seq<byte>, depth: nat)
    requires ops != [] && forall i | 0 <= i < |ops| :: Shaped(ops[i].child)
    ensures ItemsDec(H, EdgesEnc(ops) + rest, msg, depth) ==
            if EdgesWithin(H, ops, msg, depth) then Some(([], RehashAll(H, ops, msg), rest)) else None
    decreases ops, 2
  {
    var s := EdgesEnc(ops) + rest;
    if |ops| == 1 {
      EdgeRound(H, ops[0], rest, msg, depth);
      ItemsLast(H, s, msg, depth);
      assert RehashAll(H, ops, msg) == [RehashEdge(H, ops[0], msg)];
    } else {
      var tail := ops[1..];
      var after := EdgesEnc(tail) + rest;
      EdgeRound(H, ops[0], after, msg, depth);
      EdgesRound(H, tail, rest, msg, depth);
      EdgeLayout(EdgeEnc(ops[0]), EdgesEnc(tail), rest);
      ItemsSep(H, EdgeEnc(ops[0]), after, msg, depth);
      EdgesWithinCons(H, ops, msg, depth);
      var none: seq<Attestation> := [];
      assert none + none == none;
    }
  }

  lemma EdgesWithinCons(H: Hasher, ops: seq<Edge>, msg: seq<byte>, depth: nat)
    requires ops != []
    ensures EdgesWithin(H, ops, msg, depth) <==> EdgeWithin(H, ops[0], msg, depth) && EdgesWithin(H, ops[1..], msg, depth)
  {
    if EdgeWithin(H, ops[0], msg, depth) && EdgesWithin(H, ops[1..], msg, depth) {
      forall i | 0 <= i < |ops| ensures EdgeWithin(H, ops[i], msg, depth) {
        if i > 0 { assert ops[i] == ops[1..][i - 1]; }
      }
    }
  }

  lemma AttStep(H: Hasher, a: Attestation, after: seq<byte>, msg: seq<byte>, depth: nat)
    requires AttShaped(a)
    ensures var rest := ItemsDec(H, after, msg, depth);
            ItemsDec(H, [SEP] + ([0] + AttEnc(a)) + after, msg, depth) ==
            if !AttWithin(a) || rest.None? then None else Some(([a] + rest.value.0, rest.value.1, rest.value.2))
  {
    AttItem(H, a, after, msg, depth);
    ItemsSep(H, [0] + AttEnc(a), after, msg, depth);
    var rest := ItemsDec(H, after, msg, depth);
    if rest.Some? { assert [] + rest.value.1 == rest.value.1; }
  }

  lemma AttsWithinCons(atts: seq<Attestation>)
    requires atts != []
    ensures [atts[0]] + atts[1..] == atts
    ensures AttsWithin(atts) <==> AttWithin(atts[0]) && AttsWithin(atts[1..])
  {
    assert atts == [atts[0]] + atts[1..];
  }

  lemma {:induction false} ItemsRound(H: Hasher, atts: seq<Attestation>, ops: seq<Edge>, rest: seq<byte>, msg: seq<byte>, depth: nat)
    requires atts != [] || ops != []
    requires forall i | 0 <= i < |atts| :: AttShaped(atts[i])
    requires forall i | 0 <= i < |ops| :: Shaped(ops[i].child)
    ensures ItemsDec(H, AttsEnc(atts, ops != []) + EdgesEnc(ops) + rest, msg, depth) ==
            if AttsWithin(atts) && EdgesWithin(H, ops, msg, depth) then Some((atts, RehashAll(H, ops, msg), rest)) else None
    decreases ops, 3, |atts|
  {
    var s := AttsEnc(atts, ops != []) + EdgesEnc(ops) + rest;
    if atts == [] {
      assert s == EdgesEnc(ops) + rest;
      EdgesRound(H, ops, rest, msg, depth);
    } else if |atts| == 1 && ops == [] {
      assert s == [0] + AttEnc(atts[0]) + rest;
      AttItem(H, atts[0], rest, msg, depth);
      ItemsLast(H, s, msg, depth);
      assert atts == [atts[0]];
    } else {
      var tail := atts[1..];
      var after := AttsEnc(tail, ops != []) + EdgesEnc(ops) + rest;
      ItemsRound(H, tail, ops, rest, msg, depth);
      AttStep(H, atts[0], after, msg, depth);
      AttLayout(AttEnc(atts[0]), AttsEnc(tail, ops != []), EdgesEnc(ops), rest);
      AttsWithinCons(atts);
    }
  }

  // ----- order -----

  function InsertAtt(a: Attestation, atts: seq<Attestation>): (r: seq<Attestation>)
    ensures multiset(r) == multiset([a]) + multiset(atts)
  {
    if atts == [] then [a]
    else if LexLess(AttTag(atts[0]), AttTag(a)) then
      assert atts == [atts[0]] + atts[1..];
      [atts[0]] + InsertAtt(a, atts[1..])
    else [a] + atts
  }

  /** Stable sort by tag. */
  function SortAtts(atts: seq<Attestation>): (r: seq<Attestation>)
    ensures multiset(r) == multiset(atts)
  {
    if atts == [] then []
    else
      assert atts == [atts[0]] + atts[1..];
      InsertAtt(atts[0], SortAtts(atts[1..]))
  }

  predicate OpBefore(a: Op, b: Op) {
    OpTag(a) < OpTag(b) ||
    (OpTag(a) == OpTag(b) && LexLess(if a.Sha256? then [] else a.operand, if b.Sha256? then [] else b.operand))
  }

  function InsertEdge(e: Edge, ops: seq<Edge>): (r: seq<Edge>)
    ensures multiset(r) == multiset([e]) + multiset(ops)
  {
    if ops == [] then [e]
    else if OpBefore(ops[0].op, e.op) then
      assert ops == [ops[0]] + ops[1..];
      [ops[0]] + InsertEdge(e, ops[1..])
    else [e] + ops
  }

  /** Stable sort by operation tag and operand. */
  function SortEdges(ops: seq<Edge>): (r: seq<Edge>)
    ensures multiset(r) == multiset(ops)
  {
    if ops == [] then []
    else
      assert ops == [ops[0]] + ops[1..];
      InsertEdge(ops[0], SortEdges(ops[1..]))
  }

  /** The tree with all its lists in order. */
  function Sorted(n: Stamp): Stamp
    decreases n, 0
  {
    Stamp(n.msg, SortAtts(n.atts), SortEdges(SortChildren(n.ops)))
  }

  function SortChildren(ops: seq<Edge>): (r: seq<Edge>)
    ensures |r| == |ops|
    decreases ops, 2
  {
    if ops == [] then [] else [SortChild(ops[0])] + SortChildren(ops[1..])
  }

  function SortChild(e: Edge): Edge
    decreases e, 1
  {
    Edge(e.op, Sorted(e.child))
  }

  lemma {:induction false} SortChildrenAt(ops: seq<Edge>, i: nat)
    requires i < |ops|
    ensures SortChildren(ops)[i] == SortChild(ops[i])
  {
    if i > 0 { SortChildrenAt(ops[1..], i - 1); }
  }

  lemma SameMembers<T>(a: seq<T>, b: seq<T>)
    requires multiset(a) == multiset(b)
    ensures |a| == |b| && forall x :: x in a <==> x in b
  {
    assert |multiset(a)| == |a| && |multiset(b)| == |b|;
    forall x ensures x in a <==> x in b {
      assert x in a <==> x in multiset(a);
      assert x in b <==> x in multiset(b);
    }
  }

  predicate TagsAscend(atts: seq<Attestation>) {
    forall i, j | 0 <= i < j < |atts| :: !LexLess(AttTag(atts[j]), AttTag(atts[i]))
  }

  predicate OpsAscend(ops: seq<Edge>) {
    forall i, j | 0 <= i < j < |ops| :: !OpBefore(ops[j].op, ops[i].op)
  }

  lemma {:induction false} InsertAttAscends(a: Attestation, atts: seq<Attestation>)
    requires TagsAscend(atts)
    ensures TagsAscend(InsertAtt(a, atts))
  {
    var r := InsertAtt(a, atts);
    if atts != [] {
      var tail := atts[1..];
      if LexLess(AttTag(atts[0]), AttTag(a)) {
        InsertAttAscends(a, tail);
        SameMembers(InsertAtt(a, tail), [a] + tail);
        forall j | 0 < j < |r| ensures !LexLess(AttTag(r[j]), AttTag(r[0])) {
          assert r[j] in InsertAtt(a, tail);
          assert r[j] == a || r[j] in tail;
          if r[j] == a && LexLess(AttTag(a), AttTag(atts[0])) {
            LexTransitive(AttTag(a), AttTag(atts[0]), AttTag(a));
            LexIrreflexive(AttTag(a));
          }
        }
      } else {
        forall j | 0 < j < |r| ensures !LexLess(AttTag(r[j]), AttTag(a)) {
          if LexLess(AttTag(r[j]), AttTag(a)) {
            LexTotal(AttTag(atts[0]), AttTag(a));
            if AttTag(atts[0]) != AttTag(a) { LexTransitive(AttTag(r[j]), AttTag(a), AttTag(atts[0])); }
          }
        }
      }
    } else {
    }
  }

  lemma {:induction false} SortAttsAscends(atts: seq<Attestation>)
    ensures TagsAscend(SortAtts(atts))
  {
    if atts != [] {
      SortAttsAscends(atts[1..]);
      InsertAttAscends(atts[0], SortAtts(atts[1..]));
    }
  }

  function Operand(op: Op): seq<byte> {
    if op.Sha256? then [] else op.operand
  }

  lemma OpBeforeOrder(a: Op, b: Op, c: Op)
    ensures OpBefore(a, b) && OpBefore(b, c) ==> OpBefore(a, c)
    ensures !OpBefore(a, a)
    ensures !OpBefore(a, b) && !OpBefore(b, a) ==> (OpBefore(c, a) <==> OpBefore(c, b))
  {
    LexIrreflexive(Operand(a));
    LexTotal(Operand(a), Operand(b));
    if LexLess(Operand(a), Operand(b)) && LexLess(Operand(b), Operand(c)) {
      LexTransitive(Operand(a), Operand(b), Operand(c));
    }
  }

  lemma {:induction false} InsertEdgeAscends(e: Edge, ops: seq<Edge>)
    requires OpsAscend(ops)
    ensures OpsAscend(InsertEdge(e, ops))
  {
    var r := InsertEdge(e, ops);
    if ops != [] {
      var tail := ops[1..];
      if OpBefore(ops[0].op, e.op) {
        InsertEdgeAscends(e, tail);
        SameMembers(InsertEdge(e, tail), [e] + tail);
        forall j | 0 < j < |r| ensures !OpBefore(r[j].op, r[0].op) {
          assert r[j] in InsertEdge(e, tail);
          assert r[j] == e || r[j] in tail;
          OpBeforeOrder(e.op, ops[0].op, e.op);
        }
      } else {
        forall j | 0 < j < |r| ensures !OpBefore(r[j].op, e.op) {
          OpBeforeOrder(r[j].op, e.op, ops[0].op);
          OpBeforeOrder(e.op, ops[0].op, r[j].op);
        }
      }
    } else {
    }
  }

  lemma {:induction false} SortEdgesAscends(ops: seq<Edge>)
    ensures OpsAscend(SortEdges(ops))
  {
    if ops != [] {
      SortEdgesAscends(ops[1..]);
      InsertEdgeAscends(ops[0], SortEdges(ops[1..]));
    }
  }

  // ----- sorting keeps what the round trip needs -----

  lemma {:induction false} SortedShaped(n: Stamp)
    requires Shaped(n)
    ensures Shaped(Sorted(n))
    decreases n
  {
    var ops := SortChildren(n.ops);
    var r := Sorted(n);
    SameMembers(n.atts, r.atts);
    SameMembers(ops, r.ops);
    forall i | 0 <= i < |r.atts| ensures AttShaped(r.atts[i]) {
      assert r.atts[i] in n.atts;
    }
    forall i | 0 <= i < |r.ops| ensures Shaped(r.ops[i].child) {
      assert r.ops[i] in ops;
      var j :| 0 <= j < |ops| && ops[j] == r.ops[i];
      SortChildrenAt(n.ops, j);
      SortedShaped(n.ops[j].child);
    }
  }

  predicate Consistent(H: Hasher, n: Stamp) {
    forall i | 0 <= i < |n.ops| :: ConsistentEdge(H, n.ops[i], n.msg)
  }

  /** The child's message is what the operation makes of the parent's. */
  predicate ConsistentEdge(H: Hasher, e: Edge, msg: seq<byte>) {
    e.child.msg == Apply(H, e.op, msg) && Consistent(H, e.child)
  }

  lemma {:induction false} SortedConsistent(H: Hasher, n: Stamp)
    requires Consistent(H, n)
    ensures Consistent(H, Sorted(n))
    decreases n
  {
    var ops := SortChildren(n.ops);
    var r := Sorted(n);
    SameMembers(ops, r.ops);
    forall i | 0 <= i < |r.ops| ensures ConsistentEdge(H, r.ops[i], n.msg) {
      assert r.ops[i] in ops;
      var j :| 0 <= j < |ops| && ops[j] == r.ops[i];
      SortChildrenAt(n.ops, j);
      assert ConsistentEdge(H, n.ops[j], n.msg);
      SortedConsistent(H, n.ops[j].child);
    }
  }

  lemma {:induction false} RehashSame(H: Hasher, n: Stamp)
    requires Consistent(H, n)
    ensures Rehash(H, n, n.msg) == n
    decreases n, 0
  {
    forall i | 0 <= i < |n.ops| ensures RehashEdge(H, n.ops[i], n.msg) == n.ops[i] {
      assert ConsistentEdge(H, n.ops[i], n.msg);
      RehashSame(H, n.ops[i].child);
    }
    RehashAllSame(H, n.ops, n.msg);
  }

  lemma {:induction false} RehashAllSame(H: Hasher, ops: seq<Edge>, msg: seq<byte>)
    requires forall i | 0 <= i < |ops| :: RehashEdge(H, ops[i], msg) == ops[i]
    ensures RehashAll(H, ops, msg) == ops
  {
    if ops != [] {
      forall i | 0 <= i < |ops[1..]| ensures RehashEdge(H, ops[1..][i], msg) == ops[1..][i] {
        assert ops[1..][i] == ops[i + 1];
      }
      RehashAllSame(H, ops[1..], msg);
      assert ops == [ops[0]] + ops[1..];
    }
  }

  lemma {:induction false} WithinSorted(H: Hasher, n: Stamp, msg: seq<byte>, depth: nat)
    ensures Within(H, Sorted(n), msg, depth) <==> Within(H, n, msg, depth)
    decreases n
  {
    var ops := SortChildren(n.ops);
    var r := Sorted(n);
    SameMembers(n.atts, r.atts);
    SameMembers(ops, r.ops);
    forall i | 0 <= i < |n.ops| ensures EdgeWithin(H, ops[i], msg, depth) <==> EdgeWithin(H, n.ops[i], msg, depth) {
      SortChildrenAt(n.ops, i);
      WithinSorted(H, n.ops[i].child, Apply(H, n.ops[i].op, msg), depth + 1);
    }
    AttsWithinSame(n.atts, r.atts);
    EdgesWithinSame(H, ops, r.ops, msg, depth);
    assert EdgesWithin(H, ops, msg, depth) <==> EdgesWithin(H, n.ops, msg, depth);
    WithinIs(H, n, msg, depth);
    WithinIs(H, r, msg, depth);
  }

  lemma WithinIs(H: Hasher, n: Stamp, msg: seq<byte>, depth: nat)
    ensures Within(H, n, msg, depth) <==> depth <= MAX_NESTING && AttsWithin(n.atts) && EdgesWithin(H, n.ops, msg, depth)
  {
  }

  lemma AttsWithinSame(a: seq<Attestation>, b: seq<Attestation>)
    requires forall x :: x in a <==> x in b
    ensures AttsWithin(a) <==> AttsWithin(b)
  {
    if AttsWithin(a) { forall i | 0 <= i < |b| ensures AttWithin(b[i]) { assert b[i] in a; } }
    if AttsWithin(b) { forall i | 0 <= i < |a| ensures AttWithin(a[i]) { assert a[i] in b; } }
  }

  lemma EdgesWithinSame(H: Hasher, a: seq<Edge>, b: seq<Edge>, msg: seq<byte>, depth: nat)
    requires forall x :: x in a <==> x in b
    ensures EdgesWithin(H, a, msg, depth) <==> EdgesWithin(H, b, msg, depth)
  {
    if EdgesWithin(H, a, msg, depth) { forall i | 0 <= i < |b| ensures EdgeWithin(H, b[i], msg, depth) { assert b[i] in a; } }
    if EdgesWithin(H, b, msg, depth) { forall i | 0 <= i < |a| ensures EdgeWithin(H, a[i], msg, depth) { assert a[i] in b; } }
  }

  /** The bytes a tree is written as, whatever follows them, read back as the tree in order, exactly when
      the tree is within the limits. */
  lemma {:induction false} DecodeEncode(H: Hasher, n: Stamp, rest: seq<byte>)
    requires Shaped(n) && Consistent(H, n)
    ensures NodeDec(H, NodeEnc(Sorted(n)) + rest, n.msg, 0) ==
            if Within(H, n, n.msg, 0) then Some((Sorted(n), rest)) else None
  {
    SortedShaped(n);
    SortedConsistent(H, n);
    NodeRound(H, Sorted(n), rest, n.msg, 0);
    RehashSame(H, Sorted(n));
    WithinSorted(H, n, n.msg, 0);
  }

  // ----- what was read can be written and read again -----

  lemma {:induction false} NodeRead(H: Hasher, s: seq<byte>, msg: seq<byte>, depth: nat)
    requires NodeDec(H, s, msg, depth).Some?
    ensures var n := NodeDec(H, s, msg, depth).value.0;
            n.msg == msg && Shaped(n) && Consistent(H, n) && Within(H, n, msg, depth)
    decreases |s|, 2
  {
    ItemsRead(H, s, msg, depth);
  }

  /** Elements as the reader makes them. */
  predicate GoodItems(H: Hasher, atts: seq<Attestation>, ops: seq<Edge>, msg: seq<byte>, depth: nat) {
    (forall i | 0 <= i < |atts| :: AttShaped(atts[i]) && AttWithin(atts[i])) &&
    forall i | 0 <= i < |ops| :: Shaped(ops[i].child) && ConsistentEdge(H, ops[i], msg) && EdgeWithin(H, ops[i], msg, depth)
  }

  lemma {:induction false} ItemsRead(H: Hasher, s: seq<byte>, msg: seq<byte>, depth: nat)
    requires ItemsDec(H, s, msg, depth).Some?
    ensures var (atts, ops, _) := ItemsDec(H, s, msg, depth).value;
            (atts != [] || ops != []) && GoodItems(H, atts, ops, msg, depth)
    decreases |s|, 1
  {
    if s[0] != SEP {
      ItemRead(H, s, msg, depth);
    } else {
      ItemRead(H, s[1..], msg, depth);
      ItemsRead(H, ItemDec(H, s[1..], msg, depth).value.2, msg, depth);
    }
  }

  lemma {:induction false} ItemRead(H: Hasher, s: seq<byte>, msg: seq<byte>, depth: nat)
    requires ItemDec(H, s, msg, depth).Some?
    ensures var (atts, ops, _) := ItemDec(H, s, msg, depth).value;
            (atts != [] || ops != []) && GoodItems(H, atts, ops, msg, depth)
    decreases |s|, 0
  {
    if s[0] == 0 {
      AttReadWithin(s[1..]);
    } else {
      var (op, t) := OpDec(s).value;
      OpReadWithin(s);
      NodeRead(H, t, Apply(H, op, msg), depth + 1);
    }
  }

  lemma OpReadWithin(s: seq<byte>)
    requires OpDec(s).Some?
    ensures OpWithin(OpDec(s).value.0)
  {
    if s[0] != 0xF7 { VarShortest(s[1..], VAR_BYTES); }
  }

  /** Every accepted string reads as a tree that can be written; what is written reads as the same tree in
      order. */
  lemma {:induction false} DecodeEncodeDecode(H: Hasher, s: seq<byte>, msg: seq<byte>, rest: seq<byte>)
    requires NodeDec(H, s, msg, 0).Some?
    ensures var n := NodeDec(H, s, msg, 0).value.0;
            Shaped(n) && NodeDec(H, NodeEnc(Sorted(n)) + rest, msg, 0) == Some((Sorted(n), rest))
  {
    NodeRead(H, s, msg, 0);
    DecodeEncode(H, NodeDec(H, s, msg, 0).value.0, rest);
  }

  // ----- the file form -----

  const MAGIC: seq<byte> := [
    0x00, 0x4F, 0x70, 0x65, 0x6E, 0x54, 0x69, 0x6D, 0x65, 0x73, 0x74, 0x61, 0x6D, 0x70, 0x73, 0x00,
    0x00, 0x50, 0x72, 0x6F, 0x6F, 0x66, 0x00, 0xBF, 0x89, 0xE2, 0xE8, 0x84, 0xE8, 0x92, 0x94]

  const VERSION: nat := 1
  const FILE_HASH: byte := 0x08

  function FileEnc(digest: seq<byte>, n: Stamp): seq<byte> {
    MAGIC + (VarEnc(VERSION) + ([FILE_HASH] + (digest + NodeEnc(Sorted(n)))))
  }

  function FileDec(H: Hasher, data: seq<byte>): Option<(seq<byte>, Stamp)> {
    if !(MAGIC <= data) then None
    else
      match VarDec(data[|MAGIC|..], VAR_BYTES)
      case None => None
      case Some((version, t)) =>
        if version != VERSION then None else BodyDec(H, t)
  }

  /** The hash tag, the digest and the tree, with nothing after them. */
  function BodyDec(H: Hasher, t: seq<byte>): Option<(seq<byte>, Stamp)> {
    if t == [] || t[0] != FILE_HASH || |t| < 33 then None
    else
      match NodeDec(H, t[33..], t[1..33], 0)
      case None => None
      case Some((n, u)) => if u == [] then Some((t[1..33], n)) else None
  }

  lemma BodyRound(H: Hasher, digest: seq<byte>, n: Stamp, rest: seq<byte>)
    requires |digest| == 32 && n.msg == digest && Shaped(n) && Consistent(H, n)
    ensures BodyDec(H, [FILE_HASH] + (digest + (NodeEnc(Sorted(n)) + rest))) ==
            if Within(H, n, digest, 0) && rest == [] then Some((digest, Sorted(n))) else None
  {
    BodyLayout(digest, NodeEnc(Sorted(n)) + rest);
    DecodeEncode(H, n, rest);
  }

  /** A file reads back as its digest and its tree in order; the same file with anything after it is
      refused. */
  lemma {:induction false} FileRound(H: Hasher, digest: seq<byte>, n: Stamp, rest: seq<byte>)
    requires |digest| == 32 && n.msg == digest && Shaped(n) && Consistent(H, n)
    ensures FileDec(H, FileEnc(digest, n) + rest) ==
            if Within(H, n, digest, 0) && rest == [] then Some((digest, Sorted(n))) else None
  {
    var t := [FILE_HASH] + (digest + (NodeEnc(Sorted(n)) + rest));
    FileLayout(MAGIC, VarEnc(VERSION), [FILE_HASH], digest, NodeEnc(Sorted(n)), rest);
    MagicThen(VarEnc(VERSION) + t);
    VarLimitIs();
    VarRound(VERSION, t, VAR_BYTES);
    BodyRound(H, digest, n, rest);
  }

  lemma BodyLayout(digest: seq<byte>, tree: seq<byte>)
    requires |digest| == 32
    ensures var t := [FILE_HASH] + (digest + tree);
            |t| >= 33 && t[0] == FILE_HASH && t[1..33] == digest && t[33..] == tree
  {
  }

  lemma MagicThen(t: seq<byte>)
    ensures MAGIC <= MAGIC + t && (MAGIC + t)[|MAGIC|..] == t
  {
  }

  lemma FileLayout(a: seq<byte>, b: seq<byte>, c: seq<byte>, d: seq<byte>, e: seq<byte>, f: seq<byte>)
    ensures a + (b + (c + (d + e))) + f == a + (b + (c + (d + (e + f))))
  {
  }
}
