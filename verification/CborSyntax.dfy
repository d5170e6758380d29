/** The syntax of deterministic CBOR: data items and their bytes.

    `Ser` writes an item; `Parse` is what the strict decoder recognises.  They are inverse to each
    other on the items whose map keys ascend and whose nesting stays within the limit. */
module CborSyntax {
  import opened Wrappers
  import opened Radix

  const TWO64: nat := 0x1_0000_0000_0000_0000
  const MAX_RECURSION_DEPTH: nat := 64

  /** A data item as it stands in the bytes.  Floating-point items are not part of the model. */
  datatype Item =
    | UInt(n: nat)
    | NInt(n: nat)
    | Bytes(b: seq<byte>)
    | Text(b: seq<byte>)
    | Array(items: seq<Item>)
    | Map(pairs: seq<Pair>)
    | Tag(num: nat, item: Item)
    | Simple(n: nat)

  /** A map entry. */
  datatype Pair = Pair(key: Item, val: Item)

  // ----- bytes -----

  /** `bytes` comparison: lexicographic, a proper prefix being smaller. */
  predicate LexLess(a: seq<byte>, b: seq<byte>) {
    b != [] && (a == [] || a[0] < b[0] || (a[0] == b[0] && LexLess(a[1..], b[1..])))
  }

  predicate IsTail(b: byte) {
    0x80 <= b <= 0xBF
  }

  /** Well-formed UTF-8, section 4 of RFC 3629. */
  predicate ValidUtf8(b: seq<byte>) {
    if b == [] then true
    else if b[0] < 0x80 then ValidUtf8(b[1..])
    else if 0xC2 <= b[0] <= 0xDF then |b| >= 2 && IsTail(b[1]) && ValidUtf8(b[2..])
    else if 0xE0 <= b[0] <= 0xEF then
      |b| >= 3 && IsTail(b[1]) && IsTail(b[2]) && (b[0] == 0xE0 ==> b[1] >= 0xA0) && (b[0] == 0xED ==> b[1] <= 0x9F)
      && ValidUtf8(b[3..])
    else if 0xF0 <= b[0] <= 0xF4 then
      |b| >= 4 && IsTail(b[1]) && IsTail(b[2]) && IsTail(b[3])
      && (b[0] == 0xF0 ==> b[1] >= 0x90) && (b[0] == 0xF4 ==> b[1] <= 0x8F) && ValidUtf8(b[4..])
    else false
  }

  // ----- writing -----

  /** Shortest initial bytes for a major type and its argument. */
  function Head(major: nat, n: nat): (h: seq<byte>)
    requires major < 8 && n < TWO64
    ensures h != []
  {
    if n < 24 then [major * 32 + n]
    else if n < 0x100 then [major * 32 + 24] + BigEndian(n, 1)
    else if n < 0x1_0000 then [major * 32 + 25] + BigEndian(n, 2)
    else if n < 0x1_0000_0000 then [major * 32 + 26] + BigEndian(n, 4)
    else [major * 32 + 27] + BigEndian(n, 8)
  }

  /** Arguments fit in 64 bits, text is UTF-8, simple values avoid the range reserved for floats
      and the values that would have a shorter form. */
  predicate Encodable(it: Item) {
    match it
    case UInt(n) => n < TWO64
    case NInt(n) => n < TWO64
    case Bytes(b) => |b| < TWO64
    case Text(b) => |b| < TWO64 && ValidUtf8(b)
    case Array(items) => |items| < TWO64 && forall i | 0 <= i < |items| :: Encodable(items[i])
    case Map(pairs) =>
      |pairs| < TWO64 && forall i | 0 <= i < |pairs| :: Encodable(pairs[i].key) && Encodable(pairs[i].val)
    case Tag(num, item) => num < TWO64 && Encodable(item)
    case Simple(n) => n < 24 || 32 <= n < 256
  }

  function Major(it: Item): (m: nat)
    ensures m < 8
  {
    match it
    case UInt(_) => 0
    case NInt(_) => 1
    case Bytes(_) => 2
    case Text(_) => 3
    case Array(_) => 4
    case Map(_) => 5
    case Tag(_, _) => 6
    case Simple(_) => 7
  }

  /** The argument in the head: the number itself, or the length of what follows. */
  function Argument(it: Item): nat
    requires !it.Simple?
  {
    match it
    case UInt(n) => n
    case NInt(n) => n
    case Bytes(b) => |b|
    case Text(b) => |b|
    case Array(items) => |items|
    case Map(pairs) => |pairs|
    case Tag(num, _) => num
  }

  function Body(it: Item): seq<byte>
    requires Encodable(it) && !it.Simple?
    decreases it, 0
  {
    match it
    case UInt(_) => []
    case NInt(_) => []
    case Bytes(b) => b
    case Text(b) => b
    case Array(items) => SerAll(items)
    case Map(pairs) => SerPairs(pairs)
    case Tag(_, item) => Ser(item)
  }

  function Ser(it: Item): (bs: seq<byte>)
    requires Encodable(it)
    ensures bs != []
    decreases it, 1
  {
    if it.Simple? then if it.n < 24 then [7 * 32 + it.n] else [7 * 32 + 24, it.n]
    else Head(Major(it), Argument(it)) + Body(it)
  }

  function SerAll(items: seq<Item>): seq<byte>
    requires forall i | 0 <= i < |items| :: Encodable(items[i])
    decreases items, 2
  {
    if items == [] then [] else Ser(items[0]) + SerAll(items[1..])
  }

  function SerPairs(pairs: seq<Pair>): seq<byte>
    requires forall i | 0 <= i < |pairs| :: Encodable(pairs[i].key) && Encodable(pairs[i].val)
    decreases pairs, 2
  {
    if pairs == [] then [] else SerPair(pairs[0]) + SerPairs(pairs[1..])
  }

  function SerPair(p: Pair): seq<byte>
    requires Encodable(p.key) && Encodable(p.val)
    decreases p, 2
  {
    Ser(p.key) + Ser(p.val)
  }

  // ----- reading -----

  /** The argument that the additional information announces; None when cut short, not shortest,
      reserved or indefinite. */
  function Arg(ai: nat, s: seq<byte>): (r: Option<(nat, seq<byte>)>)
    ensures r.Some? ==> |r.value.1| <= |s|
  {
    if ai < 24 then Some((ai, s))
    else if ai == 24 then Wide(s, 1, 24)
    else if ai == 25 then Wide(s, 2, 0x100)
    else if ai == 26 then Wide(s, 4, 0x1_0000)
    else if ai == 27 then Wide(s, 8, 0x1_0000_0000)
    else None
  }

  function Wide(s: seq<byte>, width: nat, least: nat): (r: Option<(nat, seq<byte>)>)
    ensures r.Some? ==> |r.value.1| <= |s|
  {
    if |s| < width || Value(s[..width], 256) < least then None
    else Some((Value(s[..width], 256), s[width..]))
  }

  /** One item at nesting depth `depth`, and what follows it. */
  function Parse(s: seq<byte>, depth: nat): (r: Option<(Item, seq<byte>)>)
    ensures r.Some? ==> |r.value.1| < |s|
    decreases |s|, 0
  {
    if depth > MAX_RECURSION_DEPTH || s == [] then None
    else
      var major, ai := s[0] / 32, s[0] % 32;
      if major == 7 then ParseSimple(ai, s[1..])
      else
        match Arg(ai, s[1..])
        case None => None
        case Some((n, t)) => ParseBody(major, n, t, depth)
  }

  /** What follows the head of an item of major type 0 to 6. */
  function ParseBody(major: nat, n: nat, t: seq<byte>, depth: nat): (r: Option<(Item, seq<byte>)>)
    requires major < 7
    ensures r.Some? ==> |r.value.1| <= |t|
    decreases |t|, n + 2
  {
    if major == 0 then Some((UInt(n), t))
    else if major == 1 then Some((NInt(n), t))
    else if major == 2 then if |t| < n then None else Some((Bytes(t[..n]), t[n..]))
    else if major == 3 then
      if |t| < n || !ValidUtf8(t[..n]) then None else Some((Text(t[..n]), t[n..]))
    else if major == 4 then
      match ParseAll(n, t, depth + 1)
      case None => None
      case Some((items, u)) => Some((Array(items), u))
    else if major == 5 then
      match ParsePairs(n, t, depth + 1, None)
      case None => None
      case Some((pairs, u)) => Some((Map(pairs), u))
    else
      match Parse(t, depth + 1)
      case None => None
      case Some((item, u)) => Some((Tag(n, item), u))
  }

  function ParseSimple(ai: nat, s: seq<byte>): (r: Option<(Item, seq<byte>)>)
    ensures r.Some? ==> |r.value.1| <= |s|
  {
    if ai < 24 then Some((Simple(ai), s))
    else if ai == 24 then if s == [] || s[0] < 32 then None else Some((Simple(s[0]), s[1..]))
    else None
  }

  function ParseAll(n: nat, s: seq<byte>, depth: nat): (r: Option<(seq<Item>, seq<byte>)>)
    ensures r.Some? ==> |r.value.1| <= |s|
    decreases |s|, n + 1
  {
    if n == 0 then Some(([], s))
    else
      match Parse(s, depth)
      case None => None
      case Some((item, t)) =>
        match ParseAll(n - 1, t, depth)
        case None => None
        case Some((items, u)) => Some(([item] + items, u))
  }

  /** Map entries, each key's bytes greater than those of the key before. */
  function ParsePairs(n: nat, s: seq<byte>, depth: nat, prev: Option<seq<byte>>)
    : (r: Option<(seq<Pair>, seq<byte>)>)
    ensures r.Some? ==> |r.value.1| <= |s|
    decreases |s|, n + 1
  {
    if n == 0 then Some(([], s))
    else
      match Parse(s, depth)
      case None => None
      case Some((key, t)) =>
        var keyBytes := s[..|s| - |t|];
        if prev.Some? && !LexLess(prev.value, keyBytes) then None
        else
          match Parse(t, depth)
          case None => None
          case Some((val, u)) =>
            match ParsePairs(n - 1, u, depth, Some(keyBytes))
            case None => None
            case Some((pairs, w)) => Some(([Pair(key, val)] + pairs, w))
  }

  // ----- what the strict reader insists on -----

  /** Keys ascend bytewise from `prev` on. */
  predicate Ascending(prev: Option<seq<byte>>, pairs: seq<Pair>)
    requires forall i | 0 <= i < |pairs| :: Encodable(pairs[i].key)
    decreases |pairs|
  {
    pairs == [] ||
    ((prev.Some? ==> LexLess(prev.value, Ser(pairs[0].key))) && Ascending(Some(Ser(pairs[0].key)), pairs[1..]))
  }

  /** The keys of every map inside ascend bytewise. */
  predicate Ordered(it: Item)
    requires Encodable(it)
  {
    match it
    case Array(items) => forall i | 0 <= i < |items| :: Ordered(items[i])
    case Map(pairs) =>
      Ascending(None, pairs) && forall i | 0 <= i < |pairs| :: Ordered(pairs[i].key) && Ordered(pairs[i].val)
    case Tag(_, item) => Ordered(item)
    case _ => true
  }

  /** Every item inside sits at depth at most 64 when this one sits at `depth`. */
  predicate Shallow(it: Item, depth: nat)
  {
    depth <= MAX_RECURSION_DEPTH &&
    match it
    case Array(items) => forall i | 0 <= i < |items| :: Shallow(items[i], depth + 1)
    case Map(pairs) =>
      forall i | 0 <= i < |pairs| :: Shallow(pairs[i].key, depth + 1) && Shallow(pairs[i].val, depth + 1)
    case Tag(_, item) => Shallow(item, depth + 1)
    case _ => true
  }

  predicate Strict(it: Item, depth: nat)
    requires Encodable(it)
  {
    Ordered(it) && Shallow(it, depth)
  }

  // ----- heads -----

  lemma HeadParse(major: nat, n: nat, rest: seq<byte>)
    requires major < 8 && n < TWO64
    ensures var s := Head(major, n) + rest;
            s[0] / 32 == major && Arg(s[0] % 32, s[1..]) == Some((n, rest))
  {
    ByteWidths();
    var s := Head(major, n) + rest;
    if n < 24 {
      assert s[1..] == rest;
    } else if n < 0x100 {
      WideParse(major * 32 + 24, n, 1, 24, rest);
    } else if n < 0x1_0000 {
      WideParse(major * 32 + 25, n, 2, 0x100, rest);
    } else if n < 0x1_0000_0000 {
      WideParse(major * 32 + 26, n, 4, 0x1_0000, rest);
    } else {
      WideParse(major * 32 + 27, n, 8, 0x1_0000_0000, rest);
    }
  }

  lemma WideParse(initial: byte, n: nat, width: nat, least: nat, rest: seq<byte>)
    requires least <= n < Pow(256, width)
    ensures var s := [initial] + BigEndian(n, width) + rest;
            s[0] == initial && Wide(s[1..], width, least) == Some((n, rest))
  {
    var s := [initial] + BigEndian(n, width) + rest;
    ValueOfFixed(n, 256, width);
    assert s[1..] == BigEndian(n, width) + rest;
    assert s[1..][..width] == BigEndian(n, width) && s[1..][width..] == rest;
  }

  lemma WideInverse(s: seq<byte>, width: nat, least: nat)
    requires Wide(s, width, least).Some?
    ensures var (n, t) := Wide(s, width, least).value;
            least <= n < Pow(256, width) && s == BigEndian(n, width) + t
  {
    FixedOfValue(s[..width], 256);
  }

  lemma HeadInverse(s: seq<byte>)
    requires s != [] && Arg(s[0] % 32, s[1..]).Some?
    ensures var (n, t) := Arg(s[0] % 32, s[1..]).value;
            n < TWO64 && s == Head(s[0] / 32, n) + t
  {
    ByteWidths();
    var ai := s[0] % 32;
    assert s == [s[0]] + s[1..] && s[0] == s[0] / 32 * 32 + ai;
    var (n, t) := Arg(ai, s[1..]).value;
    if ai >= 24 {
      var width := if ai == 24 then 1 else if ai == 25 then 2 else if ai == 26 then 4 else 8;
      WideInverse(s[1..], width, if ai == 24 then 24 else if ai == 25 then 0x100 else if ai == 26 then 0x1_0000 else 0x1_0000_0000);
      assert s == [s[0]] + BigEndian(n, width) + t;
    }
  }

  /** The major type at the front of an item's bytes, and what stands behind its head. */
  lemma ReadHead(it: Item, rest: seq<byte>)
    requires Encodable(it)
    ensures var s := Ser(it) + rest;
            s[0] / 32 == Major(it) &&
            (!it.Simple? ==> Argument(it) < TWO64 &&
                             Arg(s[0] % 32, s[1..]) == Some((Argument(it), Body(it) + rest)))
  {
    if it.Simple? {
      assert (Ser(it) + rest)[0] == Ser(it)[0];
    } else {
      HeadThen(Major(it), Argument(it), Body(it), rest);
    }
  }

  lemma HeadThen(major: nat, n: nat, body: seq<byte>, rest: seq<byte>)
    requires major < 8 && n < TWO64
    ensures var s := Head(major, n) + body + rest;
            s[0] / 32 == major && Arg(s[0] % 32, s[1..]) == Some((n, body + rest))
  {
    HeadParse(major, n, body + rest);
    assert Head(major, n) + body + rest == Head(major, n) + (body + rest);
  }
}
