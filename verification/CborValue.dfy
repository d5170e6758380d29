/** What CBOR items mean: the values that `cbor_dumps` writes and `cbor_loads` returns. */
module CborValue {
  import opened Wrappers
  import opened Radix
  import opened CborSyntax

  /** A value.  Text is held as its UTF-8 bytes; a dict is held in insertion order. */
  datatype Datum =
    | VInt(n: int)
    | VBytes(b: seq<byte>)
    | VText(b: seq<byte>)
    | VBool(on: bool)
    | VNull
    | VUndefined
    | VSimple(s: nat)
    | VArray(items: seq<Datum>)
    | VMap(entries: seq<Entry>)
    | VTag(num: nat, v: Datum)

  datatype Entry = Entry(key: Datum, val: Datum)

  // ----- dicts -----

  /** Lists and dicts cannot be keys, nor can the undefined value, whose class defines equality but
      no hash. */
  predicate Hashable(v: Datum) {
    match v
    case VUndefined => false
    case VArray(_) => false
    case VMap(_) => false
    case VTag(_, w) => Hashable(w)
    case _ => true
  }

  /** Equality of keys: the booleans equal the integers 0 and 1. */
  predicate KeyEq(a: Datum, b: Datum) {
    match (a, b)
    case (VBool(x), VInt(n)) => n == if x then 1 else 0
    case (VInt(n), VBool(x)) => n == if x then 1 else 0
    case (VTag(m, x), VTag(n, y)) => m == n && KeyEq(x, y)
    case _ => a == b
  }

  /** `d[k] = v`: an equal key keeps its place and its spelling. */
  function DictSet(d: seq<Entry>, k: Datum, v: Datum): seq<Entry> {
    if d == [] then [Entry(k, v)]
    else if KeyEq(d[0].key, k) then [Entry(d[0].key, v)] + d[1..]
    else [d[0]] + DictSet(d[1..], k, v)
  }

  predicate DistinctKeys(d: seq<Entry>) {
    forall i, j | 0 <= i < j < |d| :: !KeyEq(d[i].key, d[j].key)
  }

  /** The values a Python program can hold: text has a UTF-8 form, dict keys are hashable and no two
      of them are equal. */
  predicate IsPython(v: Datum) {
    match v
    case VText(b) => ValidUtf8(b)
    case VArray(items) => forall i | 0 <= i < |items| :: IsPython(items[i])
    case VMap(entries) =>
      DistinctKeys(entries) &&
      forall i | 0 <= i < |entries| ::
        IsPython(entries[i].key) && IsPython(entries[i].val) && Hashable(entries[i].key)
    case VTag(_, w) => IsPython(w)
    case _ => true
  }

  /** No hand-made tag 2 or 3 around bytes: those spell an integer. */
  predicate NoRawBignum(v: Datum) {
    match v
    case VArray(items) => forall i | 0 <= i < |items| :: NoRawBignum(items[i])
    case VMap(entries) => forall i | 0 <= i < |entries| :: NoRawBignum(entries[i].key) && NoRawBignum(entries[i].val)
    case VTag(num, w) => NoRawBignum(w) && !(num in {2, 3} && w.VBytes?)
    case _ => true
  }

  function KeySet(d: seq<Entry>): set<Datum> {
    set e | e in d :: e.key
  }

  /** Equality of values that ignores the order of dict entries. */
  predicate Same(v: Datum, w: Datum) {
    match v
    case VArray(xs) => w.VArray? && |xs| == |w.items| && forall i | 0 <= i < |xs| :: Same(xs[i], w.items[i])
    case VMap(d) =>
      w.VMap? && |d| == |w.entries| && KeySet(d) == KeySet(w.entries) &&
      forall i, j | 0 <= i < |d| && 0 <= j < |w.entries| && d[i].key == w.entries[j].key ::
        Same(d[i].val, w.entries[j].val)
    case VTag(num, x) => w.VTag? && num == w.num && Same(x, w.v)
    case _ => v == w
  }

  // ----- reading values off items -----

  function Interp(it: Item): Option<Datum> {
    match it
    case UInt(n) => Some(VInt(n))
    case NInt(n) => Some(VInt(-1 - n))
    case Bytes(b) => Some(VBytes(b))
    case Text(b) => Some(VText(b))
    case Array(items) =>
      (match InterpAll(items)
       case None => None
       case Some(vs) => Some(VArray(vs)))
    case Map(pairs) =>
      (match InterpPairs(pairs, [])
       case None => None
       case Some(d) => Some(VMap(d)))
    case Tag(num, item) =>
      if num in {2, 3} && item.Bytes? then
        if |item.b| > 1 && item.b[0] == 0 then None
        else
          var mag := Value(item.b, 256);
          Some(VInt(if num == 2 then mag else -1 - mag))
      else
        (match Interp(item)
         case None => None
         case Some(v) => Some(VTag(num, v)))
    case Simple(n) =>
      Some(if n == 20 then VBool(false) else if n == 21 then VBool(true)
           else if n == 22 then VNull else if n == 23 then VUndefined else VSimple(n))
  }

  function InterpAll(items: seq<Item>): (r: Option<seq<Datum>>)
    ensures r.Some? ==> |r.value| == |items|
  {
    if items == [] then Some([])
    else
      match Interp(items[0])
      case None => None
      case Some(v) =>
        match InterpAll(items[1..])
        case None => None
        case Some(vs) => Some([v] + vs)
  }

  /** Entries are put into the dict one by one. */
  function InterpPairs(pairs: seq<Pair>, d: seq<Entry>): Option<seq<Entry>>
  {
    if pairs == [] then Some(d)
    else
      match InterpPair(pairs[0])
      case None => None
      case Some(e) => InterpPairs(pairs[1..], DictSet(d, e.key, e.val))
  }

  function InterpPair(p: Pair): (r: Option<Entry>)
    ensures r.Some? ==> Hashable(r.value.key)
  {
    match Interp(p.key)
    case None => None
    case Some(k) =>
      match Interp(p.val)
      case None => None
      case Some(v) => if Hashable(k) then Some(Entry(k, v)) else None
  }

  // ----- writing values as items -----

  function IntItem(n: int): (r: Option<Item>)
    ensures r.Some? ==> Encodable(r.value)
  {
    if 0 <= n < TWO64 then Some(UInt(n))
    else if -(TWO64 as int) <= n < 0 then Some(NInt(-1 - n))
    else
      var content := AsBytes(Digits(if n >= 0 then n else -1 - n, 256));
      if |content| < TWO64 then Some(Tag(if n >= 0 then 2 else 3, Bytes(content))) else None
  }

  /** The order in which map entries are written: by length of the encoded key, then bytewise. */
  predicate ShortLess(a: seq<byte>, b: seq<byte>) {
    |a| < |b| || (|a| == |b| && LexLess(a, b))
  }

  predicate EncodablePair(p: Pair) {
    Encodable(p.key) && Encodable(p.val)
  }

  predicate AllEncodable(pairs: seq<Pair>) {
    forall i | 0 <= i < |pairs| :: EncodablePair(pairs[i])
  }

  /** Put an entry in front of the first one that is not smaller. */
  function InsertPair(p: Pair, pairs: seq<Pair>): (r: seq<Pair>)
    requires EncodablePair(p) && AllEncodable(pairs)
    ensures |r| == |pairs| + 1 && AllEncodable(r)
    ensures forall x :: x in r <==> x == p || x in pairs
    decreases |pairs|
  {
    if pairs == [] then [p]
    else if ShortLess(Ser(pairs[0].key), Ser(p.key)) then [pairs[0]] + InsertPair(p, pairs[1..])
    else [p] + pairs
  }

  /** Stable sort by encoded key. */
  function SortPairs(pairs: seq<Pair>): (r: seq<Pair>)
    requires AllEncodable(pairs)
    ensures |r| == |pairs| && AllEncodable(r)
    ensures forall x :: x in r <==> x in pairs
    decreases |pairs|
  {
    if pairs == [] then [] else InsertPair(pairs[0], SortPairs(pairs[1..]))
  }

  function Itemize(v: Datum): (r: Option<Item>)
    ensures r.Some? ==> Encodable(r.value)
  {
    match v
    case VInt(n) => IntItem(n)
    case VBytes(b) => if |b| < TWO64 then Some(Bytes(b)) else None
    case VText(b) => if |b| < TWO64 && ValidUtf8(b) then Some(Text(b)) else None
    case VBool(on) => Some(Simple(if on then 21 else 20))
    case VNull => Some(Simple(22))
    case VUndefined => None
    case VSimple(_) => None
    case VArray(vs) =>
      (match ItemizeAll(vs)
       case None => None
       case Some(items) => if |items| < TWO64 then Some(Array(items)) else None)
    case VMap(entries) =>
      (match ItemizeEntries(entries)
       case None => None
       case Some(pairs) => if |pairs| < TWO64 then Some(Map(SortPairs(pairs))) else None)
    case VTag(num, w) =>
      (match Itemize(w)
       case None => None
       case Some(item) => if num < TWO64 then Some(Tag(num, item)) else None)
  }

  function ItemizeAll(vs: seq<Datum>): (r: Option<seq<Item>>)
    ensures r.Some? ==> |r.value| == |vs| && forall i | 0 <= i < |vs| :: Encodable(r.value[i])
  {
    if vs == [] then Some([])
    else
      match Itemize(vs[0])
      case None => None
      case Some(item) =>
        match ItemizeAll(vs[1..])
        case None => None
        case Some(items) => Some([item] + items)
  }

  function ItemizeEntry(e: Entry): (r: Option<Pair>)
    ensures r.Some? ==> EncodablePair(r.value)
  {
    match Itemize(e.key)
    case None => None
    case Some(k) =>
      match Itemize(e.val)
      case None => None
      case Some(v) => Some(Pair(k, v))
  }

  function ItemizeEntries(entries: seq<Entry>): (r: Option<seq<Pair>>)
    ensures r.Some? ==> |r.value| == |entries| && AllEncodable(r.value)
  {
    if entries == [] then Some([])
    else
      match ItemizeEntry(entries[0])
      case None => None
      case Some(p) =>
        match ItemizeEntries(entries[1..])
        case None => None
        case Some(pairs) => Some([p] + pairs)
  }

  // ----- the two entry points -----

  function Dumps(v: Datum): Option<seq<byte>> {
    match Itemize(v)
    case None => None
    case Some(it) => Some(Ser(it))
  }

  function Loads(data: seq<byte>): Option<Datum> {
    match Parse(data, 0)
    case None => None
    case Some((it, rest)) => if rest == [] then Interp(it) else None
  }
}
