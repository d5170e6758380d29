/** What the strict reader makes of bytes, stated on `Loads` alone: heads, simple values, the contents of arrays
    and maps, the order of keys, and the depth. */
module CborReading {
  import opened Wrappers
  import opened Radix
  import opened CborSyntax
  import opened CborBijection
  import opened CborValue
  import opened CborOrder
  import opened CborTheorems
  import opened CborFormat

  // ----- one item -----

  lemma {:induction false} LoadedItem(b: seq<byte>) returns (it: Item)
    requires Loads(b).Some?
    ensures Encodable(it) && Strict(it, 0) && b == Ser(it) && Interp(it) == Loads(b)
  {
    hide Strict, Interp, Ser, Encodable;
    it := Parse(b, 0).value.0;
    SerParse(b, 0);
    assert Ser(it) + [] == Ser(it);
  }

  lemma {:induction false} Loadable(it: Item)
    requires Encodable(it)
    ensures Loads(Ser(it)) == if Strict(it, 0) then Interp(it) else None
  {
    hide Strict, Interp, Ser, Encodable;
    ParseSer(it, [], 0);
    assert Ser(it) + [] == Ser(it);
  }

  /** Whatever is read begins with a head in its shortest form, unless it is of major type 7. */
  lemma ReadHeads(b: seq<byte>) returns (k: nat, n: nat)
    requires Loads(b).Some? && b[0] / 32 < 7
    ensures k <= |b| && IsHead(b[..k], b[0] / 32, n)
  {
    hide Head, IsHead, Interp;
    var it := LoadedItem(b);
    ReadHead(it, []);
    assert b + [] == b;
    n := Argument(it);
    var h := Head(Major(it), n);
    k := |h|;
    HeadIff(h, Major(it), n);
    assert b[..k] == h;
  }

  /** Major type 7: the constants, other simple values in one byte below 24 and in two from 32 on, and nothing else. */
  lemma ReadSimple(ai: nat, rest: seq<byte>)
    requires ai < 32
    ensures Loads([0xE0 + ai] + rest) ==
            if ai < 24 && rest == [] then
              Some(if ai == 20 then VBool(false) else if ai == 21 then VBool(true)
                   else if ai == 22 then VNull else if ai == 23 then VUndefined else VSimple(ai))
            else if ai == 24 && |rest| == 1 && rest[0] >= 32 then Some(VSimple(rest[0]))
            else None
  {
    var b := [0xE0 + ai] + rest;
    assert b[1..] == rest;
  }

  /** Integers and strings. */
  lemma ReadScalars(h: seq<byte>, n: nat, body: seq<byte>)
    requires n < 0x1_0000_0000_0000_0000
    ensures IsHead(h, 0, n) ==> Loads(h) == Some(VInt(n))
    ensures IsHead(h, 1, n) ==> Loads(h) == Some(VInt(-1 - n))
    ensures IsHead(h, 2, n) && |body| == n ==> Loads(h + body) == Some(VBytes(body))
    ensures IsHead(h, 3, n) && |body| == n ==> Loads(h + body) == if ValidUtf8(body) then Some(VText(body)) else None
  {
    hide IsHead, Head, Loads, ValidUtf8;
    HeadIff(h, 0, n);
    HeadIff(h, 1, n);
    HeadIff(h, 2, n);
    HeadIff(h, 3, n);
    assert h + [] == h;
    if h == Head(0, n) { Loadable(UInt(n)); }
    if h == Head(1, n) { Loadable(NInt(n)); }
    if |body| == n {
      if h == Head(2, n) { Loadable(Bytes(body)); }
      if h == Head(3, n) { ReadText(h, body); }
    }
  }

  lemma ReadText(h: seq<byte>, body: seq<byte>)
    requires |body| < TWO64 && h == Head(3, |body|)
    ensures Loads(h + body) == if ValidUtf8(body) then Some(VText(body)) else None
  {
    hide Head, ValidUtf8, Parse, ParseBody, Arg;
    HeadParse(3, |body|, body);
    ParseHead(h + body, |body|, body);
    TextBody(body);
  }

  lemma ParseHead(s: seq<byte>, n: nat, t: seq<byte>)
    requires s != [] && s[0] / 32 < 7 && Arg(s[0] % 32, s[1..]) == Some((n, t))
    ensures Parse(s, 0) == ParseBody(s[0] / 32, n, t, 0)
  {
    hide ParseBody, Arg;
  }

  lemma TextBody(body: seq<byte>)
    ensures ParseBody(3, |body|, body, 0) == if ValidUtf8(body) then Some((Text(body), [])) else None
  {
    hide ValidUtf8;
    assert body[..|body|] == body && body[|body|..] == [];
  }

  // ----- the contents of arrays and maps -----

  function Flat(pieces: seq<seq<byte>>): seq<byte> {
    if pieces == [] then [] else pieces[0] + Flat(pieces[1..])
  }

  lemma {:induction false} ShallowUp(it: Item, depth: nat)
    requires Shallow(it, depth + 1)
    ensures Shallow(it, depth)
    decreases it
  {
    match it
    case Array(items) =>
      forall i | 0 <= i < |items| ensures Shallow(items[i], depth + 1) { ShallowUp(items[i], depth + 1); }
    case Map(pairs) =>
      forall i | 0 <= i < |pairs| ensures Shallow(pairs[i].key, depth + 1) && Shallow(pairs[i].val, depth + 1) {
        ShallowUp(pairs[i].key, depth + 1);
        ShallowUp(pairs[i].val, depth + 1);
      }
    case Tag(_, item) => ShallowUp(item, depth + 1);
    case _ =>
  }

  lemma {:induction false} FlatItems(items: seq<Item>) returns (pieces: seq<seq<byte>>)
    requires forall i | 0 <= i < |items| :: Encodable(items[i])
    ensures |pieces| == |items| && Flat(pieces) == SerAll(items)
    ensures forall i | 0 <= i < |items| :: pieces[i] == Ser(items[i])
  {
    hide Ser, Encodable;
    if items == [] {
      pieces := [];
    } else {
      var rest := FlatItems(items[1..]);
      pieces := [Ser(items[0])] + rest;
      assert pieces[1..] == rest;
    }
  }

  /** An array that is read is the head that counts its items and then items that are read by themselves. */
  lemma ReadArray(b: seq<byte>) returns (h: seq<byte>, pieces: seq<seq<byte>>)
    requires Loads(b).Some? && b[0] / 32 == 4
    ensures b == h + Flat(pieces) && IsHead(h, 4, |pieces|)
    ensures Loads(b).value.VArray? && |Loads(b).value.items| == |pieces|
    ensures forall i | 0 <= i < |pieces| :: Loads(pieces[i]) == Some(Loads(b).value.items[i])
  {
    hide Head, IsHead, Loads, SerAll, Flat, Interp, InterpAll;
    var it := LoadedItem(b);
    MajorOf(it, b);
    var items := it.items;
    h := Head(4, |items|);
    HeadIff(h, 4, |items|);
    ArrayBytes(items);
    pieces := FlatItems(items);
    ArrayValue(items);
    forall i | 0 <= i < |pieces| ensures Loads(pieces[i]) == Some(Loads(b).value.items[i]) {
      ShallowUp(items[i], 0);
      Loadable(items[i]);
      InterpAllAt(items, i);
    }
  }

  lemma MajorOf(it: Item, b: seq<byte>)
    requires Encodable(it) && b == Ser(it)
    ensures b[0] / 32 == Major(it)
  {
    ReadHead(it, []);
    assert b + [] == b;
  }

  lemma ArrayValue(items: seq<Item>)
    ensures Interp(Array(items)).Some? <==> InterpAll(items).Some?
    ensures InterpAll(items).Some? ==> Interp(Array(items)) == Some(VArray(InterpAll(items).value))
  {
  }

  lemma {:induction false} AscendingPairs(pairs: seq<Pair>, prev: Option<seq<byte>>, i: nat, j: nat)
    requires AllEncodable(pairs) && Ascending(prev, pairs) && i < j < |pairs|
    ensures LexLess(Ser(pairs[i].key), Ser(pairs[j].key))
    decreases |pairs|
  {
    hide Ser, LexLess;
    var t := pairs[1..];
    if i > 0 {
      AscendingPairs(t, Some(Ser(pairs[0].key)), i - 1, j - 1);
    } else if j > 1 {
      AscendingPairs(t, Some(Ser(pairs[0].key)), 0, j - 1);
      LexTransitive(Ser(pairs[0].key), Ser(t[0].key), Ser(t[j - 1].key));
    }
  }

  /** Entries put into a dict one after the other: an equal key keeps its place. */
  function Filled(d: seq<Entry>, entries: seq<Entry>): seq<Entry>
    decreases |entries|
  {
    if entries == [] then d else Filled(DictSet(d, entries[0].key, entries[0].val), entries[1..])
  }

  lemma {:induction false} FilledPairs(pairs: seq<Pair>, d: seq<Entry>) returns (entries: seq<Entry>)
    requires InterpPairs(pairs, d).Some?
    ensures |entries| == |pairs| && InterpPairs(pairs, d) == Some(Filled(d, entries))
    ensures forall i | 0 <= i < |pairs| :: InterpPair(pairs[i]) == Some(entries[i])
  {
    hide DictSet, InterpPair;
    if pairs == [] {
      entries := [];
    } else {
      var e := InterpPair(pairs[0]).value;
      var rest := FilledPairs(pairs[1..], DictSet(d, e.key, e.val));
      entries := [e] + rest;
      assert entries[1..] == rest;
    }
  }

  lemma {:induction false} FlatPairs(pairs: seq<Pair>) returns (keys: seq<seq<byte>>, vals: seq<seq<byte>>)
    requires AllEncodable(pairs)
    ensures |keys| == |vals| == |pairs| && FlatTwo(keys, vals) == SerPairs(pairs)
    ensures forall i | 0 <= i < |pairs| :: keys[i] == Ser(pairs[i].key) && vals[i] == Ser(pairs[i].val)
  {
    hide Ser, Encodable;
    if pairs == [] {
      keys, vals := [], [];
    } else {
      var ks, vs := FlatPairs(pairs[1..]);
      keys, vals := [Ser(pairs[0].key)] + ks, [Ser(pairs[0].val)] + vs;
      assert keys[1..] == ks && vals[1..] == vs;
    }
  }

  function FlatTwo(keys: seq<seq<byte>>, vals: seq<seq<byte>>): seq<byte>
    requires |keys| == |vals|
  {
    if keys == [] then [] else keys[0] + vals[0] + FlatTwo(keys[1..], vals[1..])
  }

  /** A map that is read is the head that counts its entries and then keys and values that are read by themselves, the
      keys strictly ascending bytewise and hashable; the entries are put into the dict one by one. */
  lemma ReadMap(b: seq<byte>) returns (h: seq<byte>, keys: seq<seq<byte>>, vals: seq<seq<byte>>, entries: seq<Entry>)
    requires Loads(b).Some? && b[0] / 32 == 5
    ensures |keys| == |vals| == |entries| && b == h + FlatTwo(keys, vals) && IsHead(h, 5, |keys|)
    ensures forall i, j | 0 <= i < j < |keys| :: Smaller(keys[i], keys[j])
    ensures forall i | 0 <= i < |keys| :: Loads(keys[i]) == Some(entries[i].key) && Loads(vals[i]) == Some(entries[i].val)
    ensures forall i | 0 <= i < |keys| :: Hashable(entries[i].key)
    ensures Loads(b) == Some(VMap(Filled([], entries)))
  {
    hide Head, IsHead, Loads, SerPairs, FlatTwo, Interp, InterpPairs, InterpPair, Filled, Smaller, LexLess, Hashable, Ascending;
    var it := LoadedItem(b);
    MajorOf(it, b);
    var pairs := it.pairs;
    h := Head(5, |pairs|);
    HeadIff(h, 5, |pairs|);
    MapBytes(pairs);
    keys, vals := FlatPairs(pairs);
    MapValue(pairs);
    entries := FilledPairs(pairs, []);
    forall i, j | 0 <= i < j < |keys| ensures Smaller(keys[i], keys[j]) {
      AscendingPairs(pairs, None, i, j);
      SmallerIff(keys[i], keys[j]);
    }
    forall i | 0 <= i < |keys|
      ensures Loads(keys[i]) == Some(entries[i].key) && Loads(vals[i]) == Some(entries[i].val) && Hashable(entries[i].key)
    {
      ShallowUp(pairs[i].key, 0);
      ShallowUp(pairs[i].val, 0);
      Loadable(pairs[i].key);
      Loadable(pairs[i].val);
      PairValue(pairs[i]);
    }
  }

  lemma PairValue(p: Pair)
    requires InterpPair(p).Some?
    ensures Interp(p.key) == Some(InterpPair(p).value.key) && Interp(p.val) == Some(InterpPair(p).value.val)
    ensures Hashable(InterpPair(p).value.key)
  {
  }

  lemma MapValue(pairs: seq<Pair>)
    ensures Interp(Map(pairs)).Some? <==> InterpPairs(pairs, []).Some?
    ensures InterpPairs(pairs, []).Some? ==> Interp(Map(pairs)) == Some(VMap(InterpPairs(pairs, []).value))
  {
  }

  /** A tag that is read is its head and an item that is read by itself; around bytes, 2 and 3 make an integer,
      and leading zeros are refused. */
  lemma ReadTag(b: seq<byte>) returns (h: seq<byte>, num: nat, inner: seq<byte>)
    requires Loads(b).Some? && b[0] / 32 == 6
    ensures b == h + inner && IsHead(h, 6, num) && Loads(inner).Some?
    ensures var v := Loads(inner).value;
            if v.VBytes? && num in {2, 3} then
              (|v.b| > 1 ==> v.b[0] != 0) &&
              Loads(b) == Some(VInt(if num == 2 then Value(v.b, 256) else -1 - Value(v.b, 256)))
            else Loads(b) == Some(VTag(num, v))
  {
    hide Head, IsHead, Loads, Value;
    var it := LoadedItem(b);
    MajorOf(it, b);
    num := it.num;
    h, inner := Head(6, num), Ser(it.item);
    HeadIff(h, 6, num);
    ShallowUp(it.item, 0);
    Loadable(it.item);
    OnlyBytes(it.item);
  }

  lemma OnlyBytes(item: Item)
    ensures Interp(item).Some? && Interp(item).value.VBytes? ==> item.Bytes?
  {
  }

  // ----- depth -----

  function Nest(n: nat): Item {
    if n == 0 then Array([]) else Array([Nest(n - 1)])
  }

  /** `n` one-item arrays around an empty one. */
  function Nested(n: nat): seq<byte> {
    if n == 0 then [0x80] else [0x81] + Nested(n - 1)
  }

  lemma {:induction false} NestBytes(n: nat)
    ensures Encodable(Nest(n)) && Ordered(Nest(n)) && Ser(Nest(n)) == Nested(n) && Interp(Nest(n)).Some?
  {
    if n > 0 {
      NestBytes(n - 1);
      var items := [Nest(n - 1)];
      assert items[1..] == [] && SerAll(items) == Ser(items[0]) + [] == Ser(items[0]);
      assert InterpAll(items[1..]) == Some([]);
    }
  }

  lemma {:induction false} NestShallow(n: nat, depth: nat)
    ensures Shallow(Nest(n), depth) <==> depth + n <= 64
    decreases n
  {
    if n > 0 {
      NestShallow(n - 1, depth + 1);
      assert [Nest(n - 1)][0] == Nest(n - 1);
    }
  }

  /** Sixty-four levels are read, one more is refused. */
  lemma DepthLaw(n: nat)
    ensures Loads(Nested(n)).Some? <==> n <= 64
  {
    hide Interp, Ser, Nest;
    NestBytes(n);
    NestShallow(n, 0);
    Loadable(Nest(n));
  }

  /** A truth value and its number are one key: the value is replaced, and the spelling of the key stays. */
  lemma OneKeyTwice(on: bool, v: Datum, w: Datum)
    ensures Filled([], [Entry(VInt(if on then 1 else 0), v), Entry(VBool(on), w)]) == [Entry(VInt(if on then 1 else 0), w)]
    ensures Filled([], [Entry(VBool(on), v), Entry(VInt(if on then 1 else 0), w)]) == [Entry(VBool(on), w)]
  {
    TwoEntries(Entry(VInt(if on then 1 else 0), v), Entry(VBool(on), w));
    TwoEntries(Entry(VBool(on), v), Entry(VInt(if on then 1 else 0), w));
  }

  lemma TwoEntries(x: Entry, y: Entry)
    ensures Filled([], [x, y]) == if KeyEq(x.key, y.key) then [Entry(x.key, y.val)] else [x, y]
  {
    assert [x, y][1..] == [y] && [y][1..] == [];
    assert DictSet([], x.key, x.val) == [x] && [x][1..] == [];
    assert Filled([x], [y]) == Filled(DictSet([x], y.key, y.val), []);
  }
}
