/** Which accepted bytes are the bytes the encoder would have written for the value they decode to. */
module CborCanonical {
  import opened Wrappers
  import opened Radix
  import opened CborSyntax
  import opened CborBijection
  import opened CborValue
  import opened CborOrder
  import opened CborTheorems
  import opened CborDeterminism

  /** Items the encoder writes: only the three simple values it knows, tags 2 and 3 around bytes only
      for integers that need more than eight bytes, map keys shortest first and different as keys. */
  predicate Canonical(it: Item)
    requires Encodable(it)
  {
    match it
    case Array(items) => forall i | 0 <= i < |items| :: Canonical(items[i])
    case Map(pairs) =>
      ShortAscending(pairs) && NoClash(pairs) &&
      forall i | 0 <= i < |pairs| :: Canonical(pairs[i].key) && Canonical(pairs[i].val)
    case Tag(num, item) => if num in {2, 3} && item.Bytes? then |item.b| > 8 else Canonical(item)
    case Simple(n) => n in {20, 21, 22}
    case _ => true
  }

  // ----- what the reader can return -----

  lemma {:induction false} DictSetDistinct(d: seq<Entry>, k: Datum, v: Datum)
    requires DistinctKeys(d)
    ensures var r := DictSet(d, k, v);
            DistinctKeys(r) && |r| <= |d| + 1 &&
            (|r| == |d| + 1 <==> forall i | 0 <= i < |d| :: !KeyEq(d[i].key, k))
    ensures forall e | e in DictSet(d, k, v) ::
              (e.key == k || exists x :: x in d && x.key == e.key) && (e.val == v || exists x :: x in d && x.val == e.val)
  {
    if forall i | 0 <= i < |d| :: !KeyEq(d[i].key, k) {
      DictSetNew(d, k, v);
    } else {
      var i := DictSetAt(d, k, v);
    }
  }

  lemma {:induction false} DictSetAt(d: seq<Entry>, k: Datum, v: Datum) returns (i: nat)
    requires exists j | 0 <= j < |d| :: KeyEq(d[j].key, k)
    ensures i < |d| && KeyEq(d[i].key, k) && DictSet(d, k, v) == d[i := Entry(d[i].key, v)]
  {
    if KeyEq(d[0].key, k) {
      i := 0;
    } else {
      var j :| 0 <= j < |d| && KeyEq(d[j].key, k);
      assert d[1..][j - 1] == d[j];
      var r := DictSetAt(d[1..], k, v);
      i := r + 1;
    }
  }

  predicate GoodEntry(e: Entry) {
    Dumpable(e.key) && Dumpable(e.val) && Hashable(e.key)
  }

  predicate GoodDict(d: seq<Entry>) {
    DistinctKeys(d) && forall i | 0 <= i < |d| :: GoodEntry(d[i])
  }

  lemma {:induction false} DictSetGood(d: seq<Entry>, e: Entry)
    requires GoodDict(d) && GoodEntry(e)
    ensures GoodDict(DictSet(d, e.key, e.val))
  {
    DictSetDistinct(d, e.key, e.val);
    if forall i | 0 <= i < |d| :: !KeyEq(d[i].key, e.key) {
      DictSetNew(d, e.key, e.val);
    } else {
      var i := DictSetAt(d, e.key, e.val);
    }
  }

  /** Everything the reader returns can be written, apart from the values that have no form. */
  lemma {:induction false} LoadedIsDumpable(it: Item)
    requires Encodable(it) && Interp(it).Some?
    ensures Dumpable(Interp(it).value)
    decreases it
  {
    match it
    case Array(items) =>
      forall i | 0 <= i < |items| ensures Dumpable(InterpAll(items).value[i]) {
        InterpAllAt(items, i);
        LoadedIsDumpable(items[i]);
      }
    case Map(pairs) => LoadedPairs(pairs, []);
    case Tag(_, item) =>
      if Interp(item).Some? { LoadedIsDumpable(item); BytesOnly(item); }
    case _ =>
  }

  /** Only a byte string decodes to bytes. */
  lemma BytesOnly(item: Item)
    requires Interp(item).Some?
    ensures Interp(item).value.VBytes? <==> item.Bytes?
  {
  }

  lemma {:induction false} LoadedPairs(pairs: seq<Pair>, d: seq<Entry>)
    requires AllEncodable(pairs) && GoodDict(d) && InterpPairs(pairs, d).Some?
    ensures GoodDict(InterpPairs(pairs, d).value)
    decreases pairs
  {
    if pairs != [] {
      var p := pairs[0];
      LoadedPair(p);
      var e := InterpPair(p).value;
      DictSetGood(d, e);
      LoadedPairs(pairs[1..], DictSet(d, e.key, e.val));
    }
  }

  lemma {:induction false} LoadedPair(p: Pair)
    requires EncodablePair(p) && InterpPair(p).Some?
    ensures GoodEntry(InterpPair(p).value)
    decreases p
  {
    LoadedIsDumpable(p.key);
    LoadedIsDumpable(p.val);
  }

  /** A map whose dict has as many entries as the map has no clashing keys. */
  lemma {:induction false} FullDictNoClash(pairs: seq<Pair>, d: seq<Entry>)
    requires DistinctKeys(d) && InterpPairs(pairs, d).Some?
    ensures |InterpPairs(pairs, d).value| <= |d| + |pairs|
    ensures |InterpPairs(pairs, d).value| == |d| + |pairs| ==>
              NoClash(pairs) &&
              forall i, j | 0 <= i < |d| && 0 <= j < |pairs| :: !KeyEq(d[i].key, InterpPair(pairs[j]).value.key)
    decreases |pairs|
  {
    if pairs != [] {
      var e := InterpPair(pairs[0]).value;
      var t := pairs[1..];
      DictSetDistinct(d, e.key, e.val);
      FullDictNoClash(t, DictSet(d, e.key, e.val));
      if |InterpPairs(pairs, d).value| == |d| + |pairs| {
        DictSetNew(d, e.key, e.val);
        FirstDiffers(pairs, d, e);
      }
    }
  }

  lemma {:induction false} FirstDiffers(pairs: seq<Pair>, d: seq<Entry>, e: Entry)
    requires pairs != [] && InterpPair(pairs[0]) == Some(e) && NoClash(pairs[1..])
    requires forall i | 0 <= i < |d| :: !KeyEq(d[i].key, e.key)
    requires forall i, j | 0 <= i < |d + [e]| && 0 <= j < |pairs[1..]| ::
               !KeyEq((d + [e])[i].key, InterpPair(pairs[1..][j]).value.key)
    ensures NoClash(pairs)
    ensures forall i, j | 0 <= i < |d| && 0 <= j < |pairs| :: !KeyEq(d[i].key, InterpPair(pairs[j]).value.key)
  {
    var t := pairs[1..];
    assert forall j | 0 < j < |pairs| :: pairs[j] == t[j - 1];
    assert (d + [e])[|d|] == e;
    assert forall i | 0 <= i < |d| :: (d + [e])[i] == d[i];
    forall i, j | 0 <= i < |d| && 0 <= j < |pairs| ensures !KeyEq(d[i].key, InterpPair(pairs[j]).value.key) {
      if j > 0 { assert !KeyEq((d + [e])[i].key, InterpPair(t[j - 1]).value.key); }
    }
    forall i, j | 0 <= i < j < |pairs|
      ensures !KeyEq(InterpPair(pairs[i]).value.key, InterpPair(pairs[j]).value.key)
    {
      if i == 0 { assert !KeyEq((d + [e])[|d|].key, InterpPair(t[j - 1]).value.key); }
    }
  }

  // ----- canonical items are written back as they were -----

  lemma BigValue(b: seq<byte>)
    requires b != [] && (|b| > 1 ==> b[0] != 0)
    ensures AsBytes(Digits(Value(b, 256), 256)) == if b == [0] then [] else b
    ensures Value(b, 256) >= TWO64 <==> |b| > 8
  {
    if b == [0] {
      assert Value([0], 256) == 0;
    } else {
      DigitsOfValue(b, 256);
      DigitsLength(Value(b, 256), 256, 8);
      ByteWidths();
    }
  }

  lemma {:induction false} CanonicalBack(it: Item)
    requires Encodable(it) && Interp(it).Some? && Canonical(it)
    ensures Itemize(Interp(it).value) == Some(it)
    decreases it
  {
    match it
    case Array(items) =>
      forall i | 0 <= i < |items| ensures ItemIsBack(items[i]) {
        if Interp(items[i]).Some? { CanonicalBack(items[i]); }
      }
      ArrayBack(items);
    case Map(pairs) =>
      forall i | 0 <= i < |pairs| ensures EntryIsBack(pairs[i]) {
        CanonicalPairBack(pairs[i]);
      }
      MapBack(pairs);
    case Tag(num, item) =>
      if num in {2, 3} && item.Bytes? {
        BigBackTag(num, item.b);
      } else {
        CanonicalBack(item);
        BytesOnly(item);
      }
    case UInt(_) =>
    case NInt(_) =>
    case Bytes(_) =>
    case Text(_) =>
    case Simple(_) =>
  }

  lemma BigBackTag(num: nat, b: seq<byte>)
    requires num in {2, 3} && 8 < |b| < TWO64 && Interp(Tag(num, Bytes(b))).Some?
    ensures Itemize(Interp(Tag(num, Bytes(b))).value) == Some(Tag(num, Bytes(b)))
  {
    BigValue(b);
  }

  lemma {:induction false} CanonicalPairBack(p: Pair)
    requires EncodablePair(p) && Canonical(p.key) && Canonical(p.val)
    ensures EntryIsBack(p)
    decreases p
  {
    if InterpPair(p).Some? {
      CanonicalBack(p.key);
      CanonicalBack(p.val);
    }
  }

  /** An item is what its value is written as. */
  predicate ItemIsBack(it: Item) {
    Interp(it).Some? ==> Itemize(Interp(it).value) == Some(it)
  }

  lemma {:induction false} ArrayBack(items: seq<Item>)
    requires |items| < TWO64 && InterpAll(items).Some?
    requires forall i | 0 <= i < |items| :: ItemIsBack(items[i])
    ensures Itemize(VArray(InterpAll(items).value)) == Some(Array(items))
  {
    var vs := InterpAll(items).value;
    forall i | 0 <= i < |items| ensures Itemize(vs[i]) == Some(items[i]) {
      InterpAllAt(items, i);
      assert ItemIsBack(items[i]);
    }
    ItemizeAllFrom(vs, items);
  }

  /** An entry is written as what it was read from. */
  predicate EntryIsBack(p: Pair) {
    InterpPair(p).Some? ==> ItemizeEntry(InterpPair(p).value) == Some(p)
  }

  lemma {:induction false} MapBack(pairs: seq<Pair>)
    requires |pairs| < TWO64 && AllEncodable(pairs) && NoClash(pairs) && ShortAscending(pairs)
    requires forall i | 0 <= i < |pairs| :: EntryIsBack(pairs[i])
    ensures Interp(Map(pairs)).Some? && Itemize(Interp(Map(pairs)).value) == Some(Map(pairs))
  {
    InterpMapNoClash(pairs);
    forall i | 0 <= i < |pairs| ensures ItemizeEntry(EntriesOf(pairs)[i]) == Some(pairs[i]) {
      assert EntryIsBack(pairs[i]);
    }
    ItemizeEntriesFrom(EntriesOf(pairs), pairs);
    SortFixpoint(pairs);
  }

  // ----- whatever is written back as it was is canonical -----

  lemma {:induction false} BackCanonical(it: Item)
    requires Encodable(it) && Interp(it).Some? && Itemize(Interp(it).value) == Some(it)
    ensures Canonical(it)
    decreases it
  {
    match it
    case Array(items) =>
      var vs := InterpAll(items).value;
      forall i | 0 <= i < |items| ensures Canonical(items[i]) {
        InterpAllAt(items, i);
        ItemizeAllAt(vs, i);
        BackCanonical(items[i]);
      }
    case Map(pairs) =>
      MapWrittenInPlace(pairs);
      forall i | 0 <= i < |pairs| ensures Canonical(pairs[i].key) && Canonical(pairs[i].val) {
        assert EntryIsBack(pairs[i]);
        BackCanonical(pairs[i].key);
        BackCanonical(pairs[i].val);
      }
    case Tag(num, item) =>
      if num in {2, 3} && item.Bytes? {
        BigTag(num, item.b);
      } else {
        BackCanonical(item);
      }
    case _ =>
  }

  lemma {:induction false} MapWrittenInPlace(pairs: seq<Pair>)
    requires Encodable(Map(pairs)) && Interp(Map(pairs)).Some?
    requires Itemize(Interp(Map(pairs)).value) == Some(Map(pairs))
    ensures NoClash(pairs) && AllEncodable(pairs) && ShortAscending(pairs)
    ensures forall i | 0 <= i < |pairs| :: EntryIsBack(pairs[i])
  {
    FullDictNoClash(pairs, []);
    InterpMapNoClash(pairs);
    LoadedPairs(pairs, []);
    var d := EntriesOf(pairs);
    WrittenInPlace(pairs, d);
    forall i | 0 <= i < |pairs| ensures EntryIsBack(pairs[i]) {
      ItemizeEntriesAt(d, i);
    }
  }

  /** If the sorted entries of a dict are the entries it was read from, sorting moved nothing. */
  lemma {:induction false} WrittenInPlace(pairs: seq<Pair>, d: seq<Entry>)
    requires AllEncodable(pairs) && NoClash(pairs) && d == EntriesOf(pairs) && GoodDict(d)
    requires ItemizeEntries(d).Some? && SortPairs(ItemizeEntries(d).value) == pairs
    ensures ItemizeEntries(d) == Some(pairs) && ShortAscending(pairs)
  {
    var ps := ItemizeEntries(d).value;
    SortedKeys(d, ps);
    forall i | 0 <= i < |pairs| ensures ps[i] == pairs[i] {
      assert pairs[i] in SortPairs(ps);
      var j := SortedOrigin(d, ps, pairs[i]);
      KeyBack(d[j].key);
      KeyEqReflexive(d[j].key);
      assert d[i] == InterpPair(pairs[i]).value;
      assert i == j;
    }
    assert ps == pairs;
  }

  lemma BigTag(num: nat, b: seq<byte>)
    requires num in {2, 3} && Interp(Tag(num, Bytes(b))).Some?
    requires Itemize(Interp(Tag(num, Bytes(b))).value) == Some(Tag(num, Bytes(b)))
    ensures |b| > 8
  {
    if b != [] { BigValue(b); }
  }

  /** Accepted bytes are what the encoder writes for their value exactly when their item is
      canonical. */
  lemma {:induction false} DumpsLoads(b: seq<byte>)
    requires Loads(b).Some?
    ensures Encodable(Parse(b, 0).value.0)
    ensures Dumps(Loads(b).value) == Some(b) <==> Canonical(Parse(b, 0).value.0)
  {
    SerParse(b, 0);
    var it := Parse(b, 0).value.0;
    assert b == Ser(it) + [] == Ser(it);
    if Canonical(it) {
      CanonicalBack(it);
    }
    if Dumps(Loads(b).value) == Some(b) {
      SerInjective(Itemize(Interp(it).value).value, [], it, []);
      BackCanonical(it);
    }
  }

  /** Different bytes can be accepted for the same value: a bignum tag may hold a small integer. */
  lemma {:induction false} TwoSpellings()
    ensures Loads([0x05]) == Some(VInt(5)) && Loads([0xC2, 0x41, 0x05]) == Some(VInt(5))
    ensures Dumps(VInt(5)) == Some([0x05])
  {
    assert Ser(UInt(5)) == [0x05];
    var big := Tag(2, Bytes([5]));
    assert Ser(Bytes([5])) == [0x41, 0x05];
    assert Ser(big) == [0xC2, 0x41, 0x05];
    ParseSer(UInt(5), [], 0);
    ParseSer(big, [], 0);
    assert Ser(UInt(5)) + [] == [0x05] && Ser(big) + [] == [0xC2, 0x41, 0x05];
    assert Value([5], 256) == 5;
  }

  /** Among canonical bytes a value has one spelling only. */
  lemma {:induction false} OneCanonicalSpelling(a: seq<byte>, b: seq<byte>)
    requires Loads(a).Some? && Loads(b).Some? && Same(Loads(a).value, Loads(b).value)
    requires Encodable(Parse(a, 0).value.0) && Canonical(Parse(a, 0).value.0)
    requires Encodable(Parse(b, 0).value.0) && Canonical(Parse(b, 0).value.0)
    ensures a == b
  {
    DumpsLoads(a);
    DumpsLoads(b);
    LoadedIsDumpable(Parse(a, 0).value.0);
    LoadedIsDumpable(Parse(b, 0).value.0);
    EqualBytes(Loads(a).value, Loads(b).value);
  }
}
