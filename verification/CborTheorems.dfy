/** Round trips of the deterministic codec, in both directions, with the exact conditions. */
module CborTheorems {
  import opened Wrappers
  import opened Radix
  import opened CborSyntax
  import opened CborBijection
  import opened CborValue
  import opened CborOrder

  // ----- element-wise views of the recursive functions -----

  lemma {:induction false} ItemizeAllAt(vs: seq<Datum>, i: nat)
    requires i < |vs| && ItemizeAll(vs).Some?
    ensures Itemize(vs[i]) == Some(ItemizeAll(vs).value[i])
  {
    if i > 0 { ItemizeAllAt(vs[1..], i - 1); }
  }

  lemma {:induction false} ItemizeAllFrom(vs: seq<Datum>, items: seq<Item>)
    requires |vs| == |items| && forall i | 0 <= i < |vs| :: Itemize(vs[i]) == Some(items[i])
    ensures ItemizeAll(vs) == Some(items)
  {
    if vs != [] {
      ItemizeAllFrom(vs[1..], items[1..]);
      assert items == [items[0]] + items[1..];
    }
  }

  lemma {:induction false} ItemizeEntriesAt(d: seq<Entry>, i: nat)
    requires i < |d| && ItemizeEntries(d).Some?
    ensures ItemizeEntry(d[i]) == Some(ItemizeEntries(d).value[i])
  {
    if i > 0 { ItemizeEntriesAt(d[1..], i - 1); }
  }

  lemma {:induction false} ItemizeEntriesFrom(d: seq<Entry>, pairs: seq<Pair>)
    requires |d| == |pairs| && forall i | 0 <= i < |d| :: ItemizeEntry(d[i]) == Some(pairs[i])
    ensures ItemizeEntries(d) == Some(pairs)
  {
    if d != [] {
      ItemizeEntriesFrom(d[1..], pairs[1..]);
      assert pairs == [pairs[0]] + pairs[1..];
    }
  }

  lemma {:induction false} InterpAllFrom(items: seq<Item>)
    requires forall i | 0 <= i < |items| :: Interp(items[i]).Some?
    ensures InterpAll(items).Some?
    ensures forall i | 0 <= i < |items| :: InterpAll(items).value[i] == Interp(items[i]).value
  {
    if items != [] {
      forall i | 0 <= i < |items[1..]| ensures Interp(items[1..][i]).Some? {
        assert items[1..][i] == items[i + 1];
      }
      InterpAllFrom(items[1..]);
      forall i | 0 <= i < |items| ensures InterpAll(items).value[i] == Interp(items[i]).value {
        if i > 0 { assert items[1..][i - 1] == items[i]; }
      }
    }
  }

  lemma {:induction false} InterpAllAt(items: seq<Item>, i: nat)
    requires i < |items| && InterpAll(items).Some?
    ensures Interp(items[i]) == Some(InterpAll(items).value[i])
  {
    if i > 0 { InterpAllAt(items[1..], i - 1); }
  }

  // ----- key equality -----

  lemma {:induction false} KeyEqReflexive(a: Datum)
    ensures KeyEq(a, a)
    decreases a
  {
    if a.VTag? { KeyEqReflexive(a.v); }
  }

  lemma {:induction false} KeyEqSymmetric(a: Datum, b: Datum)
    ensures KeyEq(a, b) <==> KeyEq(b, a)
    decreases a
  {
    if a.VTag? && b.VTag? { KeyEqSymmetric(a.v, b.v); }
  }

  // ----- building a dict from entries whose keys are new -----

  lemma {:induction false} DictSetNew(d: seq<Entry>, k: Datum, v: Datum)
    requires forall i | 0 <= i < |d| :: !KeyEq(d[i].key, k)
    ensures DictSet(d, k, v) == d + [Entry(k, v)]
  {
    if d != [] {
      forall i | 0 <= i < |d[1..]| ensures !KeyEq(d[1..][i].key, k) {
        assert d[1..][i] == d[i + 1];
      }
      DictSetNew(d[1..], k, v);
      assert d == [d[0]] + d[1..];
    }
  }

  /** Every entry has a value, and no key equals one before it. */
  predicate NoClash(pairs: seq<Pair>) {
    (forall i | 0 <= i < |pairs| :: InterpPair(pairs[i]).Some?) &&
    forall i, j | 0 <= i < j < |pairs| :: !KeyEq(InterpPair(pairs[i]).value.key, InterpPair(pairs[j]).value.key)
  }

  function EntriesOf(pairs: seq<Pair>): (d: seq<Entry>)
    requires forall i | 0 <= i < |pairs| :: InterpPair(pairs[i]).Some?
    ensures |d| == |pairs| && forall i | 0 <= i < |pairs| :: d[i] == InterpPair(pairs[i]).value
  {
    seq(|pairs|, i requires 0 <= i < |pairs| => InterpPair(pairs[i]).value)
  }

  lemma {:induction false} InterpNoClash(pairs: seq<Pair>, k: nat)
    requires NoClash(pairs) && k <= |pairs|
    ensures InterpPairs(pairs[k..], EntriesOf(pairs)[..k]) == Some(EntriesOf(pairs))
    decreases |pairs| - k
  {
    var d := EntriesOf(pairs);
    if k == |pairs| {
      assert pairs[k..] == [] && d[..k] == d;
    } else {
      var e := InterpPair(pairs[k]).value;
      forall i | 0 <= i < k ensures !KeyEq(d[..k][i].key, e.key) {
        assert d[i] == InterpPair(pairs[i]).value;
      }
      DictSetNew(d[..k], e.key, e.val);
      assert d[..k] + [Entry(e.key, e.val)] == d[..k + 1];
      assert pairs[k..][1..] == pairs[k + 1..];
      InterpNoClash(pairs, k + 1);
    }
  }

  lemma {:induction false} InterpMapNoClash(pairs: seq<Pair>)
    requires NoClash(pairs)
    ensures Interp(Map(pairs)) == Some(VMap(EntriesOf(pairs)))
  {
    InterpNoClash(pairs, 0);
    assert pairs[0..] == pairs && EntriesOf(pairs)[..0] == [];
  }

  // ----- reading back what a value was written as -----

  lemma {:induction false} BigBack(mag: nat, num: nat)
    requires mag >= TWO64 && num in {2, 3}
    ensures Interp(Tag(num, Bytes(AsBytes(Digits(mag, 256))))) == Some(VInt(if num == 2 then mag else -1 - mag))
  {
    hide Value, Digits;
    ValueOfDigits(mag, 256);
  }

  lemma {:induction false} IntBack(n: int)
    requires IntItem(n).Some?
    ensures Interp(IntItem(n).value) == Some(VInt(n))
  {
    if n >= TWO64 {
      BigBack(n, 2);
    } else if n < -(TWO64 as int) {
      BigBack(-1 - n, 3);
    }
  }

  /** A key comes back as itself. */
  lemma {:induction false} KeyBack(v: Datum)
    requires Hashable(v) && NoRawBignum(v) && Itemize(v).Some?
    ensures Interp(Itemize(v).value) == Some(v)
    decreases v
  {
    match v
    case VInt(n) => IntBack(n);
    case VTag(num, w) => KeyBack(w);
    case _ =>
  }

  lemma {:induction false} KeysDiffer(d: seq<Entry>, pairs: seq<Pair>, i: nat, j: nat)
    requires DistinctKeys(d) && ItemizeEntries(d) == Some(pairs) && i < |d| && j < |d| && i != j
    requires forall k | 0 <= k < |d| :: Hashable(d[k].key) && NoRawBignum(d[k].key)
    ensures pairs[i].key != pairs[j].key
    ensures !KeyEq(d[i].key, d[j].key)
  {
    ItemizeEntriesAt(d, i);
    ItemizeEntriesAt(d, j);
    KeyBack(d[i].key);
    KeyBack(d[j].key);
    KeyEqReflexive(d[i].key);
    KeyEqSymmetric(d[i].key, d[j].key);
  }

  /** Where an entry of the sorted list comes from. */
  lemma {:induction false} SortedOrigin(d: seq<Entry>, pairs: seq<Pair>, x: Pair) returns (i: nat)
    requires ItemizeEntries(d) == Some(pairs) && x in SortPairs(pairs)
    ensures i < |d| && ItemizeEntry(d[i]) == Some(x) && pairs[i] == x
  {
    assert x in pairs;
    i :| 0 <= i < |pairs| && pairs[i] == x;
    ItemizeEntriesAt(d, i);
  }

  /** The sorted entries of a dict: keys come back as themselves and do not clash. */
  lemma {:induction false} SortedNoClash(d: seq<Entry>, pairs: seq<Pair>)
    requires ItemizeEntries(d) == Some(pairs) && DistinctKeys(d)
    requires forall i | 0 <= i < |d| :: Hashable(d[i].key) && NoRawBignum(d[i].key)
    requires forall i | 0 <= i < |d| :: Interp(Itemize(d[i].val).GetOr(Simple(0))).Some?
    ensures NoClash(SortPairs(pairs)) && ShortAscending(SortPairs(pairs))
  {
    hide SortPairs, ItemizeEntries, Ser, Encodable, Hashable, NoRawBignum;
    var sorted := SortPairs(pairs);
    forall i, j | 0 <= i < j < |pairs| ensures pairs[i].key != pairs[j].key {
      KeysDiffer(d, pairs, i, j);
    }
    SortAscending(pairs);
    forall a | 0 <= a < |sorted| ensures InterpPair(sorted[a]).Some? {
      assert sorted[a] in sorted;
      var i := SortedOrigin(d, pairs, sorted[a]);
      KeyBack(d[i].key);
    }
    forall a, b | 0 <= a < b < |sorted|
      ensures !KeyEq(InterpPair(sorted[a]).value.key, InterpPair(sorted[b]).value.key)
    {
      assert sorted[a] in sorted && sorted[b] in sorted;
      var i := SortedOrigin(d, pairs, sorted[a]);
      var j := SortedOrigin(d, pairs, sorted[b]);
      assert KeyLess(sorted[a], sorted[b]);
      ShortAsymmetric(Ser(sorted[a].key), Ser(sorted[b].key));
      KeyBack(d[i].key);
      KeyBack(d[j].key);
      KeysDiffer(d, pairs, i, j);
    }
  }

  /** The value of a dict entry survives being written and read. */
  predicate EntryBack(e: Entry) {
    Hashable(e.key) && NoRawBignum(e.key) && Itemize(e.val).Some? && Interp(Itemize(e.val).value).Some? &&
    Same(e.val, Interp(Itemize(e.val).value).value)
  }

  lemma {:induction false} EntrySurvives(e: Entry, p: Pair)
    requires ItemizeEntry(e) == Some(p) && EntryBack(e)
    ensures InterpPair(p).Some? && e.key == InterpPair(p).value.key && Same(e.val, InterpPair(p).value.val)
  {
    KeyBack(e.key);
  }

  lemma {:induction false} MapSame(d: seq<Entry>, pairs: seq<Pair>)
    requires ItemizeEntries(d) == Some(pairs) && NoClash(SortPairs(pairs)) && DistinctKeys(d)
    requires forall i | 0 <= i < |d| :: EntryBack(d[i])
    ensures Same(VMap(d), VMap(EntriesOf(SortPairs(pairs))))
  {
    var sorted := SortPairs(pairs);
    var w := EntriesOf(sorted);
    MapSameKeys(d, pairs);
    forall i, j | 0 <= i < |d| && 0 <= j < |w| && d[i].key == w[j].key
      ensures Same(d[i].val, w[j].val)
    {
      assert sorted[j] in sorted;
      var k := SortedOrigin(d, pairs, sorted[j]);
      EntrySurvives(d[k], sorted[j]);
      KeyEqReflexive(d[i].key);
      assert i == k;
    }
  }

  lemma {:induction false} MapSameKeys(d: seq<Entry>, pairs: seq<Pair>)
    requires ItemizeEntries(d) == Some(pairs) && NoClash(SortPairs(pairs))
    requires forall i | 0 <= i < |d| :: EntryBack(d[i])
    ensures KeySet(d) == KeySet(EntriesOf(SortPairs(pairs)))
  {
    var sorted := SortPairs(pairs);
    var w := EntriesOf(sorted);
    forall e | e in d
      ensures e.key in KeySet(w)
    {
      var i :| 0 <= i < |d| && d[i] == e;
      ItemizeEntriesAt(d, i);
      assert pairs[i] in sorted;
      var j :| 0 <= j < |sorted| && sorted[j] == pairs[i];
      EntrySurvives(d[i], pairs[i]);
      assert w[j] in w;
    }
    forall e | e in w
      ensures e.key in KeySet(d)
    {
      var j :| 0 <= j < |w| && w[j] == e;
      assert sorted[j] in sorted;
      var i := SortedOrigin(d, pairs, sorted[j]);
      EntrySurvives(d[i], sorted[j]);
    }
  }

  /** What a value is written as reads back as the same value. */
  lemma {:induction false} ItemizeBack(v: Datum)
    requires IsPython(v) && NoRawBignum(v) && Itemize(v).Some?
    ensures var r := Interp(Itemize(v).value);
            r.Some? && Same(v, r.value)
    decreases v
  {
    match v
    case VInt(n) => IntBack(n);
    case VArray(vs) =>
      var items := ItemizeAll(vs).value;
      forall i | 0 <= i < |vs|
        ensures Interp(items[i]).Some? && Same(vs[i], Interp(items[i]).value)
      {
        ItemizeAllAt(vs, i);
        ItemizeBack(vs[i]);
      }
      InterpAllFrom(items);
    case VMap(d) =>
      var pairs := ItemizeEntries(d).value;
      forall i | 0 <= i < |d|
        ensures EntryBack(d[i])
      {
        ItemizeEntriesAt(d, i);
        ItemizeBack(d[i].val);
      }
      SortedNoClash(d, pairs);
      InterpMapNoClash(SortPairs(pairs));
      MapSame(d, pairs);
    case VTag(num, w) => ItemizeBack(w);
    case _ =>
  }

  /** `cbor_loads(cbor_dumps(v))` is `v` exactly when the item written is one the strict reader
      accepts: nesting within the limit, keys of each map ascending bytewise.  Otherwise it fails. */
  lemma {:induction false} LoadsDumps(v: Datum)
    requires IsPython(v) && NoRawBignum(v) && Dumps(v).Some?
    ensures var it := Itemize(v).value;
            var r := Loads(Dumps(v).value);
            if Strict(it, 0) then r.Some? && Same(v, r.value) else r == None
  {
    var it := Itemize(v).value;
    ParseSer(it, [], 0);
    assert Ser(it) + [] == Ser(it);
    ItemizeBack(v);
  }
}
