/** Equal values have equal bytes and different values different bytes; which values survive a round
    trip, told from the value alone. */
module CborDeterminism {
  import opened Wrappers
  import opened Radix
  import opened CborSyntax
  import opened CborBijection
  import opened CborValue
  import opened CborOrder
  import opened CborTheorems

  /** A value a caller may hand to `cbor_dumps` without spelling an integer by hand. */
  predicate Dumpable(v: Datum) {
    IsPython(v) && NoRawBignum(v)
  }

  // ----- sameness is an equivalence -----

  lemma {:induction false} SameSymmetric(v: Datum, w: Datum)
    requires Same(v, w)
    ensures Same(w, v)
    decreases v
  {
    match v
    case VArray(xs) =>
      forall i | 0 <= i < |xs| ensures Same(w.items[i], xs[i]) { SameSymmetric(xs[i], w.items[i]); }
    case VMap(d) =>
      forall i, j | 0 <= i < |w.entries| && 0 <= j < |d| && w.entries[i].key == d[j].key
        ensures Same(w.entries[i].val, d[j].val)
      {
        SameSymmetric(d[j].val, w.entries[i].val);
      }
    case VTag(_, x) => SameSymmetric(x, w.v);
    case _ =>
  }

  lemma KeyInBoth(d: seq<Entry>, e: seq<Entry>, i: nat) returns (j: nat)
    requires KeySet(d) == KeySet(e) && i < |d|
    ensures j < |e| && e[j].key == d[i].key
  {
    assert d[i] in d;
    assert d[i].key in KeySet(e);
    var x :| x in e && x.key == d[i].key;
    j :| 0 <= j < |e| && e[j] == x;
  }

  lemma {:induction false} SameTransitive(u: Datum, v: Datum, w: Datum)
    requires Same(u, v) && Same(v, w)
    ensures Same(u, w)
    decreases u
  {
    match u
    case VArray(xs) =>
      forall i | 0 <= i < |xs| ensures Same(xs[i], w.items[i]) { SameTransitive(xs[i], v.items[i], w.items[i]); }
    case VMap(d) =>
      forall i, j | 0 <= i < |d| && 0 <= j < |w.entries| && d[i].key == w.entries[j].key
        ensures Same(d[i].val, w.entries[j].val)
      {
        var k := KeyInBoth(d, v.entries, i);
        SameTransitive(d[i].val, v.entries[k].val, w.entries[j].val);
      }
    case VTag(_, x) => SameTransitive(x, v.v, w.v);
    case _ =>
  }

  // ----- the same value is written the same way -----

  lemma {:induction false} SameItem(v: Datum, w: Datum)
    requires Dumpable(v) && Dumpable(w) && Same(v, w) && Itemize(v).Some?
    ensures Itemize(w) == Itemize(v)
    decreases v
  {
    match v
    case VArray(xs) =>
      var items := ItemizeAll(xs).value;
      forall i | 0 <= i < |xs| ensures Itemize(w.items[i]) == Some(items[i]) {
        ItemizeAllAt(xs, i);
        SameItem(xs[i], w.items[i]);
      }
      ItemizeAllFrom(w.items, items);
    case VMap(d) =>
      forall i, j | 0 <= i < |d| && 0 <= j < |w.entries| && d[i].key == w.entries[j].key
        ensures ItemizeEntry(w.entries[j]) == ItemizeEntry(d[i])
      {
        ItemizeEntriesAt(d, i);
        SameItem(d[i].val, w.entries[j].val);
      }
      SameEntriesSorted(d, w.entries);
    case VTag(_, x) => SameItem(x, w.v);
    case _ =>
  }

  /** Two dicts with the same keys whose equal-keyed entries are written alike. */
  lemma {:induction false} SameEntriesSorted(d: seq<Entry>, e: seq<Entry>)
    requires ItemizeEntries(d).Some? && |d| == |e| && KeySet(d) == KeySet(e)
    requires DistinctKeys(d) && DistinctKeys(e)
    requires forall k | 0 <= k < |d| :: Hashable(d[k].key) && NoRawBignum(d[k].key)
    requires forall k | 0 <= k < |e| :: Hashable(e[k].key) && NoRawBignum(e[k].key)
    requires forall i, j | 0 <= i < |d| && 0 <= j < |e| && d[i].key == e[j].key :: ItemizeEntry(e[j]) == ItemizeEntry(d[i])
    ensures ItemizeEntries(e).Some?
    ensures SortPairs(ItemizeEntries(e).value) == SortPairs(ItemizeEntries(d).value)
  {
    var ps := ItemizeEntries(d).value;
    var qs := WrittenEntries(e, d, ps);
    ItemizeEntriesFrom(e, qs);
    SortedKeys(d, ps);
    SortedKeys(e, qs);
    forall x ensures x in ps <==> x in qs {
      if x in ps {
        var i :| 0 <= i < |ps| && ps[i] == x;
        var j := KeyInBoth(d, e, i);
        ItemizeEntriesAt(d, i);
        assert qs[j] == x;
      }
      if x in qs {
        var j :| 0 <= j < |qs| && qs[j] == x;
        var i := KeyInBoth(e, d, j);
        ItemizeEntriesAt(d, i);
        assert ps[i] == x;
      }
    }
    forall x ensures x in SortPairs(ps) <==> x in SortPairs(qs) {
      assert x in ps <==> x in qs;
    }
    AscendingUnique(SortPairs(qs), SortPairs(ps));
  }

  lemma {:induction false} WrittenEntries(e: seq<Entry>, d: seq<Entry>, ps: seq<Pair>) returns (qs: seq<Pair>)
    requires ItemizeEntries(d) == Some(ps) && KeySet(d) == KeySet(e)
    requires forall i, j | 0 <= i < |d| && 0 <= j < |e| && d[i].key == e[j].key :: ItemizeEntry(e[j]) == ItemizeEntry(d[i])
    ensures |qs| == |e| && forall j | 0 <= j < |e| :: ItemizeEntry(e[j]) == Some(qs[j])
  {
    forall j | 0 <= j < |e| ensures ItemizeEntry(e[j]).Some? {
      var i := KeyInBoth(e, d, j);
      ItemizeEntriesAt(d, i);
    }
    qs := seq(|e|, j requires 0 <= j < |e| => ItemizeEntry(e[j]).value);
  }

  lemma {:induction false} SortedKeys(d: seq<Entry>, pairs: seq<Pair>)
    requires ItemizeEntries(d) == Some(pairs) && DistinctKeys(d)
    requires forall k | 0 <= k < |d| :: Hashable(d[k].key) && NoRawBignum(d[k].key)
    ensures ShortAscending(SortPairs(pairs))
  {
    forall i, j | 0 <= i < j < |pairs| ensures pairs[i].key != pairs[j].key {
      KeysDiffer(d, pairs, i, j);
    }
    SortAscending(pairs);
  }

  /** Two values have the same bytes exactly when they are the same value. */
  lemma {:induction false} EqualBytes(v: Datum, w: Datum)
    requires Dumpable(v) && Dumpable(w) && Dumps(v).Some?
    ensures Dumps(v) == Dumps(w) <==> Same(v, w)
  {
    hide Same, Itemize, Interp, Ser, IsPython, NoRawBignum, Encodable;
    if Same(v, w) {
      SameItem(v, w);
    }
    if Dumps(v) == Dumps(w) {
      var a, b := Itemize(v).value, Itemize(w).value;
      SerInjective(a, [], b, []);
      ItemizeBack(v);
      ItemizeBack(w);
      SameSymmetric(w, Interp(a).value);
      SameTransitive(v, Interp(a).value, w);
    }
  }

  // ----- which values survive -----

  /** The major type a scalar key is written with; 6 for keys that are not written as one scalar. */
  function Kind(v: Datum): nat {
    match v
    case VInt(n) => if 0 <= n < TWO64 then 0 else if -(TWO64 as int) <= n < 0 then 1 else 6
    case VBytes(_) => 2
    case VText(_) => 3
    case VBool(_) => 7
    case VNull => 7
    case _ => 6
  }

  predicate OneKind(d: seq<Entry>) {
    forall i, j | 0 <= i < j < |d| :: Kind(d[i].key) == Kind(d[j].key) != 6
  }

  /** The keys of every dict inside are scalars of one major type. */
  predicate Uniform(v: Datum) {
    match v
    case VArray(items) => forall i | 0 <= i < |items| :: Uniform(items[i])
    case VMap(d) => OneKind(d) && forall i | 0 <= i < |d| :: Uniform(d[i].key) && Uniform(d[i].val)
    case VTag(_, w) => Uniform(w)
    case _ => true
  }

  /** Nothing inside sits deeper than the reader's limit; a big integer counts as a tag around bytes. */
  predicate Within(v: Datum, depth: nat) {
    depth <= MAX_RECURSION_DEPTH &&
    match v
    case VInt(n) => -(TWO64 as int) <= n < TWO64 || depth < MAX_RECURSION_DEPTH
    case VArray(items) => forall i | 0 <= i < |items| :: Within(items[i], depth + 1)
    case VMap(d) => forall i | 0 <= i < |d| :: Within(d[i].key, depth + 1) && Within(d[i].val, depth + 1)
    case VTag(_, w) => Within(w, depth + 1)
    case _ => true
  }

  lemma {:induction false} WithinShallow(v: Datum, depth: nat)
    requires Itemize(v).Some?
    ensures Within(v, depth) <==> Shallow(Itemize(v).value, depth)
    decreases v
  {
    hide SortPairs, EntryShallow, Encodable;
    match v
    case VArray(xs) =>
      var items := ItemizeAll(xs).value;
      forall i | 0 <= i < |xs| ensures Within(xs[i], depth + 1) <==> Shallow(items[i], depth + 1) {
        ItemizeAllAt(xs, i);
        WithinShallow(xs[i], depth + 1);
      }
    case VMap(d) =>
      forall i | 0 <= i < |d| ensures EntryShallow(d[i], depth + 1) {
        ItemizeEntriesAt(d, i);
        WithinShallowEntry(d[i], depth + 1);
      }
      var pairs := ItemizeEntries(d).value;
      WithinSorted(d, pairs, depth + 1);
      WithinMap(d, depth);
      ShallowMapItem(SortPairs(pairs), depth);
    case VTag(_, w) => WithinShallow(w, depth + 1);
    case _ =>
  }

  predicate EntryShallow(e: Entry, depth: nat) {
    ItemizeEntry(e).Some? &&
    ((Within(e.key, depth) && Within(e.val, depth)) <==> ShallowPair(ItemizeEntry(e).value, depth))
  }

  lemma {:induction false} WithinShallowEntry(e: Entry, depth: nat)
    requires ItemizeEntry(e).Some?
    ensures EntryShallow(e, depth)
    decreases e
  {
    WithinShallow(e.key, depth);
    WithinShallow(e.val, depth);
  }

  lemma {:induction false} WithinSorted(d: seq<Entry>, pairs: seq<Pair>, depth: nat)
    requires ItemizeEntries(d) == Some(pairs)
    requires forall i | 0 <= i < |d| :: EntryShallow(d[i], depth)
    ensures AllWithin(d, depth) <==> AllShallow(SortPairs(pairs), depth)
  {
    WithinEntries(d, pairs, depth);
    ShallowSorted(pairs, depth);
  }

  lemma {:induction false} ShallowSorted(pairs: seq<Pair>, depth: nat)
    requires AllEncodable(pairs)
    ensures AllShallow(pairs, depth) <==> AllShallow(SortPairs(pairs), depth)
  {
    ShallowSubset(pairs, SortPairs(pairs), depth);
    ShallowSubset(SortPairs(pairs), pairs, depth);
  }

  predicate AllWithin(d: seq<Entry>, depth: nat) {
    forall i | 0 <= i < |d| :: Within(d[i].key, depth) && Within(d[i].val, depth)
  }

  lemma WithinMap(d: seq<Entry>, depth: nat)
    ensures Within(VMap(d), depth) <==> depth <= MAX_RECURSION_DEPTH && AllWithin(d, depth + 1)
  {
  }

  lemma {:induction false} WithinEntries(d: seq<Entry>, pairs: seq<Pair>, depth: nat)
    requires ItemizeEntries(d) == Some(pairs)
    requires forall i | 0 <= i < |d| :: EntryShallow(d[i], depth)
    ensures AllWithin(d, depth) <==> AllShallow(pairs, depth)
  {
    forall i | 0 <= i < |d|
      ensures (Within(d[i].key, depth) && Within(d[i].val, depth)) <==> ShallowPair(pairs[i], depth)
    {
      ItemizeEntriesAt(d, i);
      assert EntryShallow(d[i], depth);
    }
  }

  lemma ShallowMapItem(pairs: seq<Pair>, depth: nat)
    ensures Shallow(Map(pairs), depth) <==> depth <= MAX_RECURSION_DEPTH && AllShallow(pairs, depth + 1)
  {
    if AllShallow(pairs, depth + 1) {
      assert forall i | 0 <= i < |pairs| :: ShallowPair(pairs[i], depth + 1);
    }
    if Shallow(Map(pairs), depth) {
      forall i | 0 <= i < |pairs| ensures ShallowPair(pairs[i], depth + 1) {
        assert Shallow(pairs[i].key, depth + 1);
      }
    }
  }

  predicate ShallowPair(p: Pair, depth: nat) {
    Shallow(p.key, depth) && Shallow(p.val, depth)
  }

  predicate AllShallow(pairs: seq<Pair>, depth: nat) {
    forall i | 0 <= i < |pairs| :: ShallowPair(pairs[i], depth)
  }

  lemma ShallowSubset(ps: seq<Pair>, qs: seq<Pair>, depth: nat)
    requires forall x :: x in qs ==> x in ps
    ensures AllShallow(ps, depth) ==> AllShallow(qs, depth)
  {
    if AllShallow(ps, depth) {
      forall i | 0 <= i < |qs| ensures ShallowPair(qs[i], depth) {
        assert qs[i] in qs;
        var j :| 0 <= j < |ps| && ps[j] == qs[i];
      }
    }
  }

  lemma {:induction false} UniformOrdered(v: Datum)
    requires Dumpable(v) && Uniform(v) && Itemize(v).Some?
    ensures Ordered(Itemize(v).value)
    decreases v
  {
    match v
    case VArray(xs) =>
      var items := ItemizeAll(xs).value;
      forall i | 0 <= i < |xs| ensures Ordered(items[i]) {
        ItemizeAllAt(xs, i);
        UniformOrdered(xs[i]);
      }
    case VMap(d) =>
      var pairs := ItemizeEntries(d).value;
      forall i | 0 <= i < |d| ensures Ordered(pairs[i].key) && Ordered(pairs[i].val) {
        ItemizeEntriesAt(d, i);
        UniformOrdered(d[i].key);
        UniformOrdered(d[i].val);
      }
      OneKindAscending(d, pairs);
      var sorted := SortPairs(pairs);
      forall a | 0 <= a < |sorted| ensures Ordered(sorted[a].key) && Ordered(sorted[a].val) {
        assert sorted[a] in sorted;
        var i := SortedOrigin(d, pairs, sorted[a]);
      }
    case VTag(_, w) => UniformOrdered(w);
    case _ =>
  }

  lemma KindMajor(v: Datum)
    requires Itemize(v).Some? && Kind(v) != 6
    ensures Major(Itemize(v).value) == Kind(v)
  {
  }

  lemma {:induction false} OneKindAscending(d: seq<Entry>, pairs: seq<Pair>)
    requires ItemizeEntries(d) == Some(pairs) && DistinctKeys(d) && OneKind(d)
    requires forall k | 0 <= k < |d| :: Hashable(d[k].key) && NoRawBignum(d[k].key)
    ensures Ascending(None, SortPairs(pairs))
  {
    SortedKeys(d, pairs);
    var sorted := SortPairs(pairs);
    forall a, b | 0 <= a < b < |sorted| ensures OneMajor(sorted[a].key, sorted[b].key) {
      assert sorted[a] in sorted && sorted[b] in sorted && KeyLess(sorted[a], sorted[b]);
      ShortAsymmetric(Ser(sorted[a].key), Ser(sorted[b].key));
      var i := SortedOrigin(d, pairs, sorted[a]);
      var j := SortedOrigin(d, pairs, sorted[b]);
      assert i != j;
      assert Kind(d[i].key) == Kind(d[j].key) != 6;
      KindMajor(d[i].key);
      KindMajor(d[j].key);
    }
    OneMajorAscending(sorted, None);
  }

  /** Values nested at most 64 deep whose dicts have keys of one scalar major type come back. */
  lemma {:induction false} UniformRoundTrip(v: Datum)
    requires Dumpable(v) && Uniform(v) && Within(v, 0) && Dumps(v).Some?
    ensures var r := Loads(Dumps(v).value);
            r.Some? && Same(v, r.value)
  {
    UniformOrdered(v);
    WithinShallow(v, 0);
    LoadsDumps(v);
  }

  /** A dict with the keys 1000 and -1. */
  function MixedKeys(): Datum {
    VMap([Entry(VInt(1000), VNull), Entry(VInt(-1), VNull)])
  }

  /** These keys are written in the order of section 4.2.3 of RFC 8949 (shorter first), which the
      reader, checking the order of section 4.2.1, refuses. */
  lemma {:induction false} MixedKeysRefused()
    ensures Dumpable(MixedKeys()) && Dumps(MixedKeys()).Some? && Loads(Dumps(MixedKeys()).value) == None
  {
    MixedKeyItem();
    MixedKeysDumpable();
    LoadsDumps(MixedKeys());
  }

  lemma MixedKeysDumpable()
    ensures Dumpable(MixedKeys())
  {
    var d := MixedKeys().entries;
    assert |d| == 2 && d[0].key == VInt(1000) && d[1].key == VInt(-1) && d[0].val == d[1].val == VNull;
  }

  lemma {:induction false} MixedKeyItem()
    ensures Itemize(MixedKeys()).Some? && !Ordered(Itemize(MixedKeys()).value)
  {
    var small, large := Pair(NInt(0), Simple(22)), Pair(UInt(1000), Simple(22));
    ItemizeEntriesFrom(MixedKeys().entries, [large, small]);
    MixedKeyBytes();
    assert Itemize(MixedKeys()) == Some(Map([small, large]));
  }

  lemma MixedKeyBytes()
    ensures var written := [Pair(NInt(0), Simple(22)), Pair(UInt(1000), Simple(22))];
            SortPairs([written[1], written[0]]) == written && !Ascending(None, written)
  {
    var small, large := Pair(NInt(0), Simple(22)), Pair(UInt(1000), Simple(22));
    assert Ser(NInt(0)) == [0x20];
    assert Ser(UInt(1000)) == [0x19] + BigEndian(1000, 2) && |BigEndian(1000, 2)| == 2;
    SortTwo(large, small);
    assert [small, large][1..] == [large];
    assert !Ascending(Some(Ser(small.key)), [large]);
  }

  lemma SortTwo(p: Pair, q: Pair)
    requires EncodablePair(p) && EncodablePair(q) && ShortLess(Ser(q.key), Ser(p.key))
    ensures SortPairs([p, q]) == [q, p]
  {
    assert [p, q][1..] == [q] && [q][1..] == [];
    assert SortPairs([q]) == [q];
    assert InsertPair(p, [q]) == [q] + InsertPair(p, []);
  }
}
