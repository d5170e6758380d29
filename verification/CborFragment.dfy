/** Round trips by the keys alone.  Where all keys are scalars the order of writing and the order of reading
    agree exactly when no key of a smaller major type is longer than one of a larger, which a caller can see
    from the keys, and which accepted bytes are canonical can be read off their items. */
module CborFragment {
  import opened Wrappers
  import opened Radix
  import opened CborSyntax
  import opened CborBijection
  import opened CborValue
  import opened CborOrder
  import opened CborTheorems
  import opened CborDeterminism
  import opened CborCanonical

  // ----- the two orders on scalar keys -----

  predicate Scalar(it: Item) {
    Major(it) in {0, 1, 2, 3, 7}
  }

  predicate Fits(a: Item, b: Item)
    requires Encodable(a) && Encodable(b)
  {
    Major(a) < Major(b) ==> |Ser(a)| <= |Ser(b)|
  }

  /** The major type stands in the first byte. */
  lemma MajorFirst(a: Item, b: Item)
    requires Encodable(a) && Encodable(b)
    ensures Major(a) < Major(b) ==> LexLess(Ser(a), Ser(b))
    ensures LexLess(Ser(a), Ser(b)) ==> Major(a) <= Major(b)
  {
    hide Ser;
    ReadHead(a, []);
    ReadHead(b, []);
    assert Ser(a) + [] == Ser(a) && Ser(b) + [] == Ser(b);
  }

  lemma LexAsymmetric(a: seq<byte>, b: seq<byte>)
    ensures !(LexLess(a, b) && LexLess(b, a))
  {
    if LexLess(a, b) && LexLess(b, a) {
      LexTransitive(a, b, a);
      LexIrreflexive(a);
    }
  }

  lemma OrdersFit(a: Item, b: Item)
    requires Encodable(a) && Encodable(b) && Scalar(a) && Scalar(b)
    ensures LexLess(Ser(a), Ser(b)) ==> (ShortLess(Ser(a), Ser(b)) <==> Fits(a, b)) && Fits(b, a)
    ensures ShortLess(Ser(a), Ser(b)) ==> (LexLess(Ser(a), Ser(b)) <==> Fits(b, a)) && Fits(a, b)
  {
    hide Ser, LexLess;
    MajorFirst(a, b);
    MajorFirst(b, a);
    LexAsymmetric(Ser(a), Ser(b));
    ShortTotal(Ser(a), Ser(b));
    LexIrreflexive(Ser(a));
    if Major(a) == Major(b) {
      OrdersAgree(a, b);
      OrdersAgree(b, a);
    }
  }

  // ----- lists of entries -----

  predicate ScalarKeys(pairs: seq<Pair>) {
    forall i | 0 <= i < |pairs| :: Scalar(pairs[i].key)
  }

  /** No key of a smaller major type is longer than one of a larger. */
  predicate KeysFit(pairs: seq<Pair>)
    requires AllEncodable(pairs)
  {
    forall i, j | 0 <= i < |pairs| && 0 <= j < |pairs| :: Fits(pairs[i].key, pairs[j].key)
  }

  predicate LexAscending(pairs: seq<Pair>)
    requires AllEncodable(pairs)
  {
    forall i, j | 0 <= i < j < |pairs| :: LexLess(Ser(pairs[i].key), Ser(pairs[j].key))
  }

  predicate StartsBehind(prev: Option<seq<byte>>, pairs: seq<Pair>)
    requires AllEncodable(pairs)
  {
    prev.Some? && pairs != [] ==> LexLess(prev.value, Ser(pairs[0].key))
  }

  /** Each key exceeding the one before is the same as every key exceeding all before it. */
  lemma {:induction false} AscendingPairwise(pairs: seq<Pair>, prev: Option<seq<byte>>)
    requires AllEncodable(pairs)
    ensures Ascending(prev, pairs) <==> LexAscending(pairs) && StartsBehind(prev, pairs)
    decreases |pairs|
  {
    hide Ser, LexLess, Encodable;
    if pairs != [] {
      var t, first := pairs[1..], Ser(pairs[0].key);
      AscendingPairwise(t, Some(first));
      if LexAscending(t) && StartsBehind(Some(first), t) {
        forall i, j | 0 <= i < j < |pairs| ensures LexLess(Ser(pairs[i].key), Ser(pairs[j].key)) {
          assert pairs[j] == t[j - 1];
          if i > 0 {
            assert pairs[i] == t[i - 1];
          } else if j > 1 {
            assert LexLess(Ser(t[0].key), Ser(t[j - 1].key));
            LexTransitive(first, Ser(t[0].key), Ser(pairs[j].key));
          }
        }
      }
      if LexAscending(pairs) {
        forall i, j | 0 <= i < j < |t| ensures LexLess(Ser(t[i].key), Ser(t[j].key)) {
          assert t[i] == pairs[i + 1] && t[j] == pairs[j + 1];
        }
        assert t != [] ==> t[0] == pairs[1];
      }
    }
  }

  lemma AscendsBothWays(pairs: seq<Pair>)
    requires AllEncodable(pairs) && ScalarKeys(pairs)
    ensures LexAscending(pairs) ==> (ShortAscending(pairs) <==> KeysFit(pairs))
    ensures ShortAscending(pairs) ==> (LexAscending(pairs) <==> KeysFit(pairs))
  {
    hide Ser, LexLess, ShortLess, Encodable, Scalar, Fits;
    forall i, j | 0 <= i < |pairs| && 0 <= j < |pairs|
      ensures var (a, b) := (pairs[i].key, pairs[j].key);
              (LexLess(Ser(a), Ser(b)) ==> (ShortLess(Ser(a), Ser(b)) <==> Fits(a, b)) && Fits(b, a)) &&
              (ShortLess(Ser(a), Ser(b)) ==> (LexLess(Ser(a), Ser(b)) <==> Fits(b, a)) && Fits(a, b)) && Fits(a, a)
    {
      OrdersFit(pairs[i].key, pairs[j].key);
      FitsItself(pairs[i].key);
    }
  }

  lemma FitsItself(a: Item)
    requires Encodable(a)
    ensures Fits(a, a)
  {
  }

  /** Keys sorted for writing are in the order of reading exactly when they fit, and the other way round. */
  lemma OrdersFitAll(pairs: seq<Pair>)
    requires AllEncodable(pairs) && ScalarKeys(pairs)
    ensures Ascending(None, pairs) ==> (ShortAscending(pairs) <==> KeysFit(pairs))
    ensures ShortAscending(pairs) ==> (Ascending(None, pairs) <==> KeysFit(pairs))
  {
    hide Ser, KeysFit, ShortAscending, LexAscending, Scalar;
    AscendingPairwise(pairs, None);
    AscendsBothWays(pairs);
  }

  // ----- accepted bytes that are written back as they were -----

  /** The two pairs of scalar items whose values are equal as keys. */
  predicate Clash(a: Item, b: Item) {
    (a == UInt(0) && b == Simple(20)) || (a == UInt(1) && b == Simple(21))
  }

  lemma ScalarKeyEq(a: Item, b: Item)
    requires Scalar(a) && Scalar(b) && Interp(a).Some? && Interp(b).Some?
    ensures KeyEq(Interp(a).value, Interp(b).value) <==> a == b || Clash(a, b) || Clash(b, a)
  {
  }

  predicate NoTruthClash(pairs: seq<Pair>) {
    forall i, j | 0 <= i < |pairs| && 0 <= j < |pairs| :: !Clash(pairs[i].key, pairs[j].key)
  }

  predicate ScalarKeyed(it: Item) {
    match it
    case Array(items) => forall i | 0 <= i < |items| :: ScalarKeyed(items[i])
    case Map(pairs) => ScalarKeys(pairs) && forall i | 0 <= i < |pairs| :: ScalarKeyed(pairs[i].key) && ScalarKeyed(pairs[i].val)
    case Tag(_, item) => ScalarKeyed(item)
    case _ => true
  }

  /** Keys fit and none equals another as a truth value, only true, false and null among the simple values,
      and no integer in a longer form than it needs. */
  predicate Plain(it: Item)
    requires Encodable(it)
  {
    match it
    case Array(items) => forall i | 0 <= i < |items| :: Plain(items[i])
    case Map(pairs) =>
      KeysFit(pairs) && NoTruthClash(pairs) &&
      forall i | 0 <= i < |pairs| :: Plain(pairs[i].key) && Plain(pairs[i].val)
    case Tag(num, item) => if num in {2, 3} && item.Bytes? then |item.b| > 8 else Plain(item)
    case Simple(n) => n in {20, 21, 22}
    case _ => true
  }

  lemma {:induction false} InterpPairsEach(pairs: seq<Pair>, d: seq<Entry>, i: nat)
    requires InterpPairs(pairs, d).Some? && i < |pairs|
    ensures InterpPair(pairs[i]).Some? && Interp(pairs[i].key).Some? && Interp(pairs[i].val).Some?
    decreases |pairs|
  {
    if i > 0 {
      var e := InterpPair(pairs[0]).value;
      InterpPairsEach(pairs[1..], DictSet(d, e.key, e.val), i - 1);
    }
  }

  lemma {:induction false} NoClashExactly(pairs: seq<Pair>)
    requires AllEncodable(pairs) && ScalarKeys(pairs) && InterpPairs(pairs, []).Some? && Ascending(None, pairs)
    ensures NoClash(pairs) <==> NoTruthClash(pairs)
  {
    hide Interp, KeyEq, Ser, InterpPairs, Scalar;
    AscendingPairwise(pairs, None);
    forall i | 0 <= i < |pairs| ensures InterpPair(pairs[i]).Some? && Interp(pairs[i].key).Some? {
      InterpPairsEach(pairs, [], i);
    }
    forall i, j | 0 <= i < j < |pairs|
      ensures KeyEq(InterpPair(pairs[i]).value.key, InterpPair(pairs[j]).value.key) <==>
              Clash(pairs[i].key, pairs[j].key) || Clash(pairs[j].key, pairs[i].key)
    {
      LexIrreflexive(Ser(pairs[i].key));
      ScalarKeyEq(pairs[i].key, pairs[j].key);
    }
    assert forall i | 0 <= i < |pairs| :: !Clash(pairs[i].key, pairs[i].key);
  }

  predicate PairPlain(p: Pair)
    requires EncodablePair(p)
  {
    (Canonical(p.key) <==> Plain(p.key)) && (Canonical(p.val) <==> Plain(p.val))
  }

  /** An accepted item with scalar keys is canonical exactly when it is plain. */
  lemma {:induction false} PlainExactly(it: Item)
    requires Encodable(it) && Ordered(it) && Interp(it).Some? && ScalarKeyed(it)
    ensures Canonical(it) <==> Plain(it)
    decreases it
  {
    match it
    case Array(items) =>
      forall i | 0 <= i < |items| ensures Canonical(items[i]) <==> Plain(items[i]) {
        InterpAllAt(items, i);
        PlainExactly(items[i]);
      }
    case Map(pairs) =>
      forall i | 0 <= i < |pairs| ensures PairPlain(pairs[i]) {
        InterpPairsEach(pairs, [], i);
        PlainExactly(pairs[i].key);
        PlainExactly(pairs[i].val);
      }
      PlainMap(pairs);
    case Tag(num, item) =>
      if !(num in {2, 3} && item.Bytes?) { PlainExactly(item); }
    case _ =>
  }

  lemma PlainMap(pairs: seq<Pair>)
    requires Encodable(Map(pairs)) && Ascending(None, pairs) && InterpPairs(pairs, []).Some? && ScalarKeys(pairs)
    requires forall i | 0 <= i < |pairs| :: EncodablePair(pairs[i]) && PairPlain(pairs[i])
    ensures Canonical(Map(pairs)) <==> Plain(Map(pairs))
  {
    hide Ser, Interp, InterpPairs, KeysFit, ShortAscending, NoClash, NoTruthClash, Ascending, ScalarKeys;
    OrdersFitAll(pairs);
    NoClashExactly(pairs);
  }

  /** Among accepted bytes whose maps have scalar keys, exactly the plain ones are written back as they were. */
  lemma {:induction false} PlainDumpsLoads(b: seq<byte>)
    requires Loads(b).Some? && ScalarKeyed(Parse(b, 0).value.0)
    ensures Encodable(Parse(b, 0).value.0)
    ensures Dumps(Loads(b).value) == Some(b) <==> Plain(Parse(b, 0).value.0)
  {
    hide Canonical, Plain, ScalarKeyed, Interp, Parse, Itemize;
    SerParse(b, 0);
    DumpsLoads(b);
    PlainExactly(Parse(b, 0).value.0);
  }

  /** The fragment: keys of each map are scalars of one major type, no tag 2 or 3, and of the simple values
      only true, false and null. */
  predicate Fragment(it: Item) {
    match it
    case Array(items) => forall i | 0 <= i < |items| :: Fragment(items[i])
    case Map(pairs) =>
      (forall i, j | 0 <= i < |pairs| && 0 <= j < |pairs| :: OneMajor(pairs[i].key, pairs[j].key)) &&
      forall i | 0 <= i < |pairs| :: Fragment(pairs[i].key) && Fragment(pairs[i].val)
    case Tag(num, item) => num !in {2, 3} && Fragment(item)
    case Simple(n) => n in {20, 21, 22}
    case _ => true
  }

  lemma {:induction false} FragmentPlain(it: Item)
    requires Encodable(it) && Fragment(it)
    ensures ScalarKeyed(it) && Plain(it)
    decreases it
  {
    match it
    case Array(items) =>
      forall i | 0 <= i < |items| ensures ScalarKeyed(items[i]) && Plain(items[i]) { FragmentPlain(items[i]); }
    case Map(pairs) =>
      forall i | 0 <= i < |pairs|
        ensures Scalar(pairs[i].key) && ScalarKeyed(pairs[i].key) && ScalarKeyed(pairs[i].val) && Plain(pairs[i].key) && Plain(pairs[i].val)
      {
        assert OneMajor(pairs[i].key, pairs[i].key);
        FragmentPlain(pairs[i].key);
        FragmentPlain(pairs[i].val);
      }
      forall i, j | 0 <= i < |pairs| && 0 <= j < |pairs|
        ensures Fits(pairs[i].key, pairs[j].key) && !Clash(pairs[i].key, pairs[j].key)
      {
        assert OneMajor(pairs[i].key, pairs[j].key);
      }
    case Tag(_, item) => FragmentPlain(item);
    case _ =>
  }

  lemma FragmentCanonical(it: Item)
    requires Encodable(it) && Ordered(it) && Interp(it).Some? && Fragment(it)
    ensures Canonical(it)
  {
    FragmentPlain(it);
    PlainExactly(it);
  }

  /** Accepted bytes of the fragment come back from their value. */
  lemma {:induction false} FragmentRoundTrip(b: seq<byte>)
    requires Loads(b).Some? && Fragment(Parse(b, 0).value.0)
    ensures Dumps(Loads(b).value) == Some(b)
  {
    hide Canonical, Fragment, Interp, Parse, Itemize;
    SerParse(b, 0);
    DumpsLoads(b);
    FragmentCanonical(Parse(b, 0).value.0);
  }

  // ----- values that come back, by their keys -----

  function HeadLength(n: nat): nat {
    if n < 24 then 1 else if n < 0x100 then 2 else if n < 0x1_0000 then 3 else if n < 0x1_0000_0000 then 5 else 9
  }

  /** How many bytes a scalar key is written as. */
  function KeyLength(v: Datum): nat {
    match v
    case VInt(n) => HeadLength(if n >= 0 then n else -1 - n)
    case VBytes(b) => HeadLength(|b|) + |b|
    case VText(b) => HeadLength(|b|) + |b|
    case _ => 1
  }

  lemma KeyLengthIs(v: Datum)
    requires Itemize(v).Some? && Kind(v) != 6
    ensures |Ser(Itemize(v).value)| == KeyLength(v) && Scalar(Itemize(v).value) && Major(Itemize(v).value) == Kind(v)
  {
    KindMajor(v);
  }

  predicate ScalarDict(d: seq<Entry>) {
    forall i | 0 <= i < |d| :: Kind(d[i].key) != 6
  }

  predicate LengthsFit(d: seq<Entry>) {
    forall i, j | 0 <= i < |d| && 0 <= j < |d| && Kind(d[i].key) < Kind(d[j].key) :: KeyLength(d[i].key) <= KeyLength(d[j].key)
  }

  /** All dicts inside have scalar keys. */
  predicate ScalarDicts(v: Datum) {
    match v
    case VArray(items) => forall i | 0 <= i < |items| :: ScalarDicts(items[i])
    case VMap(d) => ScalarDict(d) && forall i | 0 <= i < |d| :: ScalarDicts(d[i].key) && ScalarDicts(d[i].val)
    case VTag(_, w) => ScalarDicts(w)
    case _ => true
  }

  /** In all dicts inside, no key of a smaller major type is longer than one of a larger. */
  predicate KeysAgree(v: Datum) {
    match v
    case VArray(items) => forall i | 0 <= i < |items| :: KeysAgree(items[i])
    case VMap(d) => LengthsFit(d) && forall i | 0 <= i < |d| :: KeysAgree(d[i].key) && KeysAgree(d[i].val)
    case VTag(_, w) => KeysAgree(w)
    case _ => true
  }

  lemma {:induction false} SortedFits(d: seq<Entry>, pairs: seq<Pair>)
    requires ItemizeEntries(d) == Some(pairs) && ScalarDict(d)
    ensures ScalarKeys(SortPairs(pairs)) && (KeysFit(SortPairs(pairs)) <==> LengthsFit(d))
  {
    hide Ser, Itemize, Kind, KeyLength, ItemizeEntries, SortPairs, Scalar;
    var sorted := SortPairs(pairs);
    forall a | 0 <= a < |sorted| ensures Scalar(sorted[a].key) {
      assert sorted[a] in sorted;
      var i := SortedOrigin(d, pairs, sorted[a]);
      KeyLengthIs(d[i].key);
    }
    if LengthsFit(d) {
      forall a, b | 0 <= a < |sorted| && 0 <= b < |sorted| ensures Fits(sorted[a].key, sorted[b].key) {
        assert sorted[a] in sorted && sorted[b] in sorted;
        var i := SortedOrigin(d, pairs, sorted[a]);
        var j := SortedOrigin(d, pairs, sorted[b]);
        KeyLengthIs(d[i].key);
        KeyLengthIs(d[j].key);
      }
    }
    if KeysFit(sorted) {
      forall i, j | 0 <= i < |d| && 0 <= j < |d| && Kind(d[i].key) < Kind(d[j].key)
        ensures KeyLength(d[i].key) <= KeyLength(d[j].key)
      {
        ItemizeEntriesAt(d, i);
        ItemizeEntriesAt(d, j);
        assert pairs[i] in sorted && pairs[j] in sorted;
        KeyLengthIs(d[i].key);
        KeyLengthIs(d[j].key);
        var a :| 0 <= a < |sorted| && sorted[a] == pairs[i];
        var b :| 0 <= b < |sorted| && sorted[b] == pairs[j];
        assert Fits(sorted[a].key, sorted[b].key);
      }
    }
  }

  predicate EntryAgrees(e: Entry) {
    ItemizeEntry(e).Some? &&
    (Ordered(ItemizeEntry(e).value.key) <==> KeysAgree(e.key)) && (Ordered(ItemizeEntry(e).value.val) <==> KeysAgree(e.val))
  }

  lemma {:induction false} AgreeOrdered(v: Datum)
    requires Dumpable(v) && ScalarDicts(v) && Itemize(v).Some?
    ensures Ordered(Itemize(v).value) <==> KeysAgree(v)
    decreases v
  {
    match v
    case VArray(xs) =>
      var items := ItemizeAll(xs).value;
      forall i | 0 <= i < |xs| ensures Ordered(items[i]) <==> KeysAgree(xs[i]) {
        ItemizeAllAt(xs, i);
        AgreeOrdered(xs[i]);
      }
    case VMap(d) =>
      forall i | 0 <= i < |d| ensures EntryAgrees(d[i]) {
        ItemizeEntriesAt(d, i);
        AgreeOrdered(d[i].key);
        AgreeOrdered(d[i].val);
      }
      AgreeMap(d, ItemizeEntries(d).value);
    case VTag(_, w) => AgreeOrdered(w);
    case _ =>
  }

  lemma {:induction false} AgreeMap(d: seq<Entry>, pairs: seq<Pair>)
    requires ItemizeEntries(d) == Some(pairs) && ScalarDict(d) && DistinctKeys(d)
    requires forall k | 0 <= k < |d| :: Hashable(d[k].key) && NoRawBignum(d[k].key) && EntryAgrees(d[k])
    ensures Encodable(Map(SortPairs(pairs))) ==> (Ordered(Map(SortPairs(pairs))) <==> KeysAgree(VMap(d)))
  {
    hide Ser, Itemize, ItemizeEntries, SortPairs, Ascending, KeysFit, LengthsFit, ScalarKeys, ShortAscending;
    var sorted := SortPairs(pairs);
    SortedKeys(d, pairs);
    SortedFits(d, pairs);
    OrdersFitAll(sorted);
    forall a | 0 <= a < |sorted| ensures exists i :: 0 <= i < |d| && ItemizeEntry(d[i]) == Some(sorted[a]) {
      assert sorted[a] in sorted;
      var i := SortedOrigin(d, pairs, sorted[a]);
    }
    forall i | 0 <= i < |d| ensures exists a :: 0 <= a < |sorted| && ItemizeEntry(d[i]) == Some(sorted[a]) {
      ItemizeEntriesAt(d, i);
      assert pairs[i] in sorted;
    }
  }

  /** A value whose dicts have scalar keys comes back from its bytes exactly when it is nested no deeper than
      64 and in no dict a key of a smaller major type is longer than one of a larger. */
  lemma {:induction false} ExactRoundTrip(v: Datum)
    requires Dumpable(v) && ScalarDicts(v) && Dumps(v).Some?
    ensures var r := Loads(Dumps(v).value);
            if Within(v, 0) && KeysAgree(v) then r.Some? && Same(v, r.value) else r == None
  {
    hide Itemize, Ser, Ordered, Shallow, Within, KeysAgree, Parse, Interp, ScalarDicts;
    AgreeOrdered(v);
    WithinShallow(v, 0);
    LoadsDumps(v);
  }
}
