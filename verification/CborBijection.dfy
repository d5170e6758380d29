/** The strict CBOR syntax is a bijection between items and bytes. */
module CborBijection {
  import opened Wrappers
  import opened Radix
  import opened CborSyntax

  predicate StrictAll(items: seq<Item>, depth: nat)
    requires forall i | 0 <= i < |items| :: Encodable(items[i])
  {
    forall i | 0 <= i < |items| :: Strict(items[i], depth)
  }

  predicate EncodablePairs(pairs: seq<Pair>) {
    forall i | 0 <= i < |pairs| :: Encodable(pairs[i].key) && Encodable(pairs[i].val)
  }

  predicate StrictPairs(pairs: seq<Pair>, depth: nat)
    requires EncodablePairs(pairs)
  {
    forall i | 0 <= i < |pairs| :: Strict(pairs[i].key, depth) && Strict(pairs[i].val, depth)
  }

  lemma StrictAllStep(items: seq<Item>, depth: nat)
    requires items != [] && forall i | 0 <= i < |items| :: Encodable(items[i])
    ensures forall i | 0 <= i < |items[1..]| :: Encodable(items[1..][i])
    ensures StrictAll(items, depth) <==> Strict(items[0], depth) && StrictAll(items[1..], depth)
  {
    forall i | 0 <= i < |items[1..]|
      ensures items[1..][i] == items[i + 1]
    {
    }
    if Strict(items[0], depth) && StrictAll(items[1..], depth) {
      forall i | 0 <= i < |items|
        ensures Strict(items[i], depth)
      {
        if i > 0 { assert items[1..][i - 1] == items[i]; }
      }
    }
  }

  lemma StrictPairsStep(pairs: seq<Pair>, depth: nat)
    requires pairs != [] && EncodablePairs(pairs)
    ensures EncodablePairs(pairs[1..])
    ensures StrictPairs(pairs, depth) <==>
            Strict(pairs[0].key, depth) && Strict(pairs[0].val, depth) && StrictPairs(pairs[1..], depth)
  {
    if Strict(pairs[0].key, depth) && Strict(pairs[0].val, depth) && StrictPairs(pairs[1..], depth) {
      forall i | 0 <= i < |pairs|
        ensures Strict(pairs[i].key, depth) && Strict(pairs[i].val, depth)
      {
        if i > 0 { assert pairs[1..][i - 1] == pairs[i]; }
      }
    }
  }

  // ----- reading what was written: exactly the strict items come back -----

  lemma {:induction false} ParseSer(it: Item, rest: seq<byte>, depth: nat)
    requires Encodable(it)
    ensures Parse(Ser(it) + rest, depth) == if Strict(it, depth) then Some((it, rest)) else None
    decreases it, 1
  {
    var s := Ser(it) + rest;
    ReadHead(it, rest);
    if it.Simple? {
      assert s[1..] == if it.n < 24 then rest else [it.n] + rest;
    } else if depth <= MAX_RECURSION_DEPTH {
      ParseBodySer(it, rest, depth);
    }
  }

  lemma {:induction false} ParseBodySer(it: Item, rest: seq<byte>, depth: nat)
    requires Encodable(it) && !it.Simple? && depth <= MAX_RECURSION_DEPTH
    ensures ParseBody(Major(it), Argument(it), Body(it) + rest, depth) ==
            if Strict(it, depth) then Some((it, rest)) else None
    decreases it, 0
  {
    match it
    case UInt(_) => assert [] + rest == rest;
    case NInt(_) => assert [] + rest == rest;
    case Bytes(b) => StringBody(b, rest);
    case Text(b) => StringBody(b, rest);
    case Array(items) =>
      StrictArray(items, depth);
      ParseAllSer(items, rest, depth + 1);
    case Map(pairs) =>
      StrictMap(pairs, depth);
      ParsePairsSer(pairs, rest, depth + 1, None);
    case Tag(_, item) => ParseSer(item, rest, depth + 1);
  }

  lemma StrictArray(items: seq<Item>, depth: nat)
    requires Encodable(Array(items)) && depth <= MAX_RECURSION_DEPTH
    ensures Strict(Array(items), depth) <==> StrictAll(items, depth + 1)
  {
  }

  lemma StrictMap(pairs: seq<Pair>, depth: nat)
    requires Encodable(Map(pairs)) && depth <= MAX_RECURSION_DEPTH
    ensures EncodablePairs(pairs)
    ensures Strict(Map(pairs), depth) <==> Ascending(None, pairs) && StrictPairs(pairs, depth + 1)
  {
  }

  lemma StringBody(b: seq<byte>, rest: seq<byte>)
    ensures (b + rest)[..|b|] == b && (b + rest)[|b|..] == rest
  {
  }

  lemma {:induction false} ParseAllSer(items: seq<Item>, rest: seq<byte>, depth: nat)
    requires forall i | 0 <= i < |items| :: Encodable(items[i])
    ensures ParseAll(|items|, SerAll(items) + rest, depth) ==
            if StrictAll(items, depth) then Some((items, rest)) else None
    decreases items, 2
  {
    if items == [] {
      assert SerAll(items) + rest == rest;
    } else {
      var tail := SerAll(items[1..]) + rest;
      assert SerAll(items) + rest == Ser(items[0]) + tail;
      ParseSer(items[0], tail, depth);
      ParseAllSer(items[1..], rest, depth);
      StrictAllStep(items, depth);
      assert [items[0]] + items[1..] == items;
    }
  }

  lemma {:induction false} ParsePairsSer(pairs: seq<Pair>, rest: seq<byte>, depth: nat, prev: Option<seq<byte>>)
    requires EncodablePairs(pairs)
    ensures ParsePairs(|pairs|, SerPairs(pairs) + rest, depth, prev) ==
            if Ascending(prev, pairs) && StrictPairs(pairs, depth) then Some((pairs, rest)) else None
    decreases pairs, 2
  {
    hide Ser, Parse, Encodable, Strict;
    if pairs == [] {
      assert SerPairs(pairs) + rest == rest;
    } else {
      var tail := SerPairs(pairs[1..]) + rest;
      PairSer(pairs[0], tail, depth);
      assert SerPairs(pairs) + rest == SerPair(pairs[0]) + tail;
      ParsePairsSer(pairs[1..], rest, depth, Some(Ser(pairs[0].key)));
      StrictPairsStep(pairs, depth);
      assert [pairs[0]] + pairs[1..] == pairs;
    }
  }

  /** One entry: the key, its bytes, and the value. */
  lemma {:induction false} PairSer(p: Pair, rest: seq<byte>, depth: nat)
    requires Encodable(p.key) && Encodable(p.val)
    ensures var s := SerPair(p) + rest;
            var k := Parse(s, depth);
            k == (if Strict(p.key, depth) then Some((p.key, Ser(p.val) + rest)) else None) &&
            (k.Some? ==> s[..|s| - |k.value.1|] == Ser(p.key) &&
                         Parse(k.value.1, depth) == if Strict(p.val, depth) then Some((p.val, rest)) else None)
    decreases p, 2
  {
    var s := SerPair(p) + rest;
    assert s == Ser(p.key) + (Ser(p.val) + rest);
    ParseSer(p.key, Ser(p.val) + rest, depth);
    ParseSer(p.val, rest, depth);
  }

  // ----- writing what was read: every accepted byte string is the writing of a strict item -----

  lemma {:induction false} SerParse(s: seq<byte>, depth: nat)
    requires Parse(s, depth).Some?
    ensures var (it, t) := Parse(s, depth).value;
            Encodable(it) && Strict(it, depth) && s == Ser(it) + t
    decreases |s|, 0
  {
    var major, ai := s[0] / 32, s[0] % 32;
    if major == 7 {
      SerParseSimple(s);
    } else {
      HeadInverse(s);
      var (n, t) := Arg(ai, s[1..]).value;
      SerParseBody(major, n, t, depth);
      var (it, u) := ParseBody(major, n, t, depth).value;
      assert s == Head(major, n) + Body(it) + u;
    }
  }

  lemma SerParseSimple(s: seq<byte>)
    requires s != [] && s[0] / 32 == 7 && ParseSimple(s[0] % 32, s[1..]).Some?
    ensures var (it, t) := ParseSimple(s[0] % 32, s[1..]).value;
            it.Simple? && Encodable(it) && s == Ser(it) + t
  {
    assert s == [s[0]] + s[1..];
    if s[0] % 32 == 24 { assert s[1..] == [s[1]] + s[1..][1..]; }
  }

  lemma {:induction false} SerParseBody(major: nat, n: nat, t: seq<byte>, depth: nat)
    requires major < 7 && n < TWO64 && depth <= MAX_RECURSION_DEPTH
    requires ParseBody(major, n, t, depth).Some?
    ensures var (it, u) := ParseBody(major, n, t, depth).value;
            Encodable(it) && Strict(it, depth) && !it.Simple? && Major(it) == major && Argument(it) == n &&
            t == Body(it) + u
    decreases |t|, n + 2
  {
    if major == 4 {
      SerParseAll(n, t, depth + 1);
    } else if major == 5 {
      SerParsePairs(n, t, depth + 1, None);
    } else if major == 6 {
      SerParse(t, depth + 1);
    }
  }

  lemma {:induction false} SerParseAll(n: nat, s: seq<byte>, depth: nat)
    requires ParseAll(n, s, depth).Some?
    ensures var (items, t) := ParseAll(n, s, depth).value;
            |items| == n && (forall i | 0 <= i < |items| :: Encodable(items[i])) &&
            StrictAll(items, depth) && s == SerAll(items) + t
    decreases |s|, n + 1
  {
    if n == 0 {
      assert s == SerAll([]) + s;
    } else {
      var (item, u) := Parse(s, depth).value;
      var (rest, t) := ParseAll(n - 1, u, depth).value;
      assert ParseAll(n, s, depth) == Some(([item] + rest, t));
      SerParse(s, depth);
      SerParseAll(n - 1, u, depth);
      ItemsCons(item, rest, depth);
      Chain(s, Ser(item), u, SerAll(rest), t);
    }
  }

  lemma Chain(s: seq<byte>, a: seq<byte>, u: seq<byte>, b: seq<byte>, t: seq<byte>)
    requires s == a + u && u == b + t
    ensures s == a + b + t
  {
  }

  lemma ItemsCons(item: Item, rest: seq<Item>, depth: nat)
    requires Encodable(item) && (forall i | 0 <= i < |rest| :: Encodable(rest[i]))
    requires Strict(item, depth) && StrictAll(rest, depth)
    ensures var items := [item] + rest;
            (forall i | 0 <= i < |items| :: Encodable(items[i])) && StrictAll(items, depth) &&
            SerAll(items) == Ser(item) + SerAll(rest)
  {
    var items := [item] + rest;
    assert items[1..] == rest;
    forall i | 0 <= i < |items|
      ensures Encodable(items[i])
    {
      if i > 0 { assert items[i] == rest[i - 1]; }
    }
    StrictAllStep(items, depth);
  }

  lemma {:induction false} SerParsePairs(n: nat, s: seq<byte>, depth: nat, prev: Option<seq<byte>>)
    requires ParsePairs(n, s, depth, prev).Some?
    ensures var (pairs, t) := ParsePairs(n, s, depth, prev).value;
            |pairs| == n && EncodablePairs(pairs) && Ascending(prev, pairs) &&
            StrictPairs(pairs, depth) && s == SerPairs(pairs) + t
    decreases |s|, n + 1
  {
    hide Ser, Encodable, Parse, Strict;
    if n == 0 {
      assert s == SerPairs([]) + s;
    } else {
      var (key, u) := Parse(s, depth).value;
      var (val, w) := Parse(u, depth).value;
      SerParse(s, depth);
      SerParse(u, depth);
      assert s[..|s| - |u|] == Ser(key);
      var (rest, t) := ParsePairs(n - 1, w, depth, Some(Ser(key))).value;
      SerParsePairs(n - 1, w, depth, Some(Ser(key)));
      PairsCons(Pair(key, val), rest, depth, prev);
      assert s == Ser(key) + Ser(val) + SerPairs(rest) + t by {
        Chain(s, Ser(key), u, Ser(val), w);
        Chain(s, Ser(key) + Ser(val), w, SerPairs(rest), t);
      }
    }
  }

  lemma PairsCons(p: Pair, rest: seq<Pair>, depth: nat, prev: Option<seq<byte>>)
    requires Encodable(p.key) && Encodable(p.val) && EncodablePairs(rest)
    requires Strict(p.key, depth) && Strict(p.val, depth) && StrictPairs(rest, depth)
    requires (prev.Some? ==> LexLess(prev.value, Ser(p.key))) && Ascending(Some(Ser(p.key)), rest)
    ensures var pairs := [p] + rest;
            EncodablePairs(pairs) && Ascending(prev, pairs) && StrictPairs(pairs, depth) &&
            SerPairs(pairs) == Ser(p.key) + Ser(p.val) + SerPairs(rest)
  {
    var pairs := [p] + rest;
    assert pairs[1..] == rest;
    StrictPairsStep(pairs, depth);
  }

  /** Two items never share their bytes, even where the strict reader would reject them: the same
      bytes followed by anything are the same item followed by the same thing. */
  lemma {:induction false} SerInjective(a: Item, x: seq<byte>, b: Item, y: seq<byte>)
    requires Encodable(a) && Encodable(b) && Ser(a) + x == Ser(b) + y
    ensures a == b && x == y
    decreases a, 1
  {
    ReadHead(a, x);
    ReadHead(b, y);
    if a.Simple? {
      var s := Ser(a) + x;
      assert s[0] == Ser(a)[0] == Ser(b)[0];
      assert a.n >= 24 ==> s[1] == Ser(a)[1] == Ser(b)[1];
      assert x == s[|Ser(a)|..] && y == s[|Ser(b)|..];
    } else {
      BodyInjective(a, x, b, y);
    }
  }

  lemma {:induction false} BodyInjective(a: Item, x: seq<byte>, b: Item, y: seq<byte>)
    requires Encodable(a) && Encodable(b) && !a.Simple? && !b.Simple?
    requires Major(a) == Major(b) && Argument(a) == Argument(b) && Body(a) + x == Body(b) + y
    ensures a == b && x == y
    decreases a, 0
  {
    match a
    case UInt(_) => assert [] + x == x && [] + y == y;
    case NInt(_) => assert [] + x == x && [] + y == y;
    case Bytes(p) => SameLengthPrefix(p, x, b.b, y);
    case Text(p) => SameLengthPrefix(p, x, b.b, y);
    case Array(items) => SerAllInjective(items, x, b.items, y);
    case Map(pairs) => SerPairsInjective(pairs, x, b.pairs, y);
    case Tag(_, item) => SerInjective(item, x, b.item, y);
  }

  lemma SameLengthPrefix(p: seq<byte>, x: seq<byte>, q: seq<byte>, y: seq<byte>)
    requires |p| == |q| && p + x == q + y
    ensures p == q && x == y
  {
    assert p == (p + x)[..|p|] && x == (p + x)[|p|..];
    assert q == (q + y)[..|q|] && y == (q + y)[|q|..];
  }

  lemma {:induction false} SerAllInjective(a: seq<Item>, x: seq<byte>, b: seq<Item>, y: seq<byte>)
    requires (forall i | 0 <= i < |a| :: Encodable(a[i])) && (forall i | 0 <= i < |b| :: Encodable(b[i]))
    requires |a| == |b| && SerAll(a) + x == SerAll(b) + y
    ensures a == b && x == y
    decreases a, 1
  {
    hide Ser, Encodable;
    if a == [] {
      assert SerAll(a) + x == x && SerAll(b) + y == y;
    } else {
      assert SerAll(a) + x == Ser(a[0]) + (SerAll(a[1..]) + x);
      assert SerAll(b) + y == Ser(b[0]) + (SerAll(b[1..]) + y);
      SerInjective(a[0], SerAll(a[1..]) + x, b[0], SerAll(b[1..]) + y);
      SerAllInjective(a[1..], x, b[1..], y);
      assert a == [a[0]] + a[1..] && b == [b[0]] + b[1..];
    }
  }

  lemma {:induction false} SerPairInjective(a: Pair, x: seq<byte>, b: Pair, y: seq<byte>)
    requires Encodable(a.key) && Encodable(a.val) && Encodable(b.key) && Encodable(b.val)
    requires SerPair(a) + x == SerPair(b) + y
    ensures a == b && x == y
    decreases a, 1
  {
    assert SerPair(a) + x == Ser(a.key) + (Ser(a.val) + x);
    assert SerPair(b) + y == Ser(b.key) + (Ser(b.val) + y);
    SerInjective(a.key, Ser(a.val) + x, b.key, Ser(b.val) + y);
    SerInjective(a.val, x, b.val, y);
  }

  lemma {:induction false} SerPairsInjective(a: seq<Pair>, x: seq<byte>, b: seq<Pair>, y: seq<byte>)
    requires EncodablePairs(a) && EncodablePairs(b)
    requires |a| == |b| && SerPairs(a) + x == SerPairs(b) + y
    ensures a == b && x == y
    decreases a, 1
  {
    hide Ser, Encodable;
    if a == [] {
      assert SerPairs(a) + x == x && SerPairs(b) + y == y;
    } else {
      assert SerPairs(a) + x == SerPair(a[0]) + (SerPairs(a[1..]) + x);
      assert SerPairs(b) + y == SerPair(b[0]) + (SerPairs(b[1..]) + y);
      SerPairInjective(a[0], SerPairs(a[1..]) + x, b[0], SerPairs(b[1..]) + y);
      SerPairsInjective(a[1..], x, b[1..], y);
      assert a == [a[0]] + a[1..] && b == [b[0]] + b[1..];
    }
  }
}
