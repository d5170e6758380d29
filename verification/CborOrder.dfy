/** The two orders on encoded keys, and the sort. */
module CborOrder {
  import opened Wrappers
  import opened Radix
  import opened CborSyntax
  import opened CborBijection
  import opened CborValue

  // ----- bytewise order -----

  lemma {:induction false} LexIrreflexive(a: seq<byte>)
    ensures !LexLess(a, a)
  {
    if a != [] { LexIrreflexive(a[1..]); }
  }

  lemma {:induction false} LexTransitive(a: seq<byte>, b: seq<byte>, c: seq<byte>)
    requires LexLess(a, b) && LexLess(b, c)
    ensures LexLess(a, c)
  {
    if a != [] && a[0] == b[0] == c[0] { LexTransitive(a[1..], b[1..], c[1..]); }
  }

  lemma {:induction false} LexTotal(a: seq<byte>, b: seq<byte>)
    ensures a == b || LexLess(a, b) || LexLess(b, a)
  {
    if a != [] && b != [] && a[0] == b[0] {
      LexTotal(a[1..], b[1..]);
      assert a == [a[0]] + a[1..] && b == [b[0]] + b[1..];
    }
  }

  lemma ShortTransitive(a: seq<byte>, b: seq<byte>, c: seq<byte>)
    requires ShortLess(a, b) && ShortLess(b, c)
    ensures ShortLess(a, c)
  {
    if |a| == |b| == |c| { LexTransitive(a, b, c); }
  }

  lemma ShortTotal(a: seq<byte>, b: seq<byte>)
    ensures a == b || ShortLess(a, b) || ShortLess(b, a)
  {
    if |a| == |b| { LexTotal(a, b); }
  }

  lemma ShortAsymmetric(a: seq<byte>, b: seq<byte>)
    requires ShortLess(a, b)
    ensures !ShortLess(b, a) && a != b
  {
    LexIrreflexive(a);
    if |a| == |b| && LexLess(b, a) { LexTransitive(a, b, a); }
  }

  lemma {:induction false} LexSharedPrefix(p: seq<byte>, a: seq<byte>, b: seq<byte>)
    ensures LexLess(p + a, p + b) <==> LexLess(a, b)
  {
    if p == [] {
      assert p + a == a && p + b == b;
    } else {
      LexSharedPrefix(p[1..], a, b);
      assert (p + a)[1..] == p[1..] + a && (p + b)[1..] == p[1..] + b;
    }
  }

  /** `bytes` comparison: a proper prefix, or smaller at the first difference. */
  predicate Smaller(a: seq<byte>, b: seq<byte>) {
    exists i | 0 <= i < |b| :: i <= |a| && a[..i] == b[..i] && (i == |a| || a[i] < b[i])
  }

  lemma {:induction false} SmallerIff(a: seq<byte>, b: seq<byte>)
    ensures LexLess(a, b) <==> Smaller(a, b)
  {
    if b == [] {
    } else if a == [] {
      assert a[..0] == b[..0];
    } else {
      SmallerIff(a[1..], b[1..]);
      if a[0] < b[0] {
        assert a[..0] == b[..0];
      }
      if a[0] == b[0] && Smaller(a[1..], b[1..]) {
        var i :| 0 <= i < |b[1..]| && i <= |a[1..]| && a[1..][..i] == b[1..][..i] && (i == |a[1..]| || a[1..][i] < b[1..][i]);
        assert a[..i + 1] == [a[0]] + a[1..][..i] && b[..i + 1] == [b[0]] + b[1..][..i];
      }
      if Smaller(a, b) && !(a[0] < b[0]) {
        var i :| 0 <= i < |b| && i <= |a| && a[..i] == b[..i] && (i == |a| || a[i] < b[i]);
        assert i > 0;
        assert a[..i][0] == a[0] && b[..i][0] == b[0];
        assert a[1..][..i - 1] == a[..i][1..] && b[1..][..i - 1] == b[..i][1..];
      }
    }
  }

  // ----- sorted entries -----

  predicate KeyLess(p: Pair, q: Pair)
    requires EncodablePair(p) && EncodablePair(q)
  {
    ShortLess(Ser(p.key), Ser(q.key))
  }

  /** Keys ascend in the order of writing, so no key stands twice. */
  predicate ShortAscending(pairs: seq<Pair>)
    requires AllEncodable(pairs)
  {
    forall i, j | 0 <= i < j < |pairs| :: KeyLess(pairs[i], pairs[j])
  }

  predicate NoDuplicateKeys(pairs: seq<Pair>) {
    forall i, j | 0 <= i < j < |pairs| :: pairs[i].key != pairs[j].key
  }

  lemma KeyTotal(p: Pair, q: Pair)
    requires EncodablePair(p) && EncodablePair(q) && p.key != q.key
    ensures KeyLess(p, q) || KeyLess(q, p)
  {
    ShortTotal(Ser(p.key), Ser(q.key));
    if Ser(p.key) == Ser(q.key) {
      SerInjective(p.key, [], q.key, []);
    }
  }

  lemma {:induction false} InsertAscending(p: Pair, pairs: seq<Pair>)
    requires EncodablePair(p) && AllEncodable(pairs) && ShortAscending(pairs)
    requires forall x :: x in pairs ==> x.key != p.key
    ensures ShortAscending(InsertPair(p, pairs))
    decreases |pairs|
  {
    if pairs != [] {
      var q, rest := pairs[0], pairs[1..];
      if KeyLess(q, p) {
        InsertAscending(p, rest);
        var r := InsertPair(p, rest);
        forall x | x in r ensures EncodablePair(x) && KeyLess(q, x) {
          if x != p {
            var i :| 0 <= i < |rest| && rest[i] == x;
            assert pairs[i + 1] == x;
          }
        }
        ConsAscending(q, r);
      } else {
        assert q in pairs;
        KeyTotal(p, q);
        forall x | x in pairs ensures EncodablePair(x) && KeyLess(p, x) {
          var i :| 0 <= i < |pairs| && pairs[i] == x;
          if i > 0 {
            ShortTransitive(Ser(p.key), Ser(q.key), Ser(x.key));
          }
        }
        ConsAscending(p, pairs);
      }
    }
  }

  lemma ConsAscending(p: Pair, pairs: seq<Pair>)
    requires EncodablePair(p) && AllEncodable(pairs) && ShortAscending(pairs)
    requires forall x :: x in pairs ==> EncodablePair(x) && KeyLess(p, x)
    ensures AllEncodable([p] + pairs) && ShortAscending([p] + pairs)
  {
    var all := [p] + pairs;
    forall i, j | 0 <= i < j < |all|
      ensures KeyLess(all[i], all[j])
    {
      assert all[j] == pairs[j - 1];
      if i > 0 {
        assert all[i] == pairs[i - 1];
      } else {
        assert pairs[j - 1] in pairs;
      }
    }
  }

  lemma {:induction false} SortAscending(pairs: seq<Pair>)
    requires AllEncodable(pairs) && NoDuplicateKeys(pairs)
    ensures ShortAscending(SortPairs(pairs))
    decreases |pairs|
  {
    if pairs != [] {
      var rest := pairs[1..];
      forall i, j | 0 <= i < j < |rest| ensures rest[i].key != rest[j].key {
        assert rest[i] == pairs[i + 1] && rest[j] == pairs[j + 1];
      }
      SortAscending(rest);
      forall x | x in SortPairs(rest) ensures x.key != pairs[0].key {
        var i :| 0 <= i < |rest| && rest[i] == x;
        assert pairs[i + 1] == x;
      }
      InsertAscending(pairs[0], SortPairs(rest));
    }
  }

  /** Sorting what is sorted changes nothing. */
  lemma {:induction false} SortFixpoint(pairs: seq<Pair>)
    requires AllEncodable(pairs) && ShortAscending(pairs)
    ensures SortPairs(pairs) == pairs
    decreases |pairs|
  {
    if pairs != [] {
      var rest := pairs[1..];
      SortFixpoint(rest);
      if rest != [] {
        assert rest[0] == pairs[1];
        assert KeyLess(pairs[0], pairs[1]);
        ShortAsymmetric(Ser(pairs[0].key), Ser(pairs[1].key));
      }
      assert [pairs[0]] + rest == pairs;
    }
  }

  /** There is one ascending list of given entries. */
  lemma {:induction false} AscendingUnique(a: seq<Pair>, b: seq<Pair>)
    requires AllEncodable(a) && AllEncodable(b) && ShortAscending(a) && ShortAscending(b)
    requires forall x :: x in a <==> x in b
    ensures a == b
    decreases |a|
  {
    Members(a);
    Members(b);
    if a != [] {
      LeastFirst(a, b);
      TailElements(a, b);
      AscendingUnique(a[1..], b[1..]);
      assert a == [a[0]] + a[1..] && b == [b[0]] + b[1..];
    }
  }

  lemma LeastFirst(a: seq<Pair>, b: seq<Pair>)
    requires AllEncodable(a) && AllEncodable(b) && ShortAscending(a) && ShortAscending(b)
    requires a != [] && b != [] && a[0] in b && b[0] in a
    ensures a[0] == b[0]
  {
    var i :| 0 <= i < |b| && b[i] == a[0];
    var j :| 0 <= j < |a| && a[j] == b[0];
    if i > 0 && j > 0 {
      assert KeyLess(b[0], b[i]) && KeyLess(a[0], a[j]);
      ShortAsymmetric(Ser(b[0].key), Ser(b[i].key));
    }
  }

  lemma Members(b: seq<Pair>)
    ensures b == [] || exists x :: x in b
  {
    if b != [] { assert b[0] in b; }
  }

  lemma TailElements(a: seq<Pair>, b: seq<Pair>)
    requires AllEncodable(a) && AllEncodable(b) && ShortAscending(a) && ShortAscending(b)
    requires a != [] && b != [] && a[0] == b[0]
    requires forall x :: x in a <==> x in b
    ensures AllEncodable(a[1..]) && AllEncodable(b[1..]) && ShortAscending(a[1..]) && ShortAscending(b[1..])
    ensures forall x :: x in a[1..] <==> x in b[1..]
  {
    HeadOnce(a);
    HeadOnce(b);
    forall x
      ensures x in a[1..] <==> x in b[1..]
    {
      InTail(a, x);
      InTail(b, x);
    }
  }

  lemma InTail(a: seq<Pair>, x: Pair)
    requires a != [] && a[0] !in a[1..]
    ensures x in a[1..] <==> x in a && x != a[0]
  {
    if x in a && x != a[0] {
      var i :| 0 <= i < |a| && a[i] == x;
      assert a[1..][i - 1] == x;
    }
  }

  lemma HeadOnce(a: seq<Pair>)
    requires AllEncodable(a) && ShortAscending(a) && a != []
    ensures AllEncodable(a[1..]) && ShortAscending(a[1..]) && a[0] !in a[1..]
  {
    var t := a[1..];
    forall i, j | 0 <= i < j < |t| ensures KeyLess(t[i], t[j]) {
      assert t[i] == a[i + 1] && t[j] == a[j + 1];
    }
    if a[0] in t {
      var i :| 0 <= i < |t| && t[i] == a[0];
      assert KeyLess(a[0], a[i + 1]);
      ShortAsymmetric(Ser(a[0].key), Ser(a[i + 1].key));
    }
  }

  // ----- when the two orders agree -----

  /** A smaller argument gives bytewise smaller and no longer initial bytes. */
  lemma HeadMonotone(major: nat, n: nat, m: nat, x: seq<byte>, y: seq<byte>)
    requires major < 7 && n < m < TWO64
    ensures |Head(major, n)| <= |Head(major, m)|
    ensures LexLess(Head(major, n) + x, Head(major, m) + y)
  {
    ByteWidths();
    var a, b := Head(major, n), Head(major, m);
    if a[0] == b[0] {
      SameWidth(a[0], n, m, |a| - 1, x, y);
    }
  }

  lemma SameWidth(initial: byte, n: nat, m: nat, w: nat, x: seq<byte>, y: seq<byte>)
    requires n < m < Pow(256, w)
    ensures LexLess([initial] + BigEndian(n, w) + x, [initial] + BigEndian(m, w) + y)
  {
    FixedMonotone(n, m, w, x, y);
    assert [initial] + BigEndian(n, w) + x == [initial] + (BigEndian(n, w) + x);
    assert [initial] + BigEndian(m, w) + y == [initial] + (BigEndian(m, w) + y);
    LexSharedPrefix([initial], BigEndian(n, w) + x, BigEndian(m, w) + y);
  }

  lemma {:induction false} FixedMonotone(n: nat, m: nat, w: nat, x: seq<byte>, y: seq<byte>)
    requires n < m < Pow(256, w)
    ensures LexLess(BigEndian(n, w) + x, BigEndian(m, w) + y)
    decreases w
  {
    if w > 0 {
      var p, q := n / 256, m / 256;
      assert BigEndian(n, w) + x == BigEndian(p, w - 1) + ([n % 256] + x);
      assert BigEndian(m, w) + y == BigEndian(q, w - 1) + ([m % 256] + y);
      QuotientBound(m, 256, w);
      if p < q {
        FixedMonotone(p, q, w - 1, [n % 256] + x, [m % 256] + y);
      } else {
        LexSharedPrefix(BigEndian(p, w - 1), [n % 256] + x, [m % 256] + y);
      }
    }
  }

  /** Scalars of one major type. */
  predicate OneMajor(a: Item, b: Item) {
    Major(a) == Major(b) && Major(a) in {0, 1, 2, 3, 7}
  }

  lemma OrdersAgree(a: Item, b: Item)
    requires Encodable(a) && Encodable(b) && OneMajor(a, b)
    ensures ShortLess(Ser(a), Ser(b)) ==> LexLess(Ser(a), Ser(b))
  {
    if !a.Simple? {
      var n, m := Argument(a), Argument(b);
      if n < m {
        HeadMonotone(Major(a), n, m, Body(a), Body(b));
      } else if m < n {
        HeadMonotone(Major(a), m, n, Body(b), Body(a));
        if ShortLess(Ser(a), Ser(b)) {
          LexIrreflexive(Ser(a));
          assert |Ser(a)| == |Ser(b)|;
          LexTransitive(Ser(a), Ser(b), Ser(a));
        }
      }
    }
  }

  /** With keys of one scalar major type the order of writing is the order the reader insists on. */
  lemma {:induction false} OneMajorAscending(pairs: seq<Pair>, prev: Option<seq<byte>>)
    requires AllEncodable(pairs) && ShortAscending(pairs)
    requires forall i, j | 0 <= i < j < |pairs| :: OneMajor(pairs[i].key, pairs[j].key)
    requires prev.Some? && pairs != [] ==> LexLess(prev.value, Ser(pairs[0].key))
    ensures Ascending(prev, pairs)
    decreases |pairs|
  {
    if pairs != [] {
      var t := pairs[1..];
      HeadOnce(pairs);
      forall i, j | 0 <= i < j < |t| ensures OneMajor(t[i].key, t[j].key) {
        assert t[i] == pairs[i + 1] && t[j] == pairs[j + 1];
      }
      if t != [] {
        assert t[0] == pairs[1] && KeyLess(pairs[0], pairs[1]);
        OrdersAgree(pairs[0].key, pairs[1].key);
      }
      OneMajorAscending(t, Some(Ser(pairs[0].key)));
    }
  }
}
