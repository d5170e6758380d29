/** The format itself, sections 3 and 3.1 of RFC 8949: which bytes each kind of value is written as and read
    from, stated on `Dumps` and `Loads` and the bits of the initial byte. */
module CborFormat {
  import opened Wrappers
  import opened Radix
  import opened CborSyntax
  import opened CborBijection
  import opened CborValue
  import opened CborOrder
  import opened CborTheorems
  import opened CborDeterminism
  import opened CborCanonical

  // ----- heads -----

  /** Two and four bytes, the most significant first. */
  function Word(a: nat, b: nat): nat {
    a * 0x100 + b
  }

  function Quad(a: nat, b: nat, c: nat, d: nat): nat {
    Word(a, b) * 0x1_0000 + Word(c, d)
  }

  /** The initial bytes of an item: the major type in the three high bits, and the argument in the five low bits
      or in as few of the 1, 2, 4 or 8 bytes behind them as hold it. */
  predicate IsHead(h: seq<byte>, major: nat, n: nat) {
    h != [] && h[0] / 32 == major &&
    if n < 24 then |h| == 1 && h[0] % 32 == n
    else if n < 0x100 then |h| == 2 && h[0] % 32 == 24 && h[1] == n
    else if n < 0x1_0000 then |h| == 3 && h[0] % 32 == 25 && Word(h[1], h[2]) == n
    else if n < 0x1_0000_0000 then |h| == 5 && h[0] % 32 == 26 && Quad(h[1], h[2], h[3], h[4]) == n
    else |h| == 9 && h[0] % 32 == 27 &&
         Quad(h[1], h[2], h[3], h[4]) * 0x1_0000_0000 + Quad(h[5], h[6], h[7], h[8]) == n
  }

  lemma LastByte(b: seq<byte>)
    requires b != []
    ensures Value(b, 256) == Value(b[..|b| - 1], 256) * 256 + b[|b| - 1]
  {
  }

  lemma OneByte(b: seq<byte>)
    requires |b| == 1
    ensures Value(b, 256) == b[0]
  {
    assert b[..0] == [];
  }

  lemma TwoBytes(b: seq<byte>)
    requires |b| == 2
    ensures Value(b, 256) == Word(b[0], b[1])
  {
    LastByte(b);
    OneByte(b[..1]);
  }

  lemma FourBytes(b: seq<byte>)
    requires |b| == 4
    ensures Value(b, 256) == Quad(b[0], b[1], b[2], b[3])
  {
    hide Value;
    TwoBytes(b[..2]);
    LastByte(b);
    LastByte(b[..3]);
    assert b[..3][..2] == b[..2];
  }

  lemma EightBytes(b: seq<byte>)
    requires |b| == 8
    ensures Value(b, 256) == Quad(b[0], b[1], b[2], b[3]) * 0x1_0000_0000 + Quad(b[4], b[5], b[6], b[7])
  {
    hide Value;
    FourBytes(b[..4]);
    LastByte(b);
    LastByte(b[..7]);
    LastByte(b[..6]);
    LastByte(b[..5]);
    assert b[..5][..4] == b[..4] && b[..6][..5] == b[..5] && b[..7][..6] == b[..6];
  }

  /** The head written is the one the bits say, and the only one. */
  lemma HeadIff(h: seq<byte>, major: nat, n: nat)
    requires major < 8 && n < TWO64
    ensures IsHead(h, major, n) <==> h == Head(major, n)
  {
    hide Value, BigEndian;
    ByteWidths();
    if n < 24 {
    } else if n < 0x100 {
      WideIff(h, major * 32 + 24, n, 1);
      if |h| == 2 { OneByte(h[1..]); }
    } else if n < 0x1_0000 {
      WideIff(h, major * 32 + 25, n, 2);
      if |h| == 3 { TwoBytes(h[1..]); }
    } else if n < 0x1_0000_0000 {
      WideIff(h, major * 32 + 26, n, 4);
      if |h| == 5 { FourBytes(h[1..]); }
    } else {
      WideIff(h, major * 32 + 27, n, 8);
      if |h| == 9 { EightBytes(h[1..]); }
    }
  }

  lemma WideIff(h: seq<byte>, initial: byte, n: nat, width: nat)
    requires n < Pow(256, width)
    ensures h == [initial] + BigEndian(n, width) <==> |h| == width + 1 && h[0] == initial && Value(h[1..], 256) == n
  {
    hide Value;
    ValueOfFixed(n, 256, width);
    if |h| == width + 1 && h[0] == initial {
      FixedOfValue(h[1..], 256);
      assert h == [h[0]] + h[1..];
    }
  }

  // ----- scalars -----

  /** Integers below 2^64 are major type 0, those from -2^64 on major type 1. */
  lemma IntFormat(n: int)
    ensures 0 <= n < 0x1_0000_0000_0000_0000 ==> Dumps(VInt(n)).Some? && IsHead(Dumps(VInt(n)).value, 0, n)
    ensures -0x1_0000_0000_0000_0000 <= n < 0 ==> Dumps(VInt(n)).Some? && IsHead(Dumps(VInt(n)).value, 1, -1 - n)
  {
    hide Head, IsHead;
    if 0 <= n < TWO64 {
      HeadIff(Head(0, n), 0, n);
      assert Ser(UInt(n)) == Head(0, n) + [] == Head(0, n);
    } else if -(TWO64 as int) <= n < 0 {
      var m: nat := -1 - n;
      HeadIff(Head(1, m), 1, m);
      assert Ser(NInt(m)) == Head(1, m) + [] == Head(1, m);
    }
  }

  /** Other integers are tag 2 or 3 around the bytes of their magnitude, the first of which is not zero, as long as the number
      of bytes has a head. */
  lemma BignumFormat(n: int) returns (h: seq<byte>, content: seq<byte>)
    requires n >= 0x1_0000_0000_0000_0000 || n < -0x1_0000_0000_0000_0000
    ensures Dumps(VInt(n)).Some? <==> |content| < 0x1_0000_0000_0000_0000
    ensures Dumps(VInt(n)).Some? ==> Dumps(VInt(n)).value == [if n >= 0 then 0xC2 else 0xC3] + h + content
    ensures Dumps(VInt(n)).Some? ==> IsHead(h, 2, |content|)
    ensures content != [] && content[0] != 0 && Value(content, 256) == if n >= 0 then n else -1 - n
  {
    hide Value, Digits, IsHead;
    var mag: nat := if n >= 0 then n else -1 - n;
    ValueOfDigits(mag, 256);
    content := AsBytes(Digits(mag, 256));
    h := [];
    var tag := if n >= 0 then 2 else 3;
    if |content| < TWO64 {
      h := Head(2, |content|);
      HeadIff(h, 2, |content|);
      assert Head(6, tag) == [if n >= 0 then 0xC2 else 0xC3];
      assert Ser(Bytes(content)) == h + content;
      assert Itemize(VInt(n)) == Some(Tag(tag, Bytes(content)));
      assert Ser(Tag(tag, Bytes(content))) == Head(6, tag) + (h + content) == Head(6, tag) + h + content;
    }
  }

  /** Byte strings are major type 2, text is major type 3, each behind its length in bytes. */
  lemma StringFormat(b: seq<byte>)
    ensures Dumps(VBytes(b)).Some? <==> |b| < 0x1_0000_0000_0000_0000
    ensures Dumps(VText(b)).Some? <==> |b| < 0x1_0000_0000_0000_0000 && ValidUtf8(b)
    ensures Dumps(VBytes(b)).Some? ==> exists h :: IsHead(h, 2, |b|) && Dumps(VBytes(b)).value == h + b
    ensures Dumps(VText(b)).Some? ==> exists h :: IsHead(h, 3, |b|) && Dumps(VText(b)).value == h + b
  {
    hide Head, IsHead;
    if |b| < TWO64 {
      HeadIff(Head(2, |b|), 2, |b|);
      HeadIff(Head(3, |b|), 3, |b|);
      assert Ser(Bytes(b)) == Head(2, |b|) + b;
      if ValidUtf8(b) { assert Ser(Text(b)) == Head(3, |b|) + b; }
    }
  }

  /** The constants; undefined and other simple values cannot be written. */
  lemma ConstantFormat(n: nat)
    ensures Dumps(VBool(false)) == Some([0xF4]) && Dumps(VBool(true)) == Some([0xF5]) && Dumps(VNull) == Some([0xF6])
    ensures Dumps(VUndefined) == None && Dumps(VSimple(n)) == None
  {
  }

  lemma TagFormat(num: nat, v: Datum)
    ensures Dumps(VTag(num, v)).Some? <==> num < 0x1_0000_0000_0000_0000 && Dumps(v).Some?
    ensures Dumps(VTag(num, v)).Some? ==> exists h :: IsHead(h, 6, num) && Dumps(VTag(num, v)).value == h + Dumps(v).value
  {
    hide Head, IsHead;
    if num < TWO64 && Dumps(v).Some? {
      HeadIff(Head(6, num), 6, num);
      assert Ser(Tag(num, Itemize(v).value)) == Head(6, num) + Ser(Itemize(v).value);
    }
  }

  // ----- arrays -----

  /** The bytes of values one after the other; None if one of them cannot be written. */
  function Joined(vs: seq<Datum>): Option<seq<byte>> {
    if vs == [] then Some([])
    else
      match (Dumps(vs[0]), Joined(vs[1..]))
      case (Some(a), Some(b)) => Some(a + b)
      case _ => None
  }

  lemma {:induction false} JoinedItems(vs: seq<Datum>)
    ensures Joined(vs).Some? <==> ItemizeAll(vs).Some?
    ensures Joined(vs).Some? ==> Joined(vs).value == SerAll(ItemizeAll(vs).value)
  {
    if vs != [] {
      JoinedItems(vs[1..]);
      if ItemizeAll(vs).Some? {
        assert ItemizeAll(vs).value == [Itemize(vs[0]).value] + ItemizeAll(vs[1..]).value;
      }
    }
  }

  /** A list is major type 4, the number of its items, and the bytes of one after the other. */
  lemma ArrayFormat(vs: seq<Datum>)
    ensures Dumps(VArray(vs)).Some? <==> |vs| < 0x1_0000_0000_0000_0000 && Joined(vs).Some?
    ensures Dumps(VArray(vs)).Some? ==> exists h :: IsHead(h, 4, |vs|) && Dumps(VArray(vs)).value == h + Joined(vs).value
  {
    hide Head, IsHead, Joined, SerAll;
    JoinedItems(vs);
    if |vs| < TWO64 && Joined(vs).Some? {
      HeadIff(Head(4, |vs|), 4, |vs|);
      ArrayBytes(ItemizeAll(vs).value);
    }
  }

  lemma ArrayBytes(items: seq<Item>)
    requires |items| < TWO64 && forall i | 0 <= i < |items| :: Encodable(items[i])
    ensures Ser(Array(items)) == Head(4, |items|) + SerAll(items)
  {
  }

  // ----- dicts -----

  /** Shorter first; of one length, the one with the smaller byte where they first differ. */
  predicate Before(a: seq<byte>, b: seq<byte>) {
    |a| < |b| || (|a| == |b| && exists i | 0 <= i < |a| :: a[..i] == b[..i] && a[i] < b[i])
  }

  lemma {:induction false} FirstDifference(a: seq<byte>, b: seq<byte>) returns (i: nat)
    requires |a| == |b| && LexLess(a, b)
    ensures i < |a| && a[..i] == b[..i] && a[i] < b[i]
  {
    if a[0] < b[0] {
      i := 0;
    } else {
      var k := FirstDifference(a[1..], b[1..]);
      i := k + 1;
      assert a[..i] == [a[0]] + a[1..][..k] && b[..i] == [b[0]] + b[1..][..k];
    }
  }

  /** The bytes of a dict's keys and values one after the other. */
  function JoinedEntries(d: seq<Entry>): Option<seq<byte>> {
    if d == [] then Some([])
    else
      match (Dumps(d[0].key), Dumps(d[0].val), JoinedEntries(d[1..]))
      case (Some(k), Some(v), Some(rest)) => Some(k + v + rest)
      case _ => None
  }

  lemma {:induction false} JoinedPairs(d: seq<Entry>)
    ensures JoinedEntries(d).Some? <==> ItemizeEntries(d).Some?
    ensures JoinedEntries(d).Some? ==> JoinedEntries(d).value == SerPairs(ItemizeEntries(d).value)
  {
    if d != [] {
      JoinedPairs(d[1..]);
      if ItemizeEntries(d).Some? {
        assert ItemizeEntries(d).value == [ItemizeEntry(d[0]).value] + ItemizeEntries(d[1..]).value;
      }
    }
  }

  /** Inserting an entry where its item is inserted. */
  lemma {:induction false} PlaceEntry(e: Entry, p: Pair, d: seq<Entry>, pairs: seq<Pair>) returns (order: seq<Entry>)
    requires ItemizeEntry(e) == Some(p) && ItemizeEntries(d) == Some(pairs)
    ensures ItemizeEntries(order) == Some(InsertPair(p, pairs))
    ensures multiset(order) == multiset(d) + multiset{e}
  {
    hide ItemizeEntry, Ser;
    if pairs != [] && ShortLess(Ser(pairs[0].key), Ser(p.key)) {
      var rest := PlaceEntry(e, p, d[1..], pairs[1..]);
      order := [d[0]] + rest;
      assert order[1..] == rest && d == [d[0]] + d[1..];
      assert ItemizeEntries(order) == Some([pairs[0]] + InsertPair(p, pairs[1..]));
      assert multiset(order) == multiset{d[0]} + multiset(rest) && multiset(d) == multiset{d[0]} + multiset(d[1..]);
    } else {
      order := [e] + d;
      assert order[1..] == d && multiset(order) == multiset{e} + multiset(d);
      assert ItemizeEntries(order) == Some([p] + pairs);
      assert pairs == [] ==> [p] + pairs == [p];
    }
  }

  /** The entries of a dict in the order in which their items are sorted. */
  lemma {:induction false} SortedEntries(d: seq<Entry>, pairs: seq<Pair>) returns (order: seq<Entry>)
    requires ItemizeEntries(d) == Some(pairs)
    ensures ItemizeEntries(order) == Some(SortPairs(pairs)) && multiset(order) == multiset(d)
  {
    hide ItemizeEntry;
    if d == [] {
      order := [];
    } else {
      var rest := SortedEntries(d[1..], pairs[1..]);
      order := PlaceEntry(d[0], pairs[0], rest, SortPairs(pairs[1..]));
      assert d == [d[0]] + d[1..];
    }
  }

  /** A dict is major type 5, the number of its entries, and key and value of one after the other, in ascending order
      of the length and then the content of the keys' bytes. */
  lemma MapFormat(d: seq<Entry>) returns (h: seq<byte>, order: seq<Entry>)
    requires Dumpable(VMap(d)) && Dumps(VMap(d)).Some?
    ensures IsHead(h, 5, |d|) && multiset(order) == multiset(d)
    ensures JoinedEntries(order).Some? && Dumps(VMap(d)).value == h + JoinedEntries(order).value
    ensures forall i | 0 <= i < |order| :: Dumps(order[i].key).Some?
    ensures forall i, j | 0 <= i < j < |order| :: Before(Dumps(order[i].key).value, Dumps(order[j].key).value)
  {
    hide Head, IsHead, SerPairs, SortPairs, ItemizeEntries, JoinedEntries, Before, LexLess, Ser;
    var pairs := ItemizeEntries(d).value;
    var sorted := SortPairs(pairs);
    h := Head(5, |d|);
    HeadIff(h, 5, |d|);
    order := SortedEntries(d, pairs);
    JoinedPairs(order);
    MapBytes(sorted);
    SameSize(order, d);
    forall i, j | 0 <= i < j < |pairs| ensures pairs[i].key != pairs[j].key {
      KeysDiffer(d, pairs, i, j);
    }
    SortAscending(pairs);
    forall i | 0 <= i < |order| ensures Dumps(order[i].key) == Some(Ser(sorted[i].key)) {
      ItemizeEntriesAt(order, i);
    }
    forall i, j | 0 <= i < j < |order| ensures Before(Dumps(order[i].key).value, Dumps(order[j].key).value) {
      assert KeyLess(sorted[i], sorted[j]);
      IsBefore(Ser(sorted[i].key), Ser(sorted[j].key));
    }
  }

  lemma MapBytes(pairs: seq<Pair>)
    requires |pairs| < TWO64 && AllEncodable(pairs)
    ensures Ser(Map(pairs)) == Head(5, |pairs|) + SerPairs(pairs)
  {
  }

  lemma SameSize(a: seq<Entry>, b: seq<Entry>)
    requires multiset(a) == multiset(b)
    ensures |a| == |b|
  {
    assert |multiset(a)| == |a| && |multiset(b)| == |b|;
  }

  lemma IsBefore(a: seq<byte>, b: seq<byte>)
    requires ShortLess(a, b)
    ensures Before(a, b)
  {
    if |a| == |b| { var i := FirstDifference(a, b); }
  }

  /** Which dicts can be written. */
  lemma MapWritable(d: seq<Entry>)
    ensures Dumps(VMap(d)).Some? <==> |d| < 0x1_0000_0000_0000_0000 && JoinedEntries(d).Some?
  {
    JoinedPairs(d);
  }

  // ----- the first byte -----

  /** The eight major types. */
  lemma FirstByte(v: Datum)
    requires Dumps(v).Some?
    ensures Dumps(v).value != []
    ensures Dumps(v).value[0] / 32 ==
            match v
            case VInt(n) => if 0 <= n < 0x1_0000_0000_0000_0000 then 0
                            else if -0x1_0000_0000_0000_0000 <= n < 0 then 1 else 6
            case VBytes(_) => 2
            case VText(_) => 3
            case VArray(_) => 4
            case VMap(_) => 5
            case VTag(_, _) => 6
            case _ => 7
  {
    hide Head, IsHead, Joined, SerAll, SerPairs, SortPairs, ItemizeEntries, JoinedEntries, Value, Digits;
    ConstantFormat(0);
    match v
    case VInt(n) =>
      IntFormat(n);
      if n >= TWO64 || n < -(TWO64 as int) { var h, c := BignumFormat(n); } else { HeadSaysMajor(); }
    case VBytes(b) => StringFormat(b); HeadSaysMajor();
    case VText(b) => StringFormat(b); HeadSaysMajor();
    case VArray(vs) => ArrayFormat(vs); HeadSaysMajor();
    case VMap(d) => DictFirst(d);
    case VTag(num, w) => TagFormat(num, w); HeadSaysMajor();
    case _ =>
  }

  lemma DictFirst(d: seq<Entry>)
    requires Dumps(VMap(d)).Some?
    ensures Dumps(VMap(d)).value != [] && Dumps(VMap(d)).value[0] / 32 == 5
  {
    hide SerPairs, SortPairs, ItemizeEntries;
  }

  lemma HeadSaysMajor()
    ensures forall h: seq<byte>, major: nat, n: nat :: IsHead(h, major, n) ==> h != [] && h[0] / 32 == major
  {
  }
}
