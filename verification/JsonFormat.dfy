/** Canonical JSON spelled out: the bytes of each kind of value, stated on what the writer returns. */
module JsonFormat {
  import opened Wrappers
  import opened Radix
  import opened CborSyntax
  import opened CborOrder
  import opened CanonicalNumber
  import opened CanonicalFloat
  import opened CanonicalJson

  /** The bytes of characters below 128. */
  function Bytes(s: string): seq<byte>
    requires forall i | 0 <= i < |s| :: s[i] < 128 as char
  {
    seq(|s|, i requires 0 <= i < |s| => s[i] as int)
  }

  // ----- constants and numbers -----

  lemma ConstantsWritten()
    ensures Written(JNull) == Some(Bytes("null"))
    ensures Written(JBool(true)) == Some(Bytes("true")) && Written(JBool(false)) == Some(Bytes("false"))
    ensures Written(JNumber(Beyond)) == None
  {
    assert Bytes("null") == [110, 117, 108, 108];
    assert Bytes("true") == [116, 114, 117, 101];
    assert Bytes("false") == [102, 97, 108, 115, 101];
  }

  lemma Marks()
    ensures Bytes("-") == [45] && Bytes("+") == [43] && Bytes(".") == [46] && Bytes("e") == [101] && Bytes("") == []
    ensures Bytes("0") == [48] && Bytes("0.") == [48, 46] && Bytes(".0") == [46, 48]
  {
  }

  /** Decimal digits, the lowest last, behind a minus for negative numbers. */
  lemma IntWritten(n: nat)
    ensures n < 10 ==> Written(JNumber(Whole(n))) == Some([48 + n])
    ensures n >= 10 ==> Written(JNumber(Whole(n))) == Some(Written(JNumber(Whole(n / 10))).value + [48 + n % 10])
    ensures n > 0 ==> Written(JNumber(Whole(-(n as int)))) == Some(Bytes("-") + Written(JNumber(Whole(n))).value)
  {
    Marks();
    if n >= 10 {
      var ds := Digits(n / 10, 10);
      assert Digits(n, 10) == ds + [n % 10];
      DigitTextAppend(ds, [n % 10]);
      assert DigitText([n % 10]) == [48 + n % 10];
    } else if n > 0 {
      assert Digits(n / 10, 10) == [];
      assert Digits(n, 10) == [n];
      assert DigitText([n]) == [48 + n];
    }
  }

  function Sign(negative: bool): seq<byte> {
    if negative then Bytes("-") else Bytes("")
  }

  function Chars(digits: seq<nat>): seq<byte>
    requires IsDigits(digits, 10)
  {
    seq(|digits|, i requires 0 <= i < |digits| => 48 + digits[i])
  }

  lemma CharsAre(digits: seq<nat>)
    requires IsDigits(digits, 10)
    ensures DigitText(digits) == Chars(digits)
  {
  }

  function Noughts(k: nat): seq<byte> {
    seq(k, _ => 48)
  }

  /** Fixed notation while the point falls no more than four places before or sixteen behind the first digit. */
  lemma FixedWritten(f: Float)
    requires -4 <= f.exp < 16
    ensures Written(JNumber(Fraction(f))) ==
            Some(Sign(f.negative) +
                 if f.exp < 0 then Bytes("0.") + Noughts(-f.exp - 1) + Chars(f.digits)
                 else if |f.digits| <= f.exp + 1 then Chars(f.digits) + Noughts(f.exp + 1 - |f.digits|) + Bytes(".0")
                 else Chars(f.digits[..f.exp + 1]) + Bytes(".") + Chars(f.digits[f.exp + 1..]))
  {
    hide DigitText;
    Marks();
    CharsAre(f.digits);
    if f.exp < 0 {
      SmallLayout(f.digits, f.exp);
      CharsAre(Zeroes(-(f.exp + 1)));
      assert Chars(Zeroes(-(f.exp + 1))) == Noughts(-f.exp - 1);
    } else if |f.digits| <= f.exp + 1 {
      LargeLayout(f.digits, f.exp);
      CharsAre(Zeroes(f.exp + 1 - |f.digits|));
      assert Chars(Zeroes(f.exp + 1 - |f.digits|)) == Noughts(f.exp + 1 - |f.digits|);
    } else {
      MiddleLayout(f.digits, f.exp);
      CharsAre(f.digits[..f.exp + 1]);
      CharsAre(f.digits[f.exp + 1..]);
    }
  }

  /** The exponent of a float: its sign and at least two digits. */
  ghost function ExponentChars(exp: int): seq<byte> {
    var n: nat := if exp < 0 then -exp else exp;
    (if exp < 0 then Bytes("-") else Bytes("+")) + (if n < 10 then Bytes("0") else Bytes("")) + Written(JNumber(Whole(n))).value
  }

  /** Scientific notation otherwise. */
  lemma ScientificWritten(f: Float)
    requires f.exp < -4 || f.exp >= 16
    ensures Written(JNumber(Fraction(f))) ==
            Some(Sign(f.negative) + Chars(f.digits[..1]) +
                 (if |f.digits| > 1 then Bytes(".") + Chars(f.digits[1..]) else Bytes("")) + Bytes("e") + ExponentChars(f.exp))
  {
    hide DigitText, ExponentText, ExponentChars;
    Marks();
    ExponentialLayout(f.digits, f.exp);
    CharsAre(f.digits[..1]);
    CharsAre(f.digits[1..]);
    ExponentIs(f.exp);
    var point := if |f.digits| > 1 then Bytes(".") + Chars(f.digits[1..]) else Bytes("");
    FiveParts(Sign(f.negative), Chars(f.digits[..1]), point, [101], ExponentText(f.exp));
  }

  lemma FiveParts(a: seq<byte>, b: seq<byte>, c: seq<byte>, d: seq<byte>, e: seq<byte>)
    ensures a + (b + c + d + e) == a + b + c + d + e
  {
  }

  lemma ExponentIs(exp: int)
    ensures ExponentText(exp) == ExponentChars(exp)
  {
    var n: nat := if exp < 0 then -exp else exp;
    IntWritten(n);
    TwoDigits(n);
  }

  lemma TwoDigits(n: nat)
    ensures |NatText(n)| < 2 <==> n < 10
  {
    if n >= 10 {
      assert Digits(n, 10) == Digits(n / 10, 10) + [n % 10];
      assert Digits(n / 10, 10) != [];
    } else if n > 0 {
      assert Digits(n / 10, 10) == [];
    }
  }

  // ----- strings -----

  /** A quote and a backslash behind a backslash, five control characters by letter, the others by number in lower-case hex,
      everything else as it is. */
  function Spelled(c: byte): seq<byte> {
    if c == 0x22 then Bytes("\\\"")
    else if c == 0x5C then Bytes("\\\\")
    else if c == 0x08 then Bytes("\\b")
    else if c == 0x09 then Bytes("\\t")
    else if c == 0x0A then Bytes("\\n")
    else if c == 0x0C then Bytes("\\f")
    else if c == 0x0D then Bytes("\\r")
    else if c < 0x20 then Bytes("\\u00") + [0x30 + c / 16, if c % 16 < 10 then 0x30 + c % 16 else 0x61 + c % 16 - 10]
    else [c]
  }

  function SpelledAll(b: seq<byte>): seq<byte> {
    if b == [] then [] else Spelled(b[0]) + SpelledAll(b[1..])
  }

  lemma SpelledIs(c: byte)
    ensures Escape(c) == Spelled(c)
  {
    if c < 0x20 && c !in {0x08, 0x09, 0x0A, 0x0C, 0x0D} {
      assert c / 16 < 2;
      assert Escape(c) == [92, 117, 48, 48] + [HexDigit(c / 16), HexDigit(c % 16)];
      assert Bytes("\\u00") == [92, 117, 48, 48];
    }
  }

  lemma {:induction false} StringWritten(b: seq<byte>)
    ensures Written(JStr(b)) == Some(Bytes("\"") + SpelledAll(b) + Bytes("\""))
  {
    AllSpelled(b);
    assert Bytes("\"") == [34];
  }

  lemma {:induction false} AllSpelled(b: seq<byte>)
    ensures EscapeAll(b) == SpelledAll(b)
  {
    hide Escape, Spelled;
    if b != [] {
      SpelledIs(b[0]);
      AllSpelled(b[1..]);
    }
  }

  // ----- arrays and objects -----

  lemma {:induction false} FitsHigher(v: Json, depth: nat)
    requires FitsDepth(v, depth + 1)
    ensures FitsDepth(v, depth)
    decreases v
  {
    match v
    case JArr(items) =>
      forall i | 0 <= i < |items| ensures FitsDepth(items[i], depth + 1) { FitsHigher(items[i], depth + 1); }
    case JObj(m) =>
      forall k <- m ensures FitsDepth(m[k], depth + 1) { FitsHigher(m[k], depth + 1); }
    case _ =>
  }

  /** The texts of some values with commas between them. */
  ghost function Listed(vs: seq<Json>): seq<byte>
    requires forall i | 0 <= i < |vs| :: Written(vs[i]).Some?
  {
    if vs == [] then Bytes("")
    else if |vs| == 1 then Written(vs[0]).value
    else Written(vs[0]).value + Bytes(",") + Listed(vs[1..])
  }

  lemma {:induction false} ListedIs(vs: seq<Json>)
    requires forall i | 0 <= i < |vs| :: Written(vs[i]).Some?
    ensures Listed(vs) == ItemsText(vs)
  {
    Brackets();
    if |vs| > 1 { ListedIs(vs[1..]); }
  }

  lemma Brackets()
    ensures Bytes("") == [] && Bytes(",") == [44] && Bytes(":") == [58]
    ensures Bytes("[") == [91] && Bytes("]") == [93] && Bytes("{") == [123] && Bytes("}") == [125]
  {
  }

  lemma ItemWritten(items: seq<Json>, i: nat)
    requires i < |items| && Written(JArr(items)).Some?
    ensures Written(items[i]).Some?
  {
    hide CanonicalJson.Text;
    FitsHigher(items[i], 0);
  }

  lemma ArrayText(items: seq<Json>)
    ensures CanonicalJson.Text(JArr(items)) == Bytes("[") + ItemsText(items) + Bytes("]")
  {
    hide ItemsText;
    Brackets();
  }

  /** An array is its items between brackets, in their order. */
  lemma ArrayWritten(items: seq<Json>)
    requires Written(JArr(items)).Some?
    ensures forall i | 0 <= i < |items| :: Written(items[i]).Some?
    ensures Written(JArr(items)).value == Bytes("[") + Listed(items) + Bytes("]")
  {
    hide Listed, ItemsText, CanonicalJson.Text, FitsDepth, InRange;
    forall i | 0 <= i < |items| ensures Written(items[i]).Some? {
      ItemWritten(items, i);
    }
    ArrayText(items);
    ListedIs(items);
  }

  /** The entries of an object under some keys with commas between them. */
  ghost function Paired(m: map<seq<byte>, Json>, ks: seq<seq<byte>>): seq<byte>
    requires forall k | k in ks :: k in m && Written(m[k]).Some?
  {
    if ks == [] then Bytes("")
    else
      var first := Written(JStr(ks[0])).value + Bytes(":") + Written(m[ks[0]]).value;
      if |ks| == 1 then first else first + Bytes(",") + Paired(m, ks[1..])
  }

  lemma {:induction false} PairedIs(m: map<seq<byte>, Json>, ks: seq<seq<byte>>)
    requires forall k | k in ks :: k in m && Written(m[k]).Some?
    ensures Paired(m, ks) == EntriesText(JObj(m), ks)
  {
    Brackets();
    if |ks| > 1 { PairedIs(m, ks[1..]); }
  }

  lemma {:induction false} InOrderAscends(ks: set<seq<byte>>)
    ensures var r := InOrder(ks);
            (forall k :: k in r <==> k in ks) && forall i, j | 0 <= i < j < |r| :: Smaller(r[i], r[j])
    decreases |ks|
  {
    hide Smaller;
    if ks != {} {
      LeastExists(ks);
      var r := InOrder(ks);
      var k := r[0];
      assert r[1..] == InOrder(ks - {k}) && IsLeast(k, ks);
      InOrderAscends(ks - {k});
      forall i, j | 0 <= i < j < |r| ensures Smaller(r[i], r[j]) {
        assert r[j] == r[1..][j - 1] && r[j] in InOrder(ks - {k});
        if i == 0 {
          SmallerIff(k, r[j]);
        } else {
          assert r[i] == r[1..][i - 1];
        }
      }
    }
  }

  /** An object is its entries between braces, a colon behind each key, in the order of the keys' bytes. */
  lemma ObjectWritten(m: map<seq<byte>, Json>) returns (ks: seq<seq<byte>>)
    requires Written(JObj(m)).Some?
    ensures (forall k :: k in ks <==> k in m) && forall k | k in ks :: Written(m[k]).Some?
    ensures forall i, j | 0 <= i < j < |ks| :: Smaller(ks[i], ks[j])
    ensures Written(JObj(m)).value == Bytes("{") + Paired(m, ks) + Bytes("}")
  {
    hide Paired, EntriesText, InOrder, Smaller;
    Brackets();
    ks := InOrder(m.Keys);
    InOrderAscends(m.Keys);
    forall k | k in ks ensures k in m && Written(m[k]).Some? {
      assert k in m.Keys;
      FitsHigher(m[k], 0);
    }
    PairedIs(m, ks);
  }

  // ----- depth -----

  /** `n` one-item arrays around an empty one. */
  function Nested(n: nat): Json {
    if n == 0 then JArr([]) else JArr([Nested(n - 1)])
  }

  lemma {:induction false} NestedFits(n: nat, depth: nat)
    ensures InRange(Nested(n)) && (FitsDepth(Nested(n), depth) <==> depth + n <= 128)
    decreases n
  {
    if n > 0 {
      NestedFits(n - 1, depth + 1);
      assert Nested(n).items[0] == Nested(n - 1);
    }
  }

  /** A hundred and twenty-eight levels are written, one more is refused. */
  lemma DepthLaw(n: nat)
    ensures Written(Nested(n)).Some? <==> n <= 128
  {
    NestedFits(n, 0);
  }
}
