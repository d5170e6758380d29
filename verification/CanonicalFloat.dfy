/** The layout of floats in canonical JSON: fixed notation for middling exponents, scientific for the rest.
    The shortest digits and their exponent are given; finding them is not part of this model.  Then the
    numbers of JSON, integers and floats together, and a reader that tells them apart. */
module CanonicalFloat {
  import opened Wrappers
  import opened Radix
  import opened CanonicalNumber

  function Zeroes(k: nat): (r: seq<nat>)
    ensures |r| == k && forall i | 0 <= i < k :: r[i] == 0
  {
    seq(k, _ => 0)
  }

  /** At least two digits for the exponent. */
  function ExponentText(exp: int): seq<byte> {
    var mag := NatText(if exp < 0 then -exp else exp);
    [if exp < 0 then 45 else 43] + if |mag| < 2 then [48] + mag else mag
  }

  /** The text of 0.DIGITS times ten to the `exp + 1`, without its sign. */
  function Layout(digits: seq<nat>, exp: int): seq<byte>
    requires IsDigits(digits, 10) && digits != []
  {
    var decpt := exp + 1;
    if decpt <= -4 || decpt > 16 then
      DigitText(digits[..1]) + (if |digits| > 1 then [46] + DigitText(digits[1..]) else []) + [101] + ExponentText(exp)
    else if decpt <= 0 then
      [48, 46] + DigitText(Zeroes(-decpt)) + DigitText(digits)
    else if decpt >= |digits| then
      DigitText(digits) + DigitText(Zeroes(decpt - |digits|)) + [46, 48]
    else
      DigitText(digits[..decpt]) + [46] + DigitText(digits[decpt..])
  }

  function SignText(negative: bool): seq<byte> {
    if negative then [45] else []
  }

  function FloatText(negative: bool, digits: seq<nat>, exp: int): seq<byte>
    requires IsDigits(digits, 10) && digits != []
  {
    SignText(negative) + Layout(digits, exp)
  }

  method WriteFloat(negative: bool, digits: seq<nat>, exp: int) returns (s: seq<byte>)
    requires IsDigits(digits, 10) && digits != []
    ensures s == FloatText(negative, digits, exp)
  {
    hide DigitText, NatText, Zeroes;
    s := SignText(negative);
    ghost var sign := s;
    var decpt := exp + 1;
    if decpt <= -4 || decpt > 16 {
      var first := DigitText(digits[..1]);
      var rest := if |digits| > 1 then [46] + DigitText(digits[1..]) else [];
      var mag := NatText(if exp < 0 then -exp else exp);
      var padded := if |mag| < 2 then [48] + mag else mag;
      s := s + first;
      s := s + rest;
      s := s + [101];
      s := s + [if exp < 0 then 45 else 43];
      s := s + padded;
      Joined5(sign, first, rest, [101], [if exp < 0 then 45 else 43], padded);
    } else if decpt <= 0 {
      s := s + [48, 46];
      s := PushZeros(s, -decpt);
      s := s + DigitText(digits);
      Joined3(sign, [48, 46], DigitText(Zeroes(-decpt)), DigitText(digits));
    } else if decpt >= |digits| {
      s := s + DigitText(digits);
      s := PushZeros(s, decpt - |digits|);
      s := s + [46, 48];
      Joined3(sign, DigitText(digits), DigitText(Zeroes(decpt - |digits|)), [46, 48]);
    } else {
      s := s + DigitText(digits[..decpt]);
      s := s + [46];
      s := s + DigitText(digits[decpt..]);
      Joined3(sign, DigitText(digits[..decpt]), [46], DigitText(digits[decpt..]));
    }
  }

  lemma Joined3(a: seq<byte>, b: seq<byte>, c: seq<byte>, d: seq<byte>)
    ensures a + b + c + d == a + (b + c + d)
  {
  }

  lemma Joined5(a: seq<byte>, b: seq<byte>, c: seq<byte>, d: seq<byte>, e: seq<byte>, f: seq<byte>)
    ensures a + b + c + d + e + f == a + (b + c + d + (e + f))
  {
  }

  method PushZeros(before: seq<byte>, count: nat) returns (s: seq<byte>)
    ensures s == before + DigitText(Zeroes(count))
  {
    s := before;
    var i := 0;
    while i < count
      invariant 0 <= i <= count && s == before + DigitText(Zeroes(i))
    {
      s := s + [48];
      i := i + 1;
    }
  }

  // ----- reading a decimal -----

  /** m times ten to the e. */
  datatype Decimal = Decimal(m: nat, e: int)

  /** A string of digits at the front, and the rest. */
  function Digits10(s: seq<byte>): (r: (seq<nat>, seq<byte>))
    ensures IsDigits(r.0, 10)
  {
    (DigitValues(s[..Run(s)]), s[Run(s)..])
  }

  function ReadExponent(s: seq<byte>): Option<int> {
    if s == [] then Some(0)
    else if |s| < 3 || s[0] != 101 || s[1] !in {43, 45} then None
    else
      var r := ReadNat(s[2..]);
      if r.None? || r.value.1 != [] then None else Some(if s[1] == 45 then -(r.value.0 as int) else r.value.0 as int)
  }

  /** An unsigned decimal: digits, perhaps a point and digits, perhaps an exponent. */
  function ReadDecimal(s: seq<byte>): Option<Decimal> {
    var (whole, t) := Digits10(s);
    if whole == [] then None
    else
      var point := t != [] && t[0] == 46;
      var (part, u) := if point then Digits10(t[1..]) else ([], t);
      if point && part == [] then None
      else
        match ReadExponent(u)
        case None => None
        case Some(e) => Some(Decimal(Value(whole + part, 10), e - |part|))
  }

  /** The same number, perhaps with zeros moved from the exponent to the digits. */
  predicate Equals(d: Decimal, m: nat, e: int) {
    d.e <= e && d.m == m * Pow(10, e - d.e)
  }

  lemma DigitTextAppend(a: seq<nat>, b: seq<nat>)
    requires IsDigits(a, 10) && IsDigits(b, 10)
    ensures IsDigits(a + b, 10)
    ensures DigitText(a + b) == DigitText(a) + DigitText(b)
  {
  }

  lemma Digits10Is(ds: seq<nat>, rest: seq<byte>)
    requires IsDigits(ds, 10) && Ends(rest)
    ensures Digits10(DigitText(ds) + rest) == (ds, rest)
  {
    hide Run, Ends;
    var t := DigitText(ds);
    RunIs(t, rest);
    assert (t + rest)[..|t|] == t && (t + rest)[|t|..] == rest;
    DigitsBack(ds);
  }

  lemma ExponentBack(exp: int)
    ensures ReadExponent([101] + ExponentText(exp)) == Some(exp)
  {
    hide NatText, ReadNat, Value;
    var n: nat := if exp < 0 then -exp else exp;
    var s := [101] + ExponentText(exp);
    var mag := s[2..];
    assert mag == (if |NatText(n)| < 2 then [48] + NatText(n) else NatText(n));
    PaddedBack(n);
  }

  lemma PaddedBack(n: nat)
    ensures NatText(n) != []
    ensures ReadNat(if |NatText(n)| < 2 then [48] + NatText(n) else NatText(n)) == Some((n, []))
  {
    hide Run, Value, NatText;
    var ds := NatDigits(n);
    var padded := if |ds| < 2 then [0] + ds else ds;
    DigitTextAppend([0], ds);
    assert DigitText([0]) == [48];
    var mag := DigitText(padded);
    assert mag + [] == mag;
    RunIs(mag, []);
    assert mag[..|mag|] == mag && mag[|mag|..] == [];
    DigitsBack(padded);
    assert Zeros(1) == [0];
    ValueSkipsZeros(1, ds, 10);
  }

  lemma PointThen(p: seq<byte>, tail: seq<byte>)
    ensures var t := [46] + p + tail; t != [] && t[0] == 46 && Ends(t) && t[1..] == p + tail
  {
  }

  lemma DecimalOf(whole: seq<nat>, part: seq<nat>, tail: seq<byte>)
    requires IsDigits(whole, 10) && IsDigits(part, 10) && whole != [] && part != [] && Ends(tail)
    requires ReadExponent(tail).Some?
    ensures IsDigits(whole, 10) && IsDigits(part, 10)
    ensures ReadDecimal(DigitText(whole) + [46] + DigitText(part) + tail) ==
            Some(Decimal(Value(whole + part, 10), ReadExponent(tail).value - |part|))
  {
    hide Value, Digits10, DigitText, ReadExponent, IsDigits, Ends, IsDigit;
    var t := [46] + DigitText(part) + tail;
    Regrouped(DigitText(whole), [46], DigitText(part), tail);
    PointThen(DigitText(part), tail);
    Digits10Is(whole, t);
    Digits10Is(part, tail);
  }

  lemma Regrouped(a: seq<byte>, b: seq<byte>, c: seq<byte>, d: seq<byte>)
    ensures a + b + c + d == a + (b + c + d)
  {
  }

  lemma DecimalOfWhole(whole: seq<nat>, tail: seq<byte>)
    requires IsDigits(whole, 10) && whole != [] && tail != [] && tail[0] == 101 && Ends(tail)
    requires ReadExponent(tail).Some?
    ensures ReadDecimal(DigitText(whole) + tail) == Some(Decimal(Value(whole, 10), ReadExponent(tail).value))
  {
    hide Value, Digits10, DigitText, ReadExponent, IsDigits, Ends;
    Digits10Is(whole, tail);
    assert whole + [] == whole;
  }

  lemma {:induction false} ValueShift(ds: seq<nat>, k: nat)
    ensures Value(ds + Zeroes(k), 10) == Value(ds, 10) * Pow(10, k)
  {
    hide Value;
    if k == 0 {
      assert ds + Zeroes(0) == ds;
    } else {
      ValueShift(ds, k - 1);
      assert ds + Zeroes(k) == (ds + Zeroes(k - 1)) + [0];
      ValueSnoc(ds + Zeroes(k - 1), 0, 10);
      TenTimes(Value(ds, 10), Pow(10, k - 1));
    }
  }

  lemma TenTimes(a: nat, b: nat)
    ensures a * b * 10 == a * (b * 10)
  {
  }

  lemma OneIsPow()
    ensures Pow(10, 0) == 1
  {
  }

  lemma ExponentialLayout(digits: seq<nat>, exp: int)
    requires IsDigits(digits, 10) && digits != [] && (exp + 1 <= -4 || exp + 1 > 16)
    ensures IsDigits(digits[..1], 10) && IsDigits(digits[1..], 10)
    ensures Layout(digits, exp) ==
            DigitText(digits[..1]) + (if |digits| > 1 then [46] + DigitText(digits[1..]) else []) + [101] + ExponentText(exp)
  {
  }

  lemma ExponentialDenotes(digits: seq<nat>, exp: int)
    requires IsDigits(digits, 10) && digits != [] && (exp + 1 <= -4 || exp + 1 > 16)
    ensures ReadDecimal(Layout(digits, exp)) == Some(Decimal(Value(digits, 10), exp + 1 - |digits|))
  {
    hide Value, ReadDecimal, ReadExponent, DigitText, ExponentText, IsDigits, Layout, Ends;
    var tail := [101] + ExponentText(exp);
    ExponentialLayout(digits, exp);
    ExponentBack(exp);
    EEnds(ExponentText(exp));
    SplitDigits(digits, 1);
    if |digits| > 1 {
      DecimalOf(digits[..1], digits[1..], tail);
      Grouped(DigitText(digits[..1]), [46], DigitText(digits[1..]), [101], ExponentText(exp));
    } else {
      assert digits[..1] == digits;
      DecimalOfWhole(digits, tail);
      Grouped(DigitText(digits), [], [], [101], ExponentText(exp));
    }
  }

  lemma EEnds(e: seq<byte>)
    ensures Ends([101] + e)
  {
  }

  lemma SplitDigits(digits: seq<nat>, k: nat)
    requires IsDigits(digits, 10) && k <= |digits|
    ensures IsDigits(digits[..k], 10) && IsDigits(digits[k..], 10) && digits[..k] + digits[k..] == digits
  {
  }

  lemma Grouped(a: seq<byte>, b: seq<byte>, c: seq<byte>, d: seq<byte>, e: seq<byte>)
    ensures a + (b + c) + d + e == a + b + c + (d + e)
    ensures b == [] && c == [] ==> a + b + d + e == a + (d + e)
  {
  }

  lemma SmallLayout(digits: seq<nat>, exp: int)
    requires IsDigits(digits, 10) && digits != [] && -4 < exp + 1 <= 0
    ensures IsDigits(Zeroes(-(exp + 1)), 10)
    ensures Layout(digits, exp) == [48, 46] + DigitText(Zeroes(-(exp + 1))) + DigitText(digits)
  {
  }

  lemma SmallDenotes(digits: seq<nat>, exp: int)
    requires IsDigits(digits, 10) && digits != [] && -4 < exp + 1 <= 0
    ensures ReadDecimal(Layout(digits, exp)) == Some(Decimal(Value(digits, 10), exp + 1 - |digits|))
  {
    hide Value, ReadDecimal, DigitText, IsDigits, Zeroes, Layout, ReadExponent, Ends;
    var k := -(exp + 1);
    ZeroDigits(k);
    SmallLayout(digits, exp);
    DigitTextAppend(Zeroes(k), digits);
    ZeroText();
    ReadsNothingAfter();
    DecimalOf([0], Zeroes(k) + digits, []);
    SmallGrouped(DigitText(Zeroes(k)), DigitText(digits));
    ZerosInFront(k, digits);
  }

  lemma ZeroDigits(k: nat)
    ensures IsDigits(Zeroes(k), 10) && IsDigits([0], 10)
  {
  }

  lemma SmallGrouped(a: seq<byte>, b: seq<byte>)
    ensures [48, 46] + a + b == [48] + [46] + (a + b) + []
  {
  }

  lemma ZerosInFront(k: nat, digits: seq<nat>)
    ensures Value([0] + (Zeroes(k) + digits), 10) == Value(digits, 10)
  {
    hide Value;
    assert [0] + (Zeroes(k) + digits) == Zeros(k + 1) + digits;
    ValueSkipsZeros(k + 1, digits, 10);
  }

  lemma ZeroText()
    ensures DigitText([0]) == [48]
  {
  }

  lemma ReadsNothingAfter()
    ensures ReadExponent([]) == Some(0) && Ends([])
  {
  }

  lemma LargeLayout(digits: seq<nat>, exp: int)
    requires IsDigits(digits, 10) && digits != [] && |digits| <= exp + 1 <= 16
    ensures IsDigits(Zeroes(exp + 1 - |digits|), 10)
    ensures Layout(digits, exp) == DigitText(digits) + DigitText(Zeroes(exp + 1 - |digits|)) + [46, 48]
  {
  }

  lemma LargeDenotes(digits: seq<nat>, exp: int)
    requires IsDigits(digits, 10) && digits != [] && |digits| <= exp + 1 <= 16
    ensures ReadDecimal(Layout(digits, exp)) ==
            Some(Decimal(Value(digits, 10) * Pow(10, exp + 2 - |digits|), -1))
  {
    hide Value, ReadDecimal, DigitText, Pow, IsDigits, Zeroes, Layout, ReadExponent, Ends;
    var k := exp + 1 - |digits|;
    LargeLayout(digits, exp);
    ZeroDigits(k);
    DigitTextAppend(digits, Zeroes(k));
    ZeroText();
    ReadsNothingAfter();
    DecimalOf(digits + Zeroes(k), [0], []);
    LargeGrouped(DigitText(digits) + DigitText(Zeroes(k)));
    OneMoreZero(digits, k);
    ValueShift(digits, k + 1);
  }

  lemma LargeGrouped(a: seq<byte>)
    ensures a + [46, 48] == a + [46] + [48] + []
  {
  }

  lemma OneMoreZero(digits: seq<nat>, k: nat)
    ensures digits + Zeroes(k) + [0] == digits + Zeroes(k + 1)
  {
  }

  lemma MiddleLayout(digits: seq<nat>, exp: int)
    requires IsDigits(digits, 10) && digits != [] && 0 < exp + 1 < |digits| && exp + 1 <= 16
    ensures IsDigits(digits[..exp + 1], 10) && IsDigits(digits[exp + 1..], 10)
    ensures Layout(digits, exp) == DigitText(digits[..exp + 1]) + [46] + DigitText(digits[exp + 1..])
  {
  }

  lemma MiddleDenotes(digits: seq<nat>, exp: int)
    requires IsDigits(digits, 10) && digits != [] && 0 < exp + 1 < |digits| && exp + 1 <= 16
    ensures ReadDecimal(Layout(digits, exp)) == Some(Decimal(Value(digits, 10), exp + 1 - |digits|))
  {
    hide Value, ReadDecimal, DigitText, IsDigits, Layout, ReadExponent, Ends;
    var d := exp + 1;
    ReadsNothingAfter();
    MiddleLayout(digits, exp);
    SplitDigits(digits, d);
    DecimalOf(digits[..d], digits[d..], []);
    NothingMore(DigitText(digits[..d]) + [46] + DigitText(digits[d..]));
  }

  lemma NothingMore(a: seq<byte>)
    ensures a + [] == a
  {
  }

  /** Whatever the notation, the text denotes the digits times ten to the exponent. */
  lemma {:induction false} LayoutDenotes(digits: seq<nat>, exp: int)
    requires IsDigits(digits, 10) && digits != []
    ensures ReadDecimal(Layout(digits, exp)).Some?
    ensures Equals(ReadDecimal(Layout(digits, exp)).value, Value(digits, 10), exp + 1 - |digits|)
  {
    OneIsPow();
    if exp + 1 <= -4 || exp + 1 > 16 {
      ExponentialDenotes(digits, exp);
    } else if exp + 1 <= 0 {
      SmallDenotes(digits, exp);
    } else if exp + 1 >= |digits| {
      LargeDenotes(digits, exp);
    } else {
      MiddleDenotes(digits, exp);
    }
  }

  // ----- floats never look like integers -----

  function Unsigned(s: seq<byte>): seq<byte> {
    if s != [] && s[0] == 45 then s[1..] else s
  }

  predicate AllDigits(s: seq<byte>) {
    s != [] && forall i | 0 <= i < |s| :: IsDigit(s[i])
  }

  predicate IntegerSyntax(s: seq<byte>) {
    AllDigits(Unsigned(s))
  }

  lemma IntsLookLikeInts(n: int)
    ensures IntegerSyntax(IntText(n))
  {
    var ds := NatDigits(if n < 0 then -n else n);
    if n < 0 { assert IntText(n)[1..] == NatText(-n); }
  }

  lemma {:induction false} FloatsDoNot(negative: bool, digits: seq<nat>, exp: int)
    requires IsDigits(digits, 10) && digits != []
    ensures !IntegerSyntax(FloatText(negative, digits, exp))
  {
    hide Layout;
    var k := PointOrE(digits, exp);
    NotInteger(Layout(digits, exp), k, negative);
  }

  lemma NotInteger(s: seq<byte>, k: nat, negative: bool)
    requires 0 < k < |s| && !IsDigit(s[k]) && IsDigit(s[0])
    ensures !IntegerSyntax(SignText(negative) + s)
  {
    var t := SignText(negative) + s;
    assert Unsigned(t) == s;
    assert !AllDigits(s);
  }

  lemma Boundary(a: seq<byte>, b: seq<byte>)
    requires a != [] && b != [] && IsDigit(a[0]) && !IsDigit(b[0])
    ensures (a + b)[|a|] == b[0] && IsDigit((a + b)[0])
  {
  }

  /** Where the point or the e stands. */
  lemma PointOrE(digits: seq<nat>, exp: int) returns (k: nat)
    requires IsDigits(digits, 10) && digits != []
    ensures 0 < k < |Layout(digits, exp)| && !IsDigit(Layout(digits, exp)[k]) && IsDigit(Layout(digits, exp)[0])
  {
    hide IsDigits, ExponentText, Zeroes, Layout, DigitText;
    var decpt := exp + 1;
    if decpt <= -4 || decpt > 16 {
      ExponentialLayout(digits, exp);
      var rest := if |digits| > 1 then [46] + DigitText(digits[1..]) else [];
      k := 1;
      Boundary(DigitText(digits[..1]), rest + [101] + ExponentText(exp));
      Regrouped(DigitText(digits[..1]), rest, [101], ExponentText(exp));
    } else if decpt <= 0 {
      SmallLayout(digits, exp);
      k := 1;
      Boundary([48], [46] + DigitText(Zeroes(-decpt)) + DigitText(digits));
      assert [48, 46] + DigitText(Zeroes(-decpt)) + DigitText(digits) == [48] + ([46] + DigitText(Zeroes(-decpt)) + DigitText(digits));
    } else if decpt >= |digits| {
      LargeLayout(digits, exp);
      k := decpt;
      Boundary(DigitText(digits) + DigitText(Zeroes(decpt - |digits|)), [46, 48]);
    } else {
      MiddleLayout(digits, exp);
      k := decpt;
      Boundary(DigitText(digits[..decpt]), [46] + DigitText(digits[decpt..]));
      Regrouped(DigitText(digits[..decpt]), [46], DigitText(digits[decpt..]), []);
    }
  }

  // ----- the sign -----

  function ReadSigned(s: seq<byte>): Option<(bool, Decimal)> {
    var negative := s != [] && s[0] == 45;
    match ReadDecimal(if negative then s[1..] else s)
    case None => None
    case Some(d) => Some((negative, d))
  }

  /** The text of a float denotes its sign and its digits times ten to the exponent. */
  lemma FloatDenotes(negative: bool, digits: seq<nat>, exp: int)
    requires IsDigits(digits, 10) && digits != []
    ensures ReadSigned(FloatText(negative, digits, exp)).Some?
    ensures var (sign, d) := ReadSigned(FloatText(negative, digits, exp)).value;
            sign == negative && Equals(d, Value(digits, 10), exp + 1 - |digits|)
  {
    hide Layout, ReadDecimal, Equals, Value;
    LayoutDenotes(digits, exp);
    var k := PointOrE(digits, exp);
    var t := Layout(digits, exp);
    assert FloatText(negative, digits, exp) == if negative then [45] + t else t;
    assert ([45] + t)[1..] == t;
  }

  // ----- shortest digits and their exponent come back -----

  /** No zero at either end, or the one digit of zero. */
  predicate Shortest(digits: seq<nat>, exp: int) {
    IsDigits(digits, 10) && digits != [] &&
    if digits == [0] then exp == 0 else digits[0] != 0 && digits[|digits| - 1] != 0
  }

  datatype Parts = Parts(negative: bool, digits: seq<nat>, exp: int)

  /** What the float formatter hands to the layout. */
  type Float = f: Parts | Shortest(f.digits, f.exp) witness Parts(false, [0], 0)

  /** The same number without zeros at the end. */
  function Stripped(m: nat, e: int): (r: Decimal)
    requires m > 0
    ensures r.m % 10 != 0
  {
    if m % 10 == 0 then Stripped(m / 10, e + 1) else Decimal(m, e)
  }

  function Normal(negative: bool, d: Decimal): Float {
    if d.m == 0 then Parts(negative, [0], 0)
    else
      var r := Stripped(d.m, d.e);
      var ds := Digits(r.m, 10);
      ValueOfDigits(r.m, 10);
      Parts(negative, ds, r.e + |ds| - 1)
  }

  lemma {:induction false} StrippedBack(m: nat, e: int, k: nat)
    requires m % 10 != 0
    ensures m * Pow(10, k) > 0
    ensures Stripped(m * Pow(10, k), e - k) == Decimal(m, e)
  {
    if k > 0 {
      StrippedBack(m, e, k - 1);
      var n := m * Pow(10, k - 1);
      Tenfold(m, Pow(10, k - 1));
      assert m * Pow(10, k) == n * 10;
      DivModUnique(n, 0, 10);
    }
  }

  lemma Tenfold(a: nat, b: nat)
    ensures a * (10 * b) == a * b * 10
  {
  }

  lemma LastDigit(ds: seq<nat>)
    requires IsDigits(ds, 10) && ds != []
    ensures Value(ds, 10) % 10 == ds[|ds| - 1]
  {
    var init := ds[..|ds| - 1];
    assert ds == init + [ds[|ds| - 1]];
    DivModUnique(Value(init, 10), ds[|ds| - 1], 10);
  }

  lemma ZeroValue()
    ensures Value([0], 10) == 0
  {
    assert [0][..0] == [];
  }

  /** Any decimal that denotes a float gives back its shortest digits and their exponent. */
  lemma NormalBack(f: Float, d: Decimal)
    requires Equals(d, Value(f.digits, 10), f.exp + 1 - |f.digits|)
    ensures Normal(f.negative, d) == f
  {
    hide Stripped, Value, Digits;
    var v, e := Value(f.digits, 10), f.exp + 1 - |f.digits|;
    if f.digits == [0] {
      ZeroValue();
    } else {
      LastDigit(f.digits);
      StrippedBack(v, e, e - d.e);
      DigitsOfValue(f.digits, 10);
    }
  }

  // ----- the numbers of JSON -----

  /** An integer of any size, a float, or a number beyond the range of floats. */
  datatype Number = Whole(n: int) | Fraction(f: Float) | Beyond

  /** Nothing is written for a number beyond the range. */
  function NumberText(x: Number): seq<byte> {
    match x
    case Whole(n) => IntText(n)
    case Fraction(f) => FloatText(f.negative, f.digits, f.exp)
    case Beyond => []
  }

  predicate NumberChar(c: byte) {
    IsDigit(c) || c in {43, 45, 46, 101}
  }

  predicate NumberChars(s: seq<byte>) {
    forall i | 0 <= i < |s| :: NumberChar(s[i])
  }

  /** What follows does not continue a number. */
  predicate Stops(rest: seq<byte>) {
    rest == [] || !NumberChar(rest[0])
  }

  /** How many characters of a number a string begins with. */
  function NumberRun(s: seq<byte>): (k: nat)
    ensures k <= |s| && NumberChars(s[..k])
  {
    if s == [] || !NumberChar(s[0]) then 0
    else
      assert s[..1 + NumberRun(s[1..])] == [s[0]] + s[1..][..NumberRun(s[1..])];
      1 + NumberRun(s[1..])
  }

  /** The number at the front: an integer if it is written as one, a float otherwise. */
  function ReadNumber(s: seq<byte>): (r: Option<(Number, seq<byte>)>)
    ensures r.Some? ==> |r.value.1| < |s|
  {
    var k := NumberRun(s);
    if k == 0 then None
    else if IntegerSyntax(s[..k]) then
      match ReadInt(s[..k])
      case None => None
      case Some((n, _)) => Some((Whole(n), s[k..]))
    else
      match ReadSigned(s[..k])
      case None => None
      case Some((negative, d)) => Some((Fraction(Normal(negative, d)), s[k..]))
  }

  lemma {:induction false} NumberRunIs(t: seq<byte>, rest: seq<byte>)
    requires NumberChars(t) && Stops(rest)
    ensures NumberRun(t + rest) == |t|
  {
    if t == [] {
      assert t + rest == rest;
    } else {
      NumberRunIs(t[1..], rest);
      assert (t + rest)[1..] == t[1..] + rest && (t + rest)[0] == t[0];
    }
  }

  lemma NumberCharsJoin(a: seq<byte>, b: seq<byte>)
    requires NumberChars(a) && NumberChars(b)
    ensures NumberChars(a + b)
  {
  }

  lemma DigitsAreNumberChars(ds: seq<nat>)
    requires IsDigits(ds, 10)
    ensures NumberChars(DigitText(ds))
  {
  }

  lemma IntIsNumberChars(n: int)
    ensures NumberChars(IntText(n))
  {
    var ds := NatDigits(if n < 0 then -n else n);
    DigitsAreNumberChars(ds);
    NumberCharsJoin([45], DigitText(ds));
  }

  lemma ExponentIsNumberChars(exp: int)
    ensures NumberChars([101] + ExponentText(exp))
  {
    var n: nat := if exp < 0 then -exp else exp;
    var ds := NatDigits(n);
    DigitsAreNumberChars(ds);
  }

  lemma LayoutIsNumberChars(digits: seq<nat>, exp: int)
    requires IsDigits(digits, 10) && digits != []
    ensures NumberChars(Layout(digits, exp))
  {
    hide DigitText, ExponentText, Zeroes, Layout, NumberChar;
    var decpt := exp + 1;
    PointIsNumberChar();
    DigitsAreNumberChars(digits);
    if decpt <= -4 || decpt > 16 {
      ExponentialLayout(digits, exp);
      ExponentIsNumberChars(exp);
      var first := DigitText(digits[..1]);
      var rest := if |digits| > 1 then [46] + DigitText(digits[1..]) else [];
      DigitsAreNumberChars(digits[..1]);
      DigitsAreNumberChars(digits[1..]);
      assert first + rest + [101] + ExponentText(exp) == first + rest + ([101] + ExponentText(exp));
    } else if decpt <= 0 {
      SmallLayout(digits, exp);
      DigitsAreNumberChars(Zeroes(-decpt));
    } else if decpt >= |digits| {
      LargeLayout(digits, exp);
      DigitsAreNumberChars(Zeroes(decpt - |digits|));
    } else {
      MiddleLayout(digits, exp);
      DigitsAreNumberChars(digits[..decpt]);
      DigitsAreNumberChars(digits[decpt..]);
    }
  }

  lemma PointIsNumberChar()
    ensures NumberChar(45) && NumberChar(46) && NumberChar(48)
  {
  }

  /** Where the text of a number begins: never like another kind of value. */
  lemma NumberStarts(x: Number)
    requires !x.Beyond?
    ensures NumberText(x) != [] && (IsDigit(NumberText(x)[0]) || NumberText(x)[0] == 45)
  {
    hide Layout;
    match x
    case Whole(n) => IntRound(n, []);
    case Fraction(f) => var _ := PointOrE(f.digits, f.exp);
  }

  /** The text of a number, integer or float, reads back as that number of that kind. */
  lemma NumberRound(x: Number, rest: seq<byte>)
    requires !x.Beyond? && Stops(rest)
    ensures ReadNumber(NumberText(x) + rest) == Some((x, rest))
  {
    hide ReadInt, ReadSigned, IntText, FloatText, Normal, IntegerSyntax, NumberChars, NumberRun, Equals, Value, Layout;
    var t := NumberText(x);
    NumberStarts(x);
    match x {
      case Whole(n) =>
        IntIsNumberChars(n);
        IntsLookLikeInts(n);
        IntRound(n, []);
        assert t + [] == t;
      case Fraction(f) =>
        FloatIsNumberChars(f.negative, f.digits, f.exp);
        FloatsDoNot(f.negative, f.digits, f.exp);
        FloatDenotes(f.negative, f.digits, f.exp);
        NormalBack(f, ReadSigned(t).value.1);
    }
    NumberRunIs(t, rest);
    assert (t + rest)[..|t|] == t && (t + rest)[|t|..] == rest;
  }

  lemma FloatIsNumberChars(negative: bool, digits: seq<nat>, exp: int)
    requires IsDigits(digits, 10) && digits != []
    ensures NumberChars(FloatText(negative, digits, exp))
  {
    hide Layout;
    LayoutIsNumberChars(digits, exp);
    NumberCharsJoin(SignText(negative), Layout(digits, exp));
  }
}
