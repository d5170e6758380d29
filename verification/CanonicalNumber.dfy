/** Decimal digits as bytes, and the integers of canonical JSON. */
module CanonicalNumber {
  import opened Wrappers
  import opened Radix

  predicate IsDigit(c: byte) {
    48 <= c <= 57
  }

  function DigitChar(d: nat): (c: byte)
    requires d < 10
    ensures IsDigit(c)
  {
    48 + d
  }

  function DigitOf(c: byte): (d: nat)
    requires IsDigit(c)
    ensures d < 10 && DigitChar(d) == c
  {
    c - 48
  }

  function DigitText(ds: seq<nat>): (r: seq<byte>)
    requires IsDigits(ds, 10)
    ensures |r| == |ds|
    ensures forall i | 0 <= i < |r| :: IsDigit(r[i])
  {
    seq(|ds|, i requires 0 <= i < |ds| => DigitChar(ds[i]))
  }

  function NatText(n: nat): (r: seq<byte>) {
    if n == 0 then [48] else DigitText(Digits(n, 10))
  }

  function IntText(n: int): seq<byte> {
    if n < 0 then [45] + NatText(-n) else NatText(n)
  }

  /** How many digits a string begins with. */
  function Run(s: seq<byte>): (k: nat)
    ensures k <= |s| && (forall i | 0 <= i < k :: IsDigit(s[i])) && (k < |s| ==> !IsDigit(s[k]))
  {
    if s == [] || !IsDigit(s[0]) then 0 else 1 + Run(s[1..])
  }

  function DigitValues(s: seq<byte>): (ds: seq<nat>)
    requires forall i | 0 <= i < |s| :: IsDigit(s[i])
    ensures |ds| == |s| && IsDigits(ds, 10)
  {
    seq(|s|, i requires 0 <= i < |s| => DigitOf(s[i]))
  }

  function ReadNat(s: seq<byte>): (r: Option<(nat, seq<byte>)>)
    ensures r.Some? ==> |r.value.1| < |s|
  {
    var k := Run(s);
    if k == 0 then None else Some((Value(DigitValues(s[..k]), 10), s[k..]))
  }

  function ReadInt(s: seq<byte>): (r: Option<(int, seq<byte>)>)
    ensures r.Some? ==> |r.value.1| < |s|
  {
    if s != [] && s[0] == 45 then
      match ReadNat(s[1..])
      case None => None
      case Some((n, t)) => Some((-(n as int), t))
    else
      match ReadNat(s)
      case None => None
      case Some((n, t)) => Some((n as int, t))
  }

  /** What follows does not continue a number. */
  predicate Ends(rest: seq<byte>) {
    rest == [] || !IsDigit(rest[0])
  }

  lemma {:induction false} RunIs(a: seq<byte>, rest: seq<byte>)
    requires (forall i | 0 <= i < |a| :: IsDigit(a[i])) && Ends(rest)
    ensures Run(a + rest) == |a|
  {
    if a == [] {
      assert a + rest == rest;
    } else {
      RunIs(a[1..], rest);
      assert (a + rest)[1..] == a[1..] + rest && (a + rest)[0] == a[0];
    }
  }

  lemma NatDigits(n: nat) returns (ds: seq<nat>)
    ensures IsDigits(ds, 10) && ds != [] && NatText(n) == DigitText(ds) && Value(ds, 10) == n
  {
    if n == 0 {
      ds := [0];
      assert [0][..0] == [];
      assert DigitText(ds) == [48];
    } else {
      ds := Digits(n, 10);
      ValueOfDigits(n, 10);
    }
  }

  lemma {:induction false} NatRound(n: nat, rest: seq<byte>)
    requires Ends(rest)
    ensures NatText(n) != [] && IsDigit(NatText(n)[0])
    ensures ReadNat(NatText(n) + rest) == Some((n, rest))
  {
    hide Value, Run, IsDigit;
    var ds := NatDigits(n);
    var t := NatText(n);
    RunIs(t, rest);
    assert (t + rest)[..|t|] == t && (t + rest)[|t|..] == rest;
    DigitsBack(ds);
  }

  lemma DigitsBack(ds: seq<nat>)
    requires IsDigits(ds, 10)
    ensures DigitValues(DigitText(ds)) == ds
  {
  }

  lemma {:induction false} IntRound(n: int, rest: seq<byte>)
    requires Ends(rest)
    ensures IntText(n) != [] && (IsDigit(IntText(n)[0]) || IntText(n)[0] == 45)
    ensures ReadInt(IntText(n) + rest) == Some((n, rest))
  {
    hide ReadNat, NatText, Ends;
    if n < 0 {
      NatRound(-n, rest);
      Signed(NatText(-n), rest);
    } else {
      NatRound(n, rest);
      assert (IntText(n) + rest)[0] == IntText(n)[0];
    }
  }

  lemma Signed(t: seq<byte>, rest: seq<byte>)
    ensures var s := [45] + t + rest; s[0] == 45 && s[1..] == t + rest
  {
  }
}
