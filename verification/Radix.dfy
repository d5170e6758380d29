/** Bytes, and positional notation in any base: the arithmetic under base58 and CBOR integers. */
module Radix {

  type byte = n: int | 0 <= n < 256

  /** A sequence of digits of base `base`, most significant first. */
  predicate IsDigits(ds: seq<nat>, base: nat) {
    forall i :: 0 <= i < |ds| ==> ds[i] < base
  }

  function Value(ds: seq<nat>, base: nat): nat {
    if ds == [] then 0 else Value(ds[..|ds| - 1], base) * base + ds[|ds| - 1]
  }

  /** The shortest digits of `n`: none for zero. */
  function Digits(n: nat, base: nat): (ds: seq<nat>)
    requires base >= 2
    ensures IsDigits(ds, base)
  {
    if n == 0 then [] else Digits(n / base, base) + [n % base]
  }

  /** `width` digits of `n`, padded with zeros. */
  function Fixed(n: nat, base: nat, width: nat): (ds: seq<nat>)
    requires base >= 2
    ensures IsDigits(ds, base) && |ds| == width
  {
    if width == 0 then [] else Fixed(n / base, base, width - 1) + [n % base]
  }

  function Pow(base: nat, e: nat): nat {
    if e == 0 then 1 else base * Pow(base, e - 1)
  }

  function LeadingZeros(ds: seq<nat>): (k: nat)
    ensures k <= |ds|
    ensures forall i :: 0 <= i < k ==> ds[i] == 0
    ensures k < |ds| ==> ds[k] != 0
  {
    if ds != [] && ds[0] == 0 then 1 + LeadingZeros(ds[1..]) else 0
  }

  function Zeros(k: nat): (ds: seq<nat>)
    ensures |ds| == k && forall i :: 0 <= i < k ==> ds[i] == 0
  {
    if k == 0 then [] else Zeros(k - 1) + [0]
  }

  lemma ValueSnoc(init: seq<nat>, last: nat, base: nat)
    ensures Value(init + [last], base) == Value(init, base) * base + last
  {
    assert (init + [last])[..|init|] == init;
  }

  lemma DivMod(n: nat, base: nat)
    requires base >= 2
    ensures n == n / base * base + n % base
  {
  }

  lemma DivSmaller(n: nat, base: nat)
    requires base >= 2 && n > 0
    ensures n / base < n && n == n / base * base + n % base
  {
  }

  lemma QuotientUnique(q: nat, r: nat, q': nat, r': nat, base: nat)
    requires r < base && r' < base && q * base + r == q' * base + r'
    ensures q == q'
  {
    assert (q + 1) * base == q * base + base && (q' + 1) * base == q' * base + base;
    if q < q' {
      Monotone(q + 1, q', base);
    } else if q' < q {
      Monotone(q' + 1, q, base);
    }
  }

  lemma DivModUnique(q: nat, r: nat, base: nat)
    requires r < base
    ensures (q * base + r) / base == q && (q * base + r) % base == r
  {
    var n := q * base + r;
    assert n == n / base * base + n % base;
    QuotientUnique(n / base, n % base, q, r, base);
  }

  lemma Monotone(a: nat, b: nat, c: nat)
    requires a <= b
    ensures a * c <= b * c
  {
  }

  lemma {:induction false} ValueOfDigits(n: nat, base: nat)
    requires base >= 2
    ensures Value(Digits(n, base), base) == n
    ensures n > 0 ==> Digits(n, base) != [] && Digits(n, base)[0] != 0
  {
    if n > 0 {
      DivSmaller(n, base);
      ValueOfDigits(n / base, base);
      assert Digits(n, base)[..|Digits(n, base)| - 1] == Digits(n / base, base);
    }
  }

  /** Digits that do not start with zero are the shortest digits of their value. */
  lemma {:induction false} DigitsOfValue(ds: seq<nat>, base: nat)
    requires base >= 2 && IsDigits(ds, base)
    requires ds != [] ==> ds[0] != 0
    ensures Digits(Value(ds, base), base) == ds
  {
    if ds != [] {
      var init, last := ds[..|ds| - 1], ds[|ds| - 1];
      DigitsOfValue(init, base);
      DivModUnique(Value(init, base), last, base);
      assert Value(ds, base) > 0 by {
        if init != [] { ValuePositive(init, base); }
        if Value(init, base) > 0 { Monotone(1, Value(init, base), base); }
      }
      assert init + [last] == ds;
    }
  }

  lemma {:induction false} ValuePositive(ds: seq<nat>, base: nat)
    requires base >= 2 && ds != [] && ds[0] != 0
    ensures Value(ds, base) > 0
  {
    if |ds| > 1 {
      ValuePositive(ds[..|ds| - 1], base);
      Monotone(1, Value(ds[..|ds| - 1], base), base);
    }
  }

  /** Leading zeros carry no value. */
  lemma {:induction false} ValueSkipsZeros(k: nat, ds: seq<nat>, base: nat)
    ensures Value(Zeros(k) + ds, base) == Value(ds, base)
  {
    if ds == [] {
      assert Zeros(k) + ds == Zeros(k);
      if k > 0 {
        ValueSkipsZeros(k - 1, [], base);
        assert Zeros(k)[..k - 1] == Zeros(k - 1) && Zeros(k - 1) + [] == Zeros(k - 1);
      }
    } else {
      ValueSkipsZeros(k, ds[..|ds| - 1], base);
      assert (Zeros(k) + ds)[..k + |ds| - 1] == Zeros(k) + ds[..|ds| - 1];
    }
  }

  /** Any digits are their leading zeros followed by the shortest digits of their value. */
  lemma ZerosThenDigits(ds: seq<nat>, base: nat)
    requires base >= 2 && IsDigits(ds, base)
    ensures ds == Zeros(LeadingZeros(ds)) + Digits(Value(ds, base), base)
  {
    var k := LeadingZeros(ds);
    assert ds == Zeros(k) + ds[k..];
    ValueSkipsZeros(k, ds[k..], base);
    DigitsOfValue(ds[k..], base);
  }

  /** The leading zeros of a number written with `k` zeros in front of its shortest digits. */
  lemma {:induction false} LeadingZerosPrefix(k: nat, ds: seq<nat>)
    requires ds != [] ==> ds[0] != 0
    ensures LeadingZeros(Zeros(k) + ds) == k
  {
    if k > 0 {
      assert (Zeros(k) + ds)[1..] == Zeros(k - 1) + ds;
      LeadingZerosPrefix(k - 1, ds);
    } else {
      assert Zeros(0) + ds == ds;
    }
  }

  lemma {:induction false} ValueOfFixed(n: nat, base: nat, width: nat)
    requires base >= 2 && n < Pow(base, width)
    ensures Value(Fixed(n, base, width), base) == n
  {
    if width > 0 {
      var q, r := n / base, n % base;
      assert n == q * base + r by { DivMod(n, base); }
      assert Value(Fixed(q, base, width - 1), base) == q by {
        QuotientBound(n, base, width);
        ValueOfFixed(q, base, width - 1);
      }
      ValueSnoc(Fixed(q, base, width - 1), r, base);
    }
  }

  lemma QuotientBound(n: nat, base: nat, width: nat)
    requires base >= 2 && width > 0 && n < Pow(base, width)
    ensures n / base < Pow(base, width - 1)
  {
    var p := Pow(base, width - 1);
    DivLess(n, p, base);
    assert Pow(base, width) == p * base;
  }

  lemma DivLess(n: nat, p: nat, base: nat)
    requires base >= 2
    ensures n / base < p <==> n < p * base
  {
    var q := n / base;
    assert n == q * base + n % base;
    assert (q + 1) * base == q * base + base;
    if q < p {
      Monotone(q + 1, p, base);
    } else {
      Monotone(p, q, base);
    }
  }

  lemma {:induction false} FixedOfValue(ds: seq<nat>, base: nat)
    requires base >= 2 && IsDigits(ds, base)
    ensures Fixed(Value(ds, base), base, |ds|) == ds
    ensures Value(ds, base) < Pow(base, |ds|)
  {
    if ds != [] {
      var init, last := ds[..|ds| - 1], ds[|ds| - 1];
      FixedOfValue(init, base);
      DivModUnique(Value(init, base), last, base);
      StepBound(Value(init, base), last, Pow(base, |init|), base);
      assert init + [last] == ds;
    }
  }

  lemma StepBound(v: nat, last: nat, p: nat, base: nat)
    requires v < p && last < base
    ensures v * base + last < p * base
  {
    Monotone(v + 1, p, base);
    assert (v + 1) * base == v * base + base;
  }

  /** The number of shortest digits. */
  lemma {:induction false} DigitsLength(n: nat, base: nat, width: nat)
    requires base >= 2
    ensures |Digits(n, base)| <= width <==> n < Pow(base, width)
  {
    if n > 0 && width > 0 {
      DivSmaller(n, base);
      DigitsLength(n / base, base, width - 1);
      DivLess(n, Pow(base, width - 1), base);
    } else if n == 0 {
      PowPositive(base, width);
    }
  }

  lemma {:induction false} PowPositive(base: nat, e: nat)
    requires base >= 1
    ensures Pow(base, e) >= 1
  {
    if e > 0 {
      PowPositive(base, e - 1);
      Monotone(1, Pow(base, e - 1), base);
    }
  }

  function AsBytes(ds: seq<nat>): (bs: seq<byte>)
    requires IsDigits(ds, 256)
    ensures bs == ds
  {
    seq(|ds|, i requires 0 <= i < |ds| => ds[i])
  }

  /** Big-endian bytes of a given width. */
  function BigEndian(n: nat, width: nat): (bs: seq<byte>)
    ensures |bs| == width
  {
    AsBytes(Fixed(n, 256, width))
  }

  lemma ByteWidths()
    ensures Pow(256, 1) == 0x100
    ensures Pow(256, 2) == 0x1_0000
    ensures Pow(256, 4) == 0x1_0000_0000
    ensures Pow(256, 8) == 0x1_0000_0000_0000_0000
  {
    assert Pow(256, 3) == 256 * Pow(256, 2);
    assert Pow(256, 4) == 256 * Pow(256, 3);
    assert Pow(256, 5) == 256 * Pow(256, 4);
    assert Pow(256, 6) == 256 * Pow(256, 5);
    assert Pow(256, 7) == 256 * Pow(256, 6);
  }
}
