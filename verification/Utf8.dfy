/** Well-formed UTF-8 is the writing of code points, section 3 of RFC 3629. */
module Utf8 {
  import opened Radix
  import opened CborSyntax

  predicate IsScalar(c: nat) {
    c < 0xD800 || 0xE000 <= c < 0x11_0000
  }

  /** A code point in one to four bytes. */
  function Encoded(c: nat): seq<byte>
    requires IsScalar(c)
  {
    if c < 0x80 then [c]
    else if c < 0x800 then [0xC0 + c / 0x40, 0x80 + c % 0x40]
    else if c < 0x1_0000 then [0xE0 + c / 0x1000, 0x80 + c / 0x40 % 0x40, 0x80 + c % 0x40]
    else [0xF0 + c / 0x4_0000, 0x80 + c / 0x1000 % 0x40, 0x80 + c / 0x40 % 0x40, 0x80 + c % 0x40]
  }

  predicate AreScalars(cs: seq<nat>) {
    forall i | 0 <= i < |cs| :: IsScalar(cs[i])
  }

  function EncodedAll(cs: seq<nat>): seq<byte>
    requires AreScalars(cs)
  {
    if cs == [] then [] else Encoded(cs[0]) + EncodedAll(cs[1..])
  }

  lemma EncodedIsValid(c: nat, rest: seq<byte>)
    requires IsScalar(c)
    ensures ValidUtf8(Encoded(c) + rest) <==> ValidUtf8(rest)
  {
    var s := Encoded(c) + rest;
    if c < 0x80 {
      assert s[1..] == rest;
    } else if c < 0x800 {
      assert s[2..] == rest;
    } else if c < 0x1_0000 {
      assert s[3..] == rest;
    } else {
      assert s[4..] == rest;
    }
  }

  lemma SixBits(a: nat, b: nat)
    requires b < 0x40
    ensures (a * 0x40 + b) / 0x40 == a && (a * 0x40 + b) % 0x40 == b
  {
  }

  lemma TwelveBits(a: nat, b: nat, c: nat)
    requires b < 0x40 && c < 0x40
    ensures var n := a * 0x1000 + b * 0x40 + c;
            n / 0x1000 == a && n / 0x40 % 0x40 == b && n % 0x40 == c
  {
    SixBits(a * 0x40 + b, c);
    SixBits(a, b);
  }

  lemma EighteenBits(a: nat, b: nat, c: nat, d: nat)
    requires b < 0x40 && c < 0x40 && d < 0x40
    ensures var n := a * 0x4_0000 + b * 0x1000 + c * 0x40 + d;
            n / 0x4_0000 == a && n / 0x1000 % 0x40 == b && n / 0x40 % 0x40 == c && n % 0x40 == d
  {
    TwelveBits(a * 0x40 + b, c, d);
    SixBits(a, b);
  }

  /** What the bytes behind the first hold. */
  function Low(b: byte): (n: nat)
    requires IsTail(b)
    ensures n < 0x40 && b == 0x80 + n
  {
    b - 0x80
  }

  /** The code point at the front of well-formed bytes, and what is behind it. */
  lemma TakeScalar(b: seq<byte>) returns (c: nat, rest: seq<byte>)
    requires b != [] && ValidUtf8(b)
    ensures IsScalar(c) && b == Encoded(c) + rest && |rest| < |b|
  {
    if b[0] < 0x80 {
      c, rest := b[0], b[1..];
    } else if b[0] <= 0xDF {
      var x: nat := b[0] - 0xC0;
      c, rest := x * 0x40 + Low(b[1]), b[2..];
      SixBits(x, Low(b[1]));
      assert b == [b[0], b[1]] + rest;
    } else if b[0] <= 0xEF {
      c := TakeThree(b);
      rest := b[3..];
    } else {
      c := TakeFour(b);
      rest := b[4..];
    }
  }

  lemma TakeThree(b: seq<byte>) returns (c: nat)
    requires b != [] && ValidUtf8(b) && 0xE0 <= b[0] <= 0xEF
    ensures IsScalar(c) && |b| >= 3 && b == Encoded(c) + b[3..]
  {
    var x: nat := b[0] - 0xE0;
    c := x * 0x1000 + Low(b[1]) * 0x40 + Low(b[2]);
    TwelveBits(x, Low(b[1]), Low(b[2]));
    assert b == [b[0], b[1], b[2]] + b[3..];
  }

  lemma TakeFour(b: seq<byte>) returns (c: nat)
    requires b != [] && ValidUtf8(b) && 0xF0 <= b[0]
    ensures IsScalar(c) && |b| >= 4 && b == Encoded(c) + b[4..]
  {
    var x: nat := b[0] - 0xF0;
    c := x * 0x4_0000 + Low(b[1]) * 0x1000 + Low(b[2]) * 0x40 + Low(b[3]);
    EighteenBits(x, Low(b[1]), Low(b[2]), Low(b[3]));
    assert b == [b[0], b[1], b[2], b[3]] + b[4..];
  }

  lemma {:induction false} AllEncodedIsValid(cs: seq<nat>)
    requires AreScalars(cs)
    ensures ValidUtf8(EncodedAll(cs))
  {
    if cs != [] {
      AllEncodedIsValid(cs[1..]);
      EncodedIsValid(cs[0], EncodedAll(cs[1..]));
    }
  }

  lemma {:induction false} Decoded(b: seq<byte>) returns (cs: seq<nat>)
    requires ValidUtf8(b)
    ensures AreScalars(cs) && b == EncodedAll(cs)
    decreases |b|
  {
    hide ValidUtf8, Encoded, IsScalar;
    if b == [] {
      cs := [];
    } else {
      var c, rest := TakeScalar(b);
      EncodedIsValid(c, rest);
      var more := Decoded(rest);
      cs := [c] + more;
      assert cs[1..] == more;
    }
  }

  /** Bytes are well-formed exactly when they are the writing of code points. */
  lemma ValidIff(b: seq<byte>)
    ensures ValidUtf8(b) <==> exists cs: seq<nat> | AreScalars(cs) :: b == EncodedAll(cs)
  {
    if ValidUtf8(b) { var cs := Decoded(b); }
    if exists cs: seq<nat> | AreScalars(cs) :: b == EncodedAll(cs) {
      var cs: seq<nat> :| AreScalars(cs) && b == EncodedAll(cs);
      AllEncodedIsValid(cs);
    }
  }
}
