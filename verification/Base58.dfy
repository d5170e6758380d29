/** Base58 and the did:key identifiers built on it. */
module Base58 {
  import opened Wrappers
  import opened Radix

  const DIGITS := "123456789"
  const UPPER_A_H := "ABCDEFGH"
  const UPPER_J_N := "JKLMN"
  const UPPER_P_Z := "PQRSTUVWXYZ"
  const LOWER_A_K := "abcdefghijk"
  const LOWER_M_Z := "mnopqrstuvwxyz"
  const ALPHABET := DIGITS + UPPER_A_H + UPPER_J_N + UPPER_P_Z + LOWER_A_K + LOWER_M_Z

  // The alphabet has 58 characters in increasing order, hence no character twice.

  predicate Increasing(s: string) {
    forall i :: 0 <= i < |s| - 1 ==> s[i] < s[i + 1]
  }

  lemma IncreasingConcat(a: string, b: string)
    requires Increasing(a) && Increasing(b) && a != [] && b != [] && a[|a| - 1] < b[0]
    ensures Increasing(a + b)
    ensures (a + b)[0] == a[0] && (a + b)[|a + b| - 1] == b[|b| - 1]
  {
    forall i | 0 <= i < |a + b| - 1
      ensures (a + b)[i] < (a + b)[i + 1]
    {
      if i < |a| - 1 {
        assert a[i] < a[i + 1];
      } else if i >= |a| {
        assert b[i - |a|] < b[i - |a| + 1];
      }
    }
  }

  lemma UpperRunsIncrease()
    ensures Increasing(DIGITS) && Increasing(UPPER_A_H) && Increasing(UPPER_J_N) && Increasing(UPPER_P_Z)
  {
  }

  lemma LowerRunsIncrease()
    ensures Increasing(LOWER_A_K) && Increasing(LOWER_M_Z)
  {
  }

  lemma RunEnds1()
    ensures |DIGITS| == 9 && DIGITS[0] == '1' && DIGITS[8] == '9'
    ensures |UPPER_A_H| == 8 && UPPER_A_H[0] == 'A' && UPPER_A_H[7] == 'H'
  {
  }

  lemma RunEnds2()
    ensures |UPPER_J_N| == 5 && UPPER_J_N[0] == 'J' && UPPER_J_N[4] == 'N'
    ensures |UPPER_P_Z| == 11 && UPPER_P_Z[0] == 'P' && UPPER_P_Z[10] == 'Z'
  {
  }

  lemma RunEnds3()
    ensures |LOWER_A_K| == 11 && LOWER_A_K[0] == 'a' && LOWER_A_K[10] == 'k'
    ensures |LOWER_M_Z| == 14 && LOWER_M_Z[0] == 'm' && LOWER_M_Z[13] == 'z'
  {
  }

  lemma AlphabetIncreases()
    ensures |ALPHABET| == 58 && Increasing(ALPHABET) && ALPHABET[0] == '1'
  {
    UpperRunsIncrease();
    LowerRunsIncrease();
    RunEnds1();
    RunEnds2();
    RunEnds3();
    IncreasingConcat(DIGITS, UPPER_A_H);
    IncreasingConcat(DIGITS + UPPER_A_H, UPPER_J_N);
    IncreasingConcat(DIGITS + UPPER_A_H + UPPER_J_N, UPPER_P_Z);
    IncreasingConcat(DIGITS + UPPER_A_H + UPPER_J_N + UPPER_P_Z, LOWER_A_K);
    IncreasingConcat(DIGITS + UPPER_A_H + UPPER_J_N + UPPER_P_Z + LOWER_A_K, LOWER_M_Z);
  }

  lemma {:induction false} AlphabetOrdered(i: nat, j: nat)
    requires i < j < 58
    ensures |ALPHABET| == 58 && ALPHABET[i] < ALPHABET[j]
  {
    AlphabetIncreases();
    if i + 1 < j {
      AlphabetOrdered(i, j - 1);
      assert ALPHABET[j - 1] < ALPHABET[j - 1 + 1];
    }
  }

  /** The digit a character stands for. */
  function DigitOf(c: char): (r: Option<nat>)
    ensures r.Some? <==> c in ALPHABET
    ensures r.Some? ==> r.value < |ALPHABET| && ALPHABET[r.value] == c
  {
    IndexOf(ALPHABET, c)
  }

  function IndexOf(s: string, c: char): (r: Option<nat>)
    ensures r.Some? <==> c in s
    ensures r.Some? ==> r.value < |s| && s[r.value] == c
  {
    if s == [] then None
    else if s[0] == c then Some(0)
    else
      match IndexOf(s[1..], c)
      case None => None
      case Some(i) => Some(i + 1)
  }

  lemma DigitOfAlphabet(d: nat)
    requires d < 58
    ensures |ALPHABET| == 58 && DigitOf(ALPHABET[d]) == Some(d)
  {
    AlphabetIncreases();
    var e := DigitOf(ALPHABET[d]).value;
    if e < d {
      AlphabetOrdered(e, d);
    } else if d < e {
      AlphabetOrdered(d, e);
    }
  }

  function ToChars(ds: seq<nat>): (s: string)
    requires IsDigits(ds, 58)
    ensures |s| == |ds|
  {
    AlphabetIncreases();
    seq(|ds|, i requires 0 <= i < |ds| => ALPHABET[ds[i]])
  }

  /** The digits a text stands for; None outside the alphabet. */
  function FromChars(text: string): (r: Option<seq<nat>>)
    ensures r.Some? ==> |r.value| == |text| && IsDigits(r.value, 58)
    ensures r.Some? ==> forall i :: 0 <= i < |text| ==> DigitOf(text[i]) == Some(r.value[i])
    ensures r.Some? <==> forall c :: c in text ==> c in ALPHABET
  {
    if text == [] then Some([])
    else
      var init, last := text[..|text| - 1], text[|text| - 1];
      assert text == init + [last];
      match (FromChars(init), DigitOf(last))
      case (Some(ds), Some(d)) => AlphabetIncreases(); Some(ds + [d])
      case _ => None
  }

  function Ones(k: nat): (s: string)
    ensures |s| == k && forall i :: 0 <= i < k ==> s[i] == '1'
  {
    if k == 0 then "" else Ones(k - 1) + "1"
  }

  // ----- the two conversions as functions -----

  function Encoded(data: seq<byte>): string {
    Ones(LeadingZeros(data)) + ToChars(Digits(Value(data, 256), 58))
  }

  lemma ZeroBytes(k: nat)
    ensures IsDigits(Zeros(k), 256)
  {
  }

  function Decoded(text: string): Option<seq<byte>> {
    if text == "" then None
    else
      match FromChars(text)
      case None => None
      case Some(ds) =>
        ZeroBytes(LeadingZeros(ds));
        Some(AsBytes(Zeros(LeadingZeros(ds))) + AsBytes(Digits(Value(ds, 58), 256)))
  }

  // ----- the two conversions as the source computes them -----

  method CountLeading<T(==)>(s: seq<T>, x: T) returns (k: nat)
    ensures k <= |s| && (forall i :: 0 <= i < k ==> s[i] == x) && (k < |s| ==> s[k] != x)
  {
    k := 0;
    while k < |s| && s[k] == x
      invariant k <= |s| && forall i :: 0 <= i < k ==> s[i] == x
    {
      k := k + 1;
    }
  }

  method Base58Encode(data: seq<byte>) returns (text: string)
    ensures text == Encoded(data)
  {
    var leading := CountLeading(data, 0);
    LeadingZerosIs(data, leading);
    var number := Value(data, 256);
    ghost var n := number;
    var digits: string := "";
    assert ToChars(Digits(n, 58)) + Backwards("") == ToChars(Digits(n, 58));
    while number > 0
      invariant ToChars(Digits(n, 58)) == ToChars(Digits(number, 58)) + Backwards(digits)
    {
      AlphabetIncreases();
      DigitStep(number, digits);
      var rem := number % 58;
      number := number / 58;
      digits := digits + [ALPHABET[rem]];
    }
    assert ToChars(Digits(0, 58)) + Backwards(digits) == Backwards(digits);
    text := Ones(leading) + Backwards(digits);
  }

  /** One round of the division loop moves the last digit from the number to the text. */
  lemma DigitStep(number: nat, digits: string)
    requires number > 0
    ensures |ALPHABET| == 58
    ensures ToChars(Digits(number, 58)) + Backwards(digits) ==
            ToChars(Digits(number / 58, 58)) + Backwards(digits + [ALPHABET[number % 58]])
  {
    AlphabetIncreases();
    var c := ALPHABET[number % 58];
    assert (digits + [c])[..|digits|] == digits;
    assert ToChars(Digits(number, 58)) == ToChars(Digits(number / 58, 58)) + [c];
  }

  function Backwards(s: string): (r: string)
    ensures |r| == |s| && forall i :: 0 <= i < |s| ==> r[i] == s[|s| - 1 - i]
  {
    if s == [] then [] else [s[|s| - 1]] + Backwards(s[..|s| - 1])
  }

  lemma {:induction false} LeadingZerosIs(ds: seq<nat>, k: nat)
    requires k <= |ds| && (forall i :: 0 <= i < k ==> ds[i] == 0) && (k < |ds| ==> ds[k] != 0)
    ensures LeadingZeros(ds) == k
  {
    if k > 0 {
      LeadingZerosIs(ds[1..], k - 1);
    }
  }

  method ParseNumber(text: string) returns (r: Option<nat>)
    ensures r == match FromChars(text) case None => None case Some(ds) => Some(Value(ds, 58))
  {
    var number: nat := 0;
    ghost var ds: seq<nat> := [];
    assert text[..0] == [];
    for i := 0 to |text|
      invariant FromChars(text[..i]) == Some(ds)
      invariant number == Value(ds, 58)
    {
      var digit := DigitOf(text[i]);
      assert text[..i + 1][..i] == text[..i];
      if digit.None? {
        assert text[i] in text;
        return None;
      }
      number := number * 58 + digit.value;
      ValueSnoc(ds, digit.value, 58);
      ds := ds + [digit.value];
    }
    assert text[..|text|] == text;
    r := Some(number);
  }

  method Base58Decode(text: string) returns (r: Option<seq<byte>>)
    ensures r == Decoded(text)
  {
    if text == "" {
      return None;
    }
    var number := ParseNumber(text);
    if number.None? {
      return None;
    }
    var leading := CountLeading(text, '1');
    OnesCount(text, leading);
    ZeroBytes(leading);
    r := Some(AsBytes(Zeros(leading)) + AsBytes(Digits(number.value, 256)));
  }

  lemma OnesCount(text: string, k: nat)
    requires FromChars(text).Some?
    requires k <= |text| && (forall i :: 0 <= i < k ==> text[i] == '1') && (k < |text| ==> text[k] != '1')
    ensures LeadingZeros(FromChars(text).value) == k
  {
    hide FromChars, DigitOf, LeadingZeros;
    var ds := FromChars(text).value;
    forall i | 0 <= i < |text|
      ensures text[i] == '1' <==> ds[i] == 0
    {
      OneIsZero(text[i], ds[i]);
    }
    LeadingZerosIs(ds, k);
  }

  lemma OneIsZero(c: char, d: nat)
    requires DigitOf(c) == Some(d)
    ensures c == '1' <==> d == 0
  {
    AlphabetIncreases();
    if d > 0 { AlphabetOrdered(0, d); }
  }

  // ----- a bijection between non-empty byte strings and non-empty alphabet texts -----

  lemma FromCharsToChars(ds: seq<nat>)
    requires IsDigits(ds, 58)
    ensures FromChars(ToChars(ds)) == Some(ds)
  {
    AlphabetIncreases();
    var text := ToChars(ds);
    forall i | 0 <= i < |text|
      ensures text[i] in ALPHABET && DigitOf(text[i]) == Some(ds[i])
    {
      DigitOfAlphabet(ds[i]);
    }
    assert FromChars(text).value == ds;
  }

  lemma ToCharsFromChars(text: string)
    requires FromChars(text).Some?
    ensures ToChars(FromChars(text).value) == text
  {
    var ds := FromChars(text).value;
    forall i | 0 <= i < |text|
      ensures ToChars(ds)[i] == text[i]
    {
      assert DigitOf(text[i]) == Some(ds[i]);
    }
  }

  lemma OnesAreZeros(k: nat, ds: seq<nat>)
    requires IsDigits(ds, 58)
    ensures IsDigits(Zeros(k) + ds, 58) && Ones(k) + ToChars(ds) == ToChars(Zeros(k) + ds)
  {
    AlphabetIncreases();
  }

  /** The number keeps its value and the zeros in front keep their count across a change of base. */
  lemma Rebase(k: nat, n: nat, base: nat)
    requires base >= 2
    ensures var ds := Zeros(k) + Digits(n, base);
            IsDigits(ds, base) && Value(ds, base) == n && LeadingZeros(ds) == k
  {
    ValueOfDigits(n, base);
    ValueSkipsZeros(k, Digits(n, base), base);
    LeadingZerosPrefix(k, Digits(n, base));
    assert n == 0 ==> Digits(n, base) == [];
  }

  lemma DecodeEncode(data: seq<byte>)
    requires data != []
    ensures Decoded(Encoded(data)) == Some(data)
  {
    var k, n := LeadingZeros(data), Value(data, 256);
    OnesAreZeros(k, Digits(n, 58));
    var ds := Zeros(k) + Digits(n, 58);
    FromCharsToChars(ds);
    Rebase(k, n, 58);
    ZerosThenDigits(data, 256);
    ValueOfDigits(n, 256);
    assert Encoded(data) != "";
  }

  lemma EncodeDecode(text: string)
    ensures Decoded(text).Some? <==> text != "" && forall c :: c in text ==> c in ALPHABET
    ensures Decoded(text).Some? ==> Decoded(text).value != [] && Encoded(Decoded(text).value) == text
  {
    if Decoded(text).Some? {
      var ds := FromChars(text).value;
      var k, n := LeadingZeros(ds), Value(ds, 58);
      Rebase(k, n, 256);
      assert Decoded(text).value == Zeros(k) + Digits(n, 256);
      ZerosThenDigits(ds, 58);
      OnesAreZeros(k, Digits(n, 58));
      ToCharsFromChars(text);
      ValueOfDigits(n, 256);
    }
  }

  // ----- did:key -----

  const MULTICODEC_ED25519_PREFIX: seq<byte> := [0xed, 0x01]
  const ED25519_PUBKEY_LEN: nat := 32

  /** `str.split` with a one-character separator. */
  function Split(s: string, sep: char): (parts: seq<string>)
    ensures parts != []
  {
    if s == [] then [[]]
    else
      var rest := Split(s[1..], sep);
      if s[0] == sep then [[]] + rest else [[s[0]] + rest[0]] + rest[1..]
  }

  function DidForPubkey(key: seq<byte>): Option<string> {
    if |key| != ED25519_PUBKEY_LEN then None
    else Some("did" + ":" + "key" + ":" + "z" + Encoded(MULTICODEC_ED25519_PREFIX + key))
  }

  function PubkeyBytesForDid(did: string): Option<seq<byte>> {
    var parts := Split(did, ':');
    if |parts| != 3 || parts[0] != "did" || parts[1] != "key" then None
    else if !("z" <= parts[2]) then None
    else
      match Decoded(parts[2][1..])
      case None => None
      case Some(fingerprint) =>
        if !(MULTICODEC_ED25519_PREFIX <= fingerprint) then None
        else
          var key := fingerprint[|MULTICODEC_ED25519_PREFIX|..];
          if |key| != ED25519_PUBKEY_LEN then None else Some(key)
  }

  datatype DidDocument = DidDocument(id: string, methodId: string, publicKeyMultibase: string)

  function ResolveDid(did: string): Option<DidDocument> {
    match PubkeyBytesForDid(did)
    case None => None
    case Some(key) =>
      if DidForPubkey(key) != Some(did) then None
      else
        var fingerprint := Encoded(MULTICODEC_ED25519_PREFIX + key);
        Some(DidDocument(did, did + "#" + fingerprint, "z" + fingerprint))
  }

  /** Split and join are inverse on the three parts of a did. */
  lemma {:induction false} SplitPlain(s: string, sep: char)
    requires sep !in s
    ensures Split(s, sep) == [s]
  {
    if s != [] {
      SplitPlain(s[1..], sep);
      assert [s[0]] + s[1..] == s;
    }
  }

  lemma {:induction false} SplitJoin(a: string, sep: char, b: string)
    requires sep !in a
    ensures Split(a + [sep] + b, sep) == [a] + Split(b, sep)
  {
    var s := a + [sep] + b;
    if a == [] {
      assert s[1..] == b;
    } else {
      SplitJoin(a[1..], sep, b);
      assert s[1..] == a[1..] + [sep] + b;
      assert [a[0]] + a[1..] == a;
    }
  }

  /** The parts put back together with the separator. */
  function Join(parts: seq<string>, sep: char): string
    requires parts != []
  {
    if |parts| == 1 then parts[0] else parts[0] + [sep] + Join(parts[1..], sep)
  }

  lemma {:induction false} JoinSplit(s: string, sep: char)
    ensures Join(Split(s, sep), sep) == s
  {
    if s != [] {
      JoinSplit(s[1..], sep);
      var rest := Split(s[1..], sep);
      if s[0] == sep {
        assert ([[]] + rest)[1..] == rest;
      } else {
        assert ([[s[0]] + rest[0]] + rest[1..])[1..] == rest[1..];
      }
    }
  }

  lemma EncodedStaysInAlphabet(data: seq<byte>, c: char)
    requires data != [] && c !in ALPHABET
    ensures c !in Encoded(data)
  {
    DecodeEncode(data);
    EncodeDecode(Encoded(data));
  }

  lemma ThreeParts(s: string, sep: char)
    requires |Split(s, sep)| == 3
    ensures var p := Split(s, sep); s == p[0] + [sep] + (p[1] + [sep] + p[2])
  {
    JoinSplit(s, sep);
    var p := Split(s, sep);
    assert p[1..][1..] == [p[2]];
    assert Join([p[2]], sep) == p[2];
    assert Join(p[1..], sep) == p[1] + [sep] + p[2];
  }

  /** A zero byte in front is a one in front. */
  lemma ZeroInFront(data: seq<byte>)
    ensures Encoded([]) == "" && Encoded([0] + data) == "1" + Encoded(data)
  {
    var more: seq<byte> := [0] + data;
    assert more[1..] == data;
    LeadingZeroByte(data);
    OneInFront(LeadingZeros(data));
    var ds := ToChars(Digits(Value(data, 256), 58));
    assert "1" + Ones(LeadingZeros(data)) + ds == "1" + (Ones(LeadingZeros(data)) + ds);
  }

  lemma {:induction false} LeadingZeroByte(data: seq<nat>)
    ensures Value([0] + data, 256) == Value(data, 256)
    decreases |data|
  {
    var more := [0] + data;
    if data == [] {
      assert more[..0] == [];
    } else {
      assert more[..|more| - 1] == [0] + data[..|data| - 1];
      LeadingZeroByte(data[..|data| - 1]);
    }
  }

  lemma OneInFront(k: nat)
    ensures Ones(k + 1) == "1" + Ones(k)
  {
  }

  /** Other bytes are the digits of their number, the highest first, none of them a leading zero. */
  lemma EncodedSays(data: seq<byte>) returns (ds: seq<nat>)
    requires data != [] && data[0] != 0
    ensures |ALPHABET| == 58 && ds != [] && ds[0] != 0 && forall i | 0 <= i < |ds| :: ds[i] < 58
    ensures Value(ds, 58) == Value(data, 256)
    ensures |Encoded(data)| == |ds| && forall i | 0 <= i < |ds| :: Encoded(data)[i] == ALPHABET[ds[i]]
  {
    AlphabetIncreases();
    ds := Digits(Value(data, 256), 58);
    ValueOfDigits(Value(data, 256), 58);
    DigitsOfValue(data, 256);
    assert Ones(0) + ToChars(ds) == ToChars(ds);
  }

  /** An identifier is `did:key:z` and the base58 of the bytes ED 01 and the key. */
  lemma DidSays(key: seq<byte>)
    ensures DidForPubkey(key) == if |key| == 32 then Some("did:key:z" + Encoded([0xED, 0x01] + key)) else None
    ensures |key| == 32 ==>
              var did, text := "did:key:z" + Encoded([0xED, 0x01] + key), Encoded([0xED, 0x01] + key);
              ResolveDid(did) == Some(DidDocument(did, did + "#" + text, "z" + text))
  {
    hide Encoded, Decoded, Split, PubkeyBytesForDid;
    assert "did" + ":" + "key" + ":" + "z" == "did:key:z";
    if |key| == 32 { DidParses(key); }
  }

  /** Whatever key a did parses to, the did is that key's canonical identifier: the recheck that
      resolution makes can never fail. */
  lemma ParsedDidIsCanonical(did: string)
    requires PubkeyBytesForDid(did).Some?
    ensures DidForPubkey(PubkeyBytesForDid(did).value) == Some(did)
  {
    hide Encoded, Decoded, Split;
    var parts := Split(did, ':');
    var body := parts[2][1..];
    var fingerprint := Decoded(body).value;
    EncodeDecode(body);
    assert fingerprint == MULTICODEC_ED25519_PREFIX + fingerprint[2..];
    ThreeParts(did, ':');
    assert parts[2] == "z" + body;
    assert did == "did" + ":" + "key" + ":" + "z" + body;
  }

  /** Resolution finds the key of every identifier built from a 32-byte key. */
  lemma DidParses(key: seq<byte>)
    requires |key| == ED25519_PUBKEY_LEN
    ensures PubkeyBytesForDid(DidForPubkey(key).value) == Some(key)
  {
    hide Encoded, Decoded, Split;
    var did := DidForPubkey(key).value;
    var data := MULTICODEC_ED25519_PREFIX + key;
    var body := "z" + Encoded(data);
    EncodedStaysInAlphabet(data, ':');
    assert did == "did" + [':'] + ("key" + [':'] + body);
    SplitJoin("did", ':', "key" + [':'] + body);
    SplitJoin("key", ':', body);
    SplitPlain(body, ':');
    assert Split(did, ':') == ["did", "key", body];
    assert body[1..] == Encoded(data);
    DecodeEncode(data);
    assert data[2..] == key;
  }

  /** `resolve_did` accepts exactly the identifiers of 32-byte keys, and each names one key. */
  lemma ResolvesExactly(did: string)
    ensures ResolveDid(did).Some? <==> exists key: seq<byte> :: DidForPubkey(key) == Some(did)
    ensures ResolveDid(did).Some? ==> ResolveDid(did).value.id == did
    ensures forall k1: seq<byte>, k2: seq<byte> ::
              DidForPubkey(k1) == Some(did) && DidForPubkey(k2) == Some(did) ==> k1 == k2
  {
    forall key: seq<byte> | DidForPubkey(key) == Some(did)
      ensures PubkeyBytesForDid(did) == Some(key)
    {
      DidParses(key);
    }
    if ResolveDid(did).Some? {
      var key := PubkeyBytesForDid(did).value;
      assert DidForPubkey(key) == Some(did);
    }
  }
}
