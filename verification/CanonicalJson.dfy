/** The canonical JSON writer and a reader that undoes it.  Strings are held as their UTF-8 bytes, objects
    as maps, so that equality of values ignores key order. */
module CanonicalJson {
  import opened Wrappers
  import opened Radix
  import opened CborSyntax
  import opened CborOrder
  import opened CanonicalNumber
  import opened CanonicalFloat

  datatype Json =
    | JNull
    | JBool(on: bool)
    | JNumber(x: Number)
    | JStr(b: seq<byte>)
    | JArr(items: seq<Json>)
    | JObj(m: map<seq<byte>, Json>)

  const MAX_DEPTH: nat := 128

  // ----- strings -----

  function HexDigit(n: nat): byte
    requires n < 16
  {
    if n < 10 then 48 + n else 87 + n
  }

  function HexValue(c: byte): Option<nat> {
    if 48 <= c <= 57 then Some(c - 48) else if 97 <= c <= 102 then Some(c - 87) else None
  }

  /** One byte of a string: short escapes, \u00XX for other control characters, itself otherwise. */
  function Escape(c: byte): (r: seq<byte>)
    ensures r != []
  {
    if c == 34 then [92, 34]
    else if c == 92 then [92, 92]
    else if c == 10 then [92, 110]
    else if c == 13 then [92, 114]
    else if c == 9 then [92, 116]
    else if c == 8 then [92, 98]
    else if c == 12 then [92, 102]
    else if c < 32 then [92, 117, 48, 48, HexDigit(c / 16), HexDigit(c % 16)]
    else [c]
  }

  function EscapeAll(b: seq<byte>): seq<byte> {
    if b == [] then [] else Escape(b[0]) + EscapeAll(b[1..])
  }

  function StrText(b: seq<byte>): seq<byte> {
    [34] + EscapeAll(b) + [34]
  }

  /** The byte that stands at the front of a string's text, and how much of it that takes. */
  function Unescape(s: seq<byte>): (r: Option<(byte, nat)>)
    ensures r.Some? ==> 0 < r.value.1 <= |s|
  {
    if s == [] || s[0] < 32 || s[0] == 34 then None
    else if s[0] != 92 then Some((s[0], 1))
    else if |s| < 2 then None
    else if s[1] == 34 then Some((34, 2))
    else if s[1] == 92 then Some((92, 2))
    else if s[1] == 110 then Some((10, 2))
    else if s[1] == 114 then Some((13, 2))
    else if s[1] == 116 then Some((9, 2))
    else if s[1] == 98 then Some((8, 2))
    else if s[1] == 102 then Some((12, 2))
    else if s[1] != 117 || |s| < 6 || s[2] != 48 || s[3] != 48 then None
    else if HexValue(s[4]).None? || HexValue(s[5]).None? then None
    else Some((HexValue(s[4]).value * 16 + HexValue(s[5]).value, 6))
  }

  lemma UnescapeRound(c: byte, rest: seq<byte>)
    ensures Unescape(Escape(c) + rest) == Some((c, |Escape(c)|))
    ensures (Escape(c) + rest)[|Escape(c)|..] == rest && (Escape(c) + rest)[0] != 34
  {
    var s := Escape(c) + rest;
    if c < 32 && c !in {10, 13, 9, 8, 12} {
      assert s[4] == HexDigit(c / 16) && s[5] == HexDigit(c % 16);
    }
  }

  /** The rest of a string behind its opening quote. */
  function ReadChars(s: seq<byte>): (r: Option<(seq<byte>, seq<byte>)>)
    ensures r.Some? ==> |r.value.1| < |s|
    decreases |s|
  {
    if s == [] then None
    else if s[0] == 34 then Some(([], s[1..]))
    else
      match Unescape(s)
      case None => None
      case Some((c, k)) =>
        match ReadChars(s[k..])
        case None => None
        case Some((b, t)) => Some(([c] + b, t))
  }

  lemma {:induction false} CharsRound(b: seq<byte>, rest: seq<byte>)
    ensures ReadChars(EscapeAll(b) + ([34] + rest)) == Some((b, rest))
  {
    hide Escape, Unescape;
    var tail := [34] + rest;
    if b == [] {
      assert EscapeAll(b) + tail == tail && tail[1..] == rest;
    } else {
      var e, more := Escape(b[0]), EscapeAll(b[1..]) + tail;
      assert EscapeAll(b) + tail == e + more;
      UnescapeRound(b[0], more);
      CharsRound(b[1..], rest);
      assert b == [b[0]] + b[1..];
    }
  }

  lemma {:induction false} StrRound(b: seq<byte>, rest: seq<byte>)
    ensures var s := StrText(b) + rest; s[0] == 34 && ReadChars(s[1..]) == Some((b, rest))
  {
    var s := StrText(b) + rest;
    assert s[1..] == EscapeAll(b) + ([34] + rest);
    CharsRound(b, rest);
  }

  // ----- keys in order -----

  predicate IsLeast(k: seq<byte>, ks: set<seq<byte>>) {
    k in ks && forall x <- ks :: x == k || LexLess(k, x)
  }

  lemma {:induction false} LeastExists(ks: set<seq<byte>>)
    requires ks != {}
    ensures exists k :: IsLeast(k, ks)
    decreases |ks|
  {
    var k :| k in ks;
    var others := ks - {k};
    if others == {} {
      assert ks == {k};
      assert IsLeast(k, ks);
    } else {
      LeastExists(others);
      var l :| IsLeast(l, others);
      LexTotal(k, l);
      if LexLess(k, l) {
        forall x <- ks ensures x == k || LexLess(k, x) {
          if x != k && x != l {
            assert x in others;
            LexTransitive(k, l, x);
          }
        }
        assert IsLeast(k, ks);
      } else {
        forall x <- ks ensures x == l || LexLess(l, x) {
          if x != k { assert x in others; }
        }
        assert IsLeast(l, ks);
      }
    }
  }

  /** Keys in the order they are written: by their UTF-8 bytes. */
  ghost function InOrder(ks: set<seq<byte>>): (r: seq<seq<byte>>)
    ensures forall k :: k in r <==> k in ks
    ensures |r| == |ks|
    decreases |ks|
  {
    if ks == {} then []
    else
      LeastExists(ks);
      var k :| IsLeast(k, ks);
      [k] + InOrder(ks - {k})
  }

  // ----- writing -----

  ghost function Text(v: Json): (r: seq<byte>)
    decreases v
  {
    match v
    case JNull => [110, 117, 108, 108]
    case JBool(on) => if on then [116, 114, 117, 101] else [102, 97, 108, 115, 101]
    case JNumber(x) => NumberText(x)
    case JStr(b) => StrText(b)
    case JArr(items) => [91] + ItemsText(items) + [93]
    case JObj(m) => [123] + EntriesText(v, InOrder(m.Keys)) + [125]
  }

  ghost function ItemsText(items: seq<Json>): seq<byte>
    decreases items, 0
  {
    if items == [] then []
    else if |items| == 1 then Text(items[0])
    else Text(items[0]) + [44] + ItemsText(items[1..])
  }

  ghost function EntriesText(v: Json, ks: seq<seq<byte>>): seq<byte>
    requires v.JObj? && forall k <- ks :: k in v.m
    decreases v, 0, |ks|
  {
    if ks == [] then []
    else if |ks| == 1 then EntryText(v, ks[0])
    else EntryText(v, ks[0]) + [44] + EntriesText(v, ks[1..])
  }

  ghost function EntryText(v: Json, k: seq<byte>): seq<byte>
    requires v.JObj? && k in v.m
    decreases v, 0, 0
  {
    StrText(k) + [58] + Text(v.m[k])
  }

  /** No value inside lies deeper than the limit. */
  predicate FitsDepth(v: Json, depth: nat)
    decreases v
  {
    depth <= MAX_DEPTH &&
    match v
    case JArr(items) => forall i | 0 <= i < |items| :: FitsDepth(items[i], depth + 1)
    case JObj(m) => forall k <- m :: FitsDepth(m[k], depth + 1)
    case _ => true
  }

  /** No number inside is beyond the range of floats. */
  predicate InRange(v: Json)
    decreases v
  {
    match v
    case JNumber(x) => !x.Beyond?
    case JArr(items) => forall i | 0 <= i < |items| :: InRange(items[i])
    case JObj(m) => forall k <- m :: InRange(m[k])
    case _ => true
  }

  predicate Writable(v: Json, depth: nat) {
    FitsDepth(v, depth) && InRange(v)
  }

  ghost function Written(v: Json): Option<seq<byte>> {
    if Writable(v, 0) then Some(Text(v)) else None
  }

  // ----- reading -----

  function Read(s: seq<byte>): (r: Option<(Json, seq<byte>)>)
    ensures r.Some? ==> |r.value.1| < |s|
    decreases |s|, 2
  {
    if s == [] then None
    else if [110, 117, 108, 108] <= s then Some((JNull, s[4..]))
    else if [116, 114, 117, 101] <= s then Some((JBool(true), s[4..]))
    else if [102, 97, 108, 115, 101] <= s then Some((JBool(false), s[5..]))
    else if s[0] == 34 then
      match ReadChars(s[1..])
      case None => None
      case Some((b, t)) => Some((JStr(b), t))
    else if s[0] == 91 then
      if |s| > 1 && s[1] == 93 then Some((JArr([]), s[2..]))
      else
        match ReadItems(s[1..])
        case None => None
        case Some((items, t)) => Some((JArr(items), t))
    else if s[0] == 123 then
      if |s| > 1 && s[1] == 125 then Some((JObj(map[]), s[2..]))
      else
        match ReadEntries(s[1..])
        case None => None
        case Some((m, t)) => Some((JObj(m), t))
    else
      match ReadNumber(s)
      case None => None
      case Some((x, t)) => Some((JNumber(x), t))
  }

  /** Items up to the closing bracket. */
  function ReadItems(s: seq<byte>): (r: Option<(seq<Json>, seq<byte>)>)
    ensures r.Some? ==> |r.value.1| < |s|
    decreases |s|, 3
  {
    match Read(s)
    case None => None
    case Some((v, t)) =>
      if t == [] then None
      else if t[0] == 93 then Some(([v], t[1..]))
      else if t[0] != 44 then None
      else
        match ReadItems(t[1..])
        case None => None
        case Some((vs, u)) => Some(([v] + vs, u))
  }

  /** One key, a colon and a value. */
  function ReadEntry(s: seq<byte>): (r: Option<(seq<byte>, Json, seq<byte>)>)
    ensures r.Some? ==> |r.value.2| < |s|
    decreases |s|, 3
  {
    if s == [] || s[0] != 34 then None
    else
      match ReadChars(s[1..])
      case None => None
      case Some((k, t)) =>
        if t == [] || t[0] != 58 then None
        else
          match Read(t[1..])
          case None => None
          case Some((v, u)) => Some((k, v, u))
  }

  /** Entries up to the closing brace. */
  function ReadEntries(s: seq<byte>): (r: Option<(map<seq<byte>, Json>, seq<byte>)>)
    ensures r.Some? ==> |r.value.1| < |s|
    decreases |s|, 4
  {
    match ReadEntry(s)
    case None => None
    case Some((k, v, t)) =>
      if t == [] then None
      else if t[0] == 125 then Some((map[k := v], t[1..]))
      else if t[0] != 44 then None
      else
        match ReadEntries(t[1..])
        case None => None
        case Some((m, u)) => Some((m[k := v], u))
  }

  // ----- the round trip -----

  /** Where each kind of value begins. */
  lemma {:induction false} TextStarts(v: Json)
    requires InRange(v)
    ensures Text(v) != [] && Text(v)[0] != 93
  {
    if v.JNumber? { NumberStarts(v.x); }
  }

  lemma {:induction false} ReadText(v: Json, rest: seq<byte>)
    requires InRange(v) && Stops(rest)
    ensures Read(Text(v) + rest) == Some((v, rest))
    decreases v, 1
  {
    hide Read, ReadItems, ReadEntries, ReadNumber, NumberText, ReadChars, InOrder, ItemsText, EntriesText, Restricted;
    match v
    case JNull => ReadWord(Text(v), rest);
    case JBool(_) => ReadWord(Text(v), rest);
    case JNumber(x) =>
      NumberStarts(x);
      NumberRound(x, rest);
      ReadsNumber(NumberText(x), rest);
    case JStr(b) =>
      StrRound(b, rest);
      ReadsStr(StrText(b) + rest);
    case JArr(items) =>
      if items == [] {
        ReadsNone(items, rest);
      } else {
        ReadItemsText(items, rest);
        ItemsStart(items, [93] + rest);
        ReadsArr(ItemsText(items), rest);
      }
    case JObj(m) =>
      var ks := InOrder(m.Keys);
      if ks == [] {
        NoKeys(m);
        ReadsNothing(v, rest);
      } else {
        OrderDistinct(m.Keys);
        ReadEntriesText(v, ks, rest);
        EntriesStart(v, ks, [125] + rest);
        ReadsObj(EntriesText(v, ks), rest);
        AllOf(m, ks);
      }
  }

  lemma ReadsNumber(t: seq<byte>, rest: seq<byte>)
    requires t != [] && (IsDigit(t[0]) || t[0] == 45)
    ensures Read(t + rest) == match ReadNumber(t + rest) case None => None case Some((x, u)) => Some((JNumber(x), u))
  {
    assert (t + rest)[0] == t[0];
  }

  lemma ReadsStr(s: seq<byte>)
    requires s != [] && s[0] == 34
    ensures Read(s) == match ReadChars(s[1..]) case None => None case Some((b, t)) => Some((JStr(b), t))
  {
  }

  lemma ReadsNone(items: seq<Json>, rest: seq<byte>)
    requires items == []
    ensures Read([91] + ItemsText(items) + [93] + rest) == Some((JArr([]), rest))
  {
    var s := [91] + ItemsText(items) + [93] + rest;
    assert s == [91, 93] + rest && s[2..] == rest && s[0] == 91 && s[1] == 93;
  }

  lemma ReadsArr(t: seq<byte>, rest: seq<byte>)
    requires var u := t + ([93] + rest); u != [] && u[0] != 93
    ensures Read([91] + t + [93] + rest) ==
            match ReadItems(t + ([93] + rest)) case None => None case Some((items, u)) => Some((JArr(items), u))
  {
    var s := [91] + t + [93] + rest;
    assert s[1..] == t + ([93] + rest) && s[0] == 91;
  }

  lemma ReadsNothing(v: Json, rest: seq<byte>)
    requires v == JObj(map[])
    ensures Read([123] + EntriesText(v, []) + [125] + rest) == Some((v, rest))
  {
    var s := [123] + EntriesText(v, []) + [125] + rest;
    assert s == [123, 125] + rest && s[2..] == rest && s[0] == 123 && s[1] == 125;
  }

  lemma ReadsObj(t: seq<byte>, rest: seq<byte>)
    requires var u := t + ([125] + rest); u != [] && u[0] == 34
    ensures Read([123] + t + [125] + rest) ==
            match ReadEntries(t + ([125] + rest)) case None => None case Some((m, u)) => Some((JObj(m), u))
  {
    var s := [123] + t + [125] + rest;
    assert s[1..] == t + ([125] + rest) && s[0] == 123;
  }

  lemma AllOf(m: map<seq<byte>, Json>, ks: seq<seq<byte>>)
    requires forall k :: k in ks <==> k in m
    ensures Restricted(m, ks) == m
  {
  }

  lemma NoKeys(m: map<seq<byte>, Json>)
    requires InOrder(m.Keys) == []
    ensures m == map[]
  {
    assert forall k :: k in m.Keys <==> k in InOrder(m.Keys);
    assert m.Keys == {};
  }

  lemma ReadWord(word: seq<byte>, rest: seq<byte>)
    requires word in {[110, 117, 108, 108], [116, 114, 117, 101], [102, 97, 108, 115, 101]}
    ensures Read(word + rest) ==
            Some((if word[0] == 110 then JNull else JBool(word[0] == 116), rest))
  {
    assert word <= word + rest && (word + rest)[|word|..] == rest;
    assert (word + rest)[0] == word[0];
  }

  lemma {:induction false} ItemsStart(items: seq<Json>, rest: seq<byte>)
    requires items != [] && InRange(items[0])
    ensures var s := ItemsText(items) + rest; s != [] && s[0] != 93
  {
    TextStarts(items[0]);
    assert (ItemsText(items) + rest)[0] == Text(items[0])[0];
  }

  lemma {:induction false} EntriesStart(v: Json, ks: seq<seq<byte>>, rest: seq<byte>)
    requires v.JObj? && ks != [] && forall k <- ks :: k in v.m
    ensures var s := EntriesText(v, ks) + rest; s != [] && s[0] == 34
  {
    assert EntryText(v, ks[0])[0] == StrText(ks[0])[0] == 34;
    assert EntriesText(v, ks)[0] == EntryText(v, ks[0])[0];
  }

  lemma LastItem(s: seq<byte>, v: Json, rest: seq<byte>)
    requires Read(s) == Some((v, [93] + rest))
    ensures ReadItems(s) == Some(([v], rest))
  {
    assert ([93] + rest)[1..] == rest;
  }

  lemma NextItem(s: seq<byte>, v: Json, more: seq<byte>)
    requires Read(s) == Some((v, [44] + more))
    ensures ReadItems(s) == match ReadItems(more) case None => None case Some((vs, u)) => Some(([v] + vs, u))
  {
    assert ([44] + more)[1..] == more;
  }

  lemma TwoItems(a: seq<byte>, b: seq<byte>, c: seq<byte>)
    ensures a + [44] + b + c == a + ([44] + (b + c))
  {
  }

  lemma {:induction false} ReadItemsText(items: seq<Json>, rest: seq<byte>)
    requires items != [] && forall i | 0 <= i < |items| :: InRange(items[i])
    ensures ReadItems(ItemsText(items) + ([93] + rest)) == Some((items, rest))
    decreases items, 2
  {
    hide Read, ReadItems, Text;
    var s := ItemsText(items) + ([93] + rest);
    if |items| == 1 {
      ReadText(items[0], [93] + rest);
      LastItem(s, items[0], rest);
      assert items == [items[0]];
    } else {
      var more := ItemsText(items[1..]) + ([93] + rest);
      TwoItems(Text(items[0]), ItemsText(items[1..]), [93] + rest);
      ReadText(items[0], [44] + more);
      NextItem(s, items[0], more);
      ReadItemsText(items[1..], rest);
      assert items == [items[0]] + items[1..];
    }
  }

  lemma {:induction false} ReadEntryText(v: Json, k: seq<byte>, rest: seq<byte>)
    requires v.JObj? && k in v.m && InRange(v.m[k]) && Stops(rest)
    ensures ReadEntry(EntryText(v, k) + rest) == Some((k, v.m[k], rest))
    decreases v, 0, 0
  {
    var value := Text(v.m[k]) + rest;
    assert EntryText(v, k) + rest == StrText(k) + ([58] + value);
    StrRound(k, [58] + value);
    assert ([58] + value)[1..] == value;
    ReadText(v.m[k], rest);
  }

  function Restricted(m: map<seq<byte>, Json>, ks: seq<seq<byte>>): map<seq<byte>, Json>
    requires forall k <- ks :: k in m
  {
    map k | k in ks :: m[k]
  }

  predicate Distinct(ks: seq<seq<byte>>) {
    forall i, j | 0 <= i < j < |ks| :: ks[i] != ks[j]
  }

  lemma {:induction false} OrderDistinct(ks: set<seq<byte>>)
    ensures Distinct(InOrder(ks))
    decreases |ks|
  {
    if ks != {} {
      LeastExists(ks);
      var r := InOrder(ks);
      var k := r[0];
      assert r[1..] == InOrder(ks - {k});
      OrderDistinct(ks - {k});
      forall i, j | 0 <= i < j < |r| ensures r[i] != r[j] {
        assert r[j] == r[1..][j - 1] && r[1..][j - 1] in InOrder(ks - {k});
        if i > 0 { assert r[i] == r[1..][i - 1]; }
      }
    }
  }

  lemma {:induction false} ReadEntriesText(v: Json, ks: seq<seq<byte>>, rest: seq<byte>)
    requires v.JObj? && ks != [] && Distinct(ks) && forall k <- ks :: k in v.m && InRange(v.m[k])
    ensures ReadEntries(EntriesText(v, ks) + ([125] + rest)) == Some((Restricted(v.m, ks), rest))
    decreases v, 0, |ks|
  {
    hide Read, ReadEntry, ReadEntries, Text, EntryText, Restricted;
    var s := EntriesText(v, ks) + ([125] + rest);
    if |ks| == 1 {
      ReadEntryText(v, ks[0], [125] + rest);
      LastEntry(s, ks[0], v.m[ks[0]], rest);
      OneRestricted(v.m, ks);
    } else {
      var more := EntriesText(v, ks[1..]) + ([125] + rest);
      TwoItems(EntryText(v, ks[0]), EntriesText(v, ks[1..]), [125] + rest);
      ReadEntryText(v, ks[0], [44] + more);
      NextEntry(s, ks[0], v.m[ks[0]], more);
      ReadEntriesText(v, ks[1..], rest);
      MoreRestricted(v.m, ks);
    }
  }

  lemma LastEntry(s: seq<byte>, k: seq<byte>, v: Json, rest: seq<byte>)
    requires ReadEntry(s) == Some((k, v, [125] + rest))
    ensures ReadEntries(s) == Some((map[k := v], rest))
  {
    assert ([125] + rest)[1..] == rest;
  }

  lemma NextEntry(s: seq<byte>, k: seq<byte>, v: Json, more: seq<byte>)
    requires ReadEntry(s) == Some((k, v, [44] + more))
    ensures ReadEntries(s) == match ReadEntries(more) case None => None case Some((m, u)) => Some((m[k := v], u))
  {
    assert ([44] + more)[1..] == more;
  }

  lemma OneRestricted(m: map<seq<byte>, Json>, ks: seq<seq<byte>>)
    requires |ks| == 1 && ks[0] in m
    ensures Restricted(m, ks) == map[ks[0] := m[ks[0]]]
  {
  }

  lemma MoreRestricted(m: map<seq<byte>, Json>, ks: seq<seq<byte>>)
    requires ks != [] && forall k <- ks :: k in m
    ensures Restricted(m, ks) == Restricted(m, ks[1..])[ks[0] := m[ks[0]]]
  {
    assert ks == [ks[0]] + ks[1..];
  }

  /** Reading what was written gives the value back, and nothing is left. */
  lemma {:induction false} ReadWritten(v: Json)
    requires Written(v).Some?
    ensures Read(Written(v).value) == Some((v, []))
  {
    ReadText(v, []);
    assert Text(v) + [] == Text(v);
  }

  /** So equal bytes mean equal values, whatever the order their keys were given in. */
  lemma {:induction false} EqualBytesEqualValues(v: Json, w: Json)
    requires Written(v).Some? && Written(v) == Written(w)
    ensures v == w
  {
    ReadWritten(v);
    ReadWritten(w);
  }

  // ----- the writer as it runs -----

  /** The growing output. */
  class Buffer {
    var bytes: seq<byte>

    constructor ()
      ensures bytes == []
    {
      bytes := [];
    }

    method Push(more: seq<byte>)
      modifies this
      ensures bytes == old(bytes) + more
    {
      bytes := bytes + more;
    }
  }

  lemma Assoc(a: seq<byte>, b: seq<byte>, c: seq<byte>)
    ensures a + (b + c) == a + b + c
  {
  }

  method WriteString(b: seq<byte>, out: Buffer)
    modifies out
    ensures out.bytes == old(out.bytes) + StrText(b)
  {
    out.Push([34]);
    var i := 0;
    while i < |b|
      invariant 0 <= i <= |b|
      invariant out.bytes + EscapeAll(b[i..]) == old(out.bytes) + [34] + EscapeAll(b)
    {
      assert b[i..][1..] == b[i + 1..];
      Assoc(out.bytes, Escape(b[i]), EscapeAll(b[i + 1..]));
      out.Push(Escape(b[i]));
      i := i + 1;
    }
    assert b[i..] == [] && out.bytes + [] == out.bytes;
    out.Push([34]);
    assert old(out.bytes) + [34] + EscapeAll(b) + [34] == old(out.bytes) + StrText(b);
  }

  predicate Ascending(ks: seq<seq<byte>>) {
    forall i, j | 0 <= i < j < |ks| :: LexLess(ks[i], ks[j])
  }

  function InsertKey(k: seq<byte>, ks: seq<seq<byte>>): (r: seq<seq<byte>>)
    ensures forall x :: x in r <==> x == k || x in ks
  {
    if ks == [] then [k]
    else if LexLess(ks[0], k) then [ks[0]] + InsertKey(k, ks[1..])
    else [k] + ks
  }

  lemma {:induction false} InsertKeyAscends(k: seq<byte>, ks: seq<seq<byte>>)
    requires Ascending(ks) && k !in ks
    ensures Ascending(InsertKey(k, ks))
  {
    var r := InsertKey(k, ks);
    if ks != [] {
      if LexLess(ks[0], k) {
        InsertKeyAscends(k, ks[1..]);
        forall j | 0 < j < |r| ensures LexLess(r[0], r[j]) {
          assert r[j] in InsertKey(k, ks[1..]);
          assert r[j] == k || r[j] in ks[1..];
        }
      } else {
        LexTotal(ks[0], k);
        forall j | 0 < j < |r| ensures LexLess(k, r[j]) {
          if j > 1 { LexTransitive(k, ks[0], ks[j - 1]); }
        }
      }
    } else {
    }
  }

  /** A map's keys, sorted. */
  method SortedKeys(ks: set<seq<byte>>) returns (r: seq<seq<byte>>)
    ensures Ascending(r) && forall k :: k in r <==> k in ks
  {
    r := [];
    var todo := ks;
    while todo != {}
      invariant todo <= ks && Ascending(r) && forall k :: k in r <==> k in ks && k !in todo
      decreases |todo|
    {
      var k :| k in todo;
      InsertKeyAscends(k, r);
      r := InsertKey(k, r);
      todo := todo - {k};
    }
  }

  /** There is only one way to sort them. */
  lemma {:induction false} AscendingIsInOrder(r: seq<seq<byte>>, ks: set<seq<byte>>)
    requires Ascending(r) && forall k :: k in r <==> k in ks
    ensures r == InOrder(ks)
    decreases |r|
  {
    hide LexLess, InOrder, IsLeast, Ascending;
    NoneInOrder();
    if r == [] {
      assert ks == {};
    } else {
      assert r[0] in ks;
      FirstInOrder(ks);
      FirstAscending(r, ks);
      LeastUnique(InOrder(ks)[0], r[0], ks);
      TailAscending(r, ks);
      AscendingIsInOrder(r[1..], ks - {r[0]});
      assert r == [r[0]] + r[1..];
    }
  }

  lemma NoneInOrder()
    ensures InOrder({}) == []
  {
  }

  lemma FirstInOrder(ks: set<seq<byte>>)
    requires ks != {}
    ensures InOrder(ks) != [] && IsLeast(InOrder(ks)[0], ks)
    ensures InOrder(ks) == [InOrder(ks)[0]] + InOrder(ks - {InOrder(ks)[0]})
  {
    LeastExists(ks);
  }

  lemma FirstAscending(r: seq<seq<byte>>, ks: set<seq<byte>>)
    requires r != [] && Ascending(r) && forall k :: k in r <==> k in ks
    ensures IsLeast(r[0], ks)
  {
    forall x <- ks ensures x == r[0] || LexLess(r[0], x) {
      assert x in r;
    }
  }

  lemma TailAscending(r: seq<seq<byte>>, ks: set<seq<byte>>)
    requires r != [] && Ascending(r) && forall k :: k in r <==> k in ks
    ensures Ascending(r[1..]) && forall k :: k in r[1..] <==> k in ks - {r[0]}
  {
    var t := r[1..];
    forall k ensures k in t <==> k in ks - {r[0]} {
      if k in t {
        var j :| 0 <= j < |t| && t[j] == k;
        assert r[j + 1] == k && LexLess(r[0], k) && r[j + 1] in r;
        LexIrreflexive(k);
      }
      if k in ks - {r[0]} {
        assert k in r;
        var j :| 0 <= j < |r| && r[j] == k;
        assert t[j - 1] == k;
      }
    }
  }

  lemma LeastUnique(a: seq<byte>, b: seq<byte>, ks: set<seq<byte>>)
    requires IsLeast(a, ks) && IsLeast(b, ks)
    ensures a == b
  {
    if a != b {
      LexTransitive(a, b, a);
      LexIrreflexive(a);
    }
  }

  /** What the loop over items has still to write. */
  ghost function ItemsLeft(items: seq<Json>, i: nat): seq<byte>
    requires i <= |items|
  {
    if i == |items| then [] else (if i > 0 then [44] else []) + ItemsText(items[i..])
  }

  lemma ItemsLeftStep(items: seq<Json>, i: nat)
    requires i < |items|
    ensures ItemsLeft(items, i) == (if i > 0 then [44] else []) + Text(items[i]) + ItemsLeft(items, i + 1)
  {
    assert items[i..][0] == items[i] && items[i..][1..] == items[i + 1..];
  }

  ghost function EntriesLeft(v: Json, ks: seq<seq<byte>>, i: nat): seq<byte>
    requires v.JObj? && (forall k <- ks :: k in v.m) && i <= |ks|
  {
    if i == |ks| then [] else (if i > 0 then [44] else []) + EntriesText(v, ks[i..])
  }

  lemma EntriesLeftStep(v: Json, ks: seq<seq<byte>>, i: nat)
    requires v.JObj? && (forall k <- ks :: k in v.m) && i < |ks|
    ensures EntriesLeft(v, ks, i) == (if i > 0 then [44] else []) + EntryText(v, ks[i]) + EntriesLeft(v, ks, i + 1)
  {
    assert ks[i..][0] == ks[i] && ks[i..][1..] == ks[i + 1..];
  }

  /** What was there, then the text of the value; a value too deep or a number beyond the range
      is refused and leaves some of it. */
  method WriteValue(v: Json, out: Buffer, depth: nat) returns (ok: bool)
    modifies out
    ensures ok <==> Writable(v, depth)
    ensures ok ==> out.bytes == old(out.bytes) + Text(v)
    decreases v, 1
  {
    if depth > MAX_DEPTH { return false; }
    match v
    case JNull => out.Push([110, 117, 108, 108]); return true;
    case JBool(on) => out.Push(if on then [116, 114, 117, 101] else [102, 97, 108, 115, 101]); return true;
    case JNumber(x) => ok := WriteNumber(x, out);
    case JStr(b) => WriteString(b, out); return true;
    case JArr(items) => ok := WriteItems(items, out, depth);
    case JObj(_) => ok := WriteEntries(v, out, depth);
  }

  /** An integer as its digits, a float as the layout says; a number beyond the range is refused. */
  method WriteNumber(x: Number, out: Buffer) returns (ok: bool)
    modifies out
    ensures ok <==> !x.Beyond?
    ensures ok ==> out.bytes == old(out.bytes) + NumberText(x)
  {
    match x {
      case Whole(n) => out.Push(IntText(n)); ok := true;
      case Fraction(f) =>
        var text := WriteFloat(f.negative, f.digits, f.exp);
        out.Push(text);
        ok := true;
      case Beyond => ok := false;
    }
  }

  method WriteItems(items: seq<Json>, out: Buffer, depth: nat) returns (ok: bool)
    requires depth <= MAX_DEPTH
    modifies out
    ensures ok <==> Writable(JArr(items), depth)
    ensures ok ==> out.bytes == old(out.bytes) + Text(JArr(items))
    decreases items, 0
  {
    hide Text, ItemsText, ItemsLeft;
    var start := out.bytes;
    out.Push([91]);
    var i := 0;
    ItemsBegin(items);
    while i < |items|
      invariant 0 <= i <= |items|
      invariant forall k | 0 <= k < i :: Writable(items[k], depth + 1)
      invariant out.bytes + ItemsLeft(items, i) == start + [91] + ItemsText(items)
    {
      ghost var before := out.bytes;
      var comma := if i > 0 then [44] else [];
      out.Push(comma);
      ok := WriteValue(items[i], out, depth + 1);
      if !ok { return; }
      ItemsLeftStep(items, i);
      Pushed(before, comma, Text(items[i]), ItemsLeft(items, i + 1));
      i := i + 1;
    }
    ItemsEnd(items, out.bytes);
    out.Push([93]);
    ArrText(start, items);
    ok := true;
  }

  lemma ItemsEnd(items: seq<Json>, bytes: seq<byte>)
    ensures bytes + ItemsLeft(items, |items|) == bytes
  {
  }

  lemma Pushed(a: seq<byte>, comma: seq<byte>, t: seq<byte>, rest: seq<byte>)
    ensures a + (comma + t + rest) == a + comma + t + rest
  {
  }

  lemma ItemsBegin(items: seq<Json>)
    ensures ItemsLeft(items, 0) == ItemsText(items)
  {
    assert items[0..] == items;
  }

  lemma ArrText(start: seq<byte>, items: seq<Json>)
    ensures start + [91] + ItemsText(items) + [93] == start + Text(JArr(items))
  {
  }

  method WriteEntry(v: Json, k: seq<byte>, out: Buffer, depth: nat) returns (ok: bool)
    requires v.JObj? && k in v.m && depth <= MAX_DEPTH
    modifies out
    ensures ok <==> Writable(v.m[k], depth + 1)
    ensures ok ==> out.bytes == old(out.bytes) + EntryText(v, k)
    decreases v, 0, 0
  {
    hide Text, StrText;
    WriteString(k, out);
    out.Push([58]);
    ok := WriteValue(v.m[k], out, depth + 1);
    EntryWritten(v, k, old(out.bytes));
  }

  lemma EntryWritten(v: Json, k: seq<byte>, before: seq<byte>)
    requires v.JObj? && k in v.m
    ensures before + StrText(k) + [58] + Text(v.m[k]) == before + EntryText(v, k)
  {
  }

  /** Every entry fits, in whatever order they are looked at. */
  lemma AllFit(v: Json, ks: seq<seq<byte>>, depth: nat)
    requires v.JObj? && depth <= MAX_DEPTH && forall k :: k in ks <==> k in v.m
    ensures Writable(v, depth) <==> forall j | 0 <= j < |ks| :: Writable(v.m[ks[j]], depth + 1)
  {
    if forall j | 0 <= j < |ks| :: Writable(v.m[ks[j]], depth + 1) {
      forall k <- v.m ensures Writable(v.m[k], depth + 1) {
        assert k in ks;
        var j :| 0 <= j < |ks| && ks[j] == k;
      }
    }
    if Writable(v, depth) {
      forall j | 0 <= j < |ks| ensures Writable(v.m[ks[j]], depth + 1) {
        assert ks[j] in v.m;
      }
    }
  }

  method WriteEntries(v: Json, out: Buffer, depth: nat) returns (ok: bool)
    requires v.JObj? && depth <= MAX_DEPTH
    modifies out
    ensures ok <==> Writable(v, depth)
    ensures ok ==> out.bytes == old(out.bytes) + Text(v)
    decreases v, 0, 1
  {
    hide Text, EntriesText, EntryText, EntriesLeft, InOrder, Writable, Ascending;
    var start := out.bytes;
    var ks := SortedKeys(v.m.Keys);
    AscendingIsInOrder(ks, v.m.Keys);
    AllFit(v, ks, depth);
    out.Push([123]);
    var i := 0;
    EntriesBegin(v, ks);
    while i < |ks|
      invariant 0 <= i <= |ks|
      invariant forall j | 0 <= j < i :: Writable(v.m[ks[j]], depth + 1)
      invariant out.bytes + EntriesLeft(v, ks, i) == start + [123] + EntriesText(v, ks)
    {
      ghost var before := out.bytes;
      var comma := if i > 0 then [44] else [];
      out.Push(comma);
      ok := WriteEntry(v, ks[i], out, depth);
      if !ok { return; }
      EntriesLeftStep(v, ks, i);
      Pushed(before, comma, EntryText(v, ks[i]), EntriesLeft(v, ks, i + 1));
      i := i + 1;
    }
    EntriesEnd(v, ks, out.bytes);
    out.Push([125]);
    ObjText(start, v, ks);
    ok := true;
  }

  lemma EntriesEnd(v: Json, ks: seq<seq<byte>>, bytes: seq<byte>)
    requires v.JObj? && forall k <- ks :: k in v.m
    ensures bytes + EntriesLeft(v, ks, |ks|) == bytes
  {
  }

  lemma EntriesBegin(v: Json, ks: seq<seq<byte>>)
    requires v.JObj? && forall k <- ks :: k in v.m
    ensures EntriesLeft(v, ks, 0) == EntriesText(v, ks)
  {
    assert ks[0..] == ks;
  }

  lemma ObjText(start: seq<byte>, v: Json, ks: seq<seq<byte>>)
    requires v.JObj? && ks == InOrder(v.m.Keys)
    ensures start + [123] + EntriesText(v, ks) + [125] == start + Text(v)
  {
  }

  method CanonicalBytes(v: Json) returns (r: Option<seq<byte>>)
    ensures r == Written(v)
  {
    var out := new Buffer();
    var ok := WriteValue(v, out, 0);
    assert ok ==> [] + Text(v) == Text(v);
    r := if ok then Some(out.bytes) else None;
  }
}
