/** The encoder and the reader as they run: one appends to an output buffer, the other moves a position
    through the input.  Both are proved equal to the functions of CborValue and CborSyntax. */
module CborCodec {
  import opened Wrappers
  import opened Radix
  import opened CborSyntax
  import opened CborBijection
  import opened CborValue
  import opened CborOrder
  import opened CborTheorems

  // ----- encoder -----

  /** The growing byte array. */
  class Output {
    var bytes: seq<byte>

    constructor ()
      ensures bytes == []
    {
      bytes := [];
    }

    method Append(more: seq<byte>)
      modifies this
      ensures bytes == old(bytes) + more
    {
      bytes := bytes + more;
    }
  }

  method EncodeHead(major: nat, n: nat) returns (head: Option<seq<byte>>)
    requires major < 8
    ensures head == if n < TWO64 then Some(Head(major, n)) else None
  {
    if n < 24 { return Some([major * 32 + n]); }
    if n < 0x100 {
      ByteWidths();
      assert Head(major, n) == [major * 32 + 24] + BigEndian(n, 1);
      return Some([major * 32 + 24] + BigEndian(n, 1));
    }
    if n < 0x1_0000 { return Some([major * 32 + 25] + BigEndian(n, 2)); }
    if n < 0x1_0000_0000 { return Some([major * 32 + 26] + BigEndian(n, 4)); }
    if n < TWO64 { return Some([major * 32 + 27] + BigEndian(n, 8)); }
    return None;
  }

  method EncodeInt(n: int) returns (r: Option<seq<byte>>)
    ensures r == match IntItem(n) case None => None case Some(it) => Some(Ser(it))
  {
    if 0 <= n < TWO64 {
      r := EncodeHead(0, n);
      assert Ser(UInt(n)) == Head(0, n) + [] == Head(0, n);
      return;
    }
    if -(TWO64 as int) <= n < 0 {
      r := EncodeHead(1, -1 - n);
      assert Ser(NInt(-1 - n)) == Head(1, -1 - n) + [] == Head(1, -1 - n);
      return;
    }
    var content := AsBytes(Digits(if n >= 0 then n else -1 - n, 256));
    var tag := EncodeHead(6, if n >= 0 then 2 else 3);
    var head := EncodeHead(2, |content|);
    match head {
      case None => return None;
      case Some(h) =>
        assert Ser(Bytes(content)) == h + content;
        assert tag.value + h + content == tag.value + (h + content);
        return Some(tag.value + h + content);
    }
  }

  /** A dict entry next to the bytes of its key. */
  datatype Keyed = Keyed(bytes: seq<byte>, key: Datum, val: Datum)

  function InsertKeyed(x: Keyed, xs: seq<Keyed>): (r: seq<Keyed>)
    ensures |r| == |xs| + 1 && forall y :: y in r <==> y == x || y in xs
  {
    if xs == [] then [x]
    else if ShortLess(xs[0].bytes, x.bytes) then [xs[0]] + InsertKeyed(x, xs[1..])
    else [x] + xs
  }

  /** Stable sort by length and then content of the key's bytes. */
  function SortKeyed(xs: seq<Keyed>): (r: seq<Keyed>)
    ensures |r| == |xs| && forall y :: y in r <==> y in xs
  {
    if xs == [] then [] else InsertKeyed(xs[0], SortKeyed(xs[1..]))
  }

  /** The pair an entry is written as, next to the bytes of its key. */
  predicate Writes(x: Keyed, p: Pair) {
    EncodablePair(p) && x.bytes == Ser(p.key) && Itemize(x.key) == Some(p.key) && Itemize(x.val) == Some(p.val)
  }

  predicate AllWrite(xs: seq<Keyed>, ps: seq<Pair>) {
    |xs| == |ps| && forall i | 0 <= i < |xs| :: Writes(xs[i], ps[i])
  }

  lemma {:induction false} InsertWrites(x: Keyed, p: Pair, xs: seq<Keyed>, ps: seq<Pair>)
    requires Writes(x, p) && AllWrite(xs, ps) && AllEncodable(ps)
    ensures AllWrite(InsertKeyed(x, xs), InsertPair(p, ps))
  {
    hide Ser, Itemize, EncodablePair, ShortLess, Writes;
    WritesKey(x, p);
    if xs != [] {
      WritesKey(xs[0], ps[0]);
      if ShortLess(xs[0].bytes, x.bytes) {
        InsertWrites(x, p, xs[1..], ps[1..]);
      }
    }
  }

  lemma WritesKey(x: Keyed, p: Pair)
    requires Writes(x, p)
    ensures EncodablePair(p) && x.bytes == Ser(p.key)
  {
  }

  lemma {:induction false} SortWrites(xs: seq<Keyed>, ps: seq<Pair>)
    requires AllWrite(xs, ps) && AllEncodable(ps)
    ensures AllWrite(SortKeyed(xs), SortPairs(ps))
  {
    hide Ser, Itemize, EncodablePair, Writes;
    if xs != [] {
      SortWrites(xs[1..], ps[1..]);
      InsertWrites(xs[0], ps[0], SortKeyed(xs[1..]), SortPairs(ps[1..]));
    }
  }

  /** What was there, then the bytes of the value; nothing is promised about the buffer on an error. */
  method Encode(v: Datum, out: Output) returns (ok: bool)
    modifies out
    ensures ok <==> Itemize(v).Some?
    ensures ok ==> out.bytes == old(out.bytes) + Ser(Itemize(v).value)
    decreases v, 2
  {
    match v
    case VNull => out.Append([0xF6]); return true;
    case VBool(on) => out.Append(if on then [0xF5] else [0xF4]); return true;
    case VInt(n) =>
      var r := EncodeInt(n);
      if r.None? { return false; }
      out.Append(r.value);
      return true;
    case VBytes(b) =>
      var h := EncodeHead(2, |b|);
      if h.None? { return false; }
      out.Append(h.value + b);
      return true;
    case VText(b) =>
      if !ValidUtf8(b) { return false; }
      var h := EncodeHead(3, |b|);
      if h.None? { return false; }
      out.Append(h.value + b);
      return true;
    case VArray(items) => ok := EncodeItems(items, out);
    case VMap(_) => ok := EncodeMap(v, out);
    case VTag(num, w) =>
      var h := EncodeHead(6, num);
      if h.None? { return false; }
      out.Append(h.value);
      ok := Encode(w, out);
      if ok { Assoc(old(out.bytes), h.value, Ser(Itemize(w).value)); }
    case VUndefined => return false;
    case VSimple(_) => return false;
  }

  lemma Assoc(a: seq<byte>, b: seq<byte>, c: seq<byte>)
    ensures a + b + c == a + (b + c)
  {
  }

  lemma {:induction false} SerAllSnoc(its: seq<Item>, item: Item)
    requires Encodable(item) && forall k | 0 <= k < |its| :: Encodable(its[k])
    ensures SerAll(its + [item]) == SerAll(its) + Ser(item)
  {
    if its == [] {
      assert [item][1..] == [] && [] + [item] == [item];
    } else {
      SerAllSnoc(its[1..], item);
      assert (its + [item])[1..] == its[1..] + [item];
      Assoc(Ser(its[0]), SerAll(its[1..]), Ser(item));
    }
  }

  method EncodeItems(items: seq<Datum>, out: Output) returns (ok: bool)
    modifies out
    ensures ok <==> Itemize(VArray(items)).Some?
    ensures ok ==> out.bytes == old(out.bytes) + Ser(Itemize(VArray(items)).value)
    decreases items, 1
  {
    hide Head, Encodable;
    var h := EncodeHead(4, |items|);
    if h.None? { return false; }
    out.Append(h.value);
    var i := 0;
    ghost var its: seq<Item> := [];
    while i < |items|
      invariant 0 <= i <= |items| && |its| == i
      invariant forall k | 0 <= k < i :: Itemize(items[k]) == Some(its[k])
      invariant out.bytes == old(out.bytes) + h.value + SerAll(its)
    {
      ok := Encode(items[i], out);
      if !ok {
        if ItemizeAll(items).Some? { ItemizeAllAt(items, i); }
        return false;
      }
      ghost var item := Itemize(items[i]).value;
      SerAllSnoc(its, item);
      Assoc(old(out.bytes) + h.value, SerAll(its), Ser(item));
      its := its + [item];
      i := i + 1;
    }
    ItemizeAllFrom(items, its);
    Assoc(old(out.bytes), h.value, SerAll(its));
    ok := true;
  }

  /** The keys are written first, each to a buffer of its own; sorting decides where they go. */
  method EncodeKeys(v: Datum) returns (r: Option<seq<Keyed>>)
    requires v.VMap?
    ensures r.None? ==> exists k :: 0 <= k < |v.entries| && Itemize(v.entries[k].key).None?
    ensures r.Some? ==> |r.value| == |v.entries| && forall k | 0 <= k < |v.entries| :: KeyedFor(r.value[k], v.entries[k])
    decreases v, 0
  {
    var keyed := [];
    var i := 0;
    while i < |v.entries|
      invariant 0 <= i <= |v.entries| && |keyed| == i
      invariant forall k | 0 <= k < i :: KeyedFor(keyed[k], v.entries[k])
    {
      var kb := new Output();
      var ok := Encode(v.entries[i].key, kb);
      if !ok { return None; }
      assert kb.bytes == Ser(Itemize(v.entries[i].key).value);
      keyed := keyed + [Keyed(kb.bytes, v.entries[i].key, v.entries[i].val)];
      i := i + 1;
    }
    return Some(keyed);
  }

  predicate KeyedFor(x: Keyed, e: Entry) {
    Itemize(e.key).Some? && x == Keyed(Ser(Itemize(e.key).value), e.key, e.val)
  }

  /** Values of sorted entries, each behind its key. */
  method EncodeMap(v: Datum, out: Output) returns (ok: bool)
    requires v.VMap?
    modifies out
    ensures ok <==> Itemize(v).Some?
    ensures ok ==> out.bytes == old(out.bytes) + Ser(Itemize(v).value)
    decreases v, 1
  {
    var d := v.entries;
    var keyed := EncodeKeys(v);
    if keyed.None? {
      if ItemizeEntries(d).Some? {
        var k :| 0 <= k < |d| && Itemize(d[k].key).None?;
        ItemizeEntriesAt(d, k);
      }
      return false;
    }
    var sorted := SortKeyed(keyed.value);
    var h := EncodeHead(5, |sorted|);
    if h.None? { return false; }
    out.Append(h.value);
    ghost var ps;
    ok, ps := EncodeSorted(v, keyed.value, sorted, out);
    if ok {
      WrittenMap(d, keyed.value, ps);
      Assoc(old(out.bytes), h.value, SerPairs(ps));
    }
  }

  /** The loop over the sorted entries: each key's bytes, then its value. */
  method EncodeSorted(v: Datum, keyed: seq<Keyed>, sorted: seq<Keyed>, out: Output) returns (ok: bool, ghost ps: seq<Pair>)
    requires v.VMap? && |keyed| == |v.entries| && sorted == SortKeyed(keyed)
    requires forall k | 0 <= k < |keyed| :: KeyedFor(keyed[k], v.entries[k])
    modifies out
    ensures !ok ==> ItemizeEntries(v.entries).None?
    ensures ok ==> AllWrite(sorted, ps) && EncodablePairs(ps) && out.bytes == old(out.bytes) + SerPairs(ps)
    decreases v, 0
  {
    hide ItemizeEntries, SortKeyed, Ser;
    var i := 0;
    ps := [];
    while i < |sorted|
      invariant 0 <= i <= |sorted| && AllWrite(sorted[..i], ps) && EncodablePairs(ps)
      invariant out.bytes == old(out.bytes) + SerPairs(ps)
    {
      ghost var k := Origin(v.entries, keyed, sorted[i]);
      assert sorted[i].val == v.entries[k].val;
      out.Append(sorted[i].bytes);
      ok := Encode(sorted[i].val, out);
      if !ok {
        if ItemizeEntries(v.entries).Some? { ItemizeEntriesAt(v.entries, k); }
        return;
      }
      ghost var p := Pair(Itemize(sorted[i].key).value, Itemize(sorted[i].val).value);
      SerPairsSnoc(ps, p);
      PairAppend(old(out.bytes), SerPairs(ps), Ser(p.key), Ser(p.val));
      ps := ps + [p];
      i := i + 1;
    }
    assert sorted[..i] == sorted;
    ok := true;
  }

  lemma PairAppend(a: seq<byte>, b: seq<byte>, k: seq<byte>, v: seq<byte>)
    ensures a + b + k + v == a + (b + (k + v))
  {
  }

  lemma {:induction false} SerPairsSnoc(ps: seq<Pair>, p: Pair)
    requires EncodablePairs(ps) && EncodablePair(p)
    ensures EncodablePairs(ps + [p]) && SerPairs(ps + [p]) == SerPairs(ps) + (Ser(p.key) + Ser(p.val))
  {
    if ps == [] {
      assert [p][1..] == [] && [] + [p] == [p];
    } else {
      SerPairsSnoc(ps[1..], p);
      assert (ps + [p])[1..] == ps[1..] + [p];
      Assoc(SerPair(ps[0]), SerPairs(ps[1..]), Ser(p.key) + Ser(p.val));
    }
  }

  lemma Origin(d: seq<Entry>, keyed: seq<Keyed>, x: Keyed) returns (k: nat)
    requires |keyed| == |d| && (forall k | 0 <= k < |d| :: KeyedFor(keyed[k], d[k])) && x in SortKeyed(keyed)
    ensures k < |d| && keyed[k] == x && KeyedFor(x, d[k])
  {
    assert x in keyed;
    k :| 0 <= k < |keyed| && keyed[k] == x;
  }

  /** Once every value could be written, what was written is the item. */
  lemma {:induction false} WrittenMap(d: seq<Entry>, keyed: seq<Keyed>, ps: seq<Pair>)
    requires |keyed| == |d| && forall k | 0 <= k < |d| :: KeyedFor(keyed[k], d[k])
    requires AllWrite(SortKeyed(keyed), ps)
    ensures ItemizeEntries(d).Some? && SortPairs(ItemizeEntries(d).value) == ps
  {
    forall k | 0 <= k < |d| ensures ItemizeEntry(d[k]).Some? && Writes(keyed[k], ItemizeEntry(d[k]).value) {
      assert keyed[k] in SortKeyed(keyed);
      var j :| 0 <= j < |keyed| && SortKeyed(keyed)[j] == keyed[k];
      assert Writes(SortKeyed(keyed)[j], ps[j]);
    }
    var pairs := seq(|d|, k requires 0 <= k < |d| => ItemizeEntry(d[k]).value);
    ItemizeEntriesFrom(d, pairs);
    SortWrites(keyed, pairs);
    forall i | 0 <= i < |ps| ensures ps[i] == SortPairs(pairs)[i] {
      assert Writes(SortKeyed(keyed)[i], ps[i]) && Writes(SortKeyed(keyed)[i], SortPairs(pairs)[i]);
    }
  }

  /** `cbor_dumps`. */
  method CborDumps(v: Datum) returns (r: Option<seq<byte>>)
    ensures r == Dumps(v)
  {
    var out := new Output();
    var ok := Encode(v, out);
    assert ok ==> [] + Ser(Itemize(v).value) == Ser(Itemize(v).value);
    return if ok then Some(out.bytes) else None;
  }

  // ----- reader -----

  /** Reading an item and its value at once. */
  function Decoded(s: seq<byte>, depth: nat): Option<(Datum, seq<byte>)> {
    match Parse(s, depth)
    case None => None
    case Some((it, rest)) =>
      match Interp(it)
      case None => None
      case Some(v) => Some((v, rest))
  }

  class Reader {
    const data: seq<byte>
    var pos: nat
    var depth: nat

    ghost predicate Valid() reads this { pos <= |data| }

    ghost function Rest(): seq<byte>
      requires Valid()
      reads this
    {
      data[pos..]
    }

    constructor (data: seq<byte>)
      ensures Valid() && this.data == data && pos == 0 && depth == 0
    {
      this.data := data;
      pos := 0;
      depth := 0;
    }

    /** The next `n` bytes; the position moves only when they are there. */
    method Read(n: nat) returns (r: Option<seq<byte>>)
      requires Valid()
      modifies this`pos
      ensures Valid()
      ensures if |old(Rest())| < n then r == None && pos == old(pos)
              else r == Some(old(Rest())[..n]) && Rest() == old(Rest())[n..] && pos == old(pos) + n
    {
      if pos + n > |data| { return None; }
      var chunk := data[pos..pos + n];
      assert chunk == Rest()[..n] && data[pos + n..] == Rest()[n..];
      pos := pos + n;
      return Some(chunk);
    }

    method WideArg(width: nat, least: nat) returns (r: Option<nat>)
      requires Valid()
      modifies this`pos
      ensures Valid() && pos >= old(pos)
      ensures match Wide(old(Rest()), width, least)
              case None => r == None
              case Some((n, t)) => r == Some(n) && Rest() == t
    {
      var chunk := Read(width);
      if chunk.None? { return None; }
      var n := Value(chunk.value, 256);
      return if n < least then None else Some(n);
    }

    method Argument(ai: nat) returns (r: Option<nat>)
      requires Valid()
      modifies this`pos
      ensures Valid() && pos >= old(pos)
      ensures match Arg(ai, old(Rest()))
              case None => r == None
              case Some((n, t)) => r == Some(n) && Rest() == t
    {
      if ai < 24 { return Some(ai); }
      if ai == 24 { r := WideArg(1, 24); return; }
      if ai == 25 { r := WideArg(2, 0x100); return; }
      if ai == 26 { r := WideArg(4, 0x1_0000); return; }
      if ai == 27 { r := WideArg(8, 0x1_0000_0000); return; }
      return None;
    }

    method DecodeSimple(ai: nat) returns (r: Option<Datum>)
      requires Valid() && ai < 32
      modifies this`pos
      ensures Valid() && pos >= old(pos)
      ensures match ParseSimple(ai, old(Rest()))
              case None => r == None
              case Some((it, t)) => r == Interp(it) && Rest() == t
    {
      if ai < 20 { return Some(VSimple(ai)); }
      if ai == 20 { return Some(VBool(false)); }
      if ai == 21 { return Some(VBool(true)); }
      if ai == 22 { return Some(VNull); }
      if ai == 23 { return Some(VUndefined); }
      if ai == 24 {
        var chunk := Read(1);
        if chunk.None? { return None; }
        var n: nat := chunk.value[0];
        return if n < 32 then None else Some(VSimple(n));
      }
      return None;
    }

    /** One item: its value, with the position moved behind it and the depth as before. */
    method Decode() returns (r: Option<Datum>)
      requires Valid()
      modifies this
      ensures Valid() && depth == old(depth) && pos >= old(pos)
      ensures match Decoded(old(Rest()), old(depth))
              case None => r == None
              case Some((v, t)) => r == Some(v) && Rest() == t
      decreases |data| - pos, 0
    {
      if depth > MAX_RECURSION_DEPTH { return None; }
      var initial := Read(1);
      if initial.None? { return None; }
      var major: nat, ai: nat := initial.value[0] / 32, initial.value[0] % 32;
      if ai == 31 { return None; }
      if major == 7 {
        r := DecodeSimple(ai);
        return;
      }
      var arg := Argument(ai);
      if arg.None? { return None; }
      r := DecodeBody(major, arg.value);
    }

    method DecodeBody(major: nat, n: nat) returns (r: Option<Datum>)
      requires Valid() && major < 7
      modifies this
      ensures Valid() && depth == old(depth) && pos >= old(pos)
      ensures match ParseBody(major, n, old(Rest()), old(depth))
              case None => r == None
              case Some((it, t)) => r == Interp(it) && (r.Some? ==> Rest() == t)
      decreases |data| - pos, 3
    {
      if major == 0 { return Some(VInt(n)); }
      if major == 1 { return Some(VInt(-1 - n)); }
      if major == 2 {
        var chunk := Read(n);
        if chunk.None? { return None; }
        return Some(VBytes(chunk.value));
      }
      if major == 3 {
        var chunk := Read(n);
        if chunk.None? || !ValidUtf8(chunk.value) { return None; }
        return Some(VText(chunk.value));
      }
      depth := depth + 1;
      if major == 4 {
        r := DecodeArray(n);
      } else if major == 5 {
        ContinuedStart(n, Rest(), depth);
        r := DecodeMap(n);
      } else {
        r := DecodeTag(n);
      }
      depth := depth - 1;
    }

    method DecodeArray(n: nat) returns (r: Option<Datum>)
      requires Valid()
      modifies this
      ensures Valid() && depth == old(depth) && pos >= old(pos)
      ensures match ParseAll(n, old(Rest()), old(depth))
              case None => r == None
              case Some((items, t)) => r == Interp(Array(items)) && (r.Some? ==> Rest() == t)
      decreases |data| - pos, 2
    {
      var vs := [];
      var i := 0;
      ghost var its: seq<Item> := [];
      NothingThenItems();
      while i < n
        invariant 0 <= i <= n && Valid() && depth == old(depth) && pos >= old(pos)
        invariant InterpAll(its) == Some(vs)
        invariant ParseAll(n, old(Rest()), depth) ==
                  match ParseAll(n - i, Rest(), depth)
                  case None => None
                  case Some((more, t)) => Some((its + more, t))
      {
        ghost var s := Rest();
        r := Decode();
        if r.None? {
          if Parse(s, depth).Some? && ParseAll(n - i, s, depth).Some? {
            InterpAllFails(its, ParseAll(n - i, s, depth).value.0);
          }
          return;
        }
        ghost var item := Parse(s, depth).value.0;
        InterpAllSnoc(its, item);
        ItemsThen(its, item);
        its := its + [item];
        vs := vs + [r.value];
        i := i + 1;
      }
      assert its + [] == its;
      r := Some(VArray(vs));
    }

    /** One round of the map loop: a key whose bytes exceed those of the key before, and its value.
        Returned with the bytes of the key. */
    method DecodeEntry(prev: Option<seq<byte>>) returns (r: Option<(Entry, seq<byte>)>)
      requires Valid()
      modifies this
      ensures Valid() && depth == old(depth) && pos >= old(pos)
      ensures match ReadEntry(old(Rest()), old(depth), prev)
              case None => r == None
              case Some((e, keyBytes, t)) => r == Some((e, keyBytes)) && Rest() == t
      decreases |data| - pos, 1
    {
      var start := pos;
      var key := Decode();
      if key.None? { return None; }
      var keyBytes := data[start..pos];
      assert keyBytes == old(Rest())[..|old(Rest())| - |Rest()|];
      if prev.Some? && !LexLess(prev.value, keyBytes) { return None; }
      var val := Decode();
      if val.None? || !Hashable(key.value) { return None; }
      return Some((Entry(key.value, val.value), keyBytes));
    }

    /** Entries one by one into a dict; the bytes of each key must exceed those of the one before. */
    method DecodeMap(n: nat) returns (r: Option<Datum>)
      requires Valid()
      modifies this
      ensures Valid() && depth == old(depth) && pos >= old(pos)
      ensures match MapOutcome([], n, old(Rest()), old(depth), None)
              case None => r == None
              case Some((v, t)) => r == Some(v) && Rest() == t
      decreases |data| - pos, 2
    {
      var result: seq<Entry> := [];
      var prev: Option<seq<byte>> := None;
      var i := 0;
      ghost var s0 := Rest();
      ghost var ps: seq<Pair> := [];
      while i < n
        invariant 0 <= i <= n && Valid() && depth == old(depth) && pos >= old(pos)
        invariant InterpPairs(ps, []) == Some(result)
        invariant MapOutcome([], n, s0, depth, None) == MapOutcome(ps, n - i, Rest(), depth, prev)
      {
        ghost var s := Rest();
        var entry := DecodeEntry(prev);
        if entry.None? { EntryFails(ps, n - i, s, depth, prev); return None; }
        EntryStep(ps, n - i, s, depth, prev);
        ps := ps + [ReadPair(s, depth)];
        result := DictSet(result, entry.value.0.key, entry.value.0.val);
        prev := Some(entry.value.1);
        i := i + 1;
      }
      ContinuedEnd(ps, Rest(), depth, prev);
      r := Some(VMap(result));
    }

    method DecodeTag(n: nat) returns (r: Option<Datum>)
      requires Valid()
      modifies this
      ensures Valid() && depth == old(depth) && pos >= old(pos)
      ensures match Parse(old(Rest()), old(depth))
              case None => r == None
              case Some((item, t)) => r == Interp(Tag(n, item)) && (r.Some? ==> Rest() == t)
      decreases |data| - pos, 2
    {
      ghost var s := Rest();
      var v := Decode();
      if v.None? { return None; }
      ghost var item := Parse(s, depth).value.0;
      if n in {2, 3} && v.value.VBytes? {
        var b := v.value.b;
        if |b| > 1 && b[0] == 0 { return None; }
        var mag: int := Value(b, 256);
        return Some(VInt(if n == 2 then mag else -1 - mag));
      }
      return Some(VTag(n, v.value));
    }
  }

  lemma {:induction false} InterpAllSnoc(its: seq<Item>, item: Item)
    ensures InterpAll(its + [item]) ==
            if InterpAll(its).Some? && Interp(item).Some? then Some(InterpAll(its).value + [Interp(item).value]) else None
  {
    if its == [] {
      assert [] + [item] == [item] && [item][1..] == [];
      assert InterpAll([]) == Some([]);
      if Interp(item).Some? { assert [Interp(item).value] + [] == [] + [Interp(item).value]; }
    } else {
      InterpAllSnoc(its[1..], item);
      assert (its + [item])[1..] == its[1..] + [item];
      if InterpAll(its).Some? && Interp(item).Some? {
        var v, vs, x := Interp(its[0]).value, InterpAll(its[1..]).value, Interp(item).value;
        assert [v] + (vs + [x]) == [v] + vs + [x];
      }
    }
  }

  lemma {:induction false} InterpAllFails(its: seq<Item>, more: seq<Item>)
    requires more != [] && Interp(more[0]).None?
    ensures InterpAll(its + more).None?
  {
    if its == [] {
      assert [] + more == more;
    } else {
      InterpAllFails(its[1..], more);
      assert (its + more)[1..] == its[1..] + more;
    }
  }

  lemma NothingThenItems()
    ensures forall more: seq<Item> {:trigger [] + more} :: [] + more == more
  {
  }

  lemma ItemsThen(its: seq<Item>, item: Item)
    ensures forall more: seq<Item> {:trigger [item] + more} :: its + ([item] + more) == its + [item] + more
  {
  }

  /** The entries read so far and those that follow. */
  function Continued(ps: seq<Pair>, n: nat, s: seq<byte>, depth: nat, prev: Option<seq<byte>>): Option<(seq<Pair>, seq<byte>)> {
    match ParsePairs(n, s, depth, prev)
    case None => None
    case Some((more, t)) => Some((ps + more, t))
  }

  /** The value of the whole map, and what follows it. */
  function MapOutcome(ps: seq<Pair>, n: nat, s: seq<byte>, depth: nat, prev: Option<seq<byte>>): Option<(Datum, seq<byte>)> {
    match Continued(ps, n, s, depth, prev)
    case None => None
    case Some((pairs, t)) =>
      match Interp(Map(pairs))
      case None => None
      case Some(v) => Some((v, t))
  }

  lemma ContinuedStart(n: nat, s: seq<byte>, depth: nat)
    ensures Continued([], n, s, depth, None) == ParsePairs(n, s, depth, None)
  {
    match ParsePairs(n, s, depth, None)
    case None =>
    case Some((more, _)) => assert [] + more == more;
  }

  lemma ContinuedEnd(ps: seq<Pair>, s: seq<byte>, depth: nat, prev: Option<seq<byte>>)
    requires InterpPairs(ps, []).Some?
    ensures MapOutcome(ps, 0, s, depth, prev) == Some((VMap(InterpPairs(ps, []).value), s))
  {
    assert ps + [] == ps;
  }

  function ReadEntry(s: seq<byte>, depth: nat, prev: Option<seq<byte>>): Option<(Entry, seq<byte>, seq<byte>)> {
    match Decoded(s, depth)
    case None => None
    case Some((k, u)) =>
      var keyBytes := if |u| <= |s| then s[..|s| - |u|] else [];
      if prev.Some? && !LexLess(prev.value, keyBytes) then None
      else
        match Decoded(u, depth)
        case None => None
        case Some((v, w)) => if Hashable(k) then Some((Entry(k, v), keyBytes, w)) else None
  }

  function ReadPair(s: seq<byte>, depth: nat): Pair
    requires Parse(s, depth).Some? && Parse(Parse(s, depth).value.1, depth).Some?
  {
    Pair(Parse(s, depth).value.0, Parse(Parse(s, depth).value.1, depth).value.0)
  }

  lemma EntryStep(ps: seq<Pair>, n: nat, s: seq<byte>, depth: nat, prev: Option<seq<byte>>)
    requires n > 0 && ReadEntry(s, depth, prev).Some? && InterpPairs(ps, []).Some?
    ensures var (e, keyBytes, w) := ReadEntry(s, depth, prev).value;
            var ps' := ps + [ReadPair(s, depth)];
            MapOutcome(ps, n, s, depth, prev) == MapOutcome(ps', n - 1, w, depth, Some(keyBytes)) &&
            InterpPairs(ps', []) == Some(DictSet(InterpPairs(ps, []).value, e.key, e.val))
  {
    hide Parse, Interp;
    var (e, keyBytes, w) := ReadEntry(s, depth, prev).value;
    var p := ReadPair(s, depth);
    InterpPairsSnoc(ps, [], p);
    match ParsePairs(n - 1, w, depth, Some(keyBytes))
    case None =>
    case Some((more, _)) => assert ps + ([p] + more) == ps + [p] + more;
  }

  lemma EntryFails(ps: seq<Pair>, n: nat, s: seq<byte>, depth: nat, prev: Option<seq<byte>>)
    requires n > 0 && ReadEntry(s, depth, prev).None?
    ensures MapOutcome(ps, n, s, depth, prev) == None
  {
    if ParsePairs(n, s, depth, prev).Some? {
      InterpPairsFails(ps, [], ParsePairs(n, s, depth, prev).value.0);
    }
  }

  lemma {:induction false} InterpPairsSnoc(ps: seq<Pair>, d: seq<Entry>, p: Pair)
    requires InterpPairs(ps, d).Some? && InterpPair(p).Some?
    ensures InterpPairs(ps + [p], d) ==
            Some(DictSet(InterpPairs(ps, d).value, InterpPair(p).value.key, InterpPair(p).value.val))
    decreases |ps|
  {
    if ps == [] {
      assert [] + [p] == [p] && [p][1..] == [];
    } else {
      var e := InterpPair(ps[0]).value;
      InterpPairsSnoc(ps[1..], DictSet(d, e.key, e.val), p);
      assert (ps + [p])[1..] == ps[1..] + [p];
    }
  }

  lemma {:induction false} InterpPairsFails(ps: seq<Pair>, d: seq<Entry>, more: seq<Pair>)
    requires more != [] && InterpPair(more[0]).None?
    ensures InterpPairs(ps + more, d).None?
    decreases |ps|
  {
    if ps == [] {
      assert [] + more == more;
    } else {
      if InterpPair(ps[0]).Some? {
        var e := InterpPair(ps[0]).value;
        InterpPairsFails(ps[1..], DictSet(d, e.key, e.val), more);
      }
      assert (ps + more)[1..] == ps[1..] + more;
    }
  }

  /** `cbor_loads`: one item and nothing after it. */
  method CborLoads(data: seq<byte>) returns (r: Option<Datum>)
    ensures r == Loads(data)
  {
    var reader := new Reader(data);
    assert data[0..] == data;
    r := reader.Decode();
    if reader.pos != |reader.data| { return None; }
  }
}
