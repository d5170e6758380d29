/** Patterns with `**`: the pattern is cut at each `**` and the segments are placed left to right,
    each at its least end.  This file gives the segment search as functions and proves that it
    decides the language. */
module GlobSegments {
  import opened Wrappers
  import opened GlobLanguage
  import opened GlobGreedy

  /** The segments between the `**` tokens. */
  function SplitDStar(toks: seq<Token>): (segs: seq<seq<Token>>)
    ensures |segs| >= 1
  {
    if toks == [] then [[]]
    else
      var rest := SplitDStar(toks[1..]);
      if toks[0].DStar? then [[]] + rest else [[toks[0]] + rest[0]] + rest[1..]
  }

  lemma {:induction false} SplitFacts(toks: seq<Token>)
    ensures forall seg :: seg in SplitDStar(toks) ==> NoDStar(seg) && forall t :: t in seg ==> t in toks
    ensures DStar in toks ==> |SplitDStar(toks)| >= 2
  {
    if toks != [] {
      SplitFacts(toks[1..]);
      var rest := SplitDStar(toks[1..]);
      assert rest[0] in rest && forall seg :: seg in rest[1..] ==> seg in rest;
    }
  }

  function NonEmpty(segs: seq<seq<Token>>): (core: seq<seq<Token>>)
    ensures forall seg :: seg in core <==> seg in segs && seg != []
  {
    if segs == [] then []
    else (if segs[0] == [] then [] else [segs[0]]) + NonEmpty(segs[1..])
  }

  /** End of the first placement of `seg` at or after the start of `s`. */
  function FindSeg(seg: seq<Token>, s: string): Option<nat> {
    if Anchored(seg, s, false).Some? then Anchored(seg, s, false)
    else if s == [] then None
    else Shift(1, FindSeg(seg, s[1..]))
  }

  function SuffixFits(seg: seq<Token>, s: string): bool {
    Anchored(Reverse(seg), Reverse(s), false).Some?
  }

  /** Place segments that each have a `**` in front; the last is anchored at the end unless a `**`
      follows it. */
  function Spread(core: seq<seq<Token>>, s: string, trailing: bool): bool {
    if core == [] then true
    else if |core| == 1 && !trailing then SuffixFits(core[0], s)
    else
      match FindSeg(core[0], s)
      case None => false
      case Some(e) => e <= |s| && Spread(core[1..], s[e..], trailing)
  }

  function TokensAccept(toks: seq<Token>, s: string): bool {
    if DStar !in toks then Anchored(toks, s, true).Some?
    else
      var segs := SplitDStar(toks);
      var core, trailing := NonEmpty(segs), segs[|segs| - 1] == [];
      if core == [] then true
      else if segs[0] == [] then Spread(core, s, trailing)
      else
        match Anchored(core[0], s, false)
        case None => false
        case Some(e) => e <= |s| && Spread(core[1..], s[e..], trailing)
  }

  // ----- one segment -----

  lemma {:induction false} FindSegSound(seg: seq<Token>, s: string) returns (at: nat)
    requires FindSeg(seg, s).Some?
    ensures var e := FindSeg(seg, s).value; at <= e <= |s| && In(seg, s[at..e])
  {
    if Anchored(seg, s, false).Some? {
      AnchoredSound(seg, s, false);
      at := 0;
    } else {
      var a := FindSegSound(seg, s[1..]);
      at := a + 1;
      assert s[1..][a..FindSeg(seg, s[1..]).value] == s[at..FindSeg(seg, s).value];
    }
  }

  /** The end found is the least end of any placement, not just of the leftmost one. */
  lemma {:induction false} FindSegLeast(seg: seq<Token>, s: string, at: nat, e: nat)
    requires at <= e <= |s| && In(seg, s[at..e]) && NoDStar(seg) && AllUnambiguous(seg)
    ensures FindSeg(seg, s).Some? && FindSeg(seg, s).value <= e
  {
    assert s[at..e] == s[at..][..e - at];
    AnchoredComplete(seg, s[at..], e - at, false);
    assert s[0..] == s;
    if Anchored(seg, s, false).Some? {
      AnchoredMonotone(seg, s, at);
    } else {
      assert s[1..][at - 1..e - 1] == s[at..e];
      FindSegLeast(seg, s[1..], at - 1, e - 1);
    }
  }

  lemma SuffixSound(seg: seq<Token>, s: string) returns (at: nat)
    requires SuffixFits(seg, s)
    ensures at <= |s| && In(seg, s[at..])
  {
    var r := Anchored(Reverse(seg), Reverse(s), false).value;
    AnchoredSound(Reverse(seg), Reverse(s), false);
    InReverse(Reverse(seg), Reverse(s)[..r]);
    ReverseReverse(seg);
    at := |s| - r;
    assert Reverse(Reverse(s)[..r]) == s[at..];
  }

  lemma SuffixComplete(seg: seq<Token>, s: string, at: nat)
    requires at <= |s| && In(seg, s[at..]) && NoDStar(seg) && AllUnambiguous(seg)
    ensures SuffixFits(seg, s)
  {
    hide In, Anchored, Floating;
    InReverse(seg, s[at..]);
    assert Reverse(s[at..]) == Reverse(s)[..|s| - at];
    AnchoredComplete(Reverse(seg), Reverse(s), |s| - at, false);
  }

  // ----- all segments -----

  /** The token list a list of segments stands for, a `**` in front of each. */
  function Tail(core: seq<seq<Token>>, trailing: bool): seq<Token> {
    if core == [] then if trailing then [DStar] else []
    else [DStar] + core[0] + Tail(core[1..], trailing)
  }

  lemma TailHead(core: seq<seq<Token>>, trailing: bool, s: string) returns (at: nat, e: nat)
    requires core != [] && In(Tail(core, trailing), s)
    ensures at <= e <= |s| && In(core[0], s[at..e]) && In(Tail(core[1..], trailing), s[e..])
  {
    var tail := Tail(core[1..], trailing);
    e := InSplit([DStar] + core[0], tail, s);
    at := InSplit([DStar], core[0], s[..e]);
    assert s[..e][at..] == s[at..e];
  }

  lemma TailCons(core: seq<seq<Token>>, trailing: bool, s: string, at: nat, e: nat)
    requires core != [] && at <= e <= |s|
    requires In(core[0], s[at..e]) && In(Tail(core[1..], trailing), s[e..])
    ensures In(Tail(core, trailing), s)
  {
    hide In;
    InSingle(DStar, s[..at]);
    InJoin([DStar], core[0], s[..at], s[at..e]);
    assert s[..at] + s[at..e] == s[..e];
    InJoin([DStar] + core[0], Tail(core[1..], trailing), s[..e], s[e..]);
    assert s[..e] + s[e..] == s;
  }

  lemma {:induction false} SpreadSound(core: seq<seq<Token>>, s: string, trailing: bool)
    requires Spread(core, s, trailing) && (core != [] || trailing)
    ensures In(Tail(core, trailing), s)
  {
    if core == [] {
      InSingle(DStar, s);
    } else if |core| == 1 && !trailing {
      var at := SuffixSound(core[0], s);
      assert s[at..|s|] == s[at..];
      TailCons(core, trailing, s, at, |s|);
    } else {
      var at := FindSegSound(core[0], s);
      var e := FindSeg(core[0], s).value;
      SpreadSound(core[1..], s[e..], trailing);
      TailCons(core, trailing, s, at, e);
    }
  }

  lemma {:induction false} SpreadComplete(core: seq<seq<Token>>, s: string, trailing: bool)
    requires forall seg :: seg in core ==> NoDStar(seg) && AllUnambiguous(seg)
    requires In(Tail(core, trailing), s)
    ensures Spread(core, s, trailing)
  {
    if core != [] {
      var at, e := TailHead(core, trailing, s);
      assert core[0] in core;
      if |core| == 1 && !trailing {
        assert s[at..e] == s[at..];
        SuffixComplete(core[0], s, at);
      } else {
        FindSegLeast(core[0], s, at, e);
        DStarAbsorbs(Tail(core[1..], trailing), s, FindSeg(core[0], s).value, e);
        SpreadComplete(core[1..], s[FindSeg(core[0], s).value..], trailing);
      }
    }
  }

  // ----- dropping the empty segments does not change the meaning -----

  lemma DStarTwice(rest: seq<Token>, s: string)
    requires rest != [] && rest[0].DStar?
    ensures In([DStar] + rest, s) <==> In(rest, s)
  {
    if In([DStar] + rest, s) {
      var c := InSplit([DStar], rest, s);
      DStarAbsorbs(rest, s, 0, c);
      assert s[0..] == s;
    }
    if In(rest, s) {
      assert s[0..] == s;
      InConsIntro(DStar, rest, s, 0);
    }
  }

  lemma {:induction false} TailNonEmpty(segs: seq<seq<Token>>, s: string)
    requires segs != []
    ensures In(Tail(segs, false), s) <==> In(Tail(NonEmpty(segs), segs[|segs| - 1] == []), s)
  {
    var rest := segs[1..];
    var trailing := segs[|segs| - 1] == [];
    if rest == [] {
      assert NonEmpty(rest) == [] && segs == [segs[0]];
      assert trailing <==> segs[0] == [];
      if segs[0] == [] {
        assert Tail(segs, false) == [DStar];
      } else {
        var core := NonEmpty(segs);
        assert core == [segs[0]] && core[1..] == [] && segs[1..] == [];
        assert Tail(core[1..], false) == Tail(segs[1..], false);
      }
    } else if segs[0] == [] {
      TailNonEmpty(rest, s);
      assert NonEmpty(segs) == NonEmpty(rest) && rest[|rest| - 1] == segs[|segs| - 1];
      assert Tail(segs, false) == [DStar] + Tail(rest, false);
      DStarTwice(Tail(rest, false), s);
    } else {
      assert NonEmpty(segs) == [segs[0]] + NonEmpty(rest) && ([segs[0]] + NonEmpty(rest))[1..] == NonEmpty(rest);
      forall x: string
        ensures In(Tail(rest, false), x) <==> In(Tail(NonEmpty(rest), trailing), x)
      {
        TailNonEmpty(rest, x);
      }
      if In(Tail(segs, false), s) {
        InReplaceTail([DStar] + segs[0], Tail(rest, false), Tail(NonEmpty(rest), trailing), s);
      }
      if In(Tail(NonEmpty(segs), trailing), s) {
        InReplaceTail([DStar] + segs[0], Tail(NonEmpty(rest), trailing), Tail(rest, false), s);
      }
    }
  }

  lemma {:induction false} SplitMeaning(toks: seq<Token>)
    ensures toks == SplitDStar(toks)[0] + Tail(SplitDStar(toks)[1..], false)
  {
    if toks != [] {
      SplitMeaning(toks[1..]);
      var rest := SplitDStar(toks[1..]);
      if toks[0].DStar? {
        assert SplitDStar(toks)[1..] == rest;
      } else {
        assert SplitDStar(toks)[1..] == rest[1..];
        assert toks == [toks[0]] + rest[0] + Tail(rest[1..], false);
      }
    }
  }

  // ----- the matcher decides the language -----

  /** The meaning of a token list with a `**`, in terms of what the matcher looks at. */
  lemma SegmentsMeaning(toks: seq<Token>, s: string)
    requires DStar in toks
    ensures var segs := SplitDStar(toks);
            var core, trailing := NonEmpty(segs), segs[|segs| - 1] == [];
            if segs[0] == [] then In(toks, s) <==> In(Tail(core, trailing), s)
            else core != [] && core[0] == segs[0] &&
                 (In(toks, s) <==> In(core[0] + Tail(core[1..], trailing), s))
  {
    var segs := SplitDStar(toks);
    var core, trailing := NonEmpty(segs), segs[|segs| - 1] == [];
    SplitMeaning(toks);
    SplitFacts(toks);
    var rest := segs[1..];
    if segs[0] == [] {
      assert core == NonEmpty(rest) && segs[0] + Tail(rest, false) == Tail(rest, false);
      TailNonEmpty(rest, s);
    } else {
      assert core == [segs[0]] + NonEmpty(rest) && core[1..] == NonEmpty(rest);
      forall x: string
        ensures In(Tail(rest, false), x) <==> In(Tail(core[1..], trailing), x)
      {
        TailNonEmpty(rest, x);
      }
      if In(toks, s) {
        InReplaceTail(segs[0], Tail(rest, false), Tail(core[1..], trailing), s);
      }
      if In(core[0] + Tail(core[1..], trailing), s) {
        InReplaceTail(segs[0], Tail(core[1..], trailing), Tail(rest, false), s);
      }
    }
  }

  /** With a `**` in the pattern there is always a segment or a trailing `**` to end on. */
  lemma {:induction false} LastSegment(segs: seq<seq<Token>>)
    requires segs != [] && segs[|segs| - 1] != []
    ensures NonEmpty(segs) != [] && (|segs| >= 2 ==> NonEmpty(segs[1..]) != [])
  {
    assert segs[|segs| - 1] in segs;
    if |segs| >= 2 {
      assert segs[1..][|segs| - 2] == segs[|segs| - 1];
      assert segs[|segs| - 1] in segs[1..];
    }
  }

  lemma AcceptSound(toks: seq<Token>, s: string)
    requires TokensAccept(toks, s)
    ensures In(toks, s)
  {
    hide In, Anchored, Floating;
    if DStar !in toks {
      AnchoredSound(toks, s, true);
      assert s[..|s|] == s;
    } else {
      var segs := SplitDStar(toks);
      var core, trailing := NonEmpty(segs), segs[|segs| - 1] == [];
      SegmentsMeaning(toks, s);
      SplitFacts(toks);
      if !trailing { LastSegment(segs); }
      if segs[0] == [] {
        assert core == [] ==> Spread(core, s, trailing);
        SpreadSound(core, s, trailing);
      } else {
        assert core == [segs[0]] + NonEmpty(segs[1..]) && core[1..] == NonEmpty(segs[1..]);
        LeadingSound(core, trailing, s);
      }
    }
  }

  lemma LeadingSound(core: seq<seq<Token>>, trailing: bool, s: string)
    requires core != [] && (core[1..] != [] || trailing)
    requires var r := Anchored(core[0], s, false);
             r.Some? && r.value <= |s| && Spread(core[1..], s[r.value..], trailing)
    ensures In(core[0] + Tail(core[1..], trailing), s)
  {
    hide In, Spread, Floating;
    var e := Anchored(core[0], s, false).value;
    AnchoredSound(core[0], s, false);
    SpreadSound(core[1..], s[e..], trailing);
    InJoin(core[0], Tail(core[1..], trailing), s[..e], s[e..]);
    assert s[..e] + s[e..] == s;
  }

  lemma AcceptComplete(toks: seq<Token>, s: string)
    requires In(toks, s) && AllUnambiguous(toks)
    ensures TokensAccept(toks, s)
  {
    if DStar !in toks {
      assert s[..|s|] == s;
      AnchoredComplete(toks, s, |s|, true);
    } else {
      var segs := SplitDStar(toks);
      var core, trailing := NonEmpty(segs), segs[|segs| - 1] == [];
      SegmentsMeaning(toks, s);
      SplitFacts(toks);
      assert forall seg :: seg in core ==> NoDStar(seg) && AllUnambiguous(seg);
      if segs[0] == [] {
        SpreadComplete(core, s, trailing);
      } else {
        if !trailing { LastSegment(segs); }
        assert core == [segs[0]] + NonEmpty(segs[1..]) && core[1..] == NonEmpty(segs[1..]);
        LeadingComplete(core, trailing, s);
      }
    }
  }

  lemma LeadingComplete(core: seq<seq<Token>>, trailing: bool, s: string)
    requires core != [] && In(core[0] + Tail(core[1..], trailing), s)
    requires forall seg :: seg in core ==> NoDStar(seg) && AllUnambiguous(seg)
    requires core[1..] != [] || trailing
    ensures var r := Anchored(core[0], s, false);
            r.Some? && r.value <= |s| && Spread(core[1..], s[r.value..], trailing)
  {
    assert core[0] in core;
    var b := InSplit(core[0], Tail(core[1..], trailing), s);
    AnchoredComplete(core[0], s, b, false);
    var e := Anchored(core[0], s, false).value;
    DStarAbsorbs(Tail(core[1..], trailing), s, e, b);
    SpreadComplete(core[1..], s[e..], trailing);
  }
}
