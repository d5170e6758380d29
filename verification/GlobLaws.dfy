/** The laws of patterns: what each element of a pattern's text does at the front of a target. */
module GlobLaws {
  import opened Wrappers
  import opened GlobLanguage
  import opened GlobGreedy
  import opened GlobSegments
  import opened GlobPatterns
  import opened GlobTarget

  // ----- one fixed token in front -----

  lemma AnchoredCons(t: Token, rest: seq<Token>, s: string, full: bool)
    requires !IsStar(t)
    ensures Anchored([t] + rest, s, full) ==
            if s != [] && CharMatch(t, s[0]) then Shift(1, Anchored(rest, s[1..], full)) else None
  {
    hide CharMatch, Floating;
    var toks, n := [t] + rest, FixedLen(rest);
    assert toks[1..] == rest && FixedLen(toks) == n + 1;
    if FixedMatch(toks, n + 1, s) { assert CharMatch(toks[0], s[0]); }
    if s != [] && CharMatch(t, s[0]) {
      if FixedMatch(rest, n, s[1..]) {
        forall i | 0 <= i < n + 1 ensures CharMatch(toks[i], s[i]) {
          if i > 0 { assert toks[i] == rest[i - 1] && s[i] == s[1..][i - 1]; }
        }
      }
      if FixedMatch(toks, n + 1, s) {
        forall i | 0 <= i < n ensures CharMatch(rest[i], s[1..][i]) {
          assert CharMatch(toks[i + 1], s[i + 1]);
        }
      }
      if n < |rest| && n + 1 <= |s| {
        Tails(t, rest, s, n);
      }
    }
  }

  lemma Tails(t: Token, rest: seq<Token>, s: string, n: nat)
    requires n < |rest|
    requires n + 1 <= |s|
    ensures ([t] + rest)[n + 1] == rest[n] && ([t] + rest)[n + 2..] == rest[n + 1..]
    ensures s[1..][n..] == s[n + 1..]
  {
  }

  lemma NonEmptyCons(seg: seq<Token>, segs: seq<seq<Token>>)
    requires seg != []
    ensures NonEmpty([seg] + segs) == [seg] + NonEmpty(segs) && NonEmpty([seg] + segs)[1..] == NonEmpty(segs)
  {
    assert ([seg] + segs)[1..] == segs;
  }

  lemma SplitCons(t: Token, rest: seq<Token>)
    requires !IsStar(t) && DStar in rest
    ensures var segs := SplitDStar(rest);
            |segs| > 1 && SplitDStar([t] + rest) == [[t] + segs[0]] + segs[1..]
  {
    assert ([t] + rest)[1..] == rest;
    SplitFacts(rest);
  }

  /** Acceptance by a leading segment and what follows it. */
  predicate LeadThen(lead: seq<Token>, core: seq<seq<Token>>, s: string, trailing: bool) {
    match Anchored(lead, s, false)
    case None => false
    case Some(e) => e <= |s| && Spread(core, s[e..], trailing)
  }

  lemma LeadAccepts(lead: seq<Token>, segs: seq<seq<Token>>, toks: seq<Token>, s: string)
    requires DStar in toks && SplitDStar(toks) == [lead] + segs && segs != []
    ensures TokensAccept(toks, s) <==> LeadThen(lead, NonEmpty(segs), s, segs[|segs| - 1] == [])
  {
    hide Spread, SplitDStar, Floating, Commit;
    assert ([lead] + segs)[1..] == segs;
    if lead == [] {
      assert Anchored(lead, s, false) == Some(0) && s[0..] == s by { EmptyRun(s); }
      assert NonEmpty([lead] + segs) == NonEmpty(segs);
      if NonEmpty(segs) == [] { NothingToSpread(s, segs[|segs| - 1] == []); }
    } else {
      NonEmptyCons(lead, segs);
    }
  }

  lemma NothingToSpread(s: string, trailing: bool)
    ensures Spread([], s, trailing)
  {
  }

  lemma EmptyRun(s: string)
    ensures Anchored([], s, false) == Some(0)
  {
  }

  lemma LeadCons(t: Token, lead: seq<Token>, core: seq<seq<Token>>, s: string, trailing: bool)
    requires !IsStar(t)
    ensures LeadThen([t] + lead, core, s, trailing) <==>
            s != [] && CharMatch(t, s[0]) && LeadThen(lead, core, s[1..], trailing)
  {
    hide Anchored, CharMatch, Spread;
    AnchoredCons(t, lead, s, false);
    if s != [] && Anchored(lead, s[1..], false).Some? {
      var e := Anchored(lead, s[1..], false).value;
      if e < |s| { assert s[1..][e..] == s[e + 1..]; }
    }
  }

  /** A token that is no star takes one character, whatever follows. */
  lemma AcceptCons(t: Token, rest: seq<Token>, s: string)
    requires !IsStar(t)
    ensures TokensAccept([t] + rest, s) <==> s != [] && CharMatch(t, s[0]) && TokensAccept(rest, s[1..])
  {
    hide Anchored, CharMatch, LeadThen, SplitDStar;
    if DStar !in rest {
      AnchoredCons(t, rest, s, true);
    } else {
      var segs, core := SplitDStar(rest), NonEmpty(SplitDStar(rest)[1..]);
      SplitCons(t, rest);
      assert segs == [segs[0]] + segs[1..];
      LeadAccepts([t] + segs[0], segs[1..], [t] + rest, s);
      LeadCons(t, segs[0], core, s, segs[1..][|segs| - 2] == []);
      if s != [] { LeadAccepts(segs[0], segs[1..], rest, s[1..]); }
    }
  }

  lemma {:induction false} CollapseCons(t: Token, raw: seq<Token>)
    requires !IsStar(t)
    ensures Collapse([t] + raw) == [t] + Collapse(raw)
  {
    hide Collapse, Push;
    if raw == [] {
      OneToken(t);
    } else {
      var init, last := raw[..|raw| - 1], raw[|raw| - 1];
      CollapseCons(t, init);
      assert raw == init + [last] && [t] + raw == [t] + init + [last];
      PushLast(init, last);
      PushLast([t] + init, last);
      PushCons(t, Collapse(init), last);
    }
  }

  lemma OneToken(t: Token)
    ensures Collapse([t] + []) == [t] + Collapse([])
  {
    assert [t] + [] == [t] && [t][..0] == [];
  }

  lemma PushCons(t: Token, toks: seq<Token>, x: Token)
    requires !IsStar(t)
    ensures Push([t] + toks, x) == [t] + Push(toks, x)
  {
    if toks == [] {
      assert [t] + [] == [t];
    } else {
      assert ([t] + toks)[..|toks|] == [t] + toks[..|toks| - 1];
    }
  }

  lemma FirstElement(p: string, q: string, t: Token, target: string)
    requires !IsStar(t) && RawTokens(p) == Prepend([t], RawTokens(q)) && |q| < |p| <= 2048 && |target| <= 4096
    ensures Accepts(p, target) <==> target != [] && CharMatch(t, target[0]) && Accepts(q, target[1..])
  {
    hide RawTokens, TokensAccept, CharMatch;
    if RawTokens(q).Some? {
      CollapseCons(t, RawTokens(q).value);
      AcceptCons(t, Collapse(RawTokens(q).value), target);
    }
  }

  // ----- the laws -----

  /** The empty pattern accepts the empty target only. */
  lemma EmptyLaw(target: string)
    ensures Accepts("", target) <==> target == ""
  {
    assert Clear("");
    AcceptsIffDenoted("", target);
  }

  /** Nothing longer than the caps is accepted. */
  lemma CapsLaw(p: string, target: string)
    requires |p| > 2048 || |target| > 4096
    ensures !Accepts(p, target)
  {
  }

  /** `?` takes one character other than the separator. */
  lemma QuestionLaw(p: string, target: string)
    requires |p| < 2048 && |target| <= 4096
    ensures Accepts("?" + p, target) <==> target != "" && target[0] != '/' && Accepts(p, target[1..])
  {
    var q := "?" + p;
    assert q[1..] == p;
    FirstElement(q, p, Question, target);
  }

  /** Any character without a meaning of its own takes itself. */
  lemma LiteralLaw(c: char, p: string, target: string)
    requires c !in "*?[" && |p| < 2048 && |target| <= 4096
    ensures Accepts([c] + p, target) <==> target != "" && target[0] == c && Accepts(p, target[1..])
  {
    var q := [c] + p;
    assert q[1..] == p && q[0] in q;
    assert '*' in "*?[" && '?' in "*?[" && '[' in "*?[" by { assert "*?["[0] == '*' && "*?["[1] == '?' && "*?["[2] == '['; }
    FirstElement(q, p, Lit(c), target);
  }

  /** A bracket that is never closed takes itself: no closing one stands behind the place where a class may
      begin with one. */
  lemma UnclosedLaw(p: string, target: string)
    requires |p| < 2048 && |target| <= 4096
    requires forall k | (if p != "" && p[0] == '!' then 2 else 1) <= k < |p| :: p[k] != ']'
    ensures Accepts("[" + p, target) <==> target != "" && target[0] == '[' && Accepts(p, target[1..])
  {
    var q := "[" + p;
    assert q[1..] == p;
    forall k | 0 <= k < |q| ensures !Closes(q, k) {
      if k >= 1 { assert q[k] == p[k - 1]; }
    }
    ClosedIff(q);
    ClassStep(q);
    FirstElement(q, p, Lit('['), target);
  }

  lemma ClassElement(p: string, k: nat, target: string)
    requires k < |p| && Closes(p, k) && |p| <= 2048 && |target| <= 4096
    ensures Accepts(p, target) <==> target != "" && Takes(p, k, target[0]) && Accepts(p[k + 1..], target[1..])
  {
    hide RawTokens, TokensAccept, ClassChars, Lists, RangesAscend;
    ClosesAtEnd(p, k);
    ClassStep(p);
    var body := p[BodyAt(p)..k];
    CharsAreListed(body);
    if ClassChars(body).Some? {
      FirstElement(p, p[k + 1..], Class(ClassChars(body).value, p[1] == '!'), target);
    }
  }

  /** `[body]` takes one character that the body lists.  The body is not empty and does not begin with the mark of
      negation; a closing bracket may stand first in it and nowhere else. */
  lemma ClassLaw(body: string, p: string, target: string)
    requires body != "" && body[0] != '!' && ']' !in body[1..] && |body| + |p| + 2 <= 2048 && |target| <= 4096
    ensures Accepts("[" + body + "]" + p, target) <==>
            target != "" && RangesAscend(body) && Lists(body, target[0]) && Accepts(p, target[1..])
  {
    hide Accepts, Lists, RangesAscend;
    var q, k := "[" + body + "]" + p, |body| + 1;
    assert q[1] == body[0] && q[1..k] == body && q[2..k] == body[1..] && q[k] == ']' && q[k + 1..] == p;
    ClassElement(q, k, target);
  }

  /** `[!body]` takes one character that is neither listed nor the separator. */
  lemma NegatedLaw(body: string, p: string, target: string)
    requires body != "" && ']' !in body[1..] && |body| + |p| + 3 <= 2048 && |target| <= 4096
    ensures Accepts("[!" + body + "]" + p, target) <==>
            target != "" && RangesAscend(body) && target[0] != '/' && !Lists(body, target[0]) && Accepts(p, target[1..])
  {
    hide Accepts, Lists, RangesAscend;
    var q, k := "[!" + body + "]" + p, |body| + 2;
    assert q[1] == '!' && q[2..k] == body && q[3..k] == body[1..] && q[k] == ']' && q[k + 1..] == p;
    ClassElement(q, k, target);
  }

  /** A range takes the characters between its ends, both included. */
  lemma RangeLaw(lo: char, hi: char, p: string, target: string)
    requires lo != '!' && hi != ']' && |p| + 5 <= 2048 && |target| <= 4096
    ensures Accepts("[" + [lo, '-', hi] + "]" + p, target) <==> target != "" && lo <= target[0] <= hi && Accepts(p, target[1..])
  {
    hide Accepts;
    var body := [lo, '-', hi];
    assert body[1..] == ['-', hi] && body[3..] == [];
    ClassLaw(body, p, target);
    if target != "" { assert Lists(body, target[0]) <==> lo <= target[0] <= hi || Lists(body[3..], target[0]); }
    assert RangesAscend(body) <==> lo <= hi && RangesAscend(body[3..]);
  }

  lemma {:induction false} PlainLists(body: string, c: char)
    requires '-' !in body
    ensures RangesAscend(body) && (Lists(body, c) <==> c in body)
  {
    if body != [] {
      if |body| > 1 { assert body[1] in body; }
      PlainLists(body[1..], c);
    }
  }

  /** A body without ranges lists its characters. */
  lemma ListLaw(body: string, p: string, target: string)
    requires body != "" && body[0] != '!' && ']' !in body[1..] && '-' !in body
    requires |body| + |p| + 2 <= 2048 && |target| <= 4096
    ensures Accepts("[" + body + "]" + p, target) <==> target != "" && target[0] in body && Accepts(p, target[1..])
  {
    hide Accepts, Lists, RangesAscend;
    ClassLaw(body, p, target);
    if target != "" { PlainLists(body, target[0]); }
  }

  /** `*` takes any run without a separator. */
  lemma StarLaw(p: string, target: string)
    requires |p| < 2048 && |target| <= 4096 && Clear(p) && (p == "" || p[0] != '*')
    ensures Accepts("*" + p, target) <==> exists k | 0 <= k <= |target| :: '/' !in target[..k] && Accepts(p, target[k..])
  {
    hide Accepts;
    var q := "*" + p;
    assert q[1..] == p;
    NotAClass(q);
    AcceptsIffDenoted(q, target);
    forall k | 0 <= k <= |target| ensures Accepts(p, target[k..]) <==> Means(p, target[k..]) {
      AcceptsIffDenoted(p, target[k..]);
    }
  }

  /** `**` takes anything. */
  lemma DoubleStarLaw(p: string, target: string)
    requires |p| < 2047 && |target| <= 4096 && Clear(p)
    ensures Accepts("**" + p, target) <==> exists k | 0 <= k <= |target| :: Accepts(p, target[k..])
  {
    hide Accepts;
    var q := "**" + p;
    assert q[2..] == p && q[1..] == "*" + p && q[1..][1..] == p;
    NotAClass(q);
    NotAClass(q[1..]);
    AcceptsIffDenoted(q, target);
    forall k | 0 <= k <= |target| ensures Accepts(p, target[k..]) <==> Means(p, target[k..]) {
      AcceptsIffDenoted(p, target[k..]);
    }
  }
}
