/** Target patterns as written: tokenizing the text, and the whole matcher. */
module GlobTarget {
  import opened Wrappers
  import opened GlobLanguage
  import opened GlobGreedy
  import opened GlobMatcher
  import opened GlobSegments
  import opened GlobPatterns

  const MAX_TARGET_PATTERN_LEN: nat := 2048
  const MAX_TARGET_LEN: nat := 4096

  // ----- the pattern grammar -----

  function Prepend<T>(xs: seq<T>, r: Option<seq<T>>): Option<seq<T>> {
    match r
    case None => None
    case Some(ys) => Some(xs + ys)
  }

  predicate Between(lo: char, c: char, hi: char) {
    lo <= c <= hi
  }

  /** The characters between two characters, both included. */
  function Range(lo: char, hi: char): set<char> {
    set c: char | Between(lo, c, hi)
  }

  function UnionWith(a: set<char>, r: Option<set<char>>): Option<set<char>> {
    match r
    case None => None
    case Some(b) => Some(a + b)
  }

  lemma Units<T>(r: Option<seq<T>>, u: Option<set<char>>)
    ensures Prepend([], r) == r && UnionWith({}, u) == u
  {
    if r.Some? { assert [] + r.value == r.value; }
    if u.Some? { assert {} + u.value == u.value; }
  }

  /** The members of a class body; None for an inverted range. */
  function ClassChars(body: string): Option<set<char>> {
    if body == [] then Some({})
    else if |body| > 2 && body[1] == '-' then
      if body[0] > body[2] then None else UnionWith(Range(body[0], body[2]), ClassChars(body[3..]))
    else UnionWith({body[0]}, ClassChars(body[1..]))
  }

  /** First position at or after `i` that holds `c`, or the length. */
  function IndexFrom(s: string, c: char, i: nat): (k: nat)
    requires i <= |s|
    ensures i <= k <= |s|
    decreases |s| - i
  {
    if i == |s| || s[i] == c then i else IndexFrom(s, c, i + 1)
  }

  /** Where the body of a class that opens at the start of `p` begins, and where it closes. */
  function BodyStart(p: string): (j: nat)
    requires p != []
    ensures 1 <= j <= |p|
  {
    if |p| > 1 && p[1] == '!' then 2 else 1
  }

  function BodyEnd(p: string): (k: nat)
    requires p != []
    ensures BodyStart(p) <= k <= |p|
  {
    var j := BodyStart(p);
    IndexFrom(p, ']', if j < |p| && p[j] == ']' then j + 1 else j)
  }

  /** The tokens a pattern spells, before stars are collapsed; None for a malformed class. */
  function RawTokens(p: string): Option<seq<Token>> {
    if p == [] then Some([])
    else if p[0] == '*' then
      if |p| > 1 && p[1] == '*' then Prepend([DStar], RawTokens(p[2..]))
      else Prepend([Star], RawTokens(p[1..]))
    else if p[0] == '?' then Prepend([Question], RawTokens(p[1..]))
    else if p[0] == '[' then
      var j, k := BodyStart(p), BodyEnd(p);
      if k == |p| then Prepend([Lit('[')], RawTokens(p[1..]))
      else
        match ClassChars(p[j..k])
        case None => None
        case Some(chars) => Prepend([Class(chars, p[1] == '!')], RawTokens(p[k + 1..]))
    else Prepend([Lit(p[0])], RawTokens(p[1..]))
  }

  /** Append a token, merging it into a star that stands last. */
  function Push(toks: seq<Token>, t: Token): seq<Token> {
    if toks != [] && IsStar(toks[|toks| - 1]) && IsStar(t)
    then toks[..|toks| - 1] + [MergeStars(toks[|toks| - 1], t)]
    else toks + [t]
  }

  function Collapse(raw: seq<Token>): seq<Token> {
    if raw == [] then [] else Push(Collapse(raw[..|raw| - 1]), raw[|raw| - 1])
  }

  /** The compiled pattern. */
  function Compiled(pattern: string): Option<seq<Token>> {
    if |pattern| > MAX_TARGET_PATTERN_LEN then None
    else
      match RawTokens(pattern)
      case None => None
      case Some(raw) => Some(Collapse(raw))
  }

  method ParseClassBody(body: string) returns (r: Option<set<char>>)
    ensures r == ClassChars(body)
  {
    var chars: set<char> := {};
    var k, n := 0, |body|;
    assert body[0..] == body;
    Units<Token>(None, ClassChars(body));
    while k < n
      invariant 0 <= k <= n
      invariant ClassChars(body) == UnionWith(chars, ClassChars(body[k..]))
    {
      assert body[k..][0] == body[k];
      if k + 2 < n && body[k + 1] == '-' {
        var lo, hi := body[k], body[k + 2];
        assert body[k..][1] == body[k + 1] && body[k..][2] == hi && body[k..][3..] == body[k + 3..];
        if lo > hi {
          return None;
        }
        ghost var before := chars;
        chars := chars + Range(lo, hi);
        assert forall b :: before + (Range(lo, hi) + b) == chars + b;
        k := k + 3;
      } else {
        assert body[k..][1..] == body[k + 1..];
        assert k + 2 < n ==> body[k..][1] == body[k + 1];
        ghost var before := chars;
        chars := chars + {body[k]};
        assert forall b :: before + ({body[k]} + b) == chars + b;
        k := k + 1;
      }
    }
    assert body[n..] == [];
    r := Some(chars);
  }

  lemma IndexFromShift(s: string, c: char, from: nat, i: nat)
    requires from <= i <= |s|
    ensures IndexFrom(s, c, i) == from + IndexFrom(s[from..], c, i - from)
    decreases |s| - i
  {
    if i < |s| && s[i] != c {
      IndexFromShift(s, c, from, i + 1);
    }
  }

  lemma SliceOfSuffix(s: string, i: nat, a: nat, b: nat)
    requires i <= a <= b <= |s|
    ensures s[i..][a - i..b - i] == s[a..b]
    ensures s[i..][a - i..] == s[a..]
  {
  }

  method FindClose(pattern: string, j: nat) returns (k: nat)
    requires j <= |pattern|
    ensures k == IndexFrom(pattern, ']', j)
  {
    k := j;
    while k < |pattern| && pattern[k] != ']'
      invariant j <= k <= |pattern|
      invariant IndexFrom(pattern, ']', j) == IndexFrom(pattern, ']', k)
    {
      k := k + 1;
    }
  }

  lemma ClassStep(p: string)
    requires p != [] && p[0] == '['
    ensures var j, k := BodyStart(p), BodyEnd(p);
            RawTokens(p) == (if k == |p| then Prepend([Lit('[')], RawTokens(p[1..]))
                             else if ClassChars(p[j..k]).None? then None
                             else Prepend([Class(ClassChars(p[j..k]).value, p[1] == '!')], RawTokens(p[k + 1..])))
  {
  }

  /** The part of the tokenizer that starts at a `[`: the token read and where reading goes on. */
  method ReadClass(pattern: string, i: nat) returns (r: Option<Token>, next: nat)
    requires i < |pattern| && pattern[i] == '['
    ensures i < next <= |pattern|
    ensures r.Some? ==> !IsStar(r.value)
    ensures r.Some? ==> RawTokens(pattern[i..]) == Prepend([r.value], RawTokens(pattern[next..]))
    ensures r.None? ==> RawTokens(pattern[i..]) == None
  {
    hide RawTokens, ClassChars;
    var n := |pattern|;
    ghost var rest := pattern[i..];
    var j := i + 1;
    var negate := j < n && pattern[j] == '!';
    if negate {
      j := j + 1;
    }
    var bodyStart := j;
    if j < n && pattern[j] == ']' {
      j := j + 1;
    }
    var k := FindClose(pattern, j);
    assert BodyStart(rest) == bodyStart - i;
    assert BodyEnd(rest) == k - i by { IndexFromShift(pattern, ']', i, j); }
    ClassStep(rest);
    if k >= n {
      assert rest[1..] == pattern[i + 1..];
      return Some(Lit('[')), i + 1;
    }
    SliceOfSuffix(pattern, i, bodyStart, k);
    SliceOfSuffix(pattern, i, k + 1, n);
    var chars := ParseClassBody(pattern[bodyStart..k]);
    if chars.None? {
      return None, k + 1;
    }
    r, next := Some(Class(chars.value, negate)), k + 1;
  }

  method TokenizeTargetPattern(pattern: string) returns (r: Option<seq<Token>>)
    ensures r == Compiled(pattern)
  {
    if |pattern| > MAX_TARGET_PATTERN_LEN {
      return None;
    }
    var tokens: seq<Token> := [];
    ghost var done: seq<Token> := [];
    var i, n := 0, |pattern|;
    assert pattern[0..] == pattern;
    Units(RawTokens(pattern), None);
    while i < n
      invariant 0 <= i <= n
      invariant RawTokens(pattern) == Prepend(done, RawTokens(pattern[i..]))
      invariant tokens == Collapse(done)
    {
      var ch := pattern[i];
      ghost var was, before := i, tokens;
      ghost var tok: Token;
      if ch == '*' {
        var kind := if i + 1 < n && pattern[i + 1] == '*' then DStar else Star;
        assert kind.DStar? ==> pattern[i..][2..] == pattern[i + 2..];
        tok := kind;
        i := i + if kind.DStar? then 2 else 1;
        if |tokens| > 0 && IsStar(tokens[|tokens| - 1]) {
          if kind.DStar? {
            tokens := tokens[..|tokens| - 1] + [DStar];
          } else {
            assert tokens == tokens[..|tokens| - 1] + [tokens[|tokens| - 1]];
          }
        } else {
          tokens := tokens + [kind];
        }
      } else if ch == '?' {
        tok := Question;
        tokens := tokens + [Question];
        i := i + 1;
      } else if ch == '[' {
        var cls, next := ReadClass(pattern, i);
        if cls.None? {
          return None;
        }
        tok := cls.value;
        tokens := tokens + [cls.value];
        i := next;
      } else {
        tok := Lit(ch);
        tokens := tokens + [Lit(ch)];
        i := i + 1;
      }
      assert pattern[was..][1..] == pattern[was + 1..];
      PushLast(done, tok);
      PrependTwice(done, tok, RawTokens(pattern[i..]));
      done := done + [tok];
    }
    assert pattern[n..] == [] && done + [] == done;
    r := Some(tokens);
  }

  lemma PrependTwice(done: seq<Token>, t: Token, r: Option<seq<Token>>)
    ensures Prepend(done, Prepend([t], r)) == Prepend(done + [t], r)
  {
    if r.Some? { assert done + ([t] + r.value) == (done + [t]) + r.value; }
  }

  lemma PushLast(raw: seq<Token>, t: Token)
    ensures Collapse(raw + [t]) == Push(Collapse(raw), t)
  {
    assert (raw + [t])[..|raw|] == raw;
  }

  // ----- collapsing keeps the meaning and adds no tokens of a new kind -----

  lemma {:induction false} PushMeaning(toks: seq<Token>, t: Token, s: string)
    ensures In(Push(toks, t), s) <==> In(toks + [t], s)
  {
    if toks != [] && IsStar(toks[|toks| - 1]) && IsStar(t) {
      var init, last := toks[..|toks| - 1], toks[|toks| - 1];
      assert toks + [t] == init + [last, t];
      forall x: string
        ensures In([last, t], x) <==> In([MergeStars(last, t)], x)
      {
        MergeStarsSound(last, t, x);
      }
      if In(toks + [t], s) {
        InReplaceTail(init, [last, t], [MergeStars(last, t)], s);
      }
      if In(Push(toks, t), s) {
        InReplaceTail(init, [MergeStars(last, t)], [last, t], s);
      }
    }
  }

  lemma {:induction false} CollapseMeaning(raw: seq<Token>, s: string)
    ensures In(Collapse(raw), s) <==> In(raw, s)
  {
    hide In;
    if raw != [] {
      var init, t := raw[..|raw| - 1], raw[|raw| - 1];
      assert raw == init + [t];
      PushMeaning(Collapse(init), t, s);
      if In(Collapse(init) + [t], s) {
        var c := InSplit(Collapse(init), [t], s);
        CollapseMeaning(init, s[..c]);
        InJoin(init, [t], s[..c], s[c..]);
        assert s[..c] + s[c..] == s;
      }
      if In(raw, s) {
        var c := InSplit(init, [t], s);
        CollapseMeaning(init, s[..c]);
        InJoin(Collapse(init), [t], s[..c], s[c..]);
        assert s[..c] + s[c..] == s;
      }
    }
  }

  lemma {:induction false} CollapseUnambiguous(raw: seq<Token>)
    requires AllUnambiguous(raw)
    ensures AllUnambiguous(Collapse(raw))
  {
    if raw != [] {
      var init := raw[..|raw| - 1];
      CollapseUnambiguous(init);
      var toks := Collapse(init);
      assert forall t :: t in toks[..if toks == [] then 0 else |toks| - 1] ==> t in toks;
      assert raw[|raw| - 1] in raw;
    }
  }

  // ----- the segment search -----

  /** The most rounds one search for a segment of `m` tokens takes. */
  function SearchRounds(m: nat, n: nat): nat {
    (n + 1) * Rounds(m, n)
  }

  lemma SearchIsMore(m: nat, n: nat, tried: nat)
    requires tried <= n + 1
    ensures tried * Rounds(m, n) <= SearchRounds(m, n)
    ensures Rounds(m, n) <= SearchRounds(m, n)
  {
    Scale(tried, n + 1, Rounds(m, n));
    Scale(1, n + 1, Rounds(m, n));
  }

  /** `steps` counts the rounds of the matcher over all starts. */
  method FindSegment(seg: seq<Token>, target: string, pos: nat) returns (r: Option<nat>, ghost steps: nat)
    requires pos <= |target|
    ensures r == Shift(pos, FindSeg(seg, target[pos..]))
    ensures steps <= SearchRounds(|seg|, |target|)
  {
    hide FindSeg, SearchRounds, Rounds;
    steps := 0;
    ghost var most := Rounds(|seg|, |target|);
    for l := pos to |target| + 1
      invariant steps <= (l - pos) * most
      invariant l <= |target| ==> Shift(pos, FindSeg(seg, target[pos..])) == Shift(l, FindSeg(seg, target[l..]))
      invariant l == |target| + 1 ==> FindSeg(seg, target[pos..]) == None
    {
      ghost var more: nat;
      r, more := MatchTokensPrefix(seg, target, l);
      OneMoreStart(l - pos, most, steps, more);
      steps := steps + more;
      FindSegStep(seg, target, l);
      if r.Some? {
        SearchIsMore(|seg|, |target|, l - pos + 1);
        return;
      }
    }
    SearchIsMore(|seg|, |target|, |target| + 1 - pos);
    r := None;
  }

  lemma OneMoreStart(tried: nat, most: nat, steps: nat, more: nat)
    requires steps <= tried * most && more <= most
    ensures steps + more <= (tried + 1) * most
  {
  }

  /** One start tried: the search ends here, goes on, or is over. */
  lemma FindSegStep(seg: seq<Token>, target: string, l: nat)
    requires l <= |target|
    ensures var end := Shift(l, Anchored(seg, target[l..], false));
            Shift(l, FindSeg(seg, target[l..])) ==
            if end.Some? then end else if l == |target| then None else Shift(l + 1, FindSeg(seg, target[l + 1..]))
  {
    if l < |target| {
      assert target[l..][1..] == target[l + 1..];
    }
  }

  method MatchSuffix(seg: seq<Token>, target: string, pos: nat) returns (r: bool, ghost steps: nat)
    requires pos <= |target|
    ensures r == SuffixFits(seg, target[pos..])
    ensures steps <= Rounds(|seg|, |target|)
  {
    var reversed := Reverse(target[pos..]);
    assert reversed[0..] == reversed;
    var end;
    end, steps := MatchTokensPrefix(Reverse(seg), reversed, 0);
    Scale(|target| - pos + |seg| + 1, |target| + |seg| + 1, |seg| + 1);
    r := end.Some?;
  }

  /** The most rounds all segments take together. */
  function AllRounds(core: seq<seq<Token>>, n: nat): nat {
    if core == [] then 0 else SearchRounds(|core[0]|, n) + AllRounds(core[1..], n)
  }

  /** The rounds of searches of weight `w`: each starts at no more than `n + 1` places. */
  function Total(n: nat, m: nat, w: nat): nat {
    (n + 1) * (n + m + 1) * w
  }

  /** The tokens of the segments and one for each segment. */
  function Weight(segs: seq<seq<Token>>): nat {
    if segs == [] then 0 else |segs[0]| + 1 + Weight(segs[1..])
  }

  lemma {:induction false} RoundsByWeight(core: seq<seq<Token>>, n: nat, m: nat)
    requires Weight(core) <= m + 1
    ensures AllRounds(core, n) <= Total(n, m, Weight(core))
  {
    hide SearchRounds, Total;
    if core != [] {
      RoundsByWeight(core[1..], n, m);
      WeightStep(|core[0]|, Weight(core[1..]), n, m);
    }
  }

  lemma WeightStep(k: nat, w: nat, n: nat, m: nat)
    requires k <= m
    ensures SearchRounds(k, n) + Total(n, m, w) <= Total(n, m, k + 1 + w)
  {
    var a, b := (n + 1) * (n + k + 1), (n + 1) * (n + m + 1);
    Scale(n + k + 1, n + m + 1, n + 1);
    Scale(a, b, k + 1);
    assert SearchRounds(k, n) == a * (k + 1) by { Regroup(n + 1, n + k + 1, k + 1); }
    assert b * (k + 1) + b * w == b * (k + 1 + w);
  }

  lemma Regroup(a: nat, b: nat, c: nat)
    ensures a * (b * c) == a * b * c
  {
  }

  lemma {:induction false} SplitWeight(toks: seq<Token>)
    ensures Weight(SplitDStar(toks)) == |toks| + 1
  {
    if toks != [] {
      SplitWeight(toks[1..]);
      var rest := SplitDStar(toks[1..]);
      if toks[0].DStar? {
        assert ([[]] + rest)[1..] == rest;
      } else {
        assert ([[toks[0]] + rest[0]] + rest[1..])[1..] == rest[1..];
      }
    }
  }

  lemma {:induction false} NonEmptyWeight(segs: seq<seq<Token>>)
    ensures Weight(NonEmpty(segs)) <= Weight(segs)
  {
    if segs != [] {
      NonEmptyWeight(segs[1..]);
      if segs[0] != [] {
        assert NonEmpty(segs)[1..] == NonEmpty(segs[1..]);
      } else {
        assert NonEmpty(segs) == NonEmpty(segs[1..]);
      }
    }
  }

  lemma {:induction false} CollapseShorter(raw: seq<Token>)
    ensures |Collapse(raw)| <= |raw|
  {
    if raw != [] { CollapseShorter(raw[..|raw| - 1]); }
  }

  lemma {:induction false} FewTokens(p: string)
    requires RawTokens(p).Some?
    ensures |RawTokens(p).value| <= |p|
    decreases |p|
  {
    if p == [] {
    } else if p[0] == '*' {
      FewTokens(if |p| > 1 && p[1] == '*' then p[2..] else p[1..]);
    } else if p[0] == '[' && BodyEnd(p) < |p| {
      FewTokens(p[BodyEnd(p) + 1..]);
    } else {
      FewTokens(p[1..]);
    }
  }

  lemma FewCompiled(pattern: string)
    requires Compiled(pattern).Some?
    ensures |Compiled(pattern).value| <= |pattern|
  {
    FewTokens(pattern);
    CollapseShorter(RawTokens(pattern).value);
  }

  lemma TotalGrows(n: nat, m: nat, k: nat, w: nat, v: nat)
    requires m <= k && w <= v
    ensures Total(n, m, w) <= Total(n, k, v)
  {
    Scale(n + m + 1, n + k + 1, n + 1);
    Scale((n + 1) * (n + m + 1), (n + 1) * (n + k + 1), w);
    Scale(w, v, (n + 1) * (n + k + 1));
  }

  /** The most rounds for a target of `n` characters and a pattern of `k`. */
  function MostRounds(n: nat, k: nat): nat {
    (n + 1) * (n + k + 1) * (k + 1)
  }

  lemma MostIsTotal(n: nat, k: nat)
    ensures MostRounds(n, k) == Total(n, k, k + 1)
  {
  }

  lemma OneCallFits(n: nat, m: nat, k: nat)
    requires m <= k
    ensures Rounds(m, n) <= MostRounds(n, k)
  {
    TotalGrows(n, m, k, m + 1, k + 1);
    Scale(1, n + 1, (n + m + 1) * (m + 1));
    Regroup(n + 1, n + m + 1, m + 1);
  }

  lemma SegmentsFit(tokens: seq<Token>, n: nat, k: nat)
    requires |tokens| <= k
    ensures AllRounds(NonEmpty(SplitDStar(tokens)), n) <= MostRounds(n, k)
  {
    hide Total, AllRounds, Weight;
    var core := NonEmpty(SplitDStar(tokens));
    SplitWeight(tokens);
    NonEmptyWeight(SplitDStar(tokens));
    RoundsByWeight(core, n, |tokens|);
    TotalGrows(n, |tokens|, k, Weight(core), k + 1);
    MostIsTotal(n, k);
  }

  /** What is left to place when the loop over the segments stands at `index`. */
  ghost predicate LoopGoal(core: seq<seq<Token>>, target: string, leading: bool, trailing: bool)
    requires core != []
  {
    if leading then Spread(core, target, trailing)
    else
      match Anchored(core[0], target, false)
      case None => false
      case Some(e) => e <= |target| && Spread(core[1..], target[e..], trailing)
  }

  method PlaceSegments(core: seq<seq<Token>>, target: string, leading: bool, trailing: bool)
    returns (r: bool, ghost steps: nat)
    requires core != []
    requires |core| == 1 ==> leading || trailing
    ensures r == LoopGoal(core, target, leading, trailing)
    ensures steps <= AllRounds(core, |target|)
  {
    hide SearchRounds, Rounds, Anchored, FindSeg, SuffixFits;
    steps := 0;
    var pos := 0;
    var last := |core| - 1;
    assert target[0..] == target && core[0..] == core;
    for index := 0 to |core|
      invariant 0 <= pos <= |target|
      invariant steps + AllRounds(core[index..], |target|) <= AllRounds(core, |target|)
      invariant index == 0 ==> pos == 0
      invariant index > 0 || leading ==>
        LoopGoal(core, target, leading, trailing) == Spread(core[index..], target[pos..], trailing)
    {
      var seg := core[index];
      assert core[index..][1..] == core[index + 1..];
      SearchIsMore(|seg|, |target|, 0);
      ghost var more: nat;
      if index == 0 && !leading {
        var end;
        end, more := MatchTokensPrefix(seg, target, 0);
        steps := steps + more;
        if end.None? {
          return false, steps;
        }
        AnchoredSound(seg, target, false);
        pos := end.value;
      } else if index == last && !trailing {
        var fits;
        fits, more := MatchSuffix(seg, target, pos);
        steps := steps + more;
        if !fits {
          return false, steps;
        }
        assert Spread(core[index..], target[pos..], trailing);
        pos := |target|;
        assert core[index + 1..] == [];
      } else {
        var end;
        end, more := FindSegment(seg, target, pos);
        steps := steps + more;
        if end.None? {
          return false, steps;
        }
        var _ := FindSegSound(seg, target[pos..]);
        assert target[pos..][end.value - pos..] == target[end.value..];
        pos := end.value;
      }
    }
    assert core[|core|..] == [];
    r := true;
  }

  /** Does the compiled pattern accept? */
  function Accepts(pattern: string, target: string): bool {
    |target| <= MAX_TARGET_LEN && Compiled(pattern).Some? && TokensAccept(Compiled(pattern).value, target)
  }

  /** The segments finished, the one being filled, and those still to come. */
  function Glue(segments: seq<seq<Token>>, current: seq<Token>, rest: seq<seq<Token>>): seq<seq<Token>>
    requires rest != []
  {
    segments + [current + rest[0]] + rest[1..]
  }

  lemma GlueStart(rest: seq<seq<Token>>)
    requires rest != []
    ensures Glue([], [], rest) == rest
  {
    assert [] + rest[0] == rest[0];
  }

  lemma GlueStep(segments: seq<seq<Token>>, current: seq<Token>, t: Token, rest: seq<seq<Token>>)
    requires rest != []
    ensures Glue(segments, current, [[]] + rest) == Glue(segments + [current], [], rest)
    ensures Glue(segments, current, [[t] + rest[0]] + rest[1..]) == Glue(segments, current + [t], rest)
  {
    assert current + [] == current && [] + rest[0] == rest[0];
    assert current + ([t] + rest[0]) == (current + [t]) + rest[0];
  }

  /** `steps` counts the rounds of all matcher calls together. */
  method TargetMatches(pattern: string, target: string) returns (r: bool, ghost steps: nat)
    ensures r == Accepts(pattern, target)
    ensures steps <= MostRounds(|target|, |pattern|)
  {
    hide AllRounds, Rounds, MostRounds;
    steps := 0;
    if |target| > MAX_TARGET_LEN {
      return false, steps;
    }
    var compiled := TokenizeTargetPattern(pattern);
    if compiled.None? {
      return false, steps;
    }
    var tokens := compiled.value;
    FewCompiled(pattern);
    if DStar !in tokens {
      r, steps := MatchTokensFull(tokens, target);
      OneCallFits(|target|, |tokens|, |pattern|);
      return;
    }
    var segments: seq<seq<Token>> := [];
    var current: seq<Token> := [];
    var i := 0;
    assert tokens[0..] == tokens;
    GlueStart(SplitDStar(tokens));
    while i < |tokens|
      invariant 0 <= i <= |tokens|
      invariant SplitDStar(tokens) == Glue(segments, current, SplitDStar(tokens[i..]))
    {
      assert tokens[i..][1..] == tokens[i + 1..];
      GlueStep(segments, current, tokens[i], SplitDStar(tokens[i + 1..]));
      if tokens[i].DStar? {
        segments := segments + [current];
        current := [];
      } else {
        current := current + [tokens[i]];
      }
      i := i + 1;
    }
    segments := segments + [current];
    assert SplitDStar(tokens[|tokens|..]) == [[]] && current + [] == current;
    assert segments == SplitDStar(tokens);
    var leading := segments[0] == [];
    var trailing := segments[|segments| - 1] == [];
    var core := NonEmpty(segments);
    if core == [] {
      return true, steps;
    }
    SplitFacts(tokens);
    if !leading {
      assert core == [segments[0]] + NonEmpty(segments[1..]) && core[1..] == NonEmpty(segments[1..]);
      if !trailing {
        LastSegment(segments);
      }
    }
    r, steps := PlaceSegments(core, target, leading, trailing);
    SegmentsFit(tokens, |target|, |pattern|);
  }

  // ----- the tokens mean what the text means -----

  lemma {:induction false} CharsAreListed(body: string)
    ensures ClassChars(body).Some? <==> RangesAscend(body)
    ensures ClassChars(body).Some? ==> forall c :: c in ClassChars(body).value <==> Lists(body, c)
  {
    if body == [] {
    } else if |body| > 2 && body[1] == '-' {
      CharsAreListed(body[3..]);
    } else {
      CharsAreListed(body[1..]);
    }
  }

  lemma {:induction false} IndexIsFirst(s: string, c: char, i: nat, k: nat)
    requires i <= |s| && k < |s|
    ensures IndexFrom(s, c, i) == k <==> i <= k && s[k] == c && c !in s[i..k]
    decreases |s| - i
  {
    if i < |s| && s[i] != c {
      IndexIsFirst(s, c, i + 1, k);
      if i < k { assert s[i..k] == [s[i]] + s[i + 1..k]; }
    }
  }

  lemma ClosesAtEnd(p: string, k: nat)
    requires p != [] && p[0] == '[' && k < |p|
    ensures Closes(p, k) <==> k == BodyEnd(p)
  {
    var j := BodyStart(p);
    if j < |p| && p[j] == ']' {
      IndexIsFirst(p, ']', j + 1, k);
    } else {
      IndexIsFirst(p, ']', j, k);
      if j < k { assert p[j..k] == [p[j]] + p[j + 1..k]; }
    }
  }

  lemma ClosedIff(p: string)
    requires p != [] && p[0] == '['
    ensures Closed(p) <==> BodyEnd(p) < |p|
    ensures Closed(p) ==> Closes(p, BodyEnd(p))
  {
    if BodyEnd(p) < |p| {
      ClosesAtEnd(p, BodyEnd(p));
    }
    if Closed(p) {
      var k :| 0 <= k < |p| && Closes(p, k);
      ClosesAtEnd(p, k);
    }
  }

  lemma ConsIn(t: Token, r: Option<seq<Token>>, s: string)
    requires r.Some? && !IsStar(t)
    ensures Prepend([t], r).Some?
    ensures In(Prepend([t], r).value, s) <==> s != [] && CharMatch(t, s[0]) && In(r.value, s[1..])
  {
    assert ([t] + r.value)[1..] == r.value;
    InFixed([t] + r.value, s);
  }

  lemma ConsInStar(t: Token, r: Option<seq<Token>>, s: string)
    requires r.Some? && IsStar(t)
    ensures Prepend([t], r).Some?
    ensures In(Prepend([t], r).value, s) <==> exists k | 0 <= k <= |s| :: Spans(t, s[..k]) && In(r.value, s[k..])
  {
    assert ([t] + r.value)[1..] == r.value;
  }

  /** A pattern and its tokens mean the same; a malformed class means nothing. */
  lemma {:induction false} MeansTokens(p: string, s: string)
    ensures Means(p, s) <==> RawTokens(p).Some? && In(RawTokens(p).value, s)
    decreases |p|
  {
    hide In, Closes, BodyEnd, ClassChars, Takes;
    if p == [] {
      InNone(s);
    } else if p[0] == '*' {
      StarMeans(p, s);
    } else if p[0] == '[' && Closed(p) {
      ClassMeans(p, s);
    } else {
      if p[0] == '[' { ClosedIff(p); } else { NotAClass(p); }
      var t := if p[0] == '?' then Question else Lit(p[0]);
      assert RawTokens(p) == Prepend([t], RawTokens(p[1..]));
      if RawTokens(p[1..]).Some? { ConsIn(t, RawTokens(p[1..]), s); }
      if s != [] { MeansTokens(p[1..], s[1..]); }
    }
  }

  lemma NotAClass(p: string)
    requires p != [] && p[0] != '['
    ensures !Closed(p)
  {
  }

  lemma {:induction false} StarMeans(p: string, s: string)
    requires p != [] && p[0] == '*'
    ensures Means(p, s) <==> RawTokens(p).Some? && In(RawTokens(p).value, s)
    decreases |p|, 0
  {
    hide In;
    var two := |p| > 1 && p[1] == '*';
    var t, q := if two then DStar else Star, if two then p[2..] else p[1..];
    assert RawTokens(p) == Prepend([t], RawTokens(q));
    forall k | 0 <= k <= |s|
      ensures Means(q, s[k..]) <==> RawTokens(q).Some? && In(RawTokens(q).value, s[k..])
    {
      MeansTokens(q, s[k..]);
    }
    if RawTokens(q).Some? { ConsInStar(t, RawTokens(q), s); }
  }

  lemma {:induction false} ClassMeans(p: string, s: string)
    requires p != [] && p[0] == '[' && Closed(p)
    ensures Means(p, s) <==> RawTokens(p).Some? && In(RawTokens(p).value, s)
    decreases |p|, 0
  {
    hide In, Closes, BodyEnd, ClassChars, Means, RawTokens, Lists, RangesAscend;
    ClosedIff(p);
    var k := BodyEnd(p);
    var body := p[BodyStart(p)..k];
    CharsAreListed(body);
    ClassStep(p);
    OnlyClass(p, s, k);
    if s != [] { MeansTokens(p[k + 1..], s[1..]); }
    if RawTokens(p).Some? {
      ConsIn(Class(ClassChars(body).value, p[1] == '!'), RawTokens(p[k + 1..]), s);
    } else if ClassChars(body).Some? {
      assert RawTokens(p[k + 1..]).None?;
    }
  }

  lemma OnlyClass(p: string, s: string, k: nat)
    requires k < |p| && Closes(p, k)
    ensures Means(p, s) <==> s != [] && Takes(p, k, s[0]) && Means(p[k + 1..], s[1..])
  {
    hide Takes;
    forall i | 0 <= i < |p| && Closes(p, i) ensures i == k {
      ClosesAtEnd(p, i);
      ClosesAtEnd(p, k);
    }
  }

  lemma {:induction false} ClearTokens(p: string)
    requires Clear(p) && RawTokens(p).Some?
    ensures AllUnambiguous(RawTokens(p).value)
    decreases |p|
  {
    hide Closes, BodyEnd, ClassChars, Lists;
    if p == [] {
    } else if p[0] == '[' && Closed(p) {
      ClosedIff(p);
      ClassStep(p);
      var k := BodyEnd(p);
      CharsAreListed(p[BodyStart(p)..k]);
      ClearTokens(p[k + 1..]);
    } else {
      if p[0] == '[' { ClosedIff(p); } else { NotAClass(p); }
      if p[0] == '*' && |p| > 1 && p[1] == '*' {
        assert Clear(p[1..]) && !Closed(p[1..]) by { NotAClass(p[1..]); }
        assert p[1..][1..] == p[2..];
        ClearTokens(p[2..]);
      } else {
        ClearTokens(p[1..]);
      }
    }
  }

  // ----- what the matcher decides -----

  /** The target belongs to the language of the pattern, caps included. */
  ghost predicate Denotes(pattern: string, target: string) {
    |pattern| <= 2048 && |target| <= 4096 && Means(pattern, target)
  }

  /** Only targets in the language are accepted, whatever the pattern. */
  lemma AcceptedIsDenoted(pattern: string, target: string)
    requires Accepts(pattern, target)
    ensures Denotes(pattern, target)
  {
    AcceptSound(Compiled(pattern).value, target);
    CollapseMeaning(RawTokens(pattern).value, target);
    MeansTokens(pattern, target);
  }

  /** If no class of the pattern lists the separator and something else, acceptance is the language. */
  lemma AcceptsIffDenoted(pattern: string, target: string)
    requires Clear(pattern)
    ensures Accepts(pattern, target) <==> Denotes(pattern, target)
  {
    hide Means, Clear, In, RawTokens, TokensAccept;
    if Accepts(pattern, target) {
      AcceptedIsDenoted(pattern, target);
    }
    if Denotes(pattern, target) {
      MeansTokens(pattern, target);
      var raw := RawTokens(pattern).value;
      ClearTokens(pattern);
      CollapseMeaning(raw, target);
      CollapseUnambiguous(raw);
      AcceptComplete(Collapse(raw), target);
    }
  }

  // ----- the hypothesis is exact -----

  /** A class may be used freely: every token list that has no other class is decided exactly. */
  ghost predicate SafeClass(t: Token) {
    forall toks: seq<Token>, s: string ::
      (forall x :: x in toks && x.Class? ==> x == t) ==> (TokensAccept(toks, s) <==> In(toks, s))
  }

  /** `*[..]*b` denotes a text whose first character the class matches and whose second is `/`. */
  lemma AmbiguousClassDenotes(t: Token, c: char, b: char)
    requires t.Class? && !t.negate && '/' in t.chars && c != '/'
    ensures In([Star, t, Star, Lit(b)], [c, '/', b])
  {
    InSingle(Star, [c]);
    InSingle(t, ['/']);
    InSingle(Star, []);
    InSingle(Lit(b), [b]);
    InJoin([Star], [t], [c], ['/']);
    InJoin([Star], [Lit(b)], [], [b]);
    InJoin([Star] + [t], [Star] + [Lit(b)], [c] + ['/'], [] + [b]);
    assert [Star] + [t] + ([Star] + [Lit(b)]) == [Star, t, Star, Lit(b)];
    assert [c] + ['/'] + ([] + [b]) == [c, '/', b];
  }

  /** The matcher misses it: the class takes the first character, and no star crosses the `/`. */
  lemma AmbiguousClassMisses(t: Token, c: char, b: char)
    requires t.Class? && !t.negate && c in t.chars && b != '/'
    ensures !TokensAccept([Star, t, Star, Lit(b)], [c, '/', b])
  {
    var toks, s := [Star, t, Star, Lit(b)], [c, '/', b];
    var last, mid := [Lit(b)], [t, Star, Lit(b)];
    assert FixedLen(last) == 1 && FixedLen(mid) == 1 && FixedLen(toks) == 0;
    assert !Here(last, s[1..], true);
    assert Floating(Star, last, s[1..], true) == None;
    assert mid[1 + 1..] == last && toks[0 + 1..] == mid && s[0..] == s;
    assert Floating(Star, mid, s, true) == None;
  }

  lemma StarStep(p: string)
    requires |p| > 1 && p[0] == '*' && p[1] != '*'
    ensures RawTokens(p) == Prepend([Star], RawTokens(p[1..]))
  {
  }

  /** The pattern `*[/a]*b` spells such tokens. */
  lemma AmbiguousTokens()
    ensures RawTokens("*[/a]*b") == Some([Star, Class({'/', 'a'}, false), Star, Lit('b')])
    ensures Compiled("*[/a]*b") == RawTokens("*[/a]*b")
  {
    var toks := [Star, Class({'/', 'a'}, false), Star, Lit('b')];
    var p := "[/a]*b";
    assert IndexFrom(p, ']', 1) == IndexFrom(p, ']', 2) == IndexFrom(p, ']', 3) == 3;
    assert p[1..3] == "/a" && p[4..] == "*b";
    assert "/a"[1..] == "a" && "a"[1..] == "";
    assert ClassChars("a") == UnionWith({'a'}, ClassChars("")) == Some({'a'} + {}) && {'a'} + {} == {'a'};
    assert ClassChars("/a") == UnionWith({'/'}, ClassChars("a")) == Some({'/'} + {'a'}) && {'/'} + {'a'} == {'/', 'a'};
    assert BodyStart(p) == 1 && BodyEnd(p) == 3 && |p| == 6;
    assert "b"[1..] == "" && RawTokens("b") == Prepend([Lit('b')], Some([])) == Some([Lit('b')] + []);
    assert "*b"[1..] == "b" && RawTokens("*b") == Prepend([Star], RawTokens("b"));
    ClassStep(p);
    assert RawTokens(p) == Prepend([Class({'/', 'a'}, false)], RawTokens("*b"));
    assert [Lit('b')] + [] == [Lit('b')] && [Star] + [Lit('b')] == [Star, Lit('b')];
    assert RawTokens("*b") == Some([Star, Lit('b')]);
    assert RawTokens(p) == Some([Class({'/', 'a'}, false)] + [Star, Lit('b')]);
    var whole := "*[/a]*b";
    assert whole[0] == '*' && whole[1] == '[' && whole[1..] == p;
    StarStep(whole);
    assert [Star] + ([Class({'/', 'a'}, false)] + [Star, Lit('b')]) == toks;
    assert RawTokens(whole) == Some(toks);
    CollapseApart(toks);
  }

  lemma {:induction false} CollapseApart(toks: seq<Token>)
    requires forall i :: 0 < i < |toks| ==> !(IsStar(toks[i - 1]) && IsStar(toks[i]))
    ensures Collapse(toks) == toks
  {
    if toks != [] {
      var init := toks[..|toks| - 1];
      CollapseApart(init);
      assert toks == init + [toks[|toks| - 1]];
    }
  }

  /** The target `a/b` belongs to the language of `*[/a]*b`, and the matcher refuses it. */
  lemma AmbiguousPatternMissed()
    ensures Denotes("*[/a]*b", "a/b") && !Accepts("*[/a]*b", "a/b")
  {
    hide RawTokens, Compiled, TokensAccept, In, Means;
    var t := Class({'/', 'a'}, false);
    AmbiguousTokens();
    AmbiguousClassDenotes(t, 'a', 'b');
    AmbiguousClassMisses(t, 'a', 'b');
    assert ['a', '/', 'b'] == "a/b";
    MeansTokens("*[/a]*b", "a/b");
  }

  /** A class is safe exactly when it does not match both the separator and something else. */
  lemma SafeClassIff(t: Token)
    requires t.Class?
    ensures SafeClass(t) <==> Unambiguous(t)
  {
    if Unambiguous(t) {
      forall toks: seq<Token>, s: string | forall x :: x in toks && x.Class? ==> x == t
        ensures TokensAccept(toks, s) <==> In(toks, s)
      {
        if TokensAccept(toks, s) { AcceptSound(toks, s); }
        if In(toks, s) { AcceptComplete(toks, s); }
      }
    } else {
      var c :| c in t.chars && c != '/';
      var b := if c == 'a' then 'b' else 'a';
      AmbiguousClassDenotes(t, c, b);
      AmbiguousClassMisses(t, c, b);
      var toks := [Star, t, Star, Lit(b)];
      assert forall x :: x in toks && x.Class? ==> x == t;
    }
  }
}
