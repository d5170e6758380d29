/** What a capability target pattern means.

    A pattern is compiled to tokens; a token list denotes a set of strings.  The meaning is
    declarative: the string is cut into one piece per token and every piece belongs to its token.
    Nothing here mentions bookmarks, segments or search order. */
module GlobLanguage {

  datatype Token =
    | Lit(ch: char)
    | Star
    | Question
    | Class(chars: set<char>, negate: bool)
    | DStar

  predicate IsStar(t: Token) {
    t.Star? || t.DStar?
  }

  /** May the token stand for the single character `ch`?  For the two stars: may they run over it? */
  predicate CharMatch(t: Token, ch: char) {
    match t
    case Lit(c) => ch == c
    case Question => ch != '/'
    case Star => ch != '/'
    case DStar => true
    case Class(chars, negate) => if negate then ch !in chars && ch != '/' else ch in chars
  }

  /** The strings one token stands for. */
  predicate Spans(t: Token, piece: string) {
    match t
    case Star => '/' !in piece
    case DStar => true
    case _ => |piece| == 1 && CharMatch(t, piece[0])
  }

  /** The strings a token list stands for. */
  ghost predicate In(toks: seq<Token>, s: string) {
    if toks == [] then s == []
    else exists k | 0 <= k <= |s| :: Spans(toks[0], s[..k]) && In(toks[1..], s[k..])
  }

  predicate NoDStar(toks: seq<Token>) {
    DStar !in toks
  }

  /** A class that matches both the separator and something else makes a segment's length in
      separators depend on the text; every other token is unambiguous about the separator. */
  predicate Unambiguous(t: Token) {
    t.Class? && !t.negate && '/' in t.chars ==> t.chars == {'/'}
  }

  predicate AllUnambiguous(toks: seq<Token>) {
    forall t :: t in toks ==> Unambiguous(t)
  }

  // ----- one token at a time -----

  /** The first token stands for the first `k` characters, the others for the rest. */
  lemma InTake(toks: seq<Token>, s: string) returns (k: nat)
    requires toks != [] && In(toks, s)
    ensures k <= |s| && Spans(toks[0], s[..k]) && In(toks[1..], s[k..])
  {
    k :| 0 <= k <= |s| && Spans(toks[0], s[..k]) && In(toks[1..], s[k..]);
  }

  lemma InPut(toks: seq<Token>, s: string, k: nat)
    requires toks != [] && k <= |s| && Spans(toks[0], s[..k]) && In(toks[1..], s[k..])
    ensures In(toks, s)
  {
  }

  lemma InNone(s: string)
    ensures In([], s) <==> s == []
  {
  }

  lemma InConsIntro(t: Token, rest: seq<Token>, s: string, k: nat)
    requires k <= |s| && Spans(t, s[..k]) && In(rest, s[k..])
    ensures In([t] + rest, s)
  {
    assert ([t] + rest)[1..] == rest;
  }

  lemma InFixed(toks: seq<Token>, s: string)
    requires toks != [] && !IsStar(toks[0])
    ensures In(toks, s) <==> s != [] && CharMatch(toks[0], s[0]) && In(toks[1..], s[1..])
  {
    if s != [] && CharMatch(toks[0], s[0]) && In(toks[1..], s[1..]) {
      assert Spans(toks[0], s[..1]);
    }
  }

  lemma InStar(toks: seq<Token>, s: string)
    requires toks != [] && IsStar(toks[0])
    ensures In(toks, s) <==>
            In(toks[1..], s) || (s != [] && CharMatch(toks[0], s[0]) && In(toks, s[1..]))
  {
    hide In;
    if In(toks, s) {
      var k := InTake(toks, s);
      if k == 0 {
        assert s[0..] == s;
      } else {
        assert s[..k][0] == s[0];
        assert s[1..][..k - 1] == s[..k][1..];
        assert s[1..][k - 1..] == s[k..];
        InPut(toks, s[1..], k - 1);
      }
    }
    if In(toks[1..], s) {
      assert s[0..] == s;
      InPut(toks, s, 0);
    }
    if s != [] && CharMatch(toks[0], s[0]) && In(toks, s[1..]) {
      var k := InTake(toks, s[1..]);
      assert s[..k + 1] == [s[0]] + s[1..][..k];
      assert s[1..][k..] == s[k + 1..];
      InPut(toks, s, k + 1);
    }
  }

  // ----- concatenation and reversal -----

  lemma {:induction false} InJoin(left: seq<Token>, right: seq<Token>, u: string, v: string)
    requires In(left, u) && In(right, v)
    ensures In(left + right, u + v)
  {
    hide In, Spans;
    if left == [] {
      InNone(u);
      assert left + right == right && u + v == v;
    } else {
      var k := InTake(left, u);
      InJoin(left[1..], right, u[k..], v);
      assert (left + right)[1..] == left[1..] + right;
      assert (u + v)[..k] == u[..k];
      assert (u + v)[k..] == u[k..] + v;
      InPut(left + right, u + v, k);
    }
  }

  lemma {:induction false} InSplit(left: seq<Token>, right: seq<Token>, s: string) returns (cut: nat)
    requires In(left + right, s)
    ensures cut <= |s| && In(left, s[..cut]) && In(right, s[cut..])
  {
    hide In, Spans;
    if left == [] {
      cut := 0;
      InNone(s[..0]);
      assert left + right == right && s[0..] == s;
    } else {
      assert (left + right)[1..] == left[1..] + right;
      var k := InTake(left + right, s);
      var c := InSplit(left[1..], right, s[k..]);
      cut := k + c;
      assert s[..cut][..k] == s[..k];
      assert s[..cut][k..] == s[k..][..c];
      assert s[cut..] == s[k..][c..];
      InPut(left, s[..cut], k);
    }
  }

  function Reverse<T(!new)>(s: seq<T>): (r: seq<T>)
    ensures |r| == |s|
    ensures forall i :: 0 <= i < |s| ==> r[i] == s[|s| - 1 - i]
    ensures forall x :: x in r <==> x in s
  {
    if s == [] then [] else Reverse(s[1..]) + [s[0]]
  }

  lemma ReverseReverse<T(!new)>(s: seq<T>)
    ensures Reverse(Reverse(s)) == s
  {
  }

  lemma InSingle(t: Token, s: string)
    ensures In([t], s) <==> Spans(t, s)
  {
    if Spans(t, s) {
      assert s[..|s|] == s && In([t][1..], s[|s|..]);
    }
    if In([t], s) {
      var k :| 0 <= k <= |s| && Spans(t, s[..k]) && In([t][1..], s[k..]);
      assert s[..k] == s;
    }
  }

  /** Tokens are direction-symmetric. */
  lemma {:induction false} InReverse(toks: seq<Token>, s: string)
    requires In(toks, s)
    ensures In(Reverse(toks), Reverse(s))
  {
    hide In;
    if toks == [] {
      InNone(s);
    } else {
      var k := InTake(toks, s);
      InReverse(toks[1..], s[k..]);
      var head := Reverse(s[..k]);
      assert Spans(toks[0], head);
      InSingle(toks[0], head);
      InJoin(Reverse(toks[1..]), [toks[0]], Reverse(s[k..]), head);
      assert Reverse(s[k..]) + head == Reverse(s);
    }
  }

  // ----- collapsing adjacent stars -----

  /** What two adjacent stars amount to. */
  function MergeStars(a: Token, b: Token): Token {
    if b.DStar? then DStar else a
  }

  lemma MergeStarsSound(a: Token, b: Token, s: string)
    requires IsStar(a) && IsStar(b)
    ensures In([a, b], s) <==> In([MergeStars(a, b)], s)
  {
    hide In;
    InSingle(MergeStars(a, b), s);
    assert [a] + [b] == [a, b];
    if In([a, b], s) {
      var k := InTake([a, b], s);
      assert [a, b][1..] == [b];
      InSingle(b, s[k..]);
      assert s == s[..k] + s[k..];
    }
    if Spans(MergeStars(a, b), s) {
      if b.DStar? {
        InSingle(b, s);
        assert s[0..] == s;
        InConsIntro(a, [b], s, 0);
      } else {
        assert s[..|s|] == s;
        InSingle(b, s[|s|..]);
        InConsIntro(a, [b], s, |s|);
      }
    }
  }

  /** Replacing the tail of a token list by one with the same meaning keeps the meaning. */
  lemma InReplaceTail(left: seq<Token>, r1: seq<Token>, r2: seq<Token>, s: string)
    requires forall x: string :: In(r1, x) ==> In(r2, x)
    requires In(left + r1, s)
    ensures In(left + r2, s)
  {
    hide In;
    var c := InSplit(left, r1, s);
    InJoin(left, r2, s[..c], s[c..]);
    assert s[..c] + s[c..] == s;
  }

  /** `**` absorbs anything in front of it. */
  lemma DStarAbsorbs(rest: seq<Token>, s: string, from: nat, to: nat)
    requires from <= to <= |s|
    requires rest != [] && rest[0].DStar? && In(rest, s[to..])
    ensures In(rest, s[from..])
    decreases |s| - from
  {
    hide In;
    if from < to {
      assert s[from..][1..] == s[from + 1..];
      DStarAbsorbs(rest, s, from + 1, to);
      InStar(rest, s[from..]);
    }
  }
}
