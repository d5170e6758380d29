/** The greedy discipline the matcher follows, as functions, and its relation to the language.

    A run of tokens between two stars is placed at the first spot where it fits, once and for all.
    `Floating` is that placement behind a star, `Anchored` the placement at a fixed start. */
module GlobGreedy {
  import opened Wrappers
  import opened GlobLanguage

  function Shift(n: nat, r: Option<nat>): (r': Option<nat>) {
    match r
    case None => None
    case Some(m) => Some(n + m)
  }

  /** Number of tokens before the first star. */
  function FixedLen(toks: seq<Token>): (n: nat)
    ensures n <= |toks|
    ensures forall i :: 0 <= i < n ==> !IsStar(toks[i])
    ensures n < |toks| ==> IsStar(toks[n])
  {
    if toks == [] || IsStar(toks[0]) then 0 else 1 + FixedLen(toks[1..])
  }

  /** The first `n` tokens match the first `n` characters one by one. */
  predicate FixedMatch(toks: seq<Token>, n: nat, s: string)
    requires n <= |toks|
  {
    n <= |s| && forall i :: 0 <= i < n ==> CharMatch(toks[i], s[i])
  }

  /** The leading run fits at the start of `s`; when it is the last run and the match is to reach
      the end of the text (`full`), it must also end there. */
  predicate Here(toks: seq<Token>, s: string, full: bool) {
    var n := FixedLen(toks);
    FixedMatch(toks, n, s) && (n == |toks| && full ==> n == |s|)
  }

  /** Place the leading run at the start of `s`, then go on behind the star that follows. */
  function Commit(toks: seq<Token>, s: string, full: bool): Option<nat>
    requires Here(toks, s, full)
    decreases |toks|, |s|, 0
  {
    var n := FixedLen(toks);
    if n == |toks| then Some(n)
    else Shift(n, Floating(toks[n], toks[n + 1..], s[n..], full))
  }

  function Floating(star: Token, toks: seq<Token>, s: string, full: bool): Option<nat>
    decreases |toks|, |s|, 1
  {
    if Here(toks, s, full) then Commit(toks, s, full)
    else if s != [] && CharMatch(star, s[0]) then Shift(1, Floating(star, toks, s[1..], full))
    else None
  }

  function Anchored(toks: seq<Token>, s: string, full: bool): Option<nat> {
    if Here(toks, s, full) then Commit(toks, s, full) else None
  }

  // ----- soundness: whatever the greedy placement accepts is in the language -----

  lemma {:induction false} FixedIn(toks: seq<Token>, n: nat, s: string)
    requires n <= |toks| && FixedMatch(toks, n, s)
    requires forall i :: 0 <= i < n ==> !IsStar(toks[i])
    ensures In(toks[..n], s[..n])
  {
    hide In;
    if n == 0 {
      InNone(s[..n]);
    } else {
      FixedIn(toks[1..], n - 1, s[1..]);
      assert toks[..n][1..] == toks[1..][..n - 1];
      assert s[..n][1..] == s[1..][..n - 1];
      InFixed(toks[..n], s[..n]);
    }
  }

  lemma Assemble(toks: seq<Token>, n: nat, s: string, f: nat)
    requires n <= |toks| && n + f <= |s|
    requires In(toks[..n], s[..n]) && In(toks[n..], s[n..][..f])
    ensures In(toks, s[..n + f])
  {
    hide In;
    InJoin(toks[..n], toks[n..], s[..n], s[n..][..f]);
    assert toks[..n] + toks[n..] == toks;
    assert s[..n] + s[n..][..f] == s[..n + f];
  }

  lemma {:induction false} CommitSound(toks: seq<Token>, s: string, full: bool)
    requires Here(toks, s, full) && Commit(toks, s, full).Some?
    ensures var r := Commit(toks, s, full).value;
            r <= |s| && In(toks, s[..r]) && (full ==> r == |s|)
    decreases |toks|, |s|, 0
  {
    hide In, CharMatch, FixedLen;
    var n := FixedLen(toks);
    FixedIn(toks, n, s);
    if n == |toks| {
      assert toks[..n] == toks;
    } else {
      FloatingSound(toks[n], toks[n + 1..], s[n..], full);
      var f := Floating(toks[n], toks[n + 1..], s[n..], full).value;
      assert [toks[n]] + toks[n + 1..] == toks[n..];
      Assemble(toks, n, s, f);
    }
  }

  lemma {:induction false} FloatingSound(star: Token, toks: seq<Token>, s: string, full: bool)
    requires IsStar(star) && Floating(star, toks, s, full).Some?
    ensures var r := Floating(star, toks, s, full).value;
            r <= |s| && In([star] + toks, s[..r]) && (full ==> r == |s|)
    decreases |toks|, |s|, 1
  {
    hide In, Here, Commit;
    var r := Floating(star, toks, s, full).value;
    assert ([star] + toks)[1..] == toks;
    if Here(toks, s, full) {
      CommitSound(toks, s, full);
      InStar([star] + toks, s[..r]);
    } else {
      FloatingSound(star, toks, s[1..], full);
      assert s[..r][1..] == s[1..][..r - 1];
      InStar([star] + toks, s[..r]);
    }
  }

  lemma AnchoredSound(toks: seq<Token>, s: string, full: bool)
    requires Anchored(toks, s, full).Some?
    ensures var r := Anchored(toks, s, full).value;
            r <= |s| && In(toks, s[..r]) && (full ==> r == |s|)
  {
    CommitSound(toks, s, full);
  }

  // ----- completeness: nothing in the language is missed, and the end found is the least -----

  lemma {:induction false} FixedFromIn(toks: seq<Token>, n: nat, s: string)
    requires n <= |toks| && In(toks, s)
    requires forall i :: 0 <= i < n ==> !IsStar(toks[i])
    ensures FixedMatch(toks, n, s) && In(toks[n..], s[n..])
  {
    if n == 0 {
      assert toks[0..] == toks && s[0..] == s;
    } else {
      InFixed(toks, s);
      FixedFromIn(toks[1..], n - 1, s[1..]);
      assert toks[1..][n - 1..] == toks[n..];
      assert s[1..][n - 1..] == s[n..];
      forall i | 0 <= i < n
        ensures CharMatch(toks[i], s[i])
      {
        if i > 0 {
          assert toks[1..][i - 1] == toks[i] && s[1..][i - 1] == s[i];
        }
      }
    }
  }

  /** If one run fits at two places and the text between the two starts has no separator, then
      neither has the text between the two ends: this is where unambiguous tokens matter. */
  lemma {:induction false} SeparatorFreeGap(toks: seq<Token>, n: nat, s: string, gap: nat)
    requires n <= |toks| && AllUnambiguous(toks)
    requires forall i :: 0 <= i < n ==> !IsStar(toks[i])
    requires FixedMatch(toks, n, s) && gap <= |s| && FixedMatch(toks, n, s[gap..])
    requires '/' !in s[..gap]
    ensures n + gap <= |s| && '/' !in s[n..n + gap]
  {
    if n > 0 {
      SeparatorFreeGap(toks, n - 1, s, gap);
      if gap > 0 {
        assert s[n - 1] in s[n - 1..n - 1 + gap];
        assert s[gap..][n - 1] == s[n - 1 + gap];
        assert toks[n - 1] in toks;
        assert s[n - 1 + gap] != '/';
        forall i | n <= i < n + gap
          ensures s[i] != '/'
        {
          if i < n - 1 + gap {
            assert s[i] == s[n - 1..n - 1 + gap][i - (n - 1)];
          }
        }
      }
    }
  }

  /** Behind a star the text absorbed first is some `k` characters, none of them a separator. */
  lemma StarAbsorbs(toks: seq<Token>, s: string) returns (k: nat)
    requires toks != [] && toks[0].Star? && In(toks, s)
    ensures k <= |s| && '/' !in s[..k] && In(toks[1..], s[k..])
  {
    k :| 0 <= k <= |s| && Spans(toks[0], s[..k]) && In(toks[1..], s[k..]);
  }

  lemma StarExtends(toks: seq<Token>, s: string, k: nat)
    requires toks != [] && toks[0].Star? && k <= |s| && '/' !in s[..k] && In(toks, s[k..])
    ensures In(toks, s)
  {
    hide In;
    var j := StarAbsorbs(toks, s[k..]);
    assert s[..k + j] == s[..k] + s[k..][..j];
    assert s[k..][j..] == s[k + j..];
    InPut(toks, s, k + j);
  }

  /** Any match behind a star places the leading run somewhere, with no separator in front of it. */
  lemma RunPlaced(toks: seq<Token>, n: nat, s: string, e: nat) returns (k: nat)
    requires e <= |s| && n <= |toks| && (forall i :: 0 <= i < n ==> !IsStar(toks[i]))
    requires In([Star] + toks, s[..e])
    ensures k + n <= e && '/' !in s[..k] && FixedMatch(toks, n, s[k..]) && In(toks[n..], s[n + k..e])
  {
    k := StarAbsorbs([Star] + toks, s[..e]);
    assert ([Star] + toks)[1..] == toks;
    var t := s[..e][k..];
    FixedFromIn(toks, n, t);
    assert t[n..] == s[n + k..e];
    assert s[..e][..k] == s[..k];
    forall i | 0 <= i < n
      ensures CharMatch(toks[i], s[k..][i])
    {
      assert t[i] == s[k..][i];
    }
  }

  /** Once the leading run fits here, the rest of any match can be shifted to start right behind it. */
  lemma CommitLosesNothing(toks: seq<Token>, n: nat, s: string, e: nat)
    requires e <= |s| && n < |toks| && toks[n].Star? && AllUnambiguous(toks)
    requires forall i :: 0 <= i < n ==> !IsStar(toks[i])
    requires FixedMatch(toks, n, s)
    requires In([Star] + toks, s[..e])
    ensures n <= e && In(toks[n..], s[n..e])
  {
    hide In;
    var k := RunPlaced(toks, n, s, e);
    SeparatorFreeGap(toks, n, s, k);
    assert s[n..e][..k] == s[n..n + k];
    assert s[n..e][k..] == s[n + k..e];
    StarExtends(toks[n..], s[n..e], k);
  }

  /** Every token but a star takes one character. */
  lemma {:induction false} InLength(toks: seq<Token>, s: string)
    requires In(toks, s)
    ensures FixedLen(toks) <= |s|
    ensures FixedLen(toks) == |toks| ==> |s| == |toks|
  {
    FixedFromIn(toks, FixedLen(toks), s);
  }

  lemma {:induction false} FloatingComplete(toks: seq<Token>, s: string, e: nat, full: bool)
    requires e <= |s| && (full ==> e == |s|)
    requires NoDStar(toks) && AllUnambiguous(toks)
    requires In([Star] + toks, s[..e])
    ensures Floating(Star, toks, s, full).Some? && Floating(Star, toks, s, full).value <= e
    decreases |toks|, |s|
  {
    hide In;
    var n := FixedLen(toks);
    if Here(toks, s, full) {
      if n == |toks| {
        var k := RunPlaced(toks, n, s, e);
      } else {
        assert toks[n] in toks;
        CommitLosesNothing(toks, n, s, e);
        assert toks[n..] == [Star] + toks[n + 1..];
        assert s[n..e] == s[n..][..e - n];
        forall t | t in toks[n + 1..] ensures t in toks {}
        FloatingComplete(toks[n + 1..], s[n..], e - n, full);
      }
    } else {
      StarMustAdvance(toks, s, e, full);
      FloatingComplete(toks, s[1..], e - 1, full);
    }
  }

  /** If the run does not fit here, the star takes at least one more character. */
  lemma StarMustAdvance(toks: seq<Token>, s: string, e: nat, full: bool)
    requires e <= |s| && (full ==> e == |s|)
    requires In([Star] + toks, s[..e]) && !Here(toks, s, full)
    ensures e > 0 && s[0] != '/' && In([Star] + toks, s[1..][..e - 1])
  {
    assert ([Star] + toks)[1..] == toks;
    InStar([Star] + toks, s[..e]);
    if In(toks, s[..e]) {
      FixedFromIn(toks, FixedLen(toks), s[..e]);
      InLength(toks, s[..e]);
      assert false;
    }
    assert s[..e][1..] == s[1..][..e - 1];
  }

  lemma AnchoredComplete(toks: seq<Token>, s: string, e: nat, full: bool)
    requires e <= |s| && (full ==> e == |s|)
    requires NoDStar(toks) && AllUnambiguous(toks)
    requires In(toks, s[..e])
    ensures Anchored(toks, s, full).Some? && Anchored(toks, s, full).value <= e
  {
    hide In, Floating;
    var n := FixedLen(toks);
    FixedFromIn(toks, n, s[..e]);
    InLength(toks, s[..e]);
    if n < |toks| {
      assert toks[n] in toks;
      assert toks[n..] == [Star] + toks[n + 1..];
      assert s[..e][n..] == s[n..][..e - n];
      forall t | t in toks[n + 1..] ensures t in toks {}
      FloatingComplete(toks[n + 1..], s[n..], e - n, full);
    }
  }

  // ----- a later start never ends earlier -----

  lemma {:induction false} FloatingMonotone(star: Token, toks: seq<Token>, s: string, gap: nat)
    requires gap <= |s|
    requires Floating(star, toks, s, false).Some? && Floating(star, toks, s[gap..], false).Some?
    ensures Floating(star, toks, s, false).value <= gap + Floating(star, toks, s[gap..], false).value
    decreases |toks|, |s|
  {
    if gap == 0 {
      assert s[0..] == s;
    } else if !Here(toks, s, false) {
      assert s[1..][gap - 1..] == s[gap..];
      FloatingMonotone(star, toks, s[1..], gap - 1);
    } else {
      LaterStart(star, toks, s, gap);
    }
  }

  /** The case in which the leading run fits at the start: walk the later start forward to where it
      fits too, then compare what follows. */
  lemma {:induction false} LaterStart(star: Token, toks: seq<Token>, s: string, gap: nat)
    requires gap <= |s| && Here(toks, s, false)
    requires Commit(toks, s, false).Some? && Floating(star, toks, s[gap..], false).Some?
    ensures Commit(toks, s, false).value <= gap + Floating(star, toks, s[gap..], false).value
    decreases |toks|, |s| - gap
  {
    var n := FixedLen(toks);
    if Here(toks, s[gap..], false) {
      if n < |toks| {
        assert s[gap..][n..] == s[n..][gap..];
        FloatingMonotone(toks[n], toks[n + 1..], s[n..], gap);
      }
    } else {
      assert s[gap..][1..] == s[gap + 1..];
      LaterStart(star, toks, s, gap + 1);
    }
  }

  lemma AnchoredMonotone(toks: seq<Token>, s: string, gap: nat)
    requires gap <= |s|
    requires Anchored(toks, s, false).Some? && Anchored(toks, s[gap..], false).Some?
    ensures Anchored(toks, s, false).value <= gap + Anchored(toks, s[gap..], false).value
  {
    var n := FixedLen(toks);
    if n < |toks| {
      assert s[gap..][n..] == s[n..][gap..];
      FloatingMonotone(toks[n], toks[n + 1..], s[n..], gap);
    }
  }
}
