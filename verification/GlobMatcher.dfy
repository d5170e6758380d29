/** The two token matchers: loops over two indices and one star bookmark. */
module GlobMatcher {
  import opened Wrappers
  import opened GlobLanguage
  import opened GlobGreedy

  // ----- what one position of the loops stands for -----

  /** What is left to decide when the last star seen is token `sp` (-1: none yet) and it has absorbed
      the text from the place it was met up to `st`. */
  function Pending(toks: seq<Token>, target: string, start: nat, sp: int, st: nat, full: bool): Option<nat>
    requires start <= st <= |target| && -1 <= sp < |toks|
  {
    if sp < 0 then Anchored(toks, target[start..], full)
    else Shift(st - start, Floating(toks[sp], toks[sp + 1..], target[st..], full))
  }

  /** The first `n` tokens are no stars and match the first `n` characters. */
  predicate RunIs(toks: seq<Token>, n: nat, s: string) {
    n <= |toks| && FixedMatch(toks, n, s) && forall i :: 0 <= i < n ==> !IsStar(toks[i])
  }

  /** The loop stands at token `pi` and character `ti`; since the bookmark (`sp`, `st`) tokens and
      characters have matched one by one, and the answer is the one still pending at the bookmark. */
  ghost predicate Tracks(toks: seq<Token>, target: string, start: nat, full: bool,
                         ti: nat, pi: nat, sp: int, st: nat)
  {
    && start <= st <= ti <= |target|
    && -1 <= sp < |toks| && sp < pi <= |toks|
    && pi - (sp + 1) == ti - st
    && (if sp < 0 then st == start else IsStar(toks[sp]))
    && RunIs(toks[sp + 1..], pi - (sp + 1), target[st..])
    && Anchored(toks, target[start..], full) == Pending(toks, target, start, sp, st, full)
  }

  /** The number of characters a token list needs at least. */
  function Width(toks: seq<Token>): (n: nat)
  {
    if toks == [] then 0 else (if IsStar(toks[0]) then 0 else 1) + Width(toks[1..])
  }

  lemma {:induction false} WidthBound(toks: seq<Token>, s: string)
    requires In(toks, s)
    ensures Width(toks) <= |s|
  {
    hide In;
    if toks != [] {
      var k := InTake(toks, s);
      WidthBound(toks[1..], s[k..]);
    }
  }

  lemma {:induction false} WidthAtLeast(toks: seq<Token>, n: nat, at: nat)
    requires n <= at < |toks| && !IsStar(toks[at])
    requires forall i :: 0 <= i < n ==> !IsStar(toks[i])
    ensures Width(toks) >= n + 1
  {
    if at > 0 {
      WidthAtLeast(toks[1..], if n > 0 then n - 1 else 0, at - 1);
    }
  }

  lemma RunLength(toks: seq<Token>, n: nat)
    requires n <= |toks| && (forall i :: 0 <= i < n ==> !IsStar(toks[i]))
    ensures n <= FixedLen(toks)
    ensures n == |toks| || IsStar(toks[n]) ==> FixedLen(toks) == n
  {
  }

  lemma {:induction false} AllStars(star: Token, toks: seq<Token>, full: bool)
    requires forall i :: 0 <= i < |toks| ==> IsStar(toks[i])
    ensures Floating(star, toks, [], full) == Some(0)
    decreases |toks|
  {
    if toks != [] {
      AllStars(toks[0], toks[1..], full);
    }
  }

  // ----- the steps of the loops -----

  /** A run that fits and is followed by a star stays where it is. */
  lemma RunThenStar(star: Token, toks: seq<Token>, n: nat, s: string, full: bool)
    requires RunIs(toks, n, s) && n < |toks| && IsStar(toks[n])
    ensures Floating(star, toks, s, full) == Anchored(toks, s, full) == Shift(n, Floating(toks[n], toks[n + 1..], s[n..], full))
  {
    hide CharMatch;
    RunLength(toks, n);
  }

  lemma PendingAtStar(toks: seq<Token>, target: string, start: nat, full: bool, ti: nat, pi: nat, sp: int, st: nat)
    requires start <= st <= ti <= |target| && -1 <= sp < pi < |toks| && pi - (sp + 1) == ti - st
    requires sp < 0 ==> st == start
    requires RunIs(toks[sp + 1..], pi - (sp + 1), target[st..]) && IsStar(toks[pi])
    ensures Pending(toks, target, start, sp, st, full) == Pending(toks, target, start, pi, ti, full)
  {
    hide Anchored, Floating, RunIs, IsStar;
    var rest := toks[sp + 1..];
    var n := pi - (sp + 1);
    assert rest[n] == toks[pi] && rest[n + 1..] == toks[pi + 1..];
    assert target[st..][n..] == target[ti..];
    RunThenStar(if sp < 0 then DStar else toks[sp], rest, n, target[st..], full);
    if sp < 0 {
      assert rest == toks;
    }
  }

  lemma TrackStar(toks: seq<Token>, target: string, start: nat, full: bool, ti: nat, pi: nat, sp: int, st: nat)
    requires Tracks(toks, target, start, full, ti, pi, sp, st)
    requires pi < |toks| && IsStar(toks[pi])
    ensures Tracks(toks, target, start, full, ti, pi + 1, pi, ti)
  {
    hide Anchored, Pending, CharMatch;
    PendingAtStar(toks, target, start, full, ti, pi, sp, st);
  }

  lemma TrackChar(toks: seq<Token>, target: string, start: nat, full: bool, ti: nat, pi: nat, sp: int, st: nat)
    requires Tracks(toks, target, start, full, ti, pi, sp, st)
    requires pi < |toks| && ti < |target| && !IsStar(toks[pi]) && CharMatch(toks[pi], target[ti])
    ensures Tracks(toks, target, start, full, ti + 1, pi + 1, sp, st)
  {
    var n := pi - (sp + 1);
    assert toks[sp + 1..][n] == toks[pi] && target[st..][n] == target[ti];
  }

  /** The run cannot stand where the bookmark left it. */
  ghost predicate Stuck(toks: seq<Token>, target: string, full: bool, ti: nat, pi: nat)
    requires ti <= |target| && pi <= |toks|
  {
    || (ti < |target| && pi < |toks| && !IsStar(toks[pi]) && !CharMatch(toks[pi], target[ti]))
    || (full && ti < |target| && pi == |toks|)
  }

  lemma StuckNotHere(toks: seq<Token>, target: string, start: nat, full: bool, ti: nat, pi: nat, sp: int, st: nat)
    requires Tracks(toks, target, start, full, ti, pi, sp, st) && Stuck(toks, target, full, ti, pi)
    ensures !Here(toks[sp + 1..], target[st..], full)
  {
    var rest := toks[sp + 1..];
    var n := pi - (sp + 1);
    RunLength(rest, n);
    if pi < |toks| {
      assert rest[n] == toks[pi] && target[st..][n] == target[ti];
      assert FixedLen(rest) != n;
    }
  }

  lemma TrackRestart(toks: seq<Token>, target: string, start: nat, full: bool, ti: nat, pi: nat, sp: int, st: nat)
    requires Tracks(toks, target, start, full, ti, pi, sp, st) && Stuck(toks, target, full, ti, pi)
    requires sp >= 0 && CharMatch(toks[sp], target[st])
    ensures Tracks(toks, target, start, full, st + 1, sp + 1, sp, st + 1)
  {
    StuckNotHere(toks, target, start, full, ti, pi, sp, st);
    assert target[st..][1..] == target[st + 1..];
  }

  lemma TrackDead(toks: seq<Token>, target: string, start: nat, full: bool, ti: nat, pi: nat, sp: int, st: nat)
    requires Tracks(toks, target, start, full, ti, pi, sp, st) && Stuck(toks, target, full, ti, pi)
    requires sp < 0 || !CharMatch(toks[sp], target[st])
    ensures Anchored(toks, target[start..], full) == None
  {
    StuckNotHere(toks, target, start, full, ti, pi, sp, st);
    assert toks[0..] == toks;
  }

  lemma TrackEnd(toks: seq<Token>, target: string, start: nat, full: bool, ti: nat, pi: nat, sp: int, st: nat)
    requires Tracks(toks, target, start, full, ti, pi, sp, st)
    requires pi == |toks| && (full ==> ti == |target|)
    ensures Anchored(toks, target[start..], full) == Some(ti - start)
  {
    var rest := toks[sp + 1..];
    var n := pi - (sp + 1);
    RunLength(rest, n);
    assert Commit(rest, target[st..], full) == Some(n);
    if sp < 0 {
      assert rest == toks;
    }
  }

  lemma TrackOutOfText(toks: seq<Token>, target: string, start: nat, full: bool,
                       pi: nat, end: nat, sp: int, st: nat)
    requires Tracks(toks, target, start, full, |target|, pi, sp, st) && pi <= end <= |toks|
    requires forall i :: pi <= i < end ==> IsStar(toks[i])
    requires end == |toks| || !IsStar(toks[end])
    ensures Anchored(toks, target[start..], full) ==
            if end == |toks| then Some(|target| - start) else None
  {
    if pi == |toks| {
      TrackEnd(toks, target, start, full, |target|, pi, sp, st);
    } else if end == |toks| {
      TrackStar(toks, target, start, full, |target|, pi, sp, st);
      AllStars(toks[pi], toks[pi + 1..], full);
      assert target[|target|..] == [];
    } else {
      var rest := toks[sp + 1..];
      assert rest[end - (sp + 1)] == toks[end];
      WidthAtLeast(rest, pi - (sp + 1), end - (sp + 1));
      if sp < 0 {
        assert rest == toks;
        if Anchored(toks, target[start..], full).Some? {
          AnchoredSound(toks, target[start..], full);
          WidthBound(toks, target[start..][..Anchored(toks, target[start..], full).value]);
        }
      } else if Floating(toks[sp], rest, target[st..], full).Some? {
        FloatingSound(toks[sp], rest, target[st..], full);
        assert ([toks[sp]] + rest)[1..] == rest;
        WidthBound([toks[sp]] + rest, target[st..][..Floating(toks[sp], rest, target[st..], full).value]);
      }
    }
  }

  // ----- how long the loops run -----

  /** The most rounds one call takes for `m` tokens and `n` characters. */
  function Rounds(m: nat, n: nat): nat {
    (n + m + 1) * (m + 1)
  }

  /** Every star met and every restart opens a phase of at most `m` rounds plus the one that closes it. */
  ghost predicate Paced(steps: nat, phases: nat, start: nat, pi: nat, sp: int, st: nat, m: nat) {
    && -1 <= sp < pi <= m && start <= st
    && phases <= (sp + 1) + (st - start)
    && steps <= phases * (m + 1) + (pi - (sp + 1))
  }

  lemma PacedClose(steps: nat, phases: nat, start: nat, pi: nat, sp: int, st: nat, m: nat, sp': int, st': nat)
    requires Paced(steps, phases, start, pi, sp, st, m) && -1 <= sp' < m
    requires (sp < sp' && st <= st') || (sp == sp' && st < st')
    ensures Paced(steps + 1, phases + 1, start, sp' + 1, sp', st', m)
  {
  }

  lemma PacedBound(steps: nat, phases: nat, start: nat, pi: nat, sp: int, st: nat, m: nat, n: nat)
    requires Paced(steps, phases, start, pi, sp, st, m) && sp < m && st <= n
    ensures steps + 1 <= Rounds(m, n)
  {
    Scale(phases, m + n, m + 1);
    assert (n + m + 1) * (m + 1) == (m + n) * (m + 1) + (m + 1);
  }

  lemma Scale(a: nat, b: nat, c: nat)
    requires a <= b
    ensures a * c <= b * c
  {
  }

  // ----- the matchers -----

  /** Shortest end of a match that starts at `start`, or None.  `steps` counts the rounds of the
      main loop. */
  method MatchTokensPrefix(toks: seq<Token>, target: string, start: nat)
    returns (r: Option<nat>, ghost steps: nat)
    requires start <= |target|
    ensures r == Shift(start, Anchored(toks, target[start..], false))
    ensures steps <= Rounds(|toks|, |target|)
  {
    hide Anchored, Floating, Commit, Rounds;
    var ti: nat, pi: nat := start, 0;
    var n, m := |target|, |toks|;
    var starPi: int, starTi: nat, starKind := -1, start, Star;
    steps := 0;
    ghost var phases: nat := 0;
    while true
      invariant Tracks(toks, target, start, false, ti, pi, starPi, starTi)
      invariant starPi >= 0 ==> starKind == toks[starPi]
      invariant Paced(steps, phases, start, pi, starPi, starTi, m)
      decreases m - starPi, n - starTi, m - pi
    {
      if pi == m {
        TrackEnd(toks, target, start, false, ti, pi, starPi, starTi);
        PacedBound(steps, phases, start, pi, starPi, starTi, m, n);
        return Some(ti), steps + 1;
      }
      if ti >= n {
        break;
      }
      if IsStar(toks[pi]) {
        TrackStar(toks, target, start, false, ti, pi, starPi, starTi);
        PacedClose(steps, phases, start, pi, starPi, starTi, m, pi, ti);
        steps, phases := steps + 1, phases + 1;
        starPi, starTi, starKind := pi, ti, toks[pi];
        pi := pi + 1;
        continue;
      }
      if CharMatch(toks[pi], target[ti]) {
        TrackChar(toks, target, start, false, ti, pi, starPi, starTi);
        steps := steps + 1;
        ti := ti + 1;
        pi := pi + 1;
        continue;
      }
      if starPi == -1 || starTi >= n || (starKind.Star? && target[starTi] == '/') {
        TrackDead(toks, target, start, false, ti, pi, starPi, starTi);
        PacedBound(steps, phases, start, pi, starPi, starTi, m, n);
        return None, steps + 1;
      }
      TrackRestart(toks, target, start, false, ti, pi, starPi, starTi);
      PacedClose(steps, phases, start, pi, starPi, starTi, m, starPi, starTi + 1);
      steps, phases := steps + 1, phases + 1;
      starTi := starTi + 1;
      ti, pi := starTi, starPi + 1;
    }
    PacedBound(steps, phases, start, pi, starPi, starTi, m, n);
    ghost var stop := pi;
    while pi < m && IsStar(toks[pi])
      invariant stop <= pi <= m && forall i :: stop <= i < pi ==> IsStar(toks[i])
    {
      pi := pi + 1;
    }
    TrackOutOfText(toks, target, start, false, stop, pi, starPi, starTi);
    r := if pi == m then Some(ti) else None;
  }

  /** Match of the whole text. */
  method MatchTokensFull(toks: seq<Token>, target: string) returns (r: bool, ghost steps: nat)
    ensures r == Anchored(toks, target, true).Some?
    ensures steps <= Rounds(|toks|, |target|)
  {
    hide Anchored, Floating, Commit, Rounds;
    var ti: nat, pi: nat := 0, 0;
    var n, m := |target|, |toks|;
    var starPi: int, starTi: nat, starKind := -1, 0, Star;
    assert target[0..] == target;
    steps := 0;
    ghost var phases: nat := 0;
    while ti < n
      invariant Tracks(toks, target, 0, true, ti, pi, starPi, starTi)
      invariant starPi >= 0 ==> starKind == toks[starPi]
      invariant Paced(steps, phases, 0, pi, starPi, starTi, m)
      decreases m - starPi, n - starTi, m - pi
    {
      if pi < m {
        if IsStar(toks[pi]) {
          TrackStar(toks, target, 0, true, ti, pi, starPi, starTi);
          PacedClose(steps, phases, 0, pi, starPi, starTi, m, pi, ti);
          steps, phases := steps + 1, phases + 1;
          starPi, starTi, starKind := pi, ti, toks[pi];
          pi := pi + 1;
          continue;
        }
        if CharMatch(toks[pi], target[ti]) {
          TrackChar(toks, target, 0, true, ti, pi, starPi, starTi);
          steps := steps + 1;
          ti := ti + 1;
          pi := pi + 1;
          continue;
        }
      }
      if starPi == -1 || starTi >= n || (starKind.Star? && target[starTi] == '/') {
        TrackDead(toks, target, 0, true, ti, pi, starPi, starTi);
        PacedBound(steps, phases, 0, pi, starPi, starTi, m, n);
        return false, steps + 1;
      }
      TrackRestart(toks, target, 0, true, ti, pi, starPi, starTi);
      PacedClose(steps, phases, 0, pi, starPi, starTi, m, starPi, starTi + 1);
      steps, phases := steps + 1, phases + 1;
      starTi := starTi + 1;
      ti, pi := starTi, starPi + 1;
    }
    PacedBound(steps, phases, 0, pi, starPi, starTi, m, n);
    ghost var stop := pi;
    while pi < m && IsStar(toks[pi])
      invariant stop <= pi <= m && forall i :: stop <= i < pi ==> IsStar(toks[i])
    {
      pi := pi + 1;
    }
    TrackOutOfText(toks, target, 0, true, stop, pi, starPi, starTi);
    r := pi == m;
  }
}
