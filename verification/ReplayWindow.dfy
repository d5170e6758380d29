/** The nonce memory of the guardian's wire: frames within the window are remembered until they cannot be
    within it again, as long as the clock does not jump back too far. */
module ReplayWindow {
  import opened Wrappers

  /** An authenticated frame. */
  datatype Frame = Frame(nonce: string, ts: real)

  function Distance(a: real, b: real): real {
    if a <= b then b - a else a - b
  }

  function Pruned(seen: map<string, real>, w: real, now: real): map<string, real> {
    map n | n in seen && !(seen[n] < now - 2.0 * w) :: seen[n]
  }

  /** One frame at one reading of the clock: the memory after it, and whether the nonce was let in. */
  function Receive(seen: map<string, real>, w: real, f: Frame, now: real): (map<string, real>, bool) {
    if Distance(now, f.ts) > w then (seen, false)
    else
      var pruned := Pruned(seen, w, now);
      if f.nonce in pruned then (pruned, false) else (pruned[f.nonce := f.ts], true)
  }

  class NonceGuard {
    const window: real
    var seen: map<string, real>

    constructor (window: real)
      ensures seen == map[] && this.window == window
    {
      this.window, seen := window, map[];
    }

    method Prune(now: real)
      modifies this
      ensures seen == Pruned(old(seen), window, now)
    {
      var cutoff := now - 2.0 * window;
      var stale := set n | n in seen && seen[n] < cutoff;
      while stale != {}
        invariant stale <= seen.Keys && seen.Keys <= old(seen).Keys
        invariant forall n <- seen :: seen[n] == old(seen)[n]
        invariant forall n <- old(seen) :: (n in seen <==> n in stale || !(old(seen)[n] < cutoff))
        invariant forall n <- stale :: old(seen)[n] < cutoff
        decreases |stale|
      {
        var n :| n in stale;
        seen := seen - {n};
        stale := stale - {n};
      }
    }

    method Admit(f: Frame, now: real) returns (ok: bool)
      modifies this
      ensures (seen, ok) == Receive(old(seen), window, f, now)
    {
      if Distance(now, f.ts) > window { return false; }
      Prune(now);
      if f.nonce in seen { return false; }
      seen := seen[f.nonce := f.ts];
      ok := true;
    }
  }

  // ----- runs -----

  function Memory(w: real, frames: seq<Frame>, clock: seq<real>): map<string, real>
    requires |frames| == |clock|
  {
    if frames == [] then map[]
    else
      var n := |frames| - 1;
      Receive(Memory(w, frames[..n], clock[..n]), w, frames[n], clock[n]).0
  }

  predicate AcceptedAt(w: real, frames: seq<Frame>, clock: seq<real>, i: nat)
    requires |frames| == |clock| && i < |frames|
  {
    Receive(Memory(w, frames[..i], clock[..i]), w, frames[i], clock[i]).1
  }

  lemma MemoryStep(w: real, frames: seq<Frame>, clock: seq<real>, i: nat)
    requires |frames| == |clock| && i < |frames|
    ensures Memory(w, frames[..i + 1], clock[..i + 1]) ==
            Receive(Memory(w, frames[..i], clock[..i]), w, frames[i], clock[i]).0
  {
    assert frames[..i + 1][..i] == frames[..i] && clock[..i + 1][..i] == clock[..i];
  }

  /** A frame once let in is remembered until a clock reading two windows past its timestamp. */
  lemma {:induction false} Remembered(w: real, frames: seq<Frame>, clock: seq<real>, i: nat, j: nat)
    requires |frames| == |clock| && i < j <= |frames| && AcceptedAt(w, frames, clock, i)
    ensures (exists k | i < k < j :: frames[i].ts < clock[k] - 2.0 * w) ||
            (var m := Memory(w, frames[..j], clock[..j]); frames[i].nonce in m && m[frames[i].nonce] == frames[i].ts)
    decreases j
  {
    MemoryStep(w, frames, clock, j - 1);
    if i + 1 < j {
      Remembered(w, frames, clock, i, j - 1);
    }
  }

  /** After a frame passed the clock check, nothing older than two windows is remembered. */
  lemma {:induction false} MemoryIsRecent(w: real, frames: seq<Frame>, clock: seq<real>, i: nat)
    requires |frames| == |clock| && i < |frames| && w >= 0.0
    requires Distance(clock[i], frames[i].ts) <= w
    ensures var m := Memory(w, frames[..i + 1], clock[..i + 1]);
            forall n <- m :: m[n] >= clock[i] - 2.0 * w
  {
    MemoryStep(w, frames, clock, i);
  }

  /** The clock jumped up and back by more than a window between two readings that are close. */
  predicate Jump(w: real, clock: seq<real>, i: nat, k: nat, j: nat)
    requires i < |clock| && k < |clock| && j < |clock|
  {
    clock[i] < clock[k] - w && clock[j] < clock[k] - w && Distance(clock[i], clock[j]) <= 2.0 * w
  }

  ghost predicate Jumps(w: real, clock: seq<real>) {
    exists i, k, j | 0 <= i < k < j < |clock| :: Jump(w, clock, i, k, j)
  }

  predicate Replayed(w: real, frames: seq<Frame>, clock: seq<real>, i: nat, j: nat)
    requires |frames| == |clock| && i < j < |frames|
  {
    frames[i] == frames[j] && AcceptedAt(w, frames, clock, i) && AcceptedAt(w, frames, clock, j)
  }

  ghost predicate SomeReplay(w: real, clock: seq<real>) {
    exists frames: seq<Frame> :: |frames| == |clock| && HasReplay(w, frames, clock)
  }

  ghost predicate HasReplay(w: real, frames: seq<Frame>, clock: seq<real>)
    requires |frames| == |clock|
  {
    exists i, j | 0 <= i < j < |frames| :: Replayed(w, frames, clock, i, j)
  }

  lemma {:induction false} ReplayNeedsJump(w: real, frames: seq<Frame>, clock: seq<real>, i: nat, j: nat)
    requires |frames| == |clock| && i < j < |frames| && Replayed(w, frames, clock, i, j)
    ensures exists k | i < k < j :: Jump(w, clock, i, k, j)
  {
    Remembered(w, frames, clock, i, j);
    if k :| i < k < j && frames[i].ts < clock[k] - 2.0 * w {
      assert Jump(w, clock, i, k, j);
    }
  }

  /** No frame is accepted twice while the clock never steps back by more than the window. */
  lemma {:induction false} NoReplay(w: real, frames: seq<Frame>, clock: seq<real>, i: nat, j: nat)
    requires |frames| == |clock| && i < j < |frames| && frames[i] == frames[j]
    requires forall a, b | 0 <= a < b < |clock| :: clock[b] >= clock[a] - w
    ensures !(AcceptedAt(w, frames, clock, i) && AcceptedAt(w, frames, clock, j))
  {
    if Replayed(w, frames, clock, i, j) {
      ReplayNeedsJump(w, frames, clock, i, j);
    }
  }

  // ----- how a jump lets a replay through -----

  /** The replayed frame at `i` and `j`, another one at `k`, and frames far outside the window elsewhere. */
  function WitnessRun(w: real, clock: seq<real>, i: nat, k: nat, j: nat, ts: real): (frames: seq<Frame>)
    requires k < |clock|
    ensures |frames| == |clock|
  {
    seq(|clock|, x requires 0 <= x < |clock| =>
      if x == i || x == j then Frame("replayed", ts)
      else if x == k then Frame("other", clock[k])
      else Frame("outside", clock[x] + w + 1.0))
  }

  lemma MemoryStarts(w: real, frames: seq<Frame>, clock: seq<real>)
    requires |frames| == |clock| == 0
    ensures Memory(w, frames, clock) == map[]
  {
  }

  lemma OutsideIgnored(seen: map<string, real>, w: real, now: real)
    requires w >= 0.0
    ensures Receive(seen, w, Frame("outside", now + w + 1.0), now) == (seen, false)
  {
  }

  lemma {:induction false} QuietStretch(w: real, clock: seq<real>, i: nat, k: nat, j: nat, ts: real, a: nat, b: nat)
    requires i < k < j < |clock| && a <= b <= |clock| && w >= 0.0
    requires !(a <= i < b) && !(a <= k < b) && !(a <= j < b)
    ensures var frames := WitnessRun(w, clock, i, k, j, ts);
            Memory(w, frames[..b], clock[..b]) == Memory(w, frames[..a], clock[..a])
    decreases b
  {
    hide Memory, Receive;
    if a < b {
      QuietStretch(w, clock, i, k, j, ts, a, b - 1);
      OutsideIgnored(Memory(w, WitnessRun(w, clock, i, k, j, ts)[..b - 1], clock[..b - 1]), w, clock[b - 1]);
      MemoryStep(w, WitnessRun(w, clock, i, k, j, ts), clock, b - 1);
    }
  }

  lemma {:induction false} JumpReplays(w: real, clock: seq<real>, i: nat, k: nat, j: nat)
    requires i < k < j < |clock| && Jump(w, clock, i, k, j)
    ensures SomeReplay(w, clock)
  {
    hide Memory;
    var ts := (if clock[i] <= clock[j] then clock[j] else clock[i]) - w;
    var frames := WitnessRun(w, clock, i, k, j, ts);
    QuietStretch(w, clock, i, k, j, ts, 0, i);
    MemoryStarts(w, frames[..0], clock[..0]);
    MemoryStep(w, frames, clock, i);
    QuietStretch(w, clock, i, k, j, ts, i + 1, k);
    MemoryStep(w, frames, clock, k);
    QuietStretch(w, clock, i, k, j, ts, k + 1, j);
    assert AcceptedAt(w, frames, clock, i);
    assert "replayed" !in Memory(w, frames[..k + 1], clock[..k + 1]);
    assert AcceptedAt(w, frames, clock, j);
    assert Replayed(w, frames, clock, i, j);
    assert HasReplay(w, frames, clock);
  }

  /** Whatever the clock does, some frames can be replayed on it exactly when it jumps. */
  lemma {:induction false} ReplayExactly(w: real, clock: seq<real>)
    ensures SomeReplay(w, clock) <==> Jumps(w, clock)
  {
    if SomeReplay(w, clock) {
      var frames: seq<Frame> :| |frames| == |clock| && HasReplay(w, frames, clock);
      var i, j :| 0 <= i < j < |frames| && Replayed(w, frames, clock, i, j);
      ReplayNeedsJump(w, frames, clock, i, j);
    }
    if Jumps(w, clock) {
      var i, k, j :| 0 <= i < k < j < |clock| && Jump(w, clock, i, k, j);
      JumpReplays(w, clock, i, k, j);
    }
  }

  // ----- exactly which frames are let in -----

  predicate WithinWindow(w: real, frames: seq<Frame>, clock: seq<real>, i: nat)
    requires |frames| == |clock| && i < |frames|
  {
    clock[i] - w <= frames[i].ts && frames[i].ts <= clock[i] + w
  }

  /** The k-th frame was let in, and no frame within the window since then came two windows past its time. */
  predicate StillKnown(w: real, frames: seq<Frame>, clock: seq<real>, k: nat, j: nat)
    requires |frames| == |clock| && k < j <= |frames|
  {
    AcceptedAt(w, frames, clock, k) &&
    forall m | k < m < j && WithinWindow(w, frames, clock, m) :: frames[k].ts >= clock[m] - 2.0 * w
  }

  predicate SomeKnown(w: real, frames: seq<Frame>, clock: seq<real>, j: nat, f: Frame)
    requires |frames| == |clock| && j <= |frames|
  {
    exists k | 0 <= k < j :: frames[k] == f && StillKnown(w, frames, clock, k, j)
  }

  lemma KnownStep(w: real, frames: seq<Frame>, clock: seq<real>, j: nat, f: Frame)
    requires |frames| == |clock| && 0 < j <= |frames|
    ensures SomeKnown(w, frames, clock, j, f) <==>
            (frames[j - 1] == f && AcceptedAt(w, frames, clock, j - 1)) ||
            (SomeKnown(w, frames, clock, j - 1, f) &&
             (WithinWindow(w, frames, clock, j - 1) ==> f.ts >= clock[j - 1] - 2.0 * w))
  {
    hide AcceptedAt, WithinWindow;
    if k :| 0 <= k < j && frames[k] == f && StillKnown(w, frames, clock, k, j) {
      if k < j - 1 { assert StillKnown(w, frames, clock, k, j - 1); }
    }
    if frames[j - 1] == f && AcceptedAt(w, frames, clock, j - 1) {
      assert StillKnown(w, frames, clock, j - 1, j);
    }
    if k :| 0 <= k < j - 1 && frames[k] == f && StillKnown(w, frames, clock, k, j - 1) {
      if WithinWindow(w, frames, clock, j - 1) ==> f.ts >= clock[j - 1] - 2.0 * w {
        assert StillKnown(w, frames, clock, k, j);
      }
    }
  }

  lemma ReceiveStep(seen: map<string, real>, w: real, f: Frame, now: real, g: Frame)
    ensures var (seen', ok) := Receive(seen, w, f, now);
            (g.nonce in seen' && seen'[g.nonce] == g.ts) <==>
            (ok && f == g) ||
            (g.nonce in seen && seen[g.nonce] == g.ts && (now - w <= f.ts <= now + w ==> g.ts >= now - 2.0 * w))
  {
  }

  /** The memory holds the nonces of the frames still known, with their times. */
  lemma {:induction false} MemoryHolds(w: real, frames: seq<Frame>, clock: seq<real>, j: nat, f: Frame)
    requires |frames| == |clock| && j <= |frames|
    ensures var m := Memory(w, frames[..j], clock[..j]);
            (f.nonce in m && m[f.nonce] == f.ts) <==> SomeKnown(w, frames, clock, j, f)
    decreases j
  {
    hide Memory, Receive, SomeKnown;
    if j == 0 {
      assert frames[..0] == [] && clock[..0] == [];
      MemoryStarts(w, [], []);
      NoneKnown(w, frames, clock, f);
    } else {
      MemoryStep(w, frames, clock, j - 1);
      MemoryHolds(w, frames, clock, j - 1, f);
      KnownStep(w, frames, clock, j, f);
      ReceiveStep(Memory(w, frames[..j - 1], clock[..j - 1]), w, frames[j - 1], clock[j - 1], f);
    }
  }

  lemma NoneKnown(w: real, frames: seq<Frame>, clock: seq<real>, f: Frame)
    requires |frames| == |clock|
    ensures !SomeKnown(w, frames, clock, 0, f)
  {
  }

  /** A frame is let in exactly when its time is within the window of the clock and every frame let in before with its
      nonce is two windows behind this reading or one since then at which a frame was within the window. */
  lemma AcceptedExactly(w: real, frames: seq<Frame>, clock: seq<real>, j: nat)
    requires |frames| == |clock| && j < |frames|
    ensures AcceptedAt(w, frames, clock, j) <==>
            WithinWindow(w, frames, clock, j) &&
            forall k | 0 <= k < j && frames[k].nonce == frames[j].nonce && AcceptedAt(w, frames, clock, k) ::
              exists m | k < m <= j :: WithinWindow(w, frames, clock, m) && frames[k].ts < clock[m] - 2.0 * w
  {
    hide Memory;
    var before, nonce := Memory(w, frames[..j], clock[..j]), frames[j].nonce;
    if WithinWindow(w, frames, clock, j) {
      if AcceptedAt(w, frames, clock, j) {
        forall k | 0 <= k < j && frames[k].nonce == nonce && AcceptedAt(w, frames, clock, k)
          ensures exists m | k < m <= j :: WithinWindow(w, frames, clock, m) && frames[k].ts < clock[m] - 2.0 * w
        {
          MemoryHolds(w, frames, clock, j, frames[k]);
          if StillKnown(w, frames, clock, k, j) {
            assert SomeKnown(w, frames, clock, j, frames[k]);
            assert WithinWindow(w, frames, clock, j) && frames[k].ts < clock[j] - 2.0 * w;
          }
        }
      } else {
        assert nonce in before && before[nonce] >= clock[j] - 2.0 * w;
        MemoryHolds(w, frames, clock, j, Frame(nonce, before[nonce]));
        var k :| 0 <= k < j && frames[k] == Frame(nonce, before[nonce]) && StillKnown(w, frames, clock, k, j);
        assert frames[k].nonce == nonce && AcceptedAt(w, frames, clock, k);
      }
    }
  }
}
