/**
 * One run of the desktop frame preloader.
 *
 * A run owns a private completion counter, the frame handles it created
 * (one per URL, all `Pending` at first) and the log of state updates its
 * callbacks issue. The platform fires exactly one completion per handle,
 * either a load or an error; both go to the same callback, which bumps the
 * counter, reports the new count as the loading progress and, once the
 * count has reached `FRAME_COUNT`, signals readiness and draws frame 0.
 */
module Preloader {
  import opened Frames

  /** The load or error event of the handle for `frame`. */
  datatype Completion = Load(frame: nat) | Error(frame: nat) {
    function Outcome(): (s: FrameStatus)
      ensures s != Pending
    {
      if Load? then Loaded else Failed
    }
  }

  /** State updates a completion callback issues. */
  datatype Effect =
    | ReportProgress(count: nat)  // the loading-progress state is set to `count`
    | SignalReady                 // the is-loaded flag is set
    | DrawFirstFrame              // frame 0 is drawn onto the hero surface

  datatype Run = Run(loaded: nat, frames: seq<FrameStatus>, effects: seq<Effect>)

  /** A fresh run: a zero counter and one pending handle per frame URL. */
  function Start(): (r: Run)
    ensures r.loaded == 0 && r.effects == []
    ensures |r.frames| == |FrameUrls()|
    ensures forall i :: 0 <= i < |r.frames| ==> r.frames[i] == Pending
  {
    Run(0, seq(FRAME_COUNT, _ => Pending), [])
  }

  /** The state updates of the callback that brings the counter to `loaded`. */
  function CallbackEffects(loaded: nat): (es: seq<Effect>)
    ensures |es| >= 1 && es[0] == ReportProgress(loaded)
    ensures SignalReady in es <==> loaded >= FRAME_COUNT
  {
    [ReportProgress(loaded)] + (if loaded >= FRAME_COUNT then [SignalReady, DrawFirstFrame] else [])
  }

  /** The shared load/error callback. */
  function OnFrameLoad(r: Run, c: Completion): (r': Run)
    ensures r'.loaded == r.loaded + 1
    ensures |r'.frames| == |r.frames|
    ensures c.frame < |r.frames| ==> r'.frames[c.frame] == c.Outcome()
    ensures forall i :: 0 <= i < |r.frames| && i != c.frame ==> r'.frames[i] == r.frames[i]
    ensures r'.effects == r.effects + CallbackEffects(r'.loaded)
  {
    var loaded := r.loaded + 1;
    var frames := if c.frame < |r.frames| then r.frames[c.frame := c.Outcome()] else r.frames;
    Run(loaded, frames, r.effects + CallbackEffects(loaded))
  }

  /** Feeds a run its completions in arrival order. */
  function Feed(r: Run, cs: seq<Completion>): (r': Run)
    ensures r'.loaded == r.loaded + |cs|
    ensures |r'.frames| == |r.frames|
    ensures |r'.effects| >= |r.effects| && r'.effects[..|r.effects|] == r.effects
  {
    if cs == [] then r else OnFrameLoad(Feed(r, cs[..|cs| - 1]), cs[|cs| - 1])
  }

  /** The progress values reported, in order. */
  function Reports(es: seq<Effect>): seq<nat> {
    if es == [] then []
    else Reports(es[..|es| - 1]) + (if es[|es| - 1].ReportProgress? then [es[|es| - 1].count] else [])
  }

  /** How many times readiness was signalled. */
  function Readies(es: seq<Effect>): nat {
    if es == [] then 0
    else Readies(es[..|es| - 1]) + (if es[|es| - 1] == SignalReady then 1 else 0)
  }

  /** The frames some completion in `cs` refers to. */
  function CompletedFrames(cs: seq<Completion>): set<nat> {
    set k | 0 <= k < |cs| :: cs[k].frame
  }

  /** The frames whose handle is no longer pending. */
  function Settled(frames: seq<FrameStatus>): set<nat> {
    set i | 0 <= i < |frames| && frames[i] != Pending
  }

  /** The platform's promise: every completion names a frame of this run, and no handle completes twice. */
  predicate WellFormed(cs: seq<Completion>) {
    && (forall k :: 0 <= k < |cs| ==> cs[k].frame < FRAME_COUNT)
    && (forall j, k :: 0 <= j < k < |cs| ==> cs[j].frame != cs[k].frame)
  }

  /** Appending one effect adds its report, if it is one, and its readiness signal, if it is one. */
  lemma ReportsSnoc(es: seq<Effect>, e: Effect)
    ensures Reports(es + [e]) == Reports(es) + (if e.ReportProgress? then [e.count] else [])
    ensures Readies(es + [e]) == Readies(es) + (if e == SignalReady then 1 else 0)
  {
    assert (es + [e])[..|es|] == es;
  }

  /** The updates of one callback add one progress report, carrying the new count, and one readiness signal when that count has reached `FRAME_COUNT`. */
  lemma CallbackReports(es: seq<Effect>, n: nat)
    ensures Reports(es + CallbackEffects(n)) == Reports(es) + [n]
    ensures Readies(es + CallbackEffects(n)) == Readies(es) + (if n >= FRAME_COUNT then 1 else 0)
  {
    var e0 := es + [ReportProgress(n)];
    ReportsSnoc(es, ReportProgress(n));
    if n >= FRAME_COUNT {
      var e1 := e0 + [SignalReady];
      ReportsSnoc(e0, SignalReady);
      ReportsSnoc(e1, DrawFirstFrame);
      assert es + CallbackEffects(n) == e1 + [DrawFirstFrame];
    } else {
      assert es + CallbackEffects(n) == e0;
    }
  }

  /** One callback adds exactly one progress report, carrying the new count, and one readiness signal when that count has reached `FRAME_COUNT`. */
  lemma StepReports(r: Run, c: Completion)
    ensures Reports(OnFrameLoad(r, c).effects) == Reports(r.effects) + [r.loaded + 1]
    ensures Readies(OnFrameLoad(r, c).effects)
         == Readies(r.effects) + (if r.loaded + 1 >= FRAME_COUNT then 1 else 0)
  {
    CallbackReports(r.effects, r.loaded + 1);
  }

  /**
   * Whatever the order and whatever mix of loads and errors, the run reports
   * the progress values 1, 2, ..., n in that order, one per completion.
   */
  lemma ProgressCountsUp(cs: seq<Completion>)
    ensures |Reports(Feed(Start(), cs).effects)| == |cs|
    ensures forall k :: 0 <= k < |cs| ==> Reports(Feed(Start(), cs).effects)[k] == k + 1
  {
    FeedReports(Start(), cs);
  }

  /** The counts 1, 2, ..., n in order. */
  function Counts(n: nat): (s: seq<nat>)
    ensures |s| == n
    ensures forall k :: 0 <= k < n ==> s[k] == k + 1
  {
    if n == 0 then [] else Counts(n - 1) + [n]
  }

  /** From a fresh counter and an empty log, n completions report exactly the counts 1 to n. */
  lemma {:induction false} FeedReports(r: Run, cs: seq<Completion>)
    requires r.loaded == 0 && r.effects == []
    ensures Reports(Feed(r, cs).effects) == Counts(|cs|)
  {
    if cs != [] {
      var prev := Feed(r, cs[..|cs| - 1]);
      FeedReports(r, cs[..|cs| - 1]);
      StepReports(prev, cs[|cs| - 1]);
    }
  }

  /**
   * Readiness is signalled once for every completion from the
   * `FRAME_COUNT`-th on: never before it, and exactly once when every frame
   * has completed once.
   */
  lemma {:induction false} ReadyCount(cs: seq<Completion>)
    ensures Readies(Feed(Start(), cs).effects)
         == if |cs| < FRAME_COUNT then 0 else |cs| - FRAME_COUNT + 1
  {
    if cs != [] {
      var init := cs[..|cs| - 1];
      var prev := Feed(Start(), init);
      ReadyCount(init);
      StepReports(prev, cs[|cs| - 1]);
      assert Feed(Start(), cs) == OnFrameLoad(prev, cs[|cs| - 1]);
      assert prev.loaded == |init|;
    }
  }

  /** A run's counter and state updates depend only on how many completions arrived, not on their order or outcome. */
  lemma {:induction false} OrderIrrelevant(a: seq<Completion>, b: seq<Completion>)
    requires |a| == |b|
    ensures Feed(Start(), a).loaded == Feed(Start(), b).loaded
    ensures Feed(Start(), a).effects == Feed(Start(), b).effects
    decreases |a|
  {
    if a != [] {
      OrderIrrelevant(a[..|a| - 1], b[..|b| - 1]);
    }
  }

  /** After the completions `cs`, exactly the frames they name are settled, each with the outcome of its completion. */
  lemma {:induction false} SettledFrames(cs: seq<Completion>)
    requires WellFormed(cs)
    ensures Settled(Feed(Start(), cs).frames) == CompletedFrames(cs)
    ensures forall k :: 0 <= k < |cs| ==> Feed(Start(), cs).frames[cs[k].frame] == cs[k].Outcome()
  {
    if cs != [] {
      var init := cs[..|cs| - 1];
      var last := cs[|cs| - 1];
      assert cs == init + [last];
      assert WellFormed(init);
      SettledFrames(init);
      var prev := Feed(Start(), init);
      var after := Feed(Start(), cs).frames;
      assert Feed(Start(), cs) == OnFrameLoad(prev, last);
      assert after == prev.frames[last.frame := last.Outcome()];
      SettledSnoc(prev.frames, last);
      CompletedFramesSnoc(init, last);
      forall k | 0 <= k < |cs|
        ensures after[cs[k].frame] == cs[k].Outcome()
      {
        if k < |init| {
          assert cs[k] == init[k];
          assert cs[k].frame != last.frame;
        }
      }
    }
  }

  lemma CompletedFramesSnoc(cs: seq<Completion>, c: Completion)
    ensures CompletedFrames(cs + [c]) == CompletedFrames(cs) + {c.frame}
  {
    var t := cs + [c];
    forall x | x in CompletedFrames(t) ensures x in CompletedFrames(cs) + {c.frame} {
      var k :| 0 <= k < |t| && t[k].frame == x;
      if k < |cs| { assert t[k] == cs[k]; }
    }
    forall x | x in CompletedFrames(cs) ensures x in CompletedFrames(t) {
      var k :| 0 <= k < |cs| && cs[k].frame == x;
      assert t[k] == cs[k];
    }
    assert t[|cs|] == c;
  }

  lemma SettledSnoc(frames: seq<FrameStatus>, c: Completion)
    requires c.frame < |frames|
    ensures Settled(frames[c.frame := c.Outcome()]) == Settled(frames) + {c.frame}
  {
  }

  lemma {:induction false} CompletedFramesSize(cs: seq<Completion>)
    requires WellFormed(cs)
    ensures |CompletedFrames(cs)| == |cs|
  {
    if cs != [] {
      var init := cs[..|cs| - 1];
      var last := cs[|cs| - 1];
      assert cs == init + [last];
      assert WellFormed(init);
      CompletedFramesSize(init);
      CompletedFramesSnoc(init, last);
      assert last.frame !in CompletedFrames(init) by {
        forall k | 0 <= k < |init| ensures init[k].frame != last.frame {
          assert init[k] == cs[k];
        }
      }
    }
  }

  /**
   * Once every handle has completed once, in any order and with any mix of
   * loads and errors, the counter equals `FRAME_COUNT`, no handle is still
   * pending, and readiness has been signalled exactly once.
   */
  lemma AllCompleted(cs: seq<Completion>)
    requires WellFormed(cs)
    requires |cs| == FRAME_COUNT
    ensures Feed(Start(), cs).loaded == FRAME_COUNT
    ensures forall i :: 0 <= i < FRAME_COUNT ==> Feed(Start(), cs).frames[i] != Pending
    ensures Readies(Feed(Start(), cs).effects) == 1
  {
    var frames := Feed(Start(), cs).frames;
    SettledFrames(cs);
    CompletedFramesSize(cs);
    ReadyCount(cs);
    var all := Indices(FRAME_COUNT);
    assert CompletedFrames(cs) <= all;
    SubsetOfSameSize(CompletedFrames(cs), all);
    forall i | 0 <= i < FRAME_COUNT ensures frames[i] != Pending {
      assert i in all;
      assert i in Settled(frames);
    }
  }

  /** The indices below `n`. */
  function Indices(n: nat): (s: set<nat>)
    ensures forall i: nat :: i in s <==> i < n
    ensures |s| == n
  {
    if n == 0 then {} else Indices(n - 1) + {n - 1}
  }

  lemma SubsetOfSameSize(a: set<nat>, b: set<nat>)
    requires a <= b && |a| == |b|
    ensures a == b
  {
    assert |b - a| == |b| - |a|;
  }
}
