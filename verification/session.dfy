/**
 * The page as a whole: the mobile flag, the loaded flag, the displayed
 * loading progress, every preloader run started so far, and which run's
 * frame array is stored for the scrubber.
 *
 * The preloader effect re-runs whenever the mobile flag changes. Its
 * cleanup only drops the stored frame array: the handles of an earlier run
 * keep completing and their callbacks keep updating the shared progress and
 * loaded flags. The loaded flag is never cleared.
 *
 * `MountAsWritten` follows the page's first render, whose mobile flag
 * starts `false` whatever the viewport, so the first preloader effect
 * starts a desktop run even on a phone. `Mount` is the corrected start,
 * which reads the viewport before the first effect; the session lemmas are
 * stated for it.
 */
module Session {
  import opened Optional
  import opened Frames
  import opened Preloader
  import opened CapabilityGate

  datatype State = State(
    isMobile: bool,
    isLoaded: bool,
    progress: nat,
    runs: seq<Run>,
    stored: Option<nat>  // index in `runs` of the stored frame array
  )

  datatype Event =
    | Resize(width: int)                // the viewport now has this width
    | FrameDone(run: nat, c: Completion)  // a handle of run `run` finished loading or failed

  /** The preloader effect, run with the mobile flag of its render, after the cleanup of the previous run. */
  function Preload(s: State, isMobile: bool): (s': State)
    ensures s'.isMobile == s.isMobile && s'.progress == s.progress
    ensures isMobile ==> s'.isLoaded && s'.runs == s.runs && s'.stored == None
    ensures !isMobile ==> s'.isLoaded == s.isLoaded && s'.runs == s.runs + [Start()] && s'.stored == Some(|s.runs|)
  {
    if isMobile then s.(isLoaded := true, stored := None)
    else s.(runs := s.runs + [Start()], stored := Some(|s.runs|))
  }

  /** The first render as written: the preloader effect sees the initial `false` mobile flag, and re-runs once the viewport check has set it. */
  function MountAsWritten(width: int): (s: State)
    ensures s.isMobile == IsMobileWidth(width) && s.isLoaded == s.isMobile
    ensures s.runs == [Start()]
  {
    var first := Preload(State(false, false, 0, [], None), false);
    if IsMobileWidth(width) then Preload(first.(isMobile := true), true) else first
  }

  /** The first render with the mobile flag read from the viewport before the preloader effect runs. */
  function Mount(width: int): (s: State)
    ensures s.isMobile == IsMobileWidth(width)
    ensures s.isMobile ==> s.isLoaded && s.runs == [] && !OverlayVisible(s.isLoaded, s.isMobile)
    ensures !s.isMobile ==> !s.isLoaded && s.runs == [Start()] && s.stored == Some(0) && s.progress == 0
  {
    var m := IsMobileWidth(width);
    Preload(State(m, false, 0, [], None), m)
  }

  function Step(s: State, e: Event): (s': State)
    ensures s.isLoaded ==> s'.isLoaded
    ensures e.Resize? ==> s'.isMobile == IsMobileWidth(e.width)
    ensures e.Resize? ==> |s'.runs| >= |s.runs| && s'.runs[..|s.runs|] == s.runs && s'.progress == s.progress
    ensures e.Resize? && IsMobileWidth(e.width) == s.isMobile ==> s' == s
    ensures e.FrameDone? && e.run < |s.runs| ==>
      && s'.runs == s.runs[e.run := OnFrameLoad(s.runs[e.run], e.c)]
      && s'.progress == s.runs[e.run].loaded + 1
      && s'.isLoaded == (s.isLoaded || s.runs[e.run].loaded + 1 >= FRAME_COUNT)
      && s'.isMobile == s.isMobile && s'.stored == s.stored
    ensures e.FrameDone? && e.run >= |s.runs| ==> s' == s
  {
    match e
    case Resize(w) =>
      var m := IsMobileWidth(w);
      if m == s.isMobile then s else Preload(s.(isMobile := m), m)
    case FrameDone(k, c) =>
      if k < |s.runs| then
        var r := OnFrameLoad(s.runs[k], c);
        s.(runs := s.runs[k := r], progress := r.loaded, isLoaded := s.isLoaded || r.loaded >= FRAME_COUNT)
      else s
  }

  function Replay(s: State, es: seq<Event>): State {
    if es == [] then s else Step(Replay(s, es[..|es| - 1]), es[|es| - 1])
  }

  /** The length of the stored frame array, as the animation effect reads it; `None` when nothing is stored. */
  function StoredFrames(s: State): (n: Option<nat>)
    ensures n.Some? <==> s.stored.Some? && s.stored.value < |s.runs|
    ensures n.Some? ==> n.value == |s.runs[s.stored.value].frames|
  {
    match s.stored
    case Some(k) => if k < |s.runs| then Some(|s.runs[k].frames|) else None
    case None => None
  }

  /** The completions `cs`, all delivered to the first run. */
  function FirstRunEvents(cs: seq<Completion>): (es: seq<Event>)
    ensures |es| == |cs|
    ensures forall k :: 0 <= k < |cs| ==> es[k] == FrameDone(0, cs[k])
  {
    seq(|cs|, k requires 0 <= k < |cs| => FrameDone(0, cs[k]))
  }

  /**
   * What holds of every reachable page: on mobile the page counts as loaded
   * and no frame array is stored;
   * and while it is not loaded there is exactly one run, its frames are the
   * stored ones, the displayed progress is its counter, and that counter is
   * below `FRAME_COUNT`.
   */
  predicate Valid(s: State) {
    && (s.isMobile ==> s.isLoaded && s.stored == None)
    && (!s.isLoaded ==>
          && |s.runs| == 1
          && s.stored == Some(0)
          && s.progress == s.runs[0].loaded
          && s.runs[0].loaded < FRAME_COUNT)
  }

  lemma MountValid(width: int)
    ensures Valid(Mount(width))
    ensures Valid(MountAsWritten(width))
  {
  }

  /** Every event keeps the page valid, and once loaded it stays loaded. */
  lemma StepValid(s: State, e: Event)
    requires Valid(s)
    ensures Valid(Step(s, e))
    ensures s.isLoaded ==> Step(s, e).isLoaded
  {
  }

  lemma {:induction false} ReplayValid(s: State, es: seq<Event>)
    requires Valid(s)
    ensures Valid(Replay(s, es))
    ensures s.isLoaded ==> Replay(s, es).isLoaded
  {
    if es != [] {
      ReplayValid(s, es[..|es| - 1]);
      StepValid(Replay(s, es[..|es| - 1]), es[|es| - 1]);
    }
  }

  /** While the overlay shows, it is on desktop and its bar is short of full. */
  lemma OverlayShowsPartialProgress(s: State)
    requires Valid(s)
    requires OverlayVisible(s.isLoaded, s.isMobile)
    ensures !s.isMobile
    ensures s.progress < FRAME_COUNT
  {
  }

  /** The desktop page while its first and only run has received the completions `cs`. */
  function FirstRunLoading(cs: seq<Completion>): State {
    State(false, |cs| >= FRAME_COUNT, |cs|, [Feed(Start(), cs)], Some(0))
  }

  /** One more completion of the first run advances the page from `cs` to `cs + [c]`. */
  lemma FirstRunStep(cs: seq<Completion>, c: Completion)
    ensures Step(FirstRunLoading(cs), FrameDone(0, c)) == FirstRunLoading(cs + [c])
  {
    assert (cs + [c])[..|cs|] == cs;
    assert Feed(Start(), cs + [c]) == OnFrameLoad(Feed(Start(), cs), c);
    var r := OnFrameLoad(Feed(Start(), cs), c);
    assert [Feed(Start(), cs)][0 := r] == [r];
  }

  /**
   * On desktop, after the first run has received the completions `cs`, in
   * any order and with any mix of loads and errors, the displayed progress
   * is `|cs|` and the page is loaded exactly when `|cs|` has reached
   * `FRAME_COUNT`.
   */
  lemma {:induction false} DesktopLoading(width: int, cs: seq<Completion>)
    requires !IsMobileWidth(width)
    ensures Replay(Mount(width), FirstRunEvents(cs))
         == State(false, |cs| >= FRAME_COUNT, |cs|, [Feed(Start(), cs)], Some(0))
  {
    if cs == [] {
      assert FirstRunEvents(cs) == [];
    } else {
      var init := cs[..|cs| - 1];
      var last := cs[|cs| - 1];
      assert cs == init + [last];
      DesktopLoading(width, init);
      FirstRunEventsSnoc(init, last);
      ReplaySnoc(Mount(width), FirstRunEvents(init), FrameDone(0, last));
      FirstRunStep(init, last);
    }
  }

  lemma ReplaySnoc(s: State, es: seq<Event>, e: Event)
    ensures Replay(s, es + [e]) == Step(Replay(s, es), e)
  {
    assert (es + [e])[..|es|] == es;
  }

  lemma FirstRunEventsSnoc(cs: seq<Completion>, c: Completion)
    ensures FirstRunEvents(cs + [c]) == FirstRunEvents(cs) + [FrameDone(0, c)]
  {
  }

  /** Once every frame of the first run has completed, the overlay is gone and the animation can start. */
  lemma DesktopReady(width: int, cs: seq<Completion>)
    requires !IsMobileWidth(width)
    requires WellFormed(cs) && |cs| == FRAME_COUNT
    ensures var s := Replay(Mount(width), FirstRunEvents(cs));
      && s.isLoaded
      && s.progress == FRAME_COUNT
      && !OverlayVisible(s.isLoaded, s.isMobile)
      && s.runs == [Feed(Start(), cs)] && s.stored == Some(0)
      && (forall i :: 0 <= i < FRAME_COUNT ==> s.runs[0].frames[i] != Pending)
      && AnimationInit(s.isLoaded, s.isMobile, false, StoredFrames(s)) == Animate(true)
  {
    DesktopLoading(width, cs);
    AllCompleted(cs);
  }

  /** On a mobile viewport the corrected start creates no frame handles and is loaded at once; the start as written still creates a full run. */
  lemma MobileMount(width: int)
    requires IsMobileWidth(width)
    ensures Mount(width).runs == []
    ensures Mount(width).isLoaded
    ensures |MountAsWritten(width).runs| == 1
    ensures |MountAsWritten(width).runs[0].frames| == FRAME_COUNT
  {
  }

  /** On desktop the two starts agree. */
  lemma DesktopMountsAgree(width: int)
    requires !IsMobileWidth(width)
    ensures MountAsWritten(width) == Mount(width)
  {
  }

  /** Switching to a mobile viewport drops the stored frames, so the scrubber cannot be set up. */
  lemma ResizeToMobile(s: State, width: int, reducedMotion: bool)
    requires Valid(s)
    requires IsMobileWidth(width)
    ensures Step(s, Resize(width)).isLoaded
    ensures Step(s, Resize(width)).isMobile
    ensures Step(s, Resize(width)).stored == None
    ensures var s' := Step(s, Resize(width));
      AnimationInit(s'.isLoaded, s'.isMobile, reducedMotion, StoredFrames(s')) != Animate(true)
  {
  }

  /**
   * Switching back to desktop starts a fresh run whose handles are all
   * pending, yet the page is already loaded: the overlay stays hidden and,
   * unless motion is reduced, the scrubber is set up over frames that have
   * not arrived.
   */
  lemma DesktopAfterMobile(s: State, width: int)
    requires Valid(s) && s.isMobile
    requires !IsMobileWidth(width)
    ensures var s' := Step(s, Resize(width));
      && s'.isLoaded
      && !OverlayVisible(s'.isLoaded, s'.isMobile)
      && s'.stored == Some(|s.runs|)
      && s'.runs[|s.runs|] == Start()
      && (forall i :: 0 <= i < |s'.runs[|s.runs|].frames| ==> s'.runs[|s.runs|].frames[i] == Pending)
      && AnimationInit(s'.isLoaded, s'.isMobile, false, StoredFrames(s')) == Animate(true)
  {
  }
}
