/**
 * The capability gate: the viewport breakpoint that selects the mobile
 * experience, the loading overlay's visibility, and the decision of the
 * animation effect, which starts only once the frames are loaded and the
 * reduced-motion preference is off, and scrubs the hero frames only on
 * desktop with a non-empty stored frame array.
 */
module CapabilityGate {
  import opened Optional

  /** Widest viewport, in CSS pixels, still treated as mobile. */
  const MOBILE_BREAKPOINT: int := 768

  predicate IsMobileWidth(width: int) {
    width <= MOBILE_BREAKPOINT
  }

  /** The full-screen loading overlay. */
  predicate OverlayVisible(isLoaded: bool, isMobile: bool) {
    !isLoaded && !isMobile
  }

  /** What the animation effect does on entry. */
  datatype Init =
    | WaitForFrames      // frames not loaded: nothing is set up
    | MotionReduced      // the user asked for reduced motion: nothing is set up
    | Animate(scrub: bool)  // smooth scrolling and reveals start; `scrub` when the hero frame scrubber is set up too

  /**
   * The animation effect, given the flags it depends on, the reduced-motion
   * preference read on entry, and the length of the stored frame array
   * (`None` when no array is stored).
   */
  function AnimationInit(isLoaded: bool, isMobile: bool, reducedMotion: bool, stored: Option<nat>): (i: Init)
    ensures i.Animate? <==> isLoaded && !reducedMotion
    ensures i == WaitForFrames <==> !isLoaded
    ensures i.Animate? ==> (i.scrub <==> !isMobile && stored.Some? && stored.value > 0)
  {
    if !isLoaded then WaitForFrames
    else if reducedMotion then MotionReduced
    else Animate(!isMobile && stored.Some? && stored.value > 0)
  }

  /** The breakpoint is inclusive: 768 pixels is mobile, 769 is desktop. */
  lemma BreakpointInclusive()
    ensures IsMobileWidth(768) && !IsMobileWidth(769)
  {
  }

  /** With reduced motion nothing is ever set up, whatever the other flags. */
  lemma ReducedMotionNeverAnimates(isLoaded: bool, isMobile: bool, stored: Option<nat>)
    ensures !AnimationInit(isLoaded, isMobile, true, stored).Animate?
  {
  }
}
