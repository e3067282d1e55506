/**
 * The hero frame player: a playhead tweened linearly from 0 to `n - 1` as
 * the pinned hero section scrolls, and a draw routine that rounds the
 * playhead to a frame index and paints that frame onto the hero surface.
 *
 * Handle states follow the HTML `img` element: `complete` is true for an
 * image that loaded and ALSO for one whose load failed ("broken"), and
 * `drawImage` rejects a broken image with an exception, after the routine
 * has already cleared the surface. `UpdateImageAsWritten` keeps the
 * `complete` guard of the draw routine; `UpdateImage` is the corrected
 * routine that skips every frame that did not load, and the surface
 * lemmas are stated for it.
 */
module FramePlayer {
  import opened Optional
  import opened Frames

  /** JavaScript's `Math.round` on the reals: the nearest integer, halves rounded up. */
  function Round(x: real): (k: int)
    ensures k as real - 0.5 <= x < k as real + 0.5
  {
    (x + 0.5).Floor
  }

  /** The frame index the draw routine reads for playhead `p` over `n` frames: `Math.min(Math.round(p), n - 1)`. */
  function FrameIndex(p: real, n: nat): int {
    var k := Round(p);
    if k < n - 1 then k else n - 1
  }

  /** The playhead after scroll progress `q` of the linear tween from frame 0 to frame `n - 1`. */
  function Playhead(q: real, n: nat): real {
    q * (n - 1) as real
  }

  /** Reading `images[k]`: `None` stands for JavaScript's `undefined`. */
  function Lookup(frames: seq<FrameStatus>, k: int): (h: Option<FrameStatus>)
    ensures h.Some? <==> 0 <= k < |frames|
    ensures h.Some? ==> h.value == frames[k]
  {
    if 0 <= k < |frames| then Some(frames[k]) else None
  }

  /** The HTML `complete` attribute: true once the fetch has finished, whether it succeeded or not. */
  predicate Complete(s: FrameStatus) {
    s != Pending
  }

  /** What one call of the draw routine does to the surface. */
  datatype Draw =
    | Drawn(frame: nat)     // the surface was cleared and frame `frame` painted
    | Rejected(frame: nat)  // the surface was cleared, then painting the broken frame threw
    | Skipped               // the surface was not touched

  /** The hero surface: blank, or showing one frame. */
  datatype Surface = Blank | Showing(frame: nat)

  function Paint(surface: Surface, d: Draw): (s: Surface)
    ensures d.Skipped? ==> s == surface
    ensures d.Drawn? ==> s == Showing(d.frame)
    ensures d.Rejected? ==> s == Blank
  {
    match d
    case Drawn(k) => Showing(k)
    case Rejected(_) => Blank
    case Skipped => surface
  }

  /** The draw routine with its `img && img.complete` guard, as written. */
  function UpdateImageAsWritten(frames: seq<FrameStatus>, p: real): (d: Draw)
    ensures d.Skipped? <==> Lookup(frames, FrameIndex(p, |frames|)) !in {Some(Loaded), Some(Failed)}
    ensures d.Drawn? ==> d.frame == FrameIndex(p, |frames|) && frames[d.frame] == Loaded
    ensures d.Rejected? ==> d.frame == FrameIndex(p, |frames|) && frames[d.frame] == Failed
  {
    var k := FrameIndex(p, |frames|);
    match Lookup(frames, k)
    case Some(s) =>
      if !Complete(s) then Skipped
      else if s == Loaded then Drawn(k)
      else Rejected(k)
    case None => Skipped
  }

  /** The draw routine with the guard it evidently intends: paint the selected frame only if it loaded. */
  function UpdateImage(frames: seq<FrameStatus>, p: real): (d: Draw)
    ensures !d.Rejected?
    ensures d.Drawn? <==> Lookup(frames, FrameIndex(p, |frames|)) == Some(Loaded)
    ensures d.Drawn? ==> d.frame == FrameIndex(p, |frames|)
  {
    var k := FrameIndex(p, |frames|);
    if Lookup(frames, k) == Some(Loaded) then Drawn(k) else Skipped
  }

  /** Whether the corrected draw routine paints at playhead `p`: the selected handle exists and loaded. */
  predicate DrawsAt(frames: seq<FrameStatus>, p: real) {
    Lookup(frames, FrameIndex(p, |frames|)) == Some(Loaded)
  }

  /** The positions of the playhead updates that paint. */
  function PaintingUpdates(frames: seq<FrameStatus>, ps: seq<real>): set<nat> {
    set k | 0 <= k < |ps| && DrawsAt(frames, ps[k])
  }

  /** One more update adds its own position to the painting updates exactly when it paints. */
  lemma PaintingUpdatesSnoc(frames: seq<FrameStatus>, ps: seq<real>)
    requires ps != []
    ensures var init := PaintingUpdates(frames, ps[..|ps| - 1]);
      && |ps| - 1 !in init
      && PaintingUpdates(frames, ps) == init + (if DrawsAt(frames, ps[|ps| - 1]) then {|ps| - 1} else {})
  {
    var init := ps[..|ps| - 1];
    assert forall k :: 0 <= k < |init| ==> init[k] == ps[k];
  }

  /** The position of the last update in `ps` that paints, if any. */
  function LastPaint(frames: seq<FrameStatus>, ps: seq<real>): (last: Option<nat>)
    ensures last.None? <==> forall k :: 0 <= k < |ps| ==> !DrawsAt(frames, ps[k])
    ensures last.Some? ==> last.value < |ps| && DrawsAt(frames, ps[last.value])
    ensures last.Some? ==> forall j :: last.value < j < |ps| ==> !DrawsAt(frames, ps[j])
  {
    if ps == [] then None
    else if DrawsAt(frames, ps[|ps| - 1]) then Some(|ps| - 1)
    else
      var init := ps[..|ps| - 1];
      assert forall k :: 0 <= k < |init| ==> init[k] == ps[k];
      LastPaint(frames, init)
  }

  /**
   * The surface and the number of paints after the corrected draw routine
   * runs once per playhead update: exactly the updates whose selected frame
   * loaded paint, and the surface ends on the frame of the last of them, or
   * is left as it was when none paints.
   */
  function Scrub(frames: seq<FrameStatus>, surface: Surface, ps: seq<real>): (r: (Surface, nat))
    ensures r.1 == |PaintingUpdates(frames, ps)|
    ensures LastPaint(frames, ps).None? ==> r.0 == surface
    ensures LastPaint(frames, ps).Some? ==> r.0 == Showing(FrameIndex(ps[LastPaint(frames, ps).value], |frames|))
  {
    if ps == [] then (surface, 0)
    else
      var init := ps[..|ps| - 1];
      var (s, n) := Scrub(frames, surface, init);
      PaintingUpdatesSnoc(frames, ps);
      var d := UpdateImage(frames, ps[|ps| - 1]);
      var last := LastPaint(frames, init);
      assert last.Some? ==> init[last.value] == ps[last.value];
      (Paint(s, d), if d.Drawn? then n + 1 else n)
  }

  /** The surface shows nothing, or a frame that loaded. */
  predicate ShowsLoaded(frames: seq<FrameStatus>, surface: Surface) {
    surface.Showing? ==> surface.frame < |frames| && frames[surface.frame] == Loaded
  }

  /**
   * For every playhead within the tween's range the selected index is the
   * nearest frame: in range, within half a frame of the playhead, the first
   * frame at 0 and the last at `n - 1`.
   */
  lemma FrameIndexInRange(p: real, n: nat)
    requires 1 <= n
    requires 0.0 <= p <= (n - 1) as real
    ensures 0 <= FrameIndex(p, n) <= n - 1
    ensures FrameIndex(p, n) == Round(p)
    ensures FrameIndex(p, n) as real - 0.5 <= p < FrameIndex(p, n) as real + 0.5
    ensures p == 0.0 ==> FrameIndex(p, n) == 0
    ensures p == (n - 1) as real ==> FrameIndex(p, n) == n - 1
  {
  }

  /** Scroll progress `q` in [0, 1] selects frame `round(q * (n - 1))`: frame 0 at the top, frame `n - 1` at the end. */
  lemma SeekSelects(q: real, n: nat)
    requires 1 <= n
    requires 0.0 <= q <= 1.0
    ensures 0 <= FrameIndex(Playhead(q, n), n) <= n - 1
    ensures FrameIndex(Playhead(q, n), n) == Round(q * (n - 1) as real)
    ensures q == 0.0 ==> FrameIndex(Playhead(q, n), n) == 0
    ensures q == 1.0 ==> FrameIndex(Playhead(q, n), n) == n - 1
  {
    var m := (n - 1) as real;
    MulNonneg(q, m);
    MulNonneg(1.0 - q, m);
    assert (1.0 - q) * m == m - q * m;
    FrameIndexInRange(q * m, n);
  }

  lemma MulNonneg(a: real, b: real)
    requires 0.0 <= a && 0.0 <= b
    ensures 0.0 <= a * b
  {
  }

  /** Scrolling forward never selects an earlier frame. */
  lemma FrameIndexMonotonic(p: real, p': real, n: nat)
    requires p <= p'
    ensures FrameIndex(p, n) <= FrameIndex(p', n)
  {
  }

  /** As written, a failed frame passes the `complete` guard and reaches the painter, which throws after clearing the surface. */
  lemma AsWrittenRejectsFailedFrame(frames: seq<FrameStatus>, p: real)
    requires Lookup(frames, FrameIndex(p, |frames|)) == Some(Failed)
    ensures UpdateImageAsWritten(frames, p).Rejected?
    ensures Paint(Showing(0), UpdateImageAsWritten(frames, p)) == Blank
  {
  }

  /** As written, a missing or still-loading handle is skipped and the surface stays as it was. */
  lemma AsWrittenSkipLeavesSurface(frames: seq<FrameStatus>, surface: Surface, p: real)
    requires Lookup(frames, FrameIndex(p, |frames|)) !in {Some(Loaded), Some(Failed)}
    ensures UpdateImageAsWritten(frames, p) == Skipped
    ensures Paint(surface, UpdateImageAsWritten(frames, p)) == surface
  {
  }

  /** Concretely: a first frame that failed to load, at the initial playhead 0. */
  lemma FailedFirstFrameExample()
    ensures UpdateImageAsWritten([Failed, Loaded], 0.0) == Rejected(0)
    ensures UpdateImage([Failed, Loaded], 0.0) == Skipped
  {
  }

  /** The two guards agree except on failed frames, which the corrected routine skips. */
  lemma GuardsAgreeOnDrawableFrames(frames: seq<FrameStatus>, p: real)
    ensures UpdateImageAsWritten(frames, p).Rejected? || UpdateImageAsWritten(frames, p) == UpdateImage(frames, p)
    ensures UpdateImageAsWritten(frames, p).Rejected? ==> UpdateImage(frames, p) == Skipped
  {
  }

  /** With the corrected guard, a draw of anything but a loaded frame leaves the surface exactly as it was. */
  lemma SkippedDrawLeavesSurface(frames: seq<FrameStatus>, surface: Surface, p: real)
    requires Lookup(frames, FrameIndex(p, |frames|)) != Some(Loaded)
    ensures Paint(surface, UpdateImage(frames, p)) == surface
  {
  }

  /** Whatever the playhead does, the corrected routine only ever shows frames that loaded. */
  lemma ScrubShowsLoaded(frames: seq<FrameStatus>, surface: Surface, ps: seq<real>)
    requires ShowsLoaded(frames, surface)
    ensures ShowsLoaded(frames, Scrub(frames, surface, ps).0)
  {
  }

  /**
   * The routine repaints on every playhead update, even when the index has
   * not changed: two updates to the same loaded frame paint twice and leave
   * the surface as one update does.
   */
  lemma RepaintsSameFrame(frames: seq<FrameStatus>, surface: Surface, p: real)
    requires Lookup(frames, FrameIndex(p, |frames|)) == Some(Loaded)
    ensures Scrub(frames, surface, [p, p]).1 == 2
    ensures Scrub(frames, surface, [p, p]).0 == Scrub(frames, surface, [p]).0
  {
  }
}
