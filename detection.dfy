/** What one hand-tracking result means for the wand indicator: whether the
    index fingertip was seen, where it is on the canvas, and when the
    indicator is hidden after the hand is lost. */
module Detection {

  /** A hand landmark in normalized image coordinates. */
  datatype Landmark = Landmark(x: real, y: real)

  /** The drawing canvas, when it is mounted, with its size in pixels. */
  datatype CanvasRef = Absent | Present(width: nat, height: nat)

  /** The landmark index of the index fingertip, used as the wand tip. */
  const IndexFingerTip: nat := 8

  /** The grace period, in milliseconds, before a lost hand hides the
      indicator. */
  const HideDelay: int := 500

  /** How a tracking result is classified: the tip was seen at a canvas
      position, a hand was seen without a usable tip, or no hand at all. */
  datatype Observation = Tip(x: real, y: real) | HandWithoutTip | NoHand

  /** Reads the tip of the first hand and scales it to canvas pixels. The
      tip is usable only when the first hand has a landmark at index 8 and
      the canvas is mounted. */
  function Observe(hands: seq<seq<Landmark>>, canvas: CanvasRef): (o: Observation)
    ensures o.NoHand? <==> hands == []
    ensures o.Tip? <==> hands != [] && |hands[0]| > IndexFingerTip && canvas.Present?
    ensures o.Tip? ==> o.x == hands[0][IndexFingerTip].x * canvas.width as real
    ensures o.Tip? ==> o.y == hands[0][IndexFingerTip].y * canvas.height as real
  {
    if hands == [] then NoHand
    else if |hands[0]| > IndexFingerTip && canvas.Present? then
      var tip := hands[0][IndexFingerTip];
      Tip(tip.x * canvas.width as real, tip.y * canvas.height as real)
    else HandWithoutTip
  }

  /** A normalized coordinate in [0, 1] scales to a pixel coordinate in
      [0, size]. */
  lemma ScaledWithin(c: real, size: real, r: real)
    requires size >= 0.0 && 0.0 <= c <= 1.0 && r == c * size
    ensures 0.0 <= r <= size
  {
    assert size - r == (1.0 - c) * size;
  }

  /** A fingertip inside the camera image lands inside the canvas. */
  lemma TipInsideCanvas(hands: seq<seq<Landmark>>, canvas: CanvasRef)
    requires Observe(hands, canvas).Tip?
    requires 0.0 <= hands[0][IndexFingerTip].x <= 1.0 && 0.0 <= hands[0][IndexFingerTip].y <= 1.0
    ensures 0.0 <= Observe(hands, canvas).x <= canvas.width as real
    ensures 0.0 <= Observe(hands, canvas).y <= canvas.height as real
  {
    var o := Observe(hands, canvas);
    var tip := hands[0][IndexFingerTip];
    ScaledWithin(tip.x, canvas.width as real, o.x);
    ScaledWithin(tip.y, canvas.height as real, o.y);
  }

  /** Where the wand indicator is drawn and whether it is shown. */
  datatype WandPosition = WandPosition(x: real, y: real, visible: bool)

  /** The detection state: the indicator, the time of the last detection
      and the wand status light. */
  datatype Indicator = Indicator(position: WandPosition, lastDetected: int, wandStatus: bool)

  /** The effect of one tracking result at clock reading `now`. A seen tip
      moves and shows the indicator and records the detection time; a hand
      without a tip only turns the status light off; no hand turns it off
      and hides the indicator once more than 500 ms have passed since the
      last detection. */
  function Step(ind: Indicator, obs: Observation, now: int): (r: Indicator)
    ensures r.wandStatus <==> obs.Tip?
    ensures obs.Tip? ==> r.position == WandPosition(obs.x, obs.y, true) && r.lastDetected == now
    ensures !obs.Tip? ==> r.lastDetected == ind.lastDetected
    ensures !obs.Tip? ==> r.position.x == ind.position.x && r.position.y == ind.position.y
    ensures r.position.visible != ind.position.visible ==>
              (obs.Tip? && r.position.visible) || (obs.NoHand? && now - ind.lastDetected > HideDelay && !r.position.visible)
    ensures obs.NoHand? && now - ind.lastDetected > HideDelay ==> !r.position.visible
  {
    match obs
    case Tip(x, y) => Indicator(WandPosition(x, y, true), now, true)
    case HandWithoutTip => ind.(wandStatus := false)
    case NoHand =>
      if now - ind.lastDetected > HideDelay then
        Indicator(ind.position.(visible := false), ind.lastDetected, false)
      else ind.(wandStatus := false)
  }

  /** One tracking result together with the clock reading it is judged at. */
  datatype Tick = Tick(obs: Observation, time: int)

  /** The detection state after a run of tracking results, in order. */
  function Run(ind: Indicator, ticks: seq<Tick>): Indicator
  {
    if ticks == [] then ind
    else
      var last := ticks[|ticks| - 1];
      Step(Run(ind, ticks[..|ticks| - 1]), last.obs, last.time)
  }

  /** Within 500 ms of the last detection, losing the hand leaves the
      indicator exactly where and as it was. */
  lemma {:induction false} GraceWindow(ind: Indicator, ticks: seq<Tick>)
    requires forall k :: 0 <= k < |ticks| ==> !ticks[k].obs.Tip?
    requires forall k :: 0 <= k < |ticks| ==> ticks[k].time - ind.lastDetected <= HideDelay
    ensures Run(ind, ticks).position == ind.position
    ensures Run(ind, ticks).lastDetected == ind.lastDetected
  {
    if ticks != [] {
      GraceWindow(ind, ticks[..|ticks| - 1]);
    }
  }

  /** Once hidden, the indicator stays hidden until the tip is seen again. */
  lemma {:induction false} StaysHidden(ind: Indicator, ticks: seq<Tick>)
    requires !ind.position.visible
    requires forall k :: 0 <= k < |ticks| ==> !ticks[k].obs.Tip?
    ensures !Run(ind, ticks).position.visible
  {
    if ticks != [] {
      StaysHidden(ind, ticks[..|ticks| - 1]);
    }
  }

  /** After the last detection, a result without a hand more than 500 ms
      later hides the indicator, whatever came in between without a tip. */
  lemma {:induction false} HiddenAfterTimeout(ind: Indicator, ticks: seq<Tick>, later: int)
    requires forall k :: 0 <= k < |ticks| ==> !ticks[k].obs.Tip?
    requires later - ind.lastDetected > HideDelay
    ensures !Run(ind, ticks + [Tick(NoHand, later)]).position.visible
  {
    var all := ticks + [Tick(NoHand, later)];
    assert all[..|all| - 1] == ticks;
    LastDetectedKept(ind, ticks);
  }

  /** Results without a tip never move the recorded detection time. */
  lemma {:induction false} LastDetectedKept(ind: Indicator, ticks: seq<Tick>)
    requires forall k :: 0 <= k < |ticks| ==> !ticks[k].obs.Tip?
    ensures Run(ind, ticks).lastDetected == ind.lastDetected
  {
    if ticks != [] {
      LastDetectedKept(ind, ticks[..|ticks| - 1]);
    }
  }
}
