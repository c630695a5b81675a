/** The state the wand tracker keeps between frames: the trail buffer and
    the detection state behind the wand indicator. Every clock reading is
    an explicit parameter in milliseconds; the trail length is the slider
    value in whole seconds. */
module Tracker {
  import opened Trail
  import opened TrailBuffer
  import opened Detection

  /** The trail-length slider runs from 1 to 8 seconds. */
  predicate TrailSecondsInRange(trailSeconds: int)
  {
    1 <= trailSeconds <= 8
  }

  class WandTracker {
    /** The trail buffer, oldest point first. */
    var points: seq<TrailPoint>
    var lastDetectedTime: int
    var mlStatus: bool
    var wandStatus: bool
    var wandPosition: WandPosition

    ghost predicate Valid()
      reads this
    {
      Distinct(points)
    }

    /** The detection state as one value. */
    ghost function IndicatorState(): Indicator
      reads this
    {
      Indicator(wandPosition, lastDetectedTime, wandStatus)
    }

    constructor ()
      ensures Valid()
      ensures points == [] && lastDetectedTime == 0
      ensures !mlStatus && !wandStatus && wandPosition == WandPosition(0.0, 0.0, false)
    {
      points := [];
      lastDetectedTime := 0;
      mlStatus := false;
      wandStatus := false;
      wandPosition := WandPosition(0.0, 0.0, false);
    }

    /** Recomputes every point's age at `currentTime` and keeps the ones
        younger than `trailLengthMs`, in order. */
    method Prune(currentTime: int, trailLengthMs: int)
      requires Valid()
      modifies this`points, points
      ensures Valid()
      ensures points == Kept(old(points), currentTime, trailLengthMs)
      ensures forall p :: p in old(points) ==> p.age == currentTime - p.timestamp
    {
      var ps := points;
      var kept: seq<TrailPoint> := [];
      var i := 0;
      while i < |ps|
        modifies ps
        invariant 0 <= i <= |ps|
        invariant Distinct(ps)
        invariant kept == Kept(ps[..i], currentTime, trailLengthMs)
        invariant forall j :: 0 <= j < i ==> ps[j].age == currentTime - ps[j].timestamp
        invariant forall j :: i <= j < |ps| ==> ps[j].age == old(ps[j].age)
      {
        var alive := ps[i].Update(currentTime, trailLengthMs);
        KeptPrefixStep(ps, i, currentTime, trailLengthMs);
        if alive {
          kept := kept + [ps[i]];
        }
        i := i + 1;
      }
      assert ps[..i] == ps;
      KeptDistinct(ps, currentTime, trailLengthMs);
      points := kept;
    }

    /** Appends a point created at `t0`, then prunes at `t1`. The new point
        survives exactly when it is younger than the trail length at `t1`;
        in particular with both readings less than a second apart it ends
        the buffer. */
    method AddTrailPoint(x: real, y: real, t0: int, t1: int, trailSeconds: int) returns (ghost pushed: TrailPoint)
      requires Valid() && TrailSecondsInRange(trailSeconds)
      modifies this`points, points
      ensures Valid()
      ensures fresh(pushed) && pushed.x == x && pushed.y == y && pushed.timestamp == t0
      ensures points == Kept(old(points) + [pushed], t1, trailSeconds * 1000)
      ensures forall p :: p in old(points) ==> p.age == t1 - p.timestamp
      ensures pushed.age == t1 - t0
      ensures pushed in points <==> t1 - t0 < trailSeconds * 1000
      ensures 0 <= t1 - t0 < 1000 ==> points != [] && points[|points| - 1] == pushed
      ensures forall p :: p in points ==> p in old(points) || p == pushed
    {
      var p := new TrailPoint(x, y, t0);
      pushed := p;
      points := points + [p];
      var trailLengthMs := trailSeconds * 1000;
      ghost var before := points;
      Prune(t1, trailLengthMs);
      if Alive(p, t1, trailLengthMs) {
        KeptComplete(before, p, t1, trailLengthMs);
      }
      assert before[..|before| - 1] == old(points);
    }

    /** One animation frame of the trail. With fewer than two points nothing
        happens; otherwise the buffer is pruned at `currentTime` and one
        stroke is returned for each consecutive pair whose ends are both
        visible. */
    method DrawTrail(currentTime: int, trailSeconds: int) returns (segments: seq<Segment>)
      requires Valid() && TrailSecondsInRange(trailSeconds)
      modifies this`points, points
      ensures Valid()
      ensures |old(points)| < 2 ==> points == old(points) && segments == []
      ensures |old(points)| < 2 ==> forall p :: p in points ==> p.age == old(p.age)
      ensures |old(points)| >= 2 ==> points == Kept(old(points), currentTime, trailSeconds * 1000)
      ensures |old(points)| >= 2 ==> forall p :: p in old(points) ==> p.age == currentTime - p.timestamp
      ensures segments == Drawn(points, currentTime, trailSeconds * 1000)
      ensures |old(points)| >= 2 && |points| >= 2 ==>
                |segments| == |points| - 1
                && forall k :: 0 <= k < |points| - 1 ==>
                     segments[k] == SegmentBetween(points[k], points[k + 1], currentTime, trailSeconds * 1000)
    {
      if |points| < 2 {
        return [];
      }
      var trailLengthMs := trailSeconds * 1000;
      Prune(currentTime, trailLengthMs);
      if |points| < 2 {
        return [];
      }
      segments := Strokes(points, currentTime, trailLengthMs);
      DrawnAllPairs(points, currentTime, trailLengthMs);
    }

    /** The stroke loop of a draw: walks the buffer pair by pair and emits
        a stroke for each pair whose ends both have positive opacity at
        their recorded ages, which were last recomputed at `now`. */
    method Strokes(ps: seq<TrailPoint>, ghost now: int, trailLengthMs: int) returns (segments: seq<Segment>)
      requires trailLengthMs > 0
      requires forall p :: p in ps ==> p.age == now - p.timestamp
      ensures segments == Drawn(ps, now, trailLengthMs)
    {
      segments := [];
      if |ps| < 2 {
        return;
      }
      var i := 1;
      while i < |ps|
        invariant 1 <= i <= |ps|
        invariant segments == Drawn(ps[..i], now, trailLengthMs)
      {
        var point1, point2 := ps[i - 1], ps[i];
        var opacity1 := point1.GetOpacity(trailLengthMs);
        var opacity2 := point2.GetOpacity(trailLengthMs);
        assert ps[..i + 1][..i] == ps[..i];
        if opacity1 > 0.0 && opacity2 > 0.0 {
          var avgOpacity := (opacity1 + opacity2) / 2.0;
          segments := segments + [Segment(Pos(point1.x, point1.y), Pos(point2.x, point2.y), avgOpacity, 3.0 * avgOpacity)];
        }
        i := i + 1;
      }
      assert ps[..i] == ps;
    }

    /** Empties the trail buffer. */
    method ClearCanvas()
      modifies this`points
      ensures Valid()
      ensures points == []
    {
      points := [];
    }

    /** Handles one hand-tracking result. `t0`, `t1` and `t2` are the
        successive clock readings the handler takes: a seen tip is pushed
        at `t0`, the trail is pruned at `t1` and the detection is recorded
        at `t2`; without a hand only `t0` is read, for the 500 ms check. */
    method OnResults(hands: seq<seq<Landmark>>, canvas: CanvasRef, t0: int, t1: int, t2: int, trailSeconds: int)
      returns (ghost pushed: TrailPoint?)
      requires Valid() && TrailSecondsInRange(trailSeconds)
      modifies this, points
      ensures Valid()
      ensures mlStatus
      ensures IndicatorState() == Step(old(IndicatorState()), Observe(hands, canvas), if Observe(hands, canvas).Tip? then t2 else t0)
      ensures !Observe(hands, canvas).Tip? ==> points == old(points) && pushed == null
      ensures !Observe(hands, canvas).Tip? ==> forall p :: p in old(points) ==> p.age == old(p.age)
      ensures Observe(hands, canvas).Tip? ==>
                (forall p :: p in old(points) ==> p.age == t1 - p.timestamp) && pushed != null && pushed.age == t1 - t0
      ensures Observe(hands, canvas).Tip? ==>
                pushed != null && fresh(pushed) && pushed.timestamp == t0
                && pushed.x == Observe(hands, canvas).x && pushed.y == Observe(hands, canvas).y
                && points == Kept(old(points) + [pushed], t1, trailSeconds * 1000)
    {
      mlStatus := true;
      pushed := null;
      if |hands| > 0 {
        var landmarks := hands[0];
        if |landmarks| > IndexFingerTip && canvas.Present? {
          var wandTip := landmarks[IndexFingerTip];
          var x := wandTip.x * canvas.width as real;
          var y := wandTip.y * canvas.height as real;
          pushed := AddTrailPoint(x, y, t0, t1, trailSeconds);
          lastDetectedTime := t2;
          wandPosition := WandPosition(x, y, true);
          wandStatus := true;
        } else {
          wandStatus := false;
        }
      } else {
        wandStatus := false;
        if t0 - lastDetectedTime > HideDelay {
          wandPosition := wandPosition.(visible := false);
        }
      }
    }
  }
}
