/** The value-level meaning of the trail buffer: which points a prune keeps
    and which line segments a draw emits. Both are functions of the points'
    creation times and the clock reading, so they read no mutable state. */
module TrailBuffer {
  import opened Trail

  /** A canvas position in pixels. */
  datatype Pos = Pos(x: real, y: real)

  /** One stroke of the trail: a line between two consecutive points, drawn
      with the given opacity and line width. */
  datatype Segment = Segment(from: Pos, to: Pos, opacity: real, lineWidth: real)

  /** No point object occurs twice in the buffer. */
  ghost predicate Distinct(ps: seq<TrailPoint>)
  {
    forall i, j :: 0 <= i < j < |ps| ==> ps[i] != ps[j]
  }

  /** The points that survive a prune at `now`, in buffer order. */
  function Kept(ps: seq<TrailPoint>, now: int, ttl: int): (r: seq<TrailPoint>)
    ensures |r| <= |ps|
    ensures forall p :: p in r ==> p in ps && Alive(p, now, ttl)
  {
    if ps == [] then []
    else
      var last := ps[|ps| - 1];
      Kept(ps[..|ps| - 1], now, ttl) + (if Alive(last, now, ttl) then [last] else [])
  }

  /** Extending the pruned prefix by one point keeps that point exactly
      when it is alive. */
  lemma KeptPrefixStep(ps: seq<TrailPoint>, i: nat, now: int, ttl: int)
    requires i < |ps|
    ensures Kept(ps[..i + 1], now, ttl)
            == Kept(ps[..i], now, ttl) + (if Alive(ps[i], now, ttl) then [ps[i]] else [])
  {
    assert ps[..i + 1][..i] == ps[..i];
  }

  /** A prune loses no live point. */
  lemma {:induction false} KeptComplete(ps: seq<TrailPoint>, p: TrailPoint, now: int, ttl: int)
    requires p in ps && Alive(p, now, ttl)
    ensures p in Kept(ps, now, ttl)
  {
    var init := ps[..|ps| - 1];
    if p != ps[|ps| - 1] {
      assert ps == init + [ps[|ps| - 1]];
      KeptComplete(init, p, now, ttl);
    }
  }

  /** Pruning keeps relative order: it distributes over concatenation. */
  lemma {:induction false} KeptAppend(a: seq<TrailPoint>, b: seq<TrailPoint>, now: int, ttl: int)
    ensures Kept(a + b, now, ttl) == Kept(a, now, ttl) + Kept(b, now, ttl)
  {
    if b == [] {
      assert a + b == a;
    } else {
      var init := b[..|b| - 1];
      assert (a + b)[..|a + b| - 1] == a + init;
      KeptAppend(a, init, now, ttl);
    }
  }

  /** Pruning at an earlier time and then at a later one is the same as
      pruning once at the later time; in particular a prune is idempotent. */
  lemma {:induction false} KeptLater(ps: seq<TrailPoint>, t1: int, t2: int, ttl: int)
    requires t1 <= t2
    ensures Kept(Kept(ps, t1, ttl), t2, ttl) == Kept(ps, t2, ttl)
  {
    if ps != [] {
      var init := ps[..|ps| - 1];
      var last := ps[|ps| - 1];
      KeptLater(init, t1, t2, ttl);
      KeptAppend(Kept(init, t1, ttl), if Alive(last, t1, ttl) then [last] else [], t2, ttl);
      if Alive(last, t1, ttl) {
        assert [last][..0] == [];
      }
    }
  }

  /** A prune of a buffer without duplicates has none either. */
  lemma {:induction false} KeptDistinct(ps: seq<TrailPoint>, now: int, ttl: int)
    requires Distinct(ps)
    ensures Distinct(Kept(ps, now, ttl))
  {
    if ps != [] {
      var init := ps[..|ps| - 1];
      var last := ps[|ps| - 1];
      assert Distinct(init);
      KeptDistinct(init, now, ttl);
      assert last !in init;
    }
  }

  /** The opacity of a point at clock reading `now`. */
  function OpacityAt(p: TrailPoint, now: int, ttl: int): real
    requires ttl > 0
  {
    Opacity(now - p.timestamp, ttl)
  }

  /** The stroke between two consecutive points: the mean of their
      opacities, and a line width of three times that mean. */
  function SegmentBetween(p1: TrailPoint, p2: TrailPoint, now: int, ttl: int): (s: Segment)
    requires ttl > 0
    ensures s.from == Pos(p1.x, p1.y) && s.to == Pos(p2.x, p2.y)
    ensures s.lineWidth == 3.0 * s.opacity
    ensures OpacityAt(p1, now, ttl) <= s.opacity <= OpacityAt(p2, now, ttl)
            || OpacityAt(p2, now, ttl) <= s.opacity <= OpacityAt(p1, now, ttl)
    ensures Drawable(p1, p2, now, ttl) ==> s.opacity > 0.0
  {
    var avg := (OpacityAt(p1, now, ttl) + OpacityAt(p2, now, ttl)) / 2.0;
    Segment(Pos(p1.x, p1.y), Pos(p2.x, p2.y), avg, 3.0 * avg)
  }

  /** Both ends of a pair are still visible. */
  predicate Drawable(p1: TrailPoint, p2: TrailPoint, now: int, ttl: int)
    requires ttl > 0
  {
    OpacityAt(p1, now, ttl) > 0.0 && OpacityAt(p2, now, ttl) > 0.0
  }

  /** The strokes of a draw: one per consecutive pair whose ends are both
      visible, in buffer order. */
  function Drawn(ps: seq<TrailPoint>, now: int, ttl: int): (r: seq<Segment>)
    requires ttl > 0
    ensures |ps| < 2 ==> r == []
    ensures |ps| >= 2 ==> |r| <= |ps| - 1
  {
    if |ps| < 2 then []
    else
      var p1, p2 := ps[|ps| - 2], ps[|ps| - 1];
      Drawn(ps[..|ps| - 1], now, ttl) + (if Drawable(p1, p2, now, ttl) then [SegmentBetween(p1, p2, now, ttl)] else [])
  }

  /** Every emitted stroke joins a consecutive pair whose ends are both
      visible, and carries a positive opacity. */
  lemma {:induction false} DrawnSound(ps: seq<TrailPoint>, now: int, ttl: int, j: nat)
    requires ttl > 0 && j < |Drawn(ps, now, ttl)|
    ensures exists k :: 1 <= k < |ps| && Drawable(ps[k - 1], ps[k], now, ttl)
                        && Drawn(ps, now, ttl)[j] == SegmentBetween(ps[k - 1], ps[k], now, ttl)
    ensures Drawn(ps, now, ttl)[j].opacity > 0.0
  {
    var init := ps[..|ps| - 1];
    var d := Drawn(init, now, ttl);
    if j < |d| {
      DrawnSound(init, now, ttl, j);
      var k :| 1 <= k < |init| && Drawable(init[k - 1], init[k], now, ttl)
               && d[j] == SegmentBetween(init[k - 1], init[k], now, ttl);
      assert init[k - 1] == ps[k - 1] && init[k] == ps[k];
    } else {
      var k := |ps| - 1;
      assert Drawable(ps[k - 1], ps[k], now, ttl);
    }
  }

  /** When every point is alive, as after a prune, every consecutive pair is
      drawn: exactly one stroke per pair, in buffer order. */
  lemma {:induction false} DrawnAllPairs(ps: seq<TrailPoint>, now: int, ttl: int)
    requires ttl > 0 && |ps| >= 2
    requires forall p :: p in ps ==> Alive(p, now, ttl)
    ensures |Drawn(ps, now, ttl)| == |ps| - 1
    ensures forall k :: 0 <= k < |ps| - 1 ==> Drawn(ps, now, ttl)[k] == SegmentBetween(ps[k], ps[k + 1], now, ttl)
  {
    var n := |ps|;
    var init := ps[..n - 1];
    assert ps[n - 2] in ps && ps[n - 1] in ps;
    assert Drawable(ps[n - 2], ps[n - 1], now, ttl);
    if n > 2 {
      DrawnAllPairs(init, now, ttl);
      assert forall k :: 0 <= k < n - 1 ==> init[k] == ps[k];
    }
  }

  /** With no point from the future, every stroke of a pruned buffer has an
      opacity in (0, 1] and a line width in (0, 3]. */
  lemma SegmentsBounded(ps: seq<TrailPoint>, now: int, ttl: int)
    requires ttl > 0 && |ps| >= 2
    requires forall p :: p in ps ==> Alive(p, now, ttl) && p.timestamp <= now
    ensures forall s :: s in Drawn(ps, now, ttl) ==>
              0.0 < s.opacity <= 1.0 && 0.0 < s.lineWidth <= 3.0
  {
  }
}
