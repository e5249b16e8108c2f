/**
 * The pan/zoom map between world coordinates (the diagram's own) and screen
 * coordinates: `pan` is the world point under the screen origin and one world
 * unit spans `zoom` screen units.
 */
module UiTransform {
  import opened Geometry

  datatype Transform = Transform(pan: Vec2, zoom: real) {

    /** `screen_to_world`: pan + s / zoom; the world point that `world_to_screen` draws at `s`. */
    function ScreenToWorld(s: Pos2): (w: Pos2)
      requires zoom != 0.0
      ensures WorldToScreen(w) == s
    {
      Pos2(pan.x + s.x / zoom, pan.y + s.y / zoom)
    }

    /** `world_to_screen`: (w - pan) * zoom; only the world point `pan` lands on the screen origin. */
    function WorldToScreen(w: Pos2): (s: Pos2)
      ensures zoom != 0.0 ==> (s == Origin <==> w == Pos2(pan.x, pan.y))
    {
      Pos2((w.x - pan.x) * zoom, (w.y - pan.y) * zoom)
    }

    /** `world_rect_to_screen`: both corners through `world_to_screen`, so both sides scale by the zoom. */
    function WorldRectToScreen(r: Rect): (sr: Rect)
      ensures sr.Width() == r.Width() * zoom && sr.Height() == r.Height() * zoom
    {
      Rect(WorldToScreen(r.min), WorldToScreen(r.max))
    }

    /** `screen_vec_to_world`: deltas are only scaled, never panned; the inverse of `world_vec_to_screen`. */
    function ScreenVecToWorld(v: Vec2): (wv: Vec2)
      requires zoom != 0.0
      ensures WorldVecToScreen(wv) == v
    {
      Vec2(v.x / zoom, v.y / zoom)
    }

    /** `world_vec_to_screen`: deltas are only scaled, never panned; under a non-zero zoom only the zero delta maps to zero. */
    function WorldVecToScreen(v: Vec2): (sv: Vec2)
      ensures zoom != 0.0 ==> (sv == Vec2(0.0, 0.0) <==> v == Vec2(0.0, 0.0))
    {
      v.Scale(zoom)
    }
  }

  /** The world point of `pan` is drawn at the screen origin, and the screen origin shows `pan`. */
  lemma PanIsUnderScreenOrigin(t: Transform)
    requires t.zoom != 0.0
    ensures t.WorldToScreen(Pos2(t.pan.x, t.pan.y)) == Origin
    ensures t.ScreenToWorld(Origin) == Pos2(t.pan.x, t.pan.y)
  {
  }

  /** Going to the screen and back returns the same world point. */
  lemma WorldScreenWorld(t: Transform, p: Pos2)
    requires t.zoom != 0.0
    ensures t.ScreenToWorld(t.WorldToScreen(p)) == p
  {
  }

  /** Going to the world and back returns the same screen point. */
  lemma ScreenWorldScreen(t: Transform, s: Pos2)
    requires t.zoom != 0.0
    ensures t.WorldToScreen(t.ScreenToWorld(s)) == s
  {
  }

  /** The two delta conversions are mutual inverses, and neither depends on the pan. */
  lemma VectorConversionsInverse(t: Transform, v: Vec2, otherPan: Vec2)
    requires t.zoom != 0.0
    ensures t.ScreenVecToWorld(t.WorldVecToScreen(v)) == v
    ensures t.WorldVecToScreen(t.ScreenVecToWorld(v)) == v
    ensures t.(pan := otherPan).ScreenVecToWorld(v) == t.ScreenVecToWorld(v)
    ensures t.(pan := otherPan).WorldVecToScreen(v) == t.WorldVecToScreen(v)
  {
  }

  /** Moving a world point by a delta moves its screen image by the converted delta. */
  lemma WorldDeltasFollowPoints(t: Transform, p: Pos2, v: Vec2)
    ensures t.WorldToScreen(p.Translate(v)) == t.WorldToScreen(p).Translate(t.WorldVecToScreen(v))
  {
  }

  /** Moving a screen point by a delta moves its world image by the converted delta. */
  lemma ScreenDeltasFollowPoints(t: Transform, s: Pos2, v: Vec2)
    requires t.zoom != 0.0
    ensures t.ScreenToWorld(s.Translate(v)) == t.ScreenToWorld(s).Translate(t.ScreenVecToWorld(v))
  {
  }

  /**
   * Under a positive zoom a well-formed world rectangle maps to a well-formed
   * screen rectangle whose sides are scaled by the zoom.
   */
  lemma WorldRectToScreenKeepsShape(t: Transform, r: Rect)
    requires t.zoom > 0.0 && r.IsPositive()
    ensures t.WorldRectToScreen(r).IsPositive()
    ensures t.WorldRectToScreen(r).Width() == r.Width() * t.zoom
    ensures t.WorldRectToScreen(r).Height() == r.Height() * t.zoom
  {
  }
}
