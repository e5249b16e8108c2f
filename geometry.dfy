/**
 * The parts of egui's `Pos2`, `Vec2` and `Rect` that the diagram engine uses.
 * Coordinates are reals, so no f32 rounding is modelled.
 */
module Geometry {

  /** A displacement (egui `Vec2`). */
  datatype Vec2 = Vec2(x: real, y: real) {

    function Plus(v: Vec2): Vec2 {
      Vec2(x + v.x, y + v.y)
    }

    function Scale(k: real): Vec2 {
      Vec2(x * k, y * k)
    }
  }

  /** A position (egui `Pos2`). */
  datatype Pos2 = Pos2(x: real, y: real) {

    /** `pos + vec`. */
    function Translate(v: Vec2): Pos2 {
      Pos2(x + v.x, y + v.y)
    }

    /** `pos - other`, a displacement. */
    function Minus(q: Pos2): Vec2 {
      Vec2(x - q.x, y - q.y)
    }

    /** `Pos2::distance_sq`. */
    function DistanceSq(q: Pos2): real {
      (x - q.x) * (x - q.x) + (y - q.y) * (y - q.y)
    }
  }

  /** `Pos2::default()` and `Pos2::ZERO`. */
  const Origin := Pos2(0.0, 0.0)

  /** `a + (b - a) * t`, the point at parameter `t` on the line through `a` and `b`. */
  function Lerp(a: Pos2, b: Pos2, t: real): Pos2 {
    Pos2(a.x + (b.x - a.x) * t, a.y + (b.y - a.y) * t)
  }

  /** An axis-aligned rectangle given by its two corners (egui `Rect`); y grows downwards. */
  datatype Rect = Rect(min: Pos2, max: Pos2) {

    function Left(): real { min.x }
    function Right(): real { max.x }
    function Top(): real { min.y }
    function Bottom(): real { max.y }
    function Width(): real { max.x - min.x }
    function Height(): real { max.y - min.y }

    function Center(): Pos2 {
      Pos2((min.x + max.x) / 2.0, (min.y + max.y) / 2.0)
    }

    /** `Rect::contains`: both bounds are inclusive. */
    predicate Contains(p: Pos2) {
      min.x <= p.x <= max.x && min.y <= p.y <= max.y
    }

    /** `Rect::translate`. */
    function Translate(v: Vec2): Rect {
      Rect(min.Translate(v), max.Translate(v))
    }

    /** Neither side length is negative. */
    predicate IsPositive() {
      min.x <= max.x && min.y <= max.y
    }
  }

  /** `Rect::from_min_size`. */
  function FromMinSize(pos: Pos2, size: Vec2): Rect {
    Rect(pos, pos.Translate(size))
  }
}
