/** The grid a placed wall snaps to: `Math.round(p / 2) * 2` on each ground coordinate. */
module Grid {

  /** `Math.round`: the nearest integer, a half rounded up towards +infinity. */
  function Round(v: real): (n: int)
    ensures n as real - 0.5 <= v < n as real + 0.5
  {
    (v + 0.5).Floor
  }

  /** The snapped coordinate of a hit point: an even integer within one unit of it. */
  function Snap(v: real): (g: int)
    ensures g % 2 == 0
    ensures g as real - 1.0 <= v < g as real + 1.0
  {
    Round(v / 2.0) * 2
  }

  function Distance(g: int, v: real): real {
    if g as real >= v then g as real - v else v - g as real
  }

  /** No even grid line is closer to the hit point than the one it snaps to. */
  lemma SnapIsNearestEven(v: real, e: int)
    requires e % 2 == 0
    ensures Distance(Snap(v), v) <= Distance(e, v)
  {
    var g := Snap(v);
    if e != g {
      assert e <= g - 2 || e >= g + 2;
    }
  }

  /** A point already on an even grid line stays where it is. */
  lemma SnapKeepsGridPoints(e: int)
    requires e % 2 == 0
    ensures Snap(e as real) == e
  {
  }
}
