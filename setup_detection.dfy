/** The board setup of detection/setup_detection.py: four corners, then
    two points on the line that splits the board in halves, each projected
    onto its side of the board. Its FoodColor is the class of
    detection/setup.py (SetupModel.FoodColor). The command loop, the image,
    the drawing and the window are not modelled. */
module SetupDetectionModel {
  import opened Common
  import opened SetupInput
  import LimitsMakerModel

  /** max_middle. */
  const MAX_MIDDLE: nat := 2

  /** The foot of the perpendicular from p onto the line through v1 and v2,
      as project_point computes it before truncation. */
  function Foot(v1: Cell, v2: Cell, p: Cell): (real, real)
    requires v1 != v2
  {
    var e1 := (v2.0 - v1.0, v2.1 - v1.1);
    var e2 := (p.0 - v1.0, p.1 - v1.1);
    var dp := e1.0 * e2.0 + e1.1 * e2.1;
    var dist := e1.0 * e1.0 + e1.1 * e1.1;
    Positive(e1.0, e1.1);
    (v1.0 as real + (dp * e1.0) as real / dist as real,
     v1.1 as real + (dp * e1.1) as real / dist as real)
  }

  /** A non-zero vector has a positive squared length. */
  lemma Positive(a: int, b: int)
    requires a != 0 || b != 0
    ensures a * a + b * b > 0
  {
    if a != 0 {
      assert a * a > 0;
    } else {
      assert b * b > 0;
    }
  }

  /** project_point: the foot, each coordinate truncated by int(). The
      source divides by zero when v1 == v2. */
  function ProjectPoint(v1: Cell, v2: Cell, p: Cell): Cell
    requires v1 != v2
  {
    var f := Foot(v1, v2, p);
    (Trunc(f.0), Trunc(f.1))
  }

  /** The foot is where the perpendicular meets the line: p minus the foot
      is orthogonal to v2 - v1. */
  lemma FootPerpendicular(v1: Cell, v2: Cell, p: Cell)
    requires v1 != v2
    ensures var f := Foot(v1, v2, p);
      (p.0 as real - f.0) * (v2.0 - v1.0) as real + (p.1 as real - f.1) * (v2.1 - v1.1) as real == 0.0
  {
    var e1 := (v2.0 - v1.0, v2.1 - v1.1);
    var e2 := (p.0 - v1.0, p.1 - v1.1);
    var dp := e1.0 * e2.0 + e1.1 * e2.1;
    var dist := e1.0 * e1.0 + e1.1 * e1.1;
    Positive(e1.0, e1.1);
    var x, y := e1.0 as real, e1.1 as real;
    var d, q := dist as real, dp as real;
    var t := q / d;
    assert (dp * e1.0) as real / d == t * x;
    assert (dp * e1.1) as real / d == t * y;
    calc {
      (e2.0 as real - t * x) * x + (e2.1 as real - t * y) * y;
      (e2.0 as real * x + e2.1 as real * y) - t * (x * x + y * y);
      q - t * d;
      0.0;
    }
  }

  /** The foot lies on the line through v1 and v2: its offset from v1 is
      parallel to v2 - v1. */
  lemma FootCollinear(v1: Cell, v2: Cell, p: Cell)
    requires v1 != v2
    ensures var f := Foot(v1, v2, p);
      (f.0 - v1.0 as real) * (v2.1 - v1.1) as real == (f.1 - v1.1 as real) * (v2.0 - v1.0) as real
  {
    var e1 := (v2.0 - v1.0, v2.1 - v1.1);
    var e2 := (p.0 - v1.0, p.1 - v1.1);
    var dp := e1.0 * e2.0 + e1.1 * e2.1;
    var dist := e1.0 * e1.0 + e1.1 * e1.1;
    Positive(e1.0, e1.1);
    var x, y := e1.0 as real, e1.1 as real;
    var t := dp as real / dist as real;
    assert (dp * e1.0) as real / dist as real == t * x;
    assert (dp * e1.1) as real / dist as real == t * y;
    assert (t * x) * y == (t * y) * x;
  }

  /** p lies on the line through v1 and v2. */
  predicate Collinear(v1: Cell, v2: Cell, p: Cell)
  {
    (v2.0 - v1.0) * (p.1 - v1.1) == (v2.1 - v1.1) * (p.0 - v1.0)
  }

  /** An exact integer quotient survives true division. */
  lemma ExactDivision(a: int, b: int, d: int)
    requires d > 0 && a == b * d
    ensures a as real / d as real == b as real
  {
    assert a as real == b as real * d as real;
  }

  /** For (c, d) parallel to (a, b), the dot product times each component of
      (a, b) is the matching component of (c, d) times the squared length. */
  lemma ParallelDot(a: int, b: int, c: int, d: int)
    requires a * d == b * c
    ensures (a * c + b * d) * a == c * (a * a + b * b)
    ensures (a * c + b * d) * b == d * (a * a + b * b)
  {
    calc {
      (a * c + b * d) * a;
      (a * a) * c + b * (a * d);
      (a * a) * c + b * (b * c);
      c * (a * a + b * b);
    }
    calc {
      (a * c + b * d) * b;
      a * (b * c) + (b * b) * d;
      a * (a * d) + (b * b) * d;
      d * (a * a + b * b);
    }
  }

  /** The foot of a point of the line is that point. */
  lemma FootOnLine(v1: Cell, v2: Cell, p: Cell)
    requires v1 != v2 && Collinear(v1, v2, p)
    ensures Foot(v1, v2, p) == (p.0 as real, p.1 as real)
  {
    var a, b := v2.0 - v1.0, v2.1 - v1.1;
    var c, d := p.0 - v1.0, p.1 - v1.1;
    var dist := a * a + b * b;
    Positive(a, b);
    ParallelDot(a, b, c, d);
    ExactDivision((a * c + b * d) * a, c, dist);
    ExactDivision((a * c + b * d) * b, d, dist);
  }

  /** A point of the line through v1 and v2 projects onto itself. */
  lemma ProjectOnLine(v1: Cell, v2: Cell, p: Cell)
    requires v1 != v2 && Collinear(v1, v2, p)
    ensures ProjectPoint(v1, v2, p) == p
  {
    FootOnLine(v1, v2, p);
    assert Trunc(p.0 as real) == p.0 && Trunc(p.1 as real) == p.1;
  }

  /** Each end of a side projects onto itself. */
  lemma ProjectEnds(v1: Cell, v2: Cell)
    requires v1 != v2
    ensures ProjectPoint(v1, v2, v1) == v1 && ProjectPoint(v1, v2, v2) == v2
  {
    ProjectOnLine(v1, v2, v1);
    ProjectOnLine(v1, v2, v2);
  }

  class BoardLimits {
    const scale: real
    var limits: seq<Cell>
    var middle: seq<Cell>
    var adjustedMiddle: seq<Cell>
    var done: bool
    var limitsDrawn: bool
    var middleDrawn: bool

    /** At most four corners and two middle points, the middle points only
        once the corners are all there; the image scale is not 0. */
    ghost predicate Valid()
      reads this
    {
      |limits| <= LimitsMakerModel.MAX_LIMITS && |middle| <= MAX_MIDDLE &&
      (middle != [] ==> |limits| == LimitsMakerModel.MAX_LIMITS) && scale != 0.0
    }

    constructor (scale: real)
      requires scale != 0.0
      ensures Valid() && this.scale == scale && limits == [] && middle == [] && adjustedMiddle == []
      ensures !done && !limitsDrawn && !middleDrawn
    {
      this.scale := scale;
      limits, middle, adjustedMiddle := [], [], [];
      done, limitsDrawn, middleDrawn := false, false, false;
    }

    /** enough_data: four corners and two middle points. */
    predicate EnoughData()
      reads this
    {
      |limits| == LimitsMakerModel.MAX_LIMITS && |middle| == MAX_MIDDLE
    }

    /** compute: the corners and the middle points as recorded. */
    method Compute() returns (r: (seq<Cell>, seq<Cell>))
      ensures r == (limits, middle)
    {
      r := (limits, middle);
    }

    /** on_mouse: a left-button release, while data is missing, records the
        clicked point as a corner while fewer than four are there, and as a
        middle point after that. */
    method OnMouse(event: int, x: int, y: int)
      requires Valid()
      modifies this
      ensures Valid() && adjustedMiddle == old(adjustedMiddle)
      ensures done == old(done) && limitsDrawn == old(limitsDrawn) && middleDrawn == old(middleDrawn)
      ensures var pt := (Scaled(x, scale), Scaled(y, scale));
        if event != EVENT_LBUTTONUP || old(EnoughData()) then limits == old(limits) && middle == old(middle)
        else if |old(limits)| < LimitsMakerModel.MAX_LIMITS then limits == old(limits) + [pt] && middle == old(middle)
        else limits == old(limits) && middle == old(middle) + [pt]
    {
      if event == EVENT_LBUTTONUP && !EnoughData() {
        var pt := (Scaled(x, scale), Scaled(y, scale));
        if |limits| < LimitsMakerModel.MAX_LIMITS {
          limits := limits + [pt];
        } else {
          middle := middle + [pt];
        }
      }
    }

    /** clear: no corner, no middle point, no projection, nothing drawn,
        not done. */
    method Clear()
      requires Valid()
      modifies this
      ensures Valid() && limits == [] && middle == [] && adjustedMiddle == []
      ensures !done && !limitsDrawn && !middleDrawn
    {
      limits := [];
      limitsDrawn := false;
      middle := [];
      middleDrawn := false;
      adjustedMiddle := [];
      done := false;
    }

    /** confirm: the key code Enter ends the setup; any other code clears it. */
    method Confirm(key: int)
      requires Valid()
      modifies this
      ensures Valid()
      ensures key == ENTER ==> done && limits == old(limits) && middle == old(middle) && adjustedMiddle == old(adjustedMiddle)
      ensures key != ENTER ==> limits == [] && middle == [] && adjustedMiddle == [] && !done
    {
      if key == ENTER {
        done := true;
      } else {
        Clear();
      }
    }

    /** draw: once the two middle points are there (and not yet drawn), the
        first is projected onto the side from the first to the last corner
        and the second onto the side from the second to the third corner;
        then, with enough data, the setup is confirmed with key. The
        projections divide by zero when a side's two corners coincide. */
    method Draw(key: int)
      requires Valid()
      requires |middle| == MAX_MIDDLE && !middleDrawn ==> limits[0] != limits[3] && limits[1] != limits[2]
      modifies this
      ensures Valid()
      ensures old(|middle| == MAX_MIDDLE && !middleDrawn) && key == ENTER ==>
        adjustedMiddle == old(adjustedMiddle + [ProjectPoint(limits[0], limits[3], middle[0]), ProjectPoint(limits[1], limits[2], middle[1])])
      ensures old(EnoughData()) && key == ENTER ==> done && limits == old(limits) && middle == old(middle)
      ensures old(EnoughData()) && key != ENTER ==> limits == [] && middle == [] && adjustedMiddle == [] && !done
      ensures !old(EnoughData()) ==> limits == old(limits) && middle == old(middle) && adjustedMiddle == old(adjustedMiddle) && done == old(done)
    {
      if |limits| == LimitsMakerModel.MAX_LIMITS && !limitsDrawn {
        limitsDrawn := true;
      }
      if |middle| == MAX_MIDDLE && !middleDrawn {
        adjustedMiddle := adjustedMiddle + [ProjectPoint(limits[0], limits[|limits| - 1], middle[0])];
        adjustedMiddle := adjustedMiddle + [ProjectPoint(limits[1], limits[2], middle[1])];
        middleDrawn := true;
      }
      if EnoughData() {
        Confirm(key);
      }
    }
  }
}
