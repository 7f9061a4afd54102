/** The board-limits setup (detection/limits_maker.py): the first four
    clicks on the image are recorded as the board's corners; once there are
    four, confirming with Enter ends the setup and any other key starts it
    over. The image, the markers and lines drawn on it and the window are
    not modelled. */
module LimitsMakerModel {
  import opened Common
  import opened SetupInput

  /** max_limits. */
  const MAX_LIMITS: nat := 4

  /** The points successive clicks leave, from points: each click is
      recorded while fewer than MAX_LIMITS are. */
  function Collect(points: seq<Cell>, clicks: seq<Cell>): seq<Cell>
    decreases clicks
  {
    if clicks == [] then points
    else Collect(if |points| < MAX_LIMITS then points + [clicks[0]] else points, clicks[1..])
  }

  /** Clicks fill the corners in order and stop at MAX_LIMITS: from at most
      MAX_LIMITS points, the clicks add the first of them that fit. */
  lemma {:induction false} CollectSpec(points: seq<Cell>, clicks: seq<Cell>)
    requires |points| <= MAX_LIMITS
    ensures Collect(points, clicks) == (points + clicks)[..Min(MAX_LIMITS, |points| + |clicks|)]
    decreases clicks
  {
    if clicks != [] {
      var next := if |points| < MAX_LIMITS then points + [clicks[0]] else points;
      CollectSpec(next, clicks[1..]);
      if |points| < MAX_LIMITS {
        assert next + clicks[1..] == points + clicks;
      } else {
        assert (points + clicks)[..MAX_LIMITS] == points;
      }
    }
  }

  class LimitsMaker {
    const scale: real
    var limits: seq<Cell>
    var done: bool
    var limitsDrawn: bool

    /** Never more than MAX_LIMITS corners; the image scale is not 0. */
    ghost predicate Valid()
      reads this
    {
      |limits| <= MAX_LIMITS && scale != 0.0
    }

    constructor (scale: real)
      requires scale != 0.0
      ensures Valid() && this.scale == scale && limits == [] && !done && !limitsDrawn
    {
      this.scale := scale;
      limits := [];
      done := false;
      limitsDrawn := false;
    }

    /** enough_data: the four corners are there. */
    predicate EnoughData()
      reads this
    {
      |limits| == MAX_LIMITS
    }

    /** compute: the corners as recorded. */
    method Compute() returns (r: seq<Cell>)
      ensures r == limits
    {
      r := limits;
    }

    /** on_mouse: a left-button release, while the corners are not all
        there, records the clicked point taken back to image coordinates. */
    method OnMouse(event: int, x: int, y: int)
      requires Valid()
      modifies this
      ensures Valid() && done == old(done) && limitsDrawn == old(limitsDrawn)
      ensures limits == if event == EVENT_LBUTTONUP then Collect(old(limits), [(Scaled(x, scale), Scaled(y, scale))]) else old(limits)
    {
      if event == EVENT_LBUTTONUP && !EnoughData() {
        if |limits| < MAX_LIMITS {
          limits := limits + [(Scaled(x, scale), Scaled(y, scale))];
        }
      }
    }

    /** clear: no corner, nothing drawn, not done. */
    method Clear()
      requires Valid()
      modifies this
      ensures Valid() && limits == [] && !done && !limitsDrawn
    {
      limits := [];
      limitsDrawn := false;
      done := false;
    }

    /** confirm, with key the code waitKey returned: Enter ends the setup;
        any other key clears it. */
    method Confirm(key: int)
      requires Valid()
      modifies this
      ensures Valid()
      ensures KeyByte(key) == ENTER ==> done && limits == old(limits) && limitsDrawn == old(limitsDrawn)
      ensures KeyByte(key) != ENTER ==> limits == [] && !done && !limitsDrawn
    {
      if key % 256 == ENTER {
        done := true;
      } else {
        Clear();
      }
    }

    /** draw: the outline is drawn once when the four corners are there,
        and then the setup is confirmed with key. */
    method Draw(key: int)
      requires Valid()
      modifies this
      ensures Valid()
      ensures old(EnoughData()) && KeyByte(key) == ENTER ==> done && limits == old(limits) && limitsDrawn
      ensures old(EnoughData()) && KeyByte(key) != ENTER ==> limits == [] && !done && !limitsDrawn
      ensures !old(EnoughData()) ==> limits == old(limits) && done == old(done) && limitsDrawn == old(limitsDrawn)
    {
      if |limits| == MAX_LIMITS && !limitsDrawn {
        limitsDrawn := true;
      }
      if EnoughData() {
        Confirm(key);
      }
    }
  }
}
