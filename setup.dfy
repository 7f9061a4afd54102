/** The two collectors of the detection setup (detection/setup.py): the
    board's four corners, and the food colour with an optional number of
    clicks. The command loop around them, the image, the drawing and the
    window are not modelled; the pixel under a click and the key codes
    waitKey returns are handed in. */
module SetupModel {
  import opened Common
  import opened ColorRange
  import opened SetupInput
  import LimitsMakerModel

  /** BoardLimits: as LimitsMaker, but its confirm compares the key code
      itself, not its low byte, to Enter. */
  class BoardLimits {
    const scale: real
    var limits: seq<Cell>
    var done: bool
    var limitsDrawn: bool

    ghost predicate Valid()
      reads this
    {
      |limits| <= LimitsMakerModel.MAX_LIMITS && scale != 0.0
    }

    constructor (scale: real)
      requires scale != 0.0
      ensures Valid() && this.scale == scale && limits == [] && !done && !limitsDrawn
    {
      this.scale := scale;
      limits := [];
      done := false;
      limitsDrawn := false;
    }

    /** enough_data: the four corners are there. */
    predicate EnoughData()
      reads this
    {
      |limits| == LimitsMakerModel.MAX_LIMITS
    }

    /** compute: the corners as recorded. */
    method Compute() returns (r: seq<Cell>)
      ensures r == limits
    {
      r := limits;
    }

    /** on_mouse: a left-button release records the point while fewer than
        four corners are there; extra clicks are ignored. */
    method OnMouse(event: int, x: int, y: int)
      requires Valid()
      modifies this
      ensures Valid() && done == old(done) && limitsDrawn == old(limitsDrawn)
      ensures limits == if event == EVENT_LBUTTONUP
        then LimitsMakerModel.Collect(old(limits), [(Scaled(x, scale), Scaled(y, scale))]) else old(limits)
    {
      if event == EVENT_LBUTTONUP && !EnoughData() {
        if |limits| < LimitsMakerModel.MAX_LIMITS {
          limits := limits + [(Scaled(x, scale), Scaled(y, scale))];
        }
      }
    }

    /** clear: no corner, nothing drawn, not done. */
    method Clear()
      requires Valid()
      modifies this
      ensures Valid() && limits == [] && !done && !limitsDrawn
    {
      limits := [];
      limitsDrawn := false;
      done := false;
    }

    /** confirm: the key code Enter ends the setup; any other code clears it. */
    method Confirm(key: int)
      requires Valid()
      modifies this
      ensures Valid()
      ensures key == ENTER ==> done && limits == old(limits) && limitsDrawn == old(limitsDrawn)
      ensures key != ENTER ==> limits == [] && !done && !limitsDrawn
    {
      if key == ENTER {
        done := true;
      } else {
        Clear();
      }
    }

    /** draw: once the four corners are there, the outline counts as drawn
        and the key decides between keeping and restarting. */
    method Draw(key: int)
      requires Valid()
      modifies this
      ensures Valid()
      ensures old(EnoughData()) && key == ENTER ==> done && limits == old(limits) && limitsDrawn
      ensures old(EnoughData()) && key != ENTER ==> limits == [] && !done && !limitsDrawn
      ensures !old(EnoughData()) ==> limits == old(limits) && done == old(done) && limitsDrawn == old(limitsDrawn)
    {
      if |limits| == LimitsMakerModel.MAX_LIMITS && !limitsDrawn {
        limitsDrawn := true;
      }
      if EnoughData() {
        Confirm(key);
      }
    }
  }

  /** FoodColor: clicked pixels are recorded until enough are there: with
      max_qt 0 until Enter is pressed, otherwise until there are max_qt. */
  class FoodColor {
    const scale: real
    const maxQt: int
    var colors: seq<Color>
    var done: bool

    /** With a click budget, never more colours than it allows. */
    ghost predicate Valid()
      reads this
    {
      maxQt > 0 ==> |colors| <= maxQt
    }

    constructor (scale: real, maxQt: int)
      ensures Valid() && this.scale == scale && this.maxQt == maxQt && colors == [] && !done
    {
      this.scale := scale;
      this.maxQt := maxQt;
      colors := [];
      done := false;
    }

    /** enough_data, with key the code waitKey(10) returns (read only when
        max_qt is 0): Enter without a budget, the budget reached with one. */
    predicate EnoughData(key: int)
      reads this
    {
      if maxQt == 0 then key == ENTER else |colors| == maxQt
    }

    /** add: the pixel under the click joins the colours. */
    method Add(pixel: Color)
      modifies this
      ensures colors == old(colors) + [pixel] && done == old(done)
    {
      colors := colors + [pixel];
    }

    /** on_mouse: a left-button release adds the pixel unless enough data
        is there; a budget is never exceeded. */
    method OnMouse(event: int, pixel: Color, key: int)
      requires Valid()
      modifies this
      ensures Valid() && done == old(done)
      ensures colors == if event == EVENT_LBUTTONUP && !old(EnoughData(key)) then old(colors) + [pixel] else old(colors)
      ensures event == EVENT_LBUTTONUP && maxQt > 0 ==> colors == Clicked(old(colors), [pixel], maxQt)
    {
      if event == EVENT_LBUTTONUP && !EnoughData(key) {
        Add(pixel);
      }
    }

    /** compute: the colour range of the recorded colours. */
    method Compute() returns (low: Color, high: Color)
      ensures (low, high) == Range(colors)
    {
      low, high := ColorRange.Compute(colors);
    }

    /** clear: no colour, not done. */
    method Clear()
      modifies this
      ensures Valid() && colors == [] && !done
    {
      colors := [];
      done := false;
    }

    /** confirm: the key code Enter ends the setup; any other code clears it. */
    method Confirm(key: int)
      requires Valid()
      modifies this
      ensures Valid()
      ensures key == ENTER ==> done && colors == old(colors)
      ensures key != ENTER ==> colors == [] && !done
    {
      if key == ENTER {
        done := true;
      } else {
        Clear();
      }
    }

    /** draw: when enough data is there (probe is the code waitKey(10)
        returns, read only without a budget), key decides between keeping
        and restarting. */
    method Draw(probe: int, key: int)
      requires Valid()
      modifies this
      ensures Valid()
      ensures old(EnoughData(probe)) && key == ENTER ==> done && colors == old(colors)
      ensures old(EnoughData(probe)) && key != ENTER ==> colors == [] && !done
      ensures !old(EnoughData(probe)) ==> colors == old(colors) && done == old(done)
    {
      if EnoughData(probe) {
        Confirm(key);
      }
    }
  }

  /** With a budget of n clicks, the colours recorded by successive clicks
      from none are the first n clicked pixels. */
  function Clicked(colors: seq<Color>, clicks: seq<Color>, n: nat): seq<Color>
    decreases clicks
  {
    if clicks == [] then colors
    else Clicked(if |colors| != n then colors + [clicks[0]] else colors, clicks[1..], n)
  }

  lemma {:induction false} ClickedSpec(colors: seq<Color>, clicks: seq<Color>, n: nat)
    requires 0 < n && |colors| <= n
    ensures Clicked(colors, clicks, n) == (colors + clicks)[..Min(n, |colors| + |clicks|)]
    decreases clicks
  {
    if clicks != [] {
      var next := if |colors| != n then colors + [clicks[0]] else colors;
      ClickedSpec(next, clicks[1..], n);
      if |colors| != n {
        assert next + clicks[1..] == colors + clicks;
      } else {
        assert (colors + clicks)[..n] == colors;
      }
    }
  }
}
