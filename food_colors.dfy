/** The food colour setup (detection/food_colors.py): clicked pixels are
    recorded, Enter ends the setup, Backspace takes back the last pixel.
    The image, its copy with the selection painted red and the window are
    not modelled; the pixel under a click is handed in. */
module FoodColorsModel {
  import opened ColorRange
  import opened SetupInput

  /** The list a Backspace leaves: all but the last colour. */
  function Backspaced(colors: seq<Color>): (r: seq<Color>)
    requires colors != []
    ensures |r| == |colors| - 1 && colors == r + [colors[|colors| - 1]]
  {
    colors[..|colors| - 1]
  }

  /** A Backspace takes back exactly the colour last added. */
  lemma BackspaceUndoesAdd(colors: seq<Color>, c: Color)
    ensures Backspaced(colors + [c]) == colors
  {
    var r := Backspaced(colors + [c]);
    assert r + [c] == colors + [c];
    assert r == (r + [c])[..|r|];
  }

  /** The setup's output entries: the colour range as integer triples. */
  datatype FoodColorEntries = FoodColorEntries(lowFoodColor: seq<int>, highFoodColor: seq<int>)

  class FoodColors {
    var colors: seq<Color>
    var done: bool

    constructor ()
      ensures colors == [] && !done
    {
      colors := [];
      done := false;
    }

    /** add: the pixel under the click joins the colours. */
    method Add(pixel: Color)
      modifies this
      ensures colors == old(colors) + [pixel] && done == old(done)
    {
      colors := colors + [pixel];
    }

    /** compute: the colour range of the recorded colours. */
    method Compute() returns (low: Color, high: Color)
      ensures (low, high) == Range(colors)
    {
      low, high := ColorRange.Compute(colors);
    }

    /** toJSON: the range, each channel as an integer; every recorded colour
        lies between its two ends. */
    method ToJSON() returns (entries: FoodColorEntries)
      ensures entries == FoodColorEntries(Range(colors).0, Range(colors).1)
      ensures forall c, i :: c in colors && 0 <= i < 3 ==>
        entries.lowFoodColor[i] <= c[i] <= entries.highFoodColor[i]
    {
      var low, high := Compute();
      RangeSpec(colors);
      entries := FoodColorEntries(low, high);
    }

    /** clear: no colour, not done. */
    method Clear()
      modifies this
      ensures colors == [] && !done
    {
      colors := [];
      done := false;
    }

    /** on_mouse: a left-button release adds the pixel; any other event is ignored. */
    method OnMouse(event: int, pixel: Color)
      modifies this
      ensures colors == (if event == EVENT_LBUTTONUP then old(colors) + [pixel] else old(colors))
      ensures done == old(done)
    {
      if event == EVENT_LBUTTONUP {
        Add(pixel);
      }
    }

    /** confirm, with key the code waitKey returned: Enter ends the setup;
        otherwise Backspace removes the last colour when there is one;
        anything else changes nothing. */
    method Confirm(key: int)
      modifies this
      ensures KeyByte(key) == ENTER ==> done && colors == old(colors)
      ensures KeyByte(key) != ENTER && KeyByte(key) == BACKSPACE && old(colors) != [] ==>
        colors == Backspaced(old(colors)) && done == old(done)
      ensures KeyByte(key) != ENTER && (KeyByte(key) != BACKSPACE || old(colors) == []) ==>
        colors == old(colors) && done == old(done)
    {
      var k := key % 256;
      if k == ENTER {
        done := true;
      } else if |colors| > 0 && k == BACKSPACE {
        colors := colors[..|colors| - 1];
      }
    }
  }
}
