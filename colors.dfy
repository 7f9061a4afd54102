/** The colour range the detection setup derives from clicked pixels
    (compute in detection/food_colors.py, and its copies in
    detection/setup.py and detection/setup_detection.py): the lowest and
    the highest value of each channel over the recorded colours. */
module ColorRange {
  /** A channel value of an 8-bit image. */
  type Channel = c: int | 0 <= c < 256

  /** A pixel of the image: its three channels, in the image's order. */
  type Color = s: seq<Channel> | |s| == 3 witness [0, 0, 0]

  /** The lowest value of channel i over colors, starting from 255. */
  function Lowest(colors: seq<Color>, i: nat): Channel
    requires i < 3
  {
    if colors == [] then 255
    else
      var m := Lowest(colors[..|colors| - 1], i);
      var c := colors[|colors| - 1][i];
      if c < m then c else m
  }

  /** The highest value of channel i over colors, starting from 0. */
  function Highest(colors: seq<Color>, i: nat): Channel
    requires i < 3
  {
    if colors == [] then 0
    else
      var m := Highest(colors[..|colors| - 1], i);
      var c := colors[|colors| - 1][i];
      if c > m then c else m
  }

  /** compute: with no colour, the inverted range ((0, 0, 0), (255, 255,
      255)); otherwise the per-channel lowest and highest values. */
  function Range(colors: seq<Color>): (Color, Color)
  {
    if colors == [] then ([0, 0, 0], [255, 255, 255])
    else ([Lowest(colors, 0), Lowest(colors, 1), Lowest(colors, 2)],
          [Highest(colors, 0), Highest(colors, 1), Highest(colors, 2)])
  }

  /** Lowest is a lower bound of the channel that some colour reaches, and
      Highest an upper bound that some colour reaches. */
  lemma {:induction false} ExtremesSpec(colors: seq<Color>, i: nat)
    requires i < 3
    ensures forall c :: c in colors ==> Lowest(colors, i) <= c[i] <= Highest(colors, i)
    ensures colors != [] ==> exists c :: c in colors && c[i] == Lowest(colors, i)
    ensures colors != [] ==> exists c :: c in colors && c[i] == Highest(colors, i)
  {
    if colors != [] {
      var init := colors[..|colors| - 1];
      var last := colors[|colors| - 1];
      ExtremesSpec(init, i);
      assert colors == init + [last];
      assert last in colors;
      if init != [] {
        var lo :| lo in init && lo[i] == Lowest(init, i);
        var hi :| hi in init && hi[i] == Highest(init, i);
        assert lo in colors && hi in colors;
      }
    }
  }

  /** Every recorded colour lies channel by channel between the two ends of
      the range, and each end is reached by some colour; with no colour the
      range is the inverted one. */
  lemma RangeSpec(colors: seq<Color>)
    ensures colors == [] ==> Range(colors) == ([0, 0, 0], [255, 255, 255])
    ensures forall c, i :: c in colors && 0 <= i < 3 ==> Range(colors).0[i] <= c[i] <= Range(colors).1[i]
    ensures colors != [] ==> forall i :: 0 <= i < 3 ==>
      (exists c :: c in colors && c[i] == Range(colors).0[i]) &&
      (exists c :: c in colors && c[i] == Range(colors).1[i])
  {
    ExtremesSpec(colors, 0);
    ExtremesSpec(colors, 1);
    ExtremesSpec(colors, 2);
  }

  /** compute: start from (255, 255, 255) and (0, 0, 0), return them swapped
      when there is no colour, else lower and raise them channel by channel
      over every colour. */
  method Compute(colors: seq<Color>) returns (low: Color, high: Color)
    ensures (low, high) == Range(colors)
  {
    low, high := [255, 255, 255], [0, 0, 0];
    if |colors| == 0 {
      return high, low;
    }
    var k := 0;
    while k < |colors|
      invariant 0 <= k <= |colors|
      invariant forall i :: 0 <= i < 3 ==> low[i] == Lowest(colors[..k], i) && high[i] == Highest(colors[..k], i)
    {
      assert colors[..k + 1][..k] == colors[..k];
      var color := colors[k];
      var i := 0;
      while i < 3
        invariant 0 <= i <= 3
        invariant forall j :: 0 <= j < i ==> low[j] == Lowest(colors[..k + 1], j) && high[j] == Highest(colors[..k + 1], j)
        invariant forall j :: i <= j < 3 ==> low[j] == Lowest(colors[..k], j) && high[j] == Highest(colors[..k], j)
      {
        var c := color[i];
        if c < low[i] {
          low := low[i := c];
        }
        if c > high[i] {
          high := high[i := c];
        }
        i := i + 1;
      }
      k := k + 1;
    }
    assert colors[..k] == colors;
    assert low == [low[0], low[1], low[2]] && high == [high[0], high[1], high[2]];
  }
}

/** The mouse and keyboard input the setup classes react to. */
module SetupInput {
  import opened Common

  /** OpenCV's code for the release of the left mouse button. */
  const EVENT_LBUTTONUP: int := 4
  const ENTER: int := 13
  const BACKSPACE: int := 8

  /** key & 0xFF on a key code (-1 when no key was pressed). */
  function KeyByte(key: int): (b: int)
    ensures 0 <= b < 256 && (0 <= key < 256 ==> b == key)
    ensures key == -1 ==> b == 255
  {
    key % 256
  }

  /** int(v / scale): a window coordinate taken back to the image. */
  function Scaled(v: int, scale: real): int
    requires scale != 0.0
  {
    Trunc(v as real / scale)
  }
}
