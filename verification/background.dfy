/**
  The panning background (`function Background()` and its `draw`).

  Each draw moves the image `speed` pixels to the left and, once the first copy
  has scrolled a full canvas width off the left edge, puts it back at 0. A second
  copy drawn one canvas width to the right covers the gap; the drawing itself is
  not modelled. Positions are integers: the background starts at 0, pans by 1 and
  the canvas width is a whole number of pixels, so every value is exact.
*/
module BackgroundPan {

  datatype Background = Background(x: int, y: int, speed: int, canvasWidth: int)

  /** `new Background()` (speed 1) with `init(0, 0)`, on a canvas `canvasWidth` wide. */
  function Start(canvasWidth: int): (bg: Background)
    ensures bg.x == 0 && bg.y == 0 && bg.speed == 1 && bg.canvasWidth == canvasWidth
    ensures InWindow(bg) <==> canvasWidth > 0
  {
    Background(0, 0, 1, canvasWidth)
  }

  /** `draw()`: pan left by `speed`, and reset to 0 once `x <= -canvasWidth`. */
  function Draw(bg: Background): (r: Background)
    ensures r.y == bg.y && r.speed == bg.speed && r.canvasWidth == bg.canvasWidth
  {
    var x := bg.x - bg.speed;
    if x <= -bg.canvasWidth then bg.(x := 0) else bg.(x := x)
  }

  /** The background after `n` frames. */
  function Pan(bg: Background, n: nat): (r: Background)
  {
    if n == 0 then bg else Draw(Pan(bg, n - 1))
  }

  /** The first copy covers the left edge of the canvas. */
  ghost predicate InWindow(bg: Background)
  {
    -bg.canvasWidth < bg.x <= 0
  }

  /** Panning left never moves the image out of `(-canvasWidth, 0]`. */
  lemma DrawStaysInWindow(bg: Background)
    requires InWindow(bg) && bg.speed >= 0
    ensures InWindow(Draw(bg))
  {
  }

  /** Panning `m + n` frames is panning `m` frames, then `n`. */
  lemma {:induction false} PanAdd(bg: Background, m: nat, n: nat)
    ensures Pan(bg, m + n) == Pan(Pan(bg, m), n)
  {
    if n > 0 {
      PanAdd(bg, m, n - 1);
    }
  }

  /** From the start position the image moves one pixel left per frame for the
      first `W - 1` frames and is back at 0 on frame `W`, not before. */
  lemma {:induction false} PanFirstLap(canvasWidth: int, n: nat)
    requires canvasWidth > 0 && n <= canvasWidth
    ensures Pan(Start(canvasWidth), n) == Start(canvasWidth).(x := if n == canvasWidth then 0 else -(n as int))
  {
    if n > 0 {
      PanFirstLap(canvasWidth, n - 1);
    }
  }

  /** Starting from 0 with speed 1 the image stays in `(-W, 0]` forever and the
      motion repeats with period `W`. */
  lemma {:induction false} PanWraps(canvasWidth: int, n: nat)
    requires canvasWidth > 0
    ensures InWindow(Pan(Start(canvasWidth), n))
    ensures Pan(Start(canvasWidth), n + canvasWidth) == Pan(Start(canvasWidth), n)
  {
    var w := canvasWidth;
    PanFirstLap(w, w);
    PanAdd(Start(w), w, n);
    assert n + w == w + n;
    if n < w {
      PanFirstLap(w, n);
    } else {
      PanWraps(w, n - w);
      assert n - w + w == n;
    }
  }
}
