/**
 * Sprites and sprite-sheet animation (graphics.h, graphics.cc).
 *
 * A sprite sheet is an image cut into equal cells: a row `n` selects an
 * animation and a column `m` selects a frame of it. `PIXL_Animation` maps the
 * time elapsed since `play` to a column, wrapping around when it loops and
 * stopping on the last column when it does not, and draws the selected cell
 * as one axis-aligned quad. Texture upload, the GL calls and the floating
 * point texture coordinates are not modelled; the cell `(m, n)` they are
 * computed from is.
 */
module Graphics {
  import opened Ticks

  datatype Point = Point(x: int, y: int)

  /** The four corners handed to `GL_QUADS`, in the order they are emitted. */
  datatype Quad = Quad(p0: Point, p1: Point, p2: Point, p3: Point)

  function Cross(a: Point, b: Point): int {
    a.x * b.y - b.x * a.y
  }

  /** Twice the signed area enclosed by the corners taken in emission order
      (the shoelace formula); its sign is the winding of the quad. */
  function TwiceSignedArea(q: Quad): int {
    Cross(q.p0, q.p1) + Cross(q.p1, q.p2) + Cross(q.p2, q.p3) + Cross(q.p3, q.p0)
  }

  /** The quad a sprite or an animation frame is drawn as: anchored with its
      first corner at `(x, y)`, `w` wide and `h` high, every edge parallel to
      an axis, the corner opposite the anchor emitted third. */
  function QuadAt(x: int, y: int, w: nat, h: nat): (q: Quad)
    ensures q.p0 == Point(x, y)
    ensures q.p2 == Point(x + w, y + h)
    ensures q.p0.x == q.p1.x && q.p1.y == q.p2.y && q.p2.x == q.p3.x && q.p3.y == q.p0.y
  {
    Quad(Point(x, y), Point(x, y + h), Point(x + w, y + h), Point(x + w, y))
  }

  /** Every quad is emitted with the same winding and encloses exactly `w * h`. */
  lemma QuadWinding(x: int, y: int, w: nat, h: nat)
    ensures TwiceSignedArea(QuadAt(x, y, w, h)) == -2 * (w * h)
  {
  }

  /** `PIXL_Sprite`: a whole image drawn as one quad. */
  class Sprite {
    const imageW: nat
    const imageH: nat

    /** The image loader is outside the model: its width and height are
        parameters. */
    constructor (imageW: nat, imageH: nat)
      ensures this.imageW == imageW && this.imageH == imageH
    {
      this.imageW := imageW;
      this.imageH := imageH;
    }

    /** The quad covers the image at `(x, y)` at its own size. */
    method Draw(x: int, y: int) returns (q: Quad)
      ensures q == QuadAt(x, y, imageW, imageH)
    {
      q := Quad(Point(x + 0, y + 0), Point(x + 0, y + imageH),
                Point(x + imageW, y + imageH), Point(x + imageW, y + 0));
    }
  }

  /** `image->w / (int)sprite_w`: how many whole cells fit across the sheet. */
  function FrameCount(imageW: nat, spriteW: nat): (c: nat)
    requires 0 < spriteW <= imageW
    ensures 1 <= c
    ensures c * spriteW <= imageW < (c + 1) * spriteW
  {
    imageW / spriteW
  }

  /** What one draw of a playing animation decides: the column to show and
      whether the animation is still playing afterwards. */
  datatype Advance = Advance(column: nat, playing: bool)

  /** The frame selection of `PIXL_Animation::draw` for a playing animation,
      `elapsed` ticks after `play`: `elapsed / speed` frames have passed; a
      looping animation wraps around the `frames` columns, one that does not
      loop stops on the last column once it has run past it. */
  function SelectFrame(elapsed: nat, speed: nat, frames: nat, loop: bool): (a: Advance)
    requires 0 < speed && 0 < frames
    ensures a.column < frames
    ensures loop ==> a.playing
    ensures !a.playing ==> a.column == frames - 1
  {
    var raw := elapsed / speed;
    if loop then Advance(raw % frames, true)
    else if raw >= frames then Advance(frames - 1, false)
    else Advance(raw, true)
  }

  /** One more multiple of `s`. */
  lemma MulSucc(a: nat, s: nat)
    ensures (a + 1) * s == a * s + s
  {
  }

  /** Multiples of `s` grow by at least `s` per step. */
  lemma {:induction false} MulGap(a: nat, b: nat, s: nat)
    requires a < b
    ensures a * s + s <= b * s
    decreases b - a
  {
    MulSucc(a, s);
    if a + 1 < b {
      MulGap(a + 1, b, s);
    }
  }

  /** Division by `s` of a number written as `q * s + r` with `r < s`. */
  lemma DivOfSum(q: nat, s: nat, r: nat)
    requires r < s
    ensures (q * s + r) / s == q && (q * s + r) % s == r
  {
    var a := q * s + r;
    var q', r' := a / s, a % s;
    assert a == q' * s + r';
    if q' < q {
      MulGap(q', q, s);
    } else if q < q' {
      MulGap(q, q', s);
    }
  }

  /** Euclidean division of `a` by `s`. */
  lemma DivMod(a: nat, s: nat)
    requires 0 < s
    ensures a == (a / s) * s + a % s && a % s < s
  {
  }

  /** `k * s` more ticks means exactly `k` more frames have passed. */
  lemma RawShift(e: nat, s: nat, k: nat)
    requires 0 < s
    ensures (e + k * s) / s == e / s + k
  {
    var q, r := e / s, e % s;
    DivMod(e, s);
    assert (q + k) * s == q * s + k * s;
    DivOfSum(q + k, s, r);
  }

  /** Counting one further wraps the remainder around `f`. */
  lemma ModSucc(a: nat, f: nat)
    requires 0 < f
    ensures (a + 1) % f == (a % f + 1) % f
  {
    var q, r := a / f, a % f;
    DivMod(a, f);
    if r + 1 < f {
      DivOfSum(q, f, r + 1);
    } else {
      MulSucc(q, f);
      DivOfSum(q + 1, f, 0);
    }
  }

  /** A looping animation advances exactly one column (cyclically) every
      `speed` ticks. */
  lemma LoopStepsOneFrame(e: nat, speed: nat, frames: nat)
    requires 0 < speed && 0 < frames
    ensures SelectFrame(e + speed, speed, frames, true).column
         == (SelectFrame(e, speed, frames, true).column + 1) % frames
  {
    RawShift(e, speed, 1);
    assert (e + speed) / speed == e / speed + 1;
    ModSucc(e / speed, frames);
  }

  /** A looping animation repeats itself every `speed * frames` ticks. */
  lemma LoopPeriodic(e: nat, speed: nat, frames: nat)
    requires 0 < speed && 0 < frames
    ensures SelectFrame(e + speed * frames, speed, frames, true)
         == SelectFrame(e, speed, frames, true)
  {
    var raw := e / speed;
    RawShift(e, speed, frames);
    assert frames * speed == speed * frames;
    var q, r := raw / frames, raw % frames;
    DivMod(raw, frames);
    MulSucc(q, frames);
    DivOfSum(q + 1, frames, r);
  }

  /** `e / s < f` exactly when `e < s * f`. */
  lemma RawBelow(e: nat, s: nat, f: nat)
    requires 0 < s
    ensures e / s < f <==> e < s * f
  {
    var q, r := e / s, e % s;
    DivMod(e, s);
    assert s * f == f * s;
    if q < f {
      MulGap(q, f, s);
    } else if f < q {
      MulGap(f, q, s);
    }
  }

  /** A non-looping animation plays for exactly `speed * frames` ticks. */
  lemma OneShotDuration(e: nat, speed: nat, frames: nat)
    requires 0 < speed && 0 < frames
    ensures SelectFrame(e, speed, frames, false).playing <==> e < speed * frames
  {
    RawBelow(e, speed, frames);
  }

  /** Later in a non-looping animation the column never goes back, and once
      it has stopped it stays stopped. */
  lemma OneShotMonotone(e1: nat, e2: nat, speed: nat, frames: nat)
    requires 0 < speed && 0 < frames
    requires e1 <= e2
    ensures SelectFrame(e1, speed, frames, false).column <= SelectFrame(e2, speed, frames, false).column
    ensures SelectFrame(e2, speed, frames, false).playing ==> SelectFrame(e1, speed, frames, false).playing
  {
    var q1, q2 := e1 / speed, e2 / speed;
    DivMod(e1, speed);
    DivMod(e2, speed);
    if q2 < q1 {
      MulGap(q2, q1, speed);
    }
    assert q1 <= q2;
  }

  /** A 92 x 23 sheet of 23 x 23 cells at 100 ms a frame, played once. */
  lemma SheetExample()
    ensures FrameCount(92, 23) == 4
    ensures SelectFrame(250, 100, 4, false) == Advance(2, true)
    ensures SelectFrame(500, 100, 4, false) == Advance(3, false)
  {
  }

  /** `PIXL_Animation`. */
  class Animation {
    const imageW: nat   // width of the loaded sheet
    const imageH: nat   // height of the loaded sheet
    const spriteW: nat  // width of one cell
    const spriteH: nat  // height of one cell
    var m: nat          // frame number, or column
    var n: uint32       // animation number, or row
    var speed: uint32   // duration of each frame in ms
    var startTime: uint32
    var playing: bool
    var loop: bool

    /** The sheet holds at least one whole cell, the frame duration is never
        zero (it is divided by) and the column lies on the sheet. */
    ghost predicate Valid()
      reads this
    {
      0 < spriteW <= imageW && 0 < speed && m < FrameCount(imageW, spriteW)
    }

    /** The image loader is outside the model: the sheet's size is a
        parameter, and so is the clock reading. */
    constructor (imageW: nat, imageH: nat, w: nat, h: nat, s: uint32, now: uint32)
      requires 0 < w <= imageW
      requires s != 0
      ensures Valid()
      ensures this.imageW == imageW && this.imageH == imageH && spriteW == w && spriteH == h
      ensures speed == s && startTime == now
      ensures m == 0 && n == 0 && !playing && !loop
    {
      this.imageW, this.imageH := imageW, imageH;
      spriteW, spriteH := w, h;
      speed := s;
      m := 0;
      n := 0;
      startTime := now;
      playing := false;
      loop := false;
    }

    /** `isPlaying()`. */
    function IsPlaying(): bool
      reads this
    {
      playing
    }

    /** Selects the frame for the clock reading `now` and returns the quad
        the cell `(m, n)` is drawn on. Only a playing animation changes its
        column; a stopped one keeps showing the column it stopped on. */
    method Draw(x: int, y: int, now: uint32) returns (q: Quad)
      requires Valid()
      modifies this`m, this`playing
      ensures Valid()
      ensures old(playing) ==>
        Advance(m, playing) == SelectFrame(Elapsed(now, startTime), speed, FrameCount(imageW, spriteW), loop)
      ensures !old(playing) ==> m == old(m) && !playing
      ensures q == QuadAt(x, y, spriteW, spriteH)
    {
      if playing {
        var frames := imageW / spriteW;
        if loop {
          m := (Elapsed(now, startTime) / speed) % frames;
        } else {
          m := Elapsed(now, startTime) / speed;
          if m >= frames {
            m := frames - 1;
            playing := false;
          }
        }
      }
      q := Quad(Point(x + 0, y + 0), Point(x + 0, y + spriteH),
                Point(x + spriteW, y + spriteH), Point(x + spriteW, y + 0));
    }

    /** Changes only the frame duration, which must not be zero. */
    method SetSpeed(s: uint32)
      requires Valid()
      requires s != 0
      modifies this`speed
      ensures Valid()
      ensures speed == s
    {
      speed := s;
    }

    /** Starts row `newN` from the clock reading `now`. The column is left
        as it was: the next draw recomputes it. */
    method Play(newN: uint32, now: uint32, l: bool := false)
      requires Valid()
      modifies this`n, this`playing, this`loop, this`startTime
      ensures Valid()
      ensures n == newN && playing && loop == l && startTime == now
    {
      n := newN;
      playing := true;
      loop := l;
      startTime := now;
    }
  }

  /** The sheet of `SheetExample` driven through the class: playing once
      from `t0`, it shows column 2 at `t0 + 250`, stops on column 3 by
      `t0 + 500` and holds it from then on. */
  method PlayOnceExample(t0: uint32)
    requires t0 + 900 < TickModulus
  {
    var a := new Animation(92, 23, 23, 23, 100, t0);
    a.Play(0, t0);
    var q := a.Draw(50, 50, t0 + 250);
    assert a.m == 2 && a.IsPlaying();
    q := a.Draw(50, 50, t0 + 500);
    assert a.m == 3 && !a.IsPlaying();
    q := a.Draw(50, 50, t0 + 900);
    assert a.m == 3 && !a.IsPlaying();
  }
}
