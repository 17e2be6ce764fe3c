/**
 * The application helpers of app.h and app.cc, repeated almost verbatim in
 * main.cpp: a one-shot interval timer, a bounding-box collision test and a
 * two-value scene state.
 */
module App {
  import opened Ticks

  // ---------------------------------------------------------------------
  // PIXL_Timer
  // ---------------------------------------------------------------------

  /** What `status()` answers at clock reading `now`: the deadline is the
      unsigned sum `start_time + time`. */
  predicate Expired(running: bool, startTime: uint32, time: uint32, now: uint32) {
    running && WrappingAdd(startTime, time) <= now
  }

  /** `PIXL_Timer`: a one-shot interval timer. */
  class Timer {
    var time: uint32       // interval in ms
    var startTime: uint32  // clock reading at `start`
    var running: bool      // `status_flag`

    /** The start time is left unset by the constructor: nothing is said
        about it, and `Status` cannot observe it until `Start` sets it. */
    constructor (t: uint32)
      ensures time == t && !running
    {
      time := t;
      running := false;
    }

    /** Changes the interval and disarms the timer. */
    method Set(t: uint32)
      modifies this`time, this`running
      ensures time == t && !running
    {
      time := t;
      running := false;
    }

    /** Disarms the timer; the interval and start time are kept. */
    method Stop()
      modifies this`running
      ensures !running
    {
      running := false;
    }

    /** Arms the timer from the clock reading `now`; the interval is kept. */
    method Start(now: uint32)
      modifies this`startTime, this`running
      ensures startTime == now && running
    {
      startTime := now;
      running := true;
    }

    /** A query: true when the timer is armed and its deadline has been
        reached by `now`. */
    method Status(now: uint32) returns (expired: bool)
      ensures expired <==> Expired(running, startTime, time, now)
      ensures startTime + time < TickModulus ==> (expired <==> running && startTime + time <= now)
    {
      expired := running && WrappingAdd(startTime, time) <= now;
    }
  }

  /** While the deadline does not wrap, an armed timer is not expired before
      `startTime + time` and is expired from then on. */
  lemma ExpiredFromDeadline(startTime: uint32, time: uint32, now: uint32)
    requires startTime + time < TickModulus
    ensures now < startTime + time ==> !Expired(true, startTime, time, now)
    ensures startTime + time <= now ==> Expired(true, startTime, time, now)
  {
  }

  /** Once expired, a timer left alone stays expired at every later reading. */
  lemma ExpiredMonotone(running: bool, startTime: uint32, time: uint32, now: uint32, later: uint32)
    requires now <= later
    requires Expired(running, startTime, time, now)
    ensures Expired(running, startTime, time, later)
  {
  }

  /** A timer started 10 ticks before the clock wraps, for 100 ticks,
      reports expiry at once: the deadline sum wrapped to 90. */
  lemma WrappedDeadlineFiresAtStart()
    ensures Elapsed(TickModulus - 10, TickModulus - 10) == 0
    ensures WrappingAdd(TickModulus - 10, 100) == 90
    ensures Expired(true, TickModulus - 10, 100, TickModulus - 10)
  {
  }

  /** Expiry decided on the elapsed time, as the animation clock does: armed,
      and at least `time` ticks have passed since `startTime`. */
  predicate ExpiredSince(running: bool, startTime: uint32, time: uint32, now: uint32) {
    running && time <= Elapsed(now, startTime)
  }

  /** For every start time, wrapping or not, a timer armed for `time` ticks
      expires exactly when `time` ticks have passed. */
  lemma ExpiredSinceAfter(startTime: uint32, time: uint32, d: uint32)
    ensures ExpiredSince(true, startTime, time, WrappingAdd(startTime, d)) <==> time <= d
  {
  }

  /** Where nothing wraps, the elapsed-time decision agrees with `status()`. */
  lemma ExpiredSinceAgrees(running: bool, startTime: uint32, time: uint32, now: uint32)
    requires startTime + time < TickModulus
    requires startTime <= now
    ensures ExpiredSince(running, startTime, time, now) == Expired(running, startTime, time, now)
  {
  }

  // ---------------------------------------------------------------------
  // PIXL_bbc
  // ---------------------------------------------------------------------

  type int16 = i: int | -0x8000 <= i < 0x8000
  type uint16 = n: nat | n < 0x1_0000

  /** `SDL_Rect`: a signed 16-bit position and an unsigned 16-bit size. The
      collision test promotes all four to `int`, where nothing overflows. */
  datatype Rect = Rect(x: int16, y: int16, w: uint16, h: uint16)

  /** The spans `[a, a + aw)` and `[b, b + bw)` reach into each other. */
  predicate SpansMeet(a: int, aw: int, b: int, bw: int) {
    a < b + bw && b < a + aw
  }

  /** `PIXL_bbc`: two boxes collide unless one of them lies wholly to the
      right of or below the other; that is, when their spans meet on both
      axes. */
  function Collide(b1: Rect, b2: Rect): (r: bool)
    ensures r <==> SpansMeet(b1.x, b1.w, b2.x, b2.w) && SpansMeet(b1.y, b1.h, b2.y, b2.h)
  {
    if b1.x > b2.x + b2.w - 1 ||
       b1.y > b2.y + b2.h - 1 ||
       b2.x > b1.x + b1.w - 1 ||
       b2.y > b1.y + b1.h - 1
    then false
    else true
  }

  /** The pixel `(px, py)` lies in the box. */
  predicate Covers(b: Rect, px: int, py: int) {
    b.x <= px < b.x + b.w && b.y <= py < b.y + b.h
  }

  /** Which box comes first does not matter. */
  lemma CollideSymmetric(b1: Rect, b2: Rect)
    ensures Collide(b1, b2) == Collide(b2, b1)
  {
  }

  /** A box collides with itself exactly when it is at least one pixel wide
      and one pixel high. */
  lemma SelfCollision(b: Rect)
    ensures Collide(b, b) <==> 1 <= b.w && 1 <= b.h
  {
  }

  /** For boxes that are not empty, colliding means sharing a pixel. */
  lemma CollideIffSharedPixel(b1: Rect, b2: Rect)
    requires 1 <= b1.w && 1 <= b1.h && 1 <= b2.w && 1 <= b2.h
    ensures Collide(b1, b2) <==> exists px, py :: Covers(b1, px, py) && Covers(b2, px, py)
  {
    if Collide(b1, b2) {
      var px := if b1.x < b2.x then b2.x as int else b1.x as int;
      var py := if b1.y < b2.y then b2.y as int else b1.y as int;
      assert Covers(b1, px, py) && Covers(b2, px, py);
    }
  }

  /** A box of no width or height still collides with a box around it,
      although it covers no pixel: the reason `CollideIffSharedPixel` is
      stated for non-empty boxes only. */
  lemma EmptyBoxCollides()
    ensures Collide(Rect(5, 5, 0, 0), Rect(0, 0, 10, 10))
    ensures forall px, py :: !Covers(Rect(5, 5, 0, 0), px, py)
  {
  }

  // ---------------------------------------------------------------------
  // PIXL_State
  // ---------------------------------------------------------------------

  /** The values of the anonymous enum `{play, quit}`. */
  const Play: uint32 := 0
  const Quit: uint32 := 1

  /** A `char`, signed as on the platforms the program targets. */
  type int8 = i: int | -0x80 <= i < 0x80

  /** An integer argument converted to the `char` parameter of `set`: the
      one `char` congruent to it modulo 256. */
  function ToChar(v: int): (c: int8)
    ensures (v - c) % 0x100 == 0
    ensures -0x80 <= v < 0x80 ==> c == v
  {
    (v + 0x80) % 0x100 - 0x80
  }

  /** The `char` stored into the `uint` field: sign-extended, i.e. the one
      `uint` congruent to it modulo 2^32. */
  function CharToUint(c: int8): (u: uint32)
    ensures (u - c) % TickModulus == 0
    ensures u == c <==> 0 <= c
  {
    if c < 0 then c + TickModulus else c
  }

  /** Both enum values pass through the `char` parameter unchanged. */
  lemma EnumSurvivesChar(v: uint32)
    requires v == Play || v == Quit
    ensures CharToUint(ToChar(v)) == v
  {
  }

  /** Narrowing a stored state back to a `char` recovers the `char`. */
  lemma CharRoundTrip(c: int8)
    ensures ToChar(CharToUint(c)) == c
  {
  }

  /** `PIXL_State`: the current scene, `Play` or `Quit`. */
  class State {
    var state: uint32

    constructor ()
      ensures state == Play
    {
      state := 0;
    }

    method Set(s: int8)
      modifies this
      ensures state == CharToUint(s)
    {
      state := CharToUint(s);
    }

    /** A query: the stored state. */
    method Get() returns (r: uint32)
      ensures r == state
    {
      r := state;
    }
  }

  /** The main loop's use of the state: it runs while `get()` differs from
      `quit`, and setting `quit` ends it. */
  method QuitExample() returns (before: uint32, after: uint32)
    ensures before == Play && after == Quit
  {
    var st := new State();
    before := st.Get();
    st.Set(ToChar(Quit));
    after := st.Get();
  }
}
