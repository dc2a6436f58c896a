/**
 * The wraparound frame sampler (`make_ticker_frames`): a window of fixed width
 * slides over the wide surface; frame i is taken at offset int(x_i) mod w, where
 * the accumulator x_i = i * speed / fps, and a window that runs past the right
 * edge is built from a tail crop pasted before a head crop.
 *
 * The surface is a sequence of columns of an opaque pixel-column type; a crop is
 * a slice and a side-by-side paste is concatenation. The accumulator is exact.
 */
module Sampler {
  import opened Wrappers
  import Arith

  /** An image: its columns left to right, and its height. */
  datatype Raster<C> = Raster(cols: seq<C>, height: nat)

  /** The configured defaults that replace a missing or zero duration and speed. */
  const TickerDur: int := 14
  const TickerSpeed: real := 100.0

  /** The parameters the sampler is called with. */
  const SurfaceWidth: nat := 2400
  const DefaultFrameW: nat := 1280
  const DefaultFrameH: nat := 220
  const DefaultFps: int := 24

  /** `v or default` for a number: None and the number's zero are falsy. */
  function OrDefault<T(==)>(v: Option<T>, zero: T, default: T): T
  {
    if v.Some? && v.value != zero then v.value else default
  }

  /** `len(range(duration * fps))` after the defaults are applied. */
  function FrameCount(duration: Option<int>, fps: int): nat
  {
    var total := OrDefault(duration, 0, TickerDur) * fps;
    if total < 0 then 0 else total
  }

  /** Python's `int(r)`: truncation toward zero. */
  function Trunc(r: real): (n: int)
    ensures r >= 0.0 ==> n as real <= r < n as real + 1.0
    ensures r < 0.0 ==> n as real - 1.0 < r <= n as real
  {
    if r >= 0.0 then r.Floor else -((-r).Floor)
  }

  /** The accumulator before frame i: i steps of speed / fps from 0. */
  function Accumulated(i: nat, speed: real, fps: int): real
    requires fps != 0
  {
    i as real * (speed / fps as real)
  }

  /** The accumulator starts at 0 and grows by speed / fps per frame. */
  lemma {:induction false} AccumulatorStep(i: nat, speed: real, fps: int)
    requires fps != 0
    ensures Accumulated(0, speed, fps) == 0.0
    ensures Accumulated(i + 1, speed, fps) == Accumulated(i, speed, fps) + speed / fps as real
  {
    var shift := speed / fps as real;
    assert (i + 1) as real * shift == i as real * shift + shift;
  }

  /** The sampling offset of frame i on a surface of width w: `int(x) % w`. */
  function Offset(i: nat, speed: real, fps: int, w: nat): (xi: nat)
    requires fps != 0 && w > 0
    ensures xi < w
  {
    Trunc(Accumulated(i, speed, fps)) % w
  }

  /** `surf.crop((lo, 0, hi, h))` */
  function Crop<C>(s: Raster<C>, lo: nat, hi: nat, h: nat): Raster<C>
    requires lo <= hi <= |s.cols|
  {
    Raster(s.cols[lo..hi], h)
  }

  /** A new image of the given height with `left` pasted at 0 and `right` pasted after it. */
  function PasteSideBySide<C>(left: Raster<C>, right: Raster<C>, h: nat): Raster<C>
  {
    Raster(left.cols + right.cols, h)
  }

  /**
   * The frame at offset xi: a direct crop when the window fits, otherwise the
   * tail [xi, w) followed by the head [0, frameW - (w - xi)).
   */
  function FrameAt<C>(s: Raster<C>, frameW: nat, frameH: nat, xi: nat): (f: Raster<C>)
    requires xi < |s.cols| && frameW <= |s.cols|
    ensures |f.cols| == frameW && f.height == frameH
  {
    var w := |s.cols|;
    if xi + frameW <= w then
      Crop(s, xi, xi + frameW, frameH)
    else
      var tail := Crop(s, xi, w, frameH);
      var head := Crop(s, 0, frameW - (w - xi), frameH);
      PasteSideBySide(tail, head, frameH)
  }

  /** Column j of the frame at offset xi is surface column (xi + j) mod w, with no seam or gap. */
  lemma {:induction false} FrameColumn<C>(s: Raster<C>, frameW: nat, frameH: nat, xi: nat, j: nat)
    requires xi < |s.cols| && frameW <= |s.cols| && j < frameW
    ensures FrameAt(s, frameW, frameH, xi).cols[j] == s.cols[(xi + j) % |s.cols|]
  {
    var w := |s.cols|;
    if xi + j < w {
      Arith.DivModUnique(xi + j, w, 0, xi + j);
    } else {
      Arith.DivModUnique(xi + j, w, 1, xi + j - w);
    }
  }

  /**
   * `make_ticker_frames` on a surface already rendered at height frameH: a falsy
   * duration or speed is replaced by its default, `duration * fps` frames are
   * produced, and the accumulator grows by speed / fps per frame.
   */
  method MakeTickerFrames<C>(surface: Raster<C>, frameW: nat, frameH: nat,
                             duration: Option<int>, fps: int, speed: Option<real>)
    returns (frames: seq<Raster<C>>)
    requires fps != 0 && 0 < |surface.cols| && frameW <= |surface.cols|
    ensures |frames| == FrameCount(duration, fps)
    ensures forall i :: 0 <= i < |frames| ==>
      frames[i] == FrameAt(surface, frameW, frameH, Offset(i, OrDefault(speed, 0.0, TickerSpeed), fps, |surface.cols|))
  {
    var dur := OrDefault(duration, 0, TickerDur);
    var spd := OrDefault(speed, 0.0, TickerSpeed);
    var w := |surface.cols|;
    frames := [];
    var shift := spd / fps as real;
    var total := dur * fps;
    var x: real := 0.0;
    var k := 0;
    while k < total
      invariant 0 <= k && (total <= 0 ==> k == 0) && (total > 0 ==> k <= total)
      invariant |frames| == k
      invariant x == Accumulated(k, spd, fps)
      invariant forall i :: 0 <= i < k ==> frames[i] == FrameAt(surface, frameW, frameH, Offset(i, spd, fps, w))
    {
      var xi := Trunc(x) % w;
      assert xi == Offset(k, spd, fps, w);
      var crop;
      if xi + frameW <= w {
        crop := Crop(surface, xi, xi + frameW, frameH);
      } else {
        var p1 := Crop(surface, xi, w, frameH);
        var p2 := Crop(surface, 0, frameW - (w - xi), frameH);
        crop := PasteSideBySide(p1, p2, frameH);
      }
      assert crop == FrameAt(surface, frameW, frameH, xi);
      frames := frames + [crop];
      AccumulatorStep(k, spd, fps);
      x := x + shift;
      k := k + 1;
    }
  }

  // ---------------------------------------------------------------------------
  // Properties of the sampled frames

  /**
   * Seamless wraparound: every frame, wrapping or not, is the window [xi, xi + frameW)
   * of the surface laid twice side by side.
   */
  lemma {:induction false} FrameIsWindowOfDoubled<C>(s: Raster<C>, frameW: nat, frameH: nat, xi: nat)
    requires xi < |s.cols| && frameW <= |s.cols|
    ensures FrameAt(s, frameW, frameH, xi).cols == (s.cols + s.cols)[xi..xi + frameW]
  {
    var w := |s.cols|;
    var f := FrameAt(s, frameW, frameH, xi);
    var d := (s.cols + s.cols)[xi..xi + frameW];
    forall j | 0 <= j < frameW
      ensures f.cols[j] == d[j]
    {
      FrameColumn(s, frameW, frameH, xi, j);
      if xi + j < w {
        Arith.DivModUnique(xi + j, w, 0, xi + j);
      } else {
        Arith.DivModUnique(xi + j, w, 1, xi + j - w);
      }
    }
  }

  /**
   * A frame wraps exactly when xi + frameW > w; then its tail and head are both
   * non-empty, sum to frameW, and the head ends before the tail starts, so the
   * window wraps at most once.
   */
  lemma {:induction false} WrapSplit<C>(s: Raster<C>, frameW: nat, frameH: nat, xi: nat)
    requires xi < |s.cols| && frameW <= |s.cols|
    ensures var w := |s.cols|; var f := FrameAt(s, frameW, frameH, xi);
      && (xi + frameW <= w ==> f.cols == s.cols[xi..xi + frameW])
      && (xi + frameW > w ==>
            var tailW := w - xi;
            var headW := frameW - tailW;
            && 0 < tailW && 0 < headW && tailW + headW == frameW && headW <= xi
            && f.cols == s.cols[xi..] + s.cols[..headW])
  {
  }

  /**
   * Continuity between frames: if the window moves right by d (mod w), column j
   * of the later frame is column j + d of the earlier one.
   */
  lemma {:induction false} FramesOverlap<C>(s: Raster<C>, frameW: nat, frameH: nat, a: nat, d: nat, j: nat)
    requires a < |s.cols| && frameW <= |s.cols| && j + d < frameW
    ensures var b := (a + d) % |s.cols|;
      FrameAt(s, frameW, frameH, b).cols[j] == FrameAt(s, frameW, frameH, a).cols[j + d]
  {
    var w := |s.cols|;
    var b := (a + d) % w;
    FrameColumn(s, frameW, frameH, b, j);
    FrameColumn(s, frameW, frameH, a, j + d);
    if a + d < w {
      Arith.DivModUnique(a + d, w, 0, a + d);
      assert b + j == a + (j + d);
    } else {
      // both sums lie in [w, 2w), so each remainder drops exactly one w
      Arith.DivModUnique(a + d, w, 1, a + d - w);
      Arith.DivModUnique(b + j, w, 0, b + j);
      Arith.DivModUnique(a + (j + d), w, 1, b + j);
    }
  }

  /** For a non-negative speed and fps, the offset is floor(i * speed / fps) mod w in integers. */
  lemma {:induction false} OffsetInIntegers(i: nat, speed: int, fps: int, w: nat)
    requires speed >= 0 && fps > 0 && w > 0
    ensures Offset(i, speed as real, fps, w) == (i * speed / fps) % w
  {
    var n := i * speed;
    var q := n / fps;
    var r := n % fps;
    assert n == q * fps + r;
    var acc := Accumulated(i, speed as real, fps);
    assert acc == n as real / fps as real;
    assert acc == q as real + r as real / fps as real;
    assert 0.0 <= r as real / fps as real < 1.0;
    assert Trunc(acc) == q;
  }

  /**
   * A missing or zero duration and a missing or zero speed are replaced by the
   * defaults 14 and 100, and any other value is kept; with the sampler's default
   * 24 fps that makes 336 frames, whose 1280-wide window fits the 2400-wide surface.
   */
  lemma {:induction false} FalsyDefaults(duration: int, fps: int, speed: real)
    ensures FrameCount(None, fps) == FrameCount(Some(0), fps) == FrameCount(Some(TickerDur), fps)
    ensures fps > 0 ==> FrameCount(None, fps) == TickerDur * fps
    ensures duration != 0 ==> FrameCount(Some(duration), fps) == (if duration * fps < 0 then 0 else duration * fps)
    ensures OrDefault(None, 0.0, TickerSpeed) == OrDefault(Some(0.0), 0.0, TickerSpeed) == 100.0
    ensures speed != 0.0 ==> OrDefault(Some(speed), 0.0, TickerSpeed) == speed
    ensures FrameCount(None, DefaultFps) == 336 && DefaultFrameW <= SurfaceWidth
  {
  }
}
