// The OLED panel: the line rasteriser, the packing of the back buffer, and the bounce
// of the screensaver.
module Drawing {
  import opened Prelude

  const WIDTH: nat := 160
  const HEIGHT: nat := 60

  class Framebuffer {
    const buffer: array<byte>

    constructor ()
      ensures buffer.Length == WIDTH * HEIGHT && fresh(buffer)
      ensures forall i :: 0 <= i < buffer.Length ==> buffer[i] == 0
    {
      buffer := new byte[WIDTH * HEIGHT](_ => 0);
    }

    predicate Sized() {
      buffer.Length == WIDTH * HEIGHT
    }

    function At(x: nat, y: nat): byte
      requires Sized() && x < WIDTH && y < HEIGHT
      reads buffer
    {
      buffer[y * WIDTH + x]
    }

    // Out-of-range pixels are ignored.
    method SetPixel(x: nat, y: nat, color: byte)
      requires Sized()
      modifies buffer
      ensures forall px: nat, py: nat :: px < WIDTH && py < HEIGHT ==>
        At(px, py) == if px == x && py == y then color else old(At(px, py))
    {
      if x < WIDTH && y < HEIGHT {
        buffer[y * WIDTH + x] := color;
      }
    }

    // One point of a line, if it falls inside the panel.
    method Plot(x: int, y: int, color: byte)
      requires Sized()
      modifies buffer
      ensures forall px: nat, py: nat :: px < WIDTH && py < HEIGHT ==>
        At(px, py) == if Point(px, py) == Point(x, y) then color else old(At(px, py))
    {
      hide Framebuffer.At;
      if x >= 0 && x < WIDTH && y >= 0 && y < HEIGHT {
        SetPixel(x, y, color);
      }
    }

    // Bresenham's loop with clipping. The points visited are exactly the closed-form
    // points of the line, in order; the pixels changed are those inside the panel.
    method DrawLine(x0: nat, y0: nat, x1: nat, y1: nat, color: byte) returns (ghost visited: seq<Point>)
      requires Sized()
      modifies buffer
      ensures var l := Line(x0, y0, x1, y1);
        && visited == PointsOf(l)
        && forall px: nat, py: nat :: px < WIDTH && py < HEIGHT ==>
             At(px, py) == if Point(px, py) in visited then color else old(At(px, py))
    {
      hide PointAt, Tracks, Rounded, Framebuffer.At;
      ghost var l := Line(x0, y0, x1, y1);
      var x: int, y: int := x0, y0;
      var dx := Abs(x1 - x);
      var dy := 0 - Abs(y1 - y);
      var sx := if x < x1 then 1 else -1;
      var sy := if y < y1 then 1 else -1;
      var err := dx + dy;
      ghost var i := 0;
      ghost var t := Tracker(0, 0, 0);
      TracksStart(l);
      visited := [];
      while true
        invariant 0 <= i <= Span(l) && |visited| == i
        invariant Tracks(l, t, i)
        invariant x == x0 + sx * t.x && y == y0 + sy * t.y && err == t.d + dx + dy
        invariant forall k :: 0 <= k < i ==> visited[k] == PointAt(l, k)
        invariant forall px: nat, py: nat :: px < WIDTH && py < HEIGHT ==>
          At(px, py) == if Point(px, py) in visited then color else old(At(px, py))
        decreases Span(l) - i
      {
        TrackerIsPoint(l, t, i);
        ExitExactlyAtEnd(l, i);
        Plot(x, y, color);
        visited := visited + [Point(x, y)];
        if x == x1 && y == y1 {
          break;
        }
        AdvanceTracks(l, t, i);
        t := Advance(l, t);
        i := i + 1;
        var e2 := 2 * err;
        if e2 >= dy {
          err := err + dy;
          x := x + sx;
        }
        if e2 <= dx {
          err := err + dx;
          y := y + sy;
        }
      }
    }
  }

  // -- Lines ------------------------------------------------------------------------

  datatype Point = Point(x: int, y: int)

  datatype Line = Line(x0: nat, y0: nat, x1: nat, y1: nat)

  function Adx(l: Line): nat { Abs(l.x1 - l.x0) }
  function Ady(l: Line): nat { Abs(l.y1 - l.y0) }
  function Sx(l: Line): int { if l.x0 < l.x1 then 1 else -1 }
  function Sy(l: Line): int { if l.y0 < l.y1 then 1 else -1 }

  // Steps from one end to the other.
  function Span(l: Line): nat { if Adx(l) >= Ady(l) then Adx(l) else Ady(l) }

  // i * minor / major rounded to the nearest integer, halves up.
  function Rounded(i: nat, minor: nat, major: nat): nat {
    if major == 0 then 0 else (2 * (i * minor) + major) / (2 * major)
  }

  // The i-th point of the line: i steps along the long side, and as many along the
  // short side as rounding the ideal line gives.
  function PointAt(l: Line, i: nat): Point {
    if Adx(l) >= Ady(l) then
      Point(l.x0 + Sx(l) * i, l.y0 + Sy(l) * Rounded(i, Ady(l), Adx(l)))
    else
      Point(l.x0 + Sx(l) * Rounded(i, Adx(l), Ady(l)), l.y0 + Sy(l) * i)
  }

  function PointsOf(l: Line): seq<Point> {
    seq(Span(l) + 1, (i: nat) => PointAt(l, i))
  }

  // Rounding is characterised by the half-open unit around the ideal value.
  lemma RoundedIs(i: nat, minor: nat, major: nat, v: nat)
    requires major > 0 && 0 - major < 2 * (v * major - i * minor) <= major
    ensures Rounded(i, minor, major) == v
  {
    var p := 2 * (i * minor) + major;
    assert v * (2 * major) == 2 * (v * major);
    QuotientUnique(p, 2 * major, p / (2 * major), v);
  }

  lemma RoundedWithin(i: nat, minor: nat, major: nat)
    requires major > 0
    ensures 0 - major < 2 * (Rounded(i, minor, major) * major - i * minor) <= major
  {
    var p, m := 2 * (i * minor) + major, 2 * major;
    var q := p / m;
    assert p == q * m + p % m;
    assert q * m == 2 * (q * major);
  }

  // Rounding starts at 0, ends at `minor`, and moves by at most one per step.
  lemma RoundedEnds(minor: nat, major: nat)
    requires minor <= major
    ensures Rounded(0, minor, major) == 0
    ensures Rounded(major, minor, major) == minor
  {
    if major > 0 {
      RoundedIs(0, minor, major, 0);
      RoundedIs(major, minor, major, minor);
    }
  }

  lemma RoundedSteps(i: nat, minor: nat, major: nat)
    requires minor <= major
    ensures Rounded(i, minor, major) <= Rounded(i + 1, minor, major) <= Rounded(i, minor, major) + 1
  {
    if major > 0 {
      RoundedWithin(i, minor, major);
      RoundedWithin(i + 1, minor, major);
      OneMore(i, minor);
      UnitsApart(Rounded(i, minor, major), Rounded(i + 1, minor, major), major, minor, i * minor);
    }
  }

  lemma UnitsApart(v: nat, w: nat, major: nat, minor: nat, c: int)
    requires 0 < major && minor <= major
    requires 0 - major < 2 * (v * major - c) <= major
    requires 0 - major < 2 * (w * major - (c + minor)) <= major
    ensures v <= w <= v + 1
  {
    if w < v {
      OneMore(w, major);
      MulMonotone(w + 1, v, major);
    } else if w > v + 1 {
      OneMore(v, major);
      OneMore(v + 1, major);
      MulMonotone(v + 2, w, major);
    }
  }

  // A line starts at one end, finishes at the other, and has max(|dx|, |dy|) + 1 points.
  lemma LineEnds(l: Line)
    ensures |PointsOf(l)| == Max(Adx(l), Ady(l)) + 1
    ensures PointsOf(l)[0] == Point(l.x0, l.y0)
    ensures PointsOf(l)[Span(l)] == Point(l.x1, l.y1)
  {
    hide Rounded;
    if Adx(l) >= Ady(l) {
      RoundedEnds(Ady(l), Adx(l));
    } else {
      RoundedEnds(Adx(l), Ady(l));
    }
  }

  // Consecutive points are neighbours: one step along the long side, at most one
  // across, never backwards.
  lemma LineIsConnected(l: Line, i: nat)
    requires i < Span(l)
    ensures var p, q := PointAt(l, i), PointAt(l, i + 1);
      && Max(Abs(q.x - p.x), Abs(q.y - p.y)) == 1
      && 0 <= (q.x - p.x) * Sx(l) <= 1 && 0 <= (q.y - p.y) * Sy(l) <= 1
  {
    hide Rounded;
    if Adx(l) >= Ady(l) {
      RoundedSteps(i, Ady(l), Adx(l));
    } else {
      RoundedSteps(i, Adx(l), Ady(l));
    }
  }

  // Every point is within half a pixel of the ideal line, measured across it; where the line
  // passes midway between two pixels, it is the one further from the start.
  lemma LineWithinHalfPixel(l: Line, i: nat)
    requires i <= Span(l)
    ensures var p := PointAt(l, i);
      2 * Abs(Abs(p.y - l.y0) * Adx(l) - Abs(p.x - l.x0) * Ady(l)) <= Span(l)
    ensures var p := PointAt(l, i);
      0 < Ady(l) <= Adx(l) ==> 2 * (Abs(p.y - l.y0) * Adx(l) - Abs(p.x - l.x0) * Ady(l)) > 0 - Adx(l)
    ensures var p := PointAt(l, i);
      Adx(l) < Ady(l) ==> 2 * (Abs(p.x - l.x0) * Ady(l) - Abs(p.y - l.y0) * Adx(l)) > 0 - Ady(l)
  {
    var adx, ady := Adx(l), Ady(l);
    if adx >= ady && adx > 0 {
      RoundedWithin(i, ady, adx);
      hide Rounded;
      assert Abs(PointAt(l, i).x - l.x0) == i && Abs(PointAt(l, i).y - l.y0) == Rounded(i, ady, adx);
    } else if ady > adx {
      RoundedWithin(i, adx, ady);
      hide Rounded;
      assert Abs(PointAt(l, i).y - l.y0) == i && Abs(PointAt(l, i).x - l.x0) == Rounded(i, adx, ady);
    }
  }

  // -- What the loop tracks -----------------------------------------------------------

  // Steps taken in each direction, and d = y * adx - x * ady, the error from the line.
  datatype Tracker = Tracker(x: nat, y: nat, d: int)

  ghost predicate Tracks(l: Line, t: Tracker, i: nat) {
    && t.d == t.y * Adx(l) - t.x * Ady(l)
    && (if Adx(l) >= Ady(l) then t.x == i && (if Adx(l) > 0 then 0 - Adx(l) < 2 * t.d <= Adx(l) else t.y == 0)
        else t.y == i && 0 - Ady(l) <= 2 * t.d < Ady(l))
  }

  // One turn of the loop, with its two tests written on d.
  function Advance(l: Line, t: Tracker): Tracker {
    var e := 2 * (t.d + Adx(l) - Ady(l));
    var right, down := e >= 0 - Ady(l), e <= Adx(l);
    Tracker(
      if right then t.x + 1 else t.x,
      if down then t.y + 1 else t.y,
      t.d + (if down then Adx(l) else 0) - (if right then Ady(l) else 0))
  }

  // The tests keep the error within half a pixel, on whichever side is the long one.
  lemma ErrorStaysSmall(adx: int, ady: int, d: int)
    requires adx >= 0 && ady >= 0
    ensures adx >= ady && adx > 0 && 0 - adx < 2 * d <= adx ==>
      var e := 2 * (d + adx - ady);
      var d' := d + (if e <= adx then adx else 0) - (if e >= 0 - ady then ady else 0);
      e >= 0 - ady && 0 - adx < 2 * d' <= adx
    ensures ady > adx && 0 - ady <= 2 * d < ady ==>
      var e := 2 * (d + adx - ady);
      var d' := d + (if e <= adx then adx else 0) - (if e >= 0 - ady then ady else 0);
      e <= adx && 0 - ady <= 2 * d' < ady
  {
  }

  lemma AdvanceTracks(l: Line, t: Tracker, i: nat)
    requires Tracks(l, t, i) && i < Span(l)
    ensures Tracks(l, Advance(l, t), i + 1)
  {
    OneMore(t.y, Adx(l));
    OneMore(t.x, Ady(l));
    ErrorStaysSmall(Adx(l), Ady(l), t.d);
    hide Adx, Ady;
  }

  lemma TracksStart(l: Line)
    ensures Tracks(l, Tracker(0, 0, 0), 0)
  {
  }

  lemma TrackerIsPoint(l: Line, t: Tracker, i: nat)
    requires Tracks(l, t, i) && i <= Span(l)
    ensures PointAt(l, i) == Point(l.x0 + Sx(l) * t.x, l.y0 + Sy(l) * t.y)
  {
    if Adx(l) >= Ady(l) {
      if Adx(l) > 0 {
        RoundedIs(i, Ady(l), Adx(l), t.y);
      }
    } else {
      RoundedIs(i, Adx(l), Ady(l), t.x);
    }
  }

  // The loop's exit test holds at the last point and at no earlier one.
  lemma ExitExactlyAtEnd(l: Line, i: nat)
    requires i <= Span(l)
    ensures PointAt(l, i) == Point(l.x1, l.y1) <==> i == Span(l)
  {
    LineEnds(l);
    hide Rounded;
  }

  // -- Packing ------------------------------------------------------------------------

  type Palette = s: seq<u16> | |s| == 256 witness seq(256, _ => 0)

  // The panel's two bytes for the k-th pixel sent: with rotation 0 the buffer is sent
  // backwards, otherwise forwards.
  function Source(n: nat, rotation: nat, k: nat): nat
    requires k < n
  {
    if rotation == 0 then n - 1 - k else k
  }

  predicate IsPacked(packed: bytes, buffer: bytes, lut: Palette, rotation: nat) {
    && |packed| == 2 * |buffer|
    && forall k :: 0 <= k < |buffer| ==>
         var rgb := lut[buffer[Source(|buffer|, rotation, k)]];
         packed[2 * k] == rgb % 256 && packed[2 * k + 1] == rgb / 256
  }

  method PackBuffer(buffer: bytes, lut: Palette, rotation: nat) returns (packed: bytes)
    ensures IsPacked(packed, buffer, lut, rotation)
  {
    packed := [];
    for k := 0 to |buffer|
      invariant |packed| == 2 * k
      invariant forall j :: 0 <= j < k ==>
        var rgb := lut[buffer[Source(|buffer|, rotation, j)]];
        packed[2 * j] == rgb % 256 && packed[2 * j + 1] == rgb / 256
    {
      var gray := if rotation == 0 then buffer[|buffer| - 1 - k] else buffer[k];
      var rgb565 := lut[gray];
      packed := packed + [rgb565 % 256];
      packed := packed + [rgb565 / 256];
    }
  }

  // With rotation 0, pixel (x, y) of a w by h panel shows pixel (w-1-x, h-1-y) of the
  // buffer: a turn by 180 degrees, for any size.
  lemma RotationIsHalfTurn(w: nat, h: nat, x: nat, y: nat)
    requires x < w && y < h
    ensures y * w + x < w * h
    ensures Source(w * h, 0, y * w + x) == (h - 1 - y) * w + (w - 1 - x)
  {
    MulMonotone(y + 1, h, w);
    assert (y + 1) * w == y * w + w;
    assert (h - 1 - y) * w == h * w - (y + 1) * w;
    assert w * h == h * w;
  }

  // What the panel shows of a frame, row by row and low byte first: with rotation 0 its pixel
  // (x, y) is pixel (159-x, 59-y) of the frame, otherwise pixel (x, y) itself.
  lemma PanelShows(fb: Framebuffer, lut: Palette, rotation: nat, packed: bytes, x: nat, y: nat)
    requires fb.Sized() && IsPacked(packed, fb.buffer[..], lut, rotation) && x < 160 && y < 60
    ensures |packed| == 19200
    ensures var rgb := lut[if rotation == 0 then fb.At(159 - x, 59 - y) else fb.At(x, y)];
      packed[2 * (160 * y + x)] == rgb % 256 && packed[2 * (160 * y + x) + 1] == rgb / 256
  {
    var k := 160 * y + x;
    assert packed[2 * k] == lut[fb.buffer[..][Source(9600, rotation, k)]] % 256;
  }

  function Reversed(s: bytes): bytes {
    seq(|s|, (i: int) requires 0 <= i < |s| => s[|s| - 1 - i])
  }

  // The user-space turn cancels the driver's: sending the reversed buffer with rotation 0
  // is sending the buffer itself.
  lemma TurnCancels(packed: bytes, buffer: bytes, lut: Palette)
    ensures IsPacked(packed, Reversed(buffer), lut, 0) <==> IsPacked(packed, buffer, lut, 180)
  {
    var r := Reversed(buffer);
    assert forall k :: 0 <= k < |buffer| ==> r[Source(|r|, 0, k)] == buffer[Source(|buffer|, 180, k)];
  }

  // -- The bouncing screensaver ---------------------------------------------------------

  datatype BounceBox = BounceBox(minX: int, maxX: int, minY: int, maxY: int)

  datatype Motion = Motion(pos: int, vel: int)

  // Moves, then clamps to the wall that was reached and turns away from it.
  function StepAxis(m: Motion, lo: int, hi: int): Motion {
    var p := m.pos + m.vel;
    if p >= hi then Motion(hi, 0 - Abs(m.vel))
    else if p <= lo then Motion(lo, Abs(m.vel))
    else Motion(p, m.vel)
  }

  function StepBounce(x: Motion, y: Motion, b: BounceBox): (Motion, Motion) {
    (StepAxis(x, b.minX, b.maxX), StepAxis(y, b.minY, b.maxY))
  }

  function Bounce(n: nat, b: BounceBox): (Motion, Motion) {
    if n == 0 then (Motion(b.minX, 1), Motion(b.minY, 1))
    else var (x, y) := Bounce(n - 1, b); StepBounce(x, y, b)
  }

  // The triangle wave between lo and hi, rising first, after n steps.
  function Wave(n: nat, lo: int, hi: int): Motion
    requires lo < hi
  {
    var h := hi - lo;
    var p := n % (2 * h);
    if p < h then Motion(lo + p, 1) else Motion(lo + 2 * h - p, -1)
  }

  lemma PhaseStep(n: nat, m: nat)
    requires m > 0
    ensures (n + 1) % m == if n % m == m - 1 then 0 else n % m + 1
  {
    var q, r := n / m, n % m;
    assert n == q * m + r;
    if r == m - 1 {
      assert n + 1 == (q + 1) * m by { OneMore(q, m); }
      QuotientUnique(n + 1, m, (n + 1) / m, q + 1);
    } else {
      QuotientUnique(n + 1, m, (n + 1) / m, q);
    }
  }

  lemma WaveStep(n: nat, lo: int, hi: int)
    requires lo < hi
    ensures StepAxis(Wave(n, lo, hi), lo, hi) == Wave(n + 1, lo, hi)
  {
    PhaseStep(n, 2 * (hi - lo));
  }

  // From its start in the top left corner the text follows, on each axis, a triangle
  // wave of period twice the free distance; in particular it never leaves the box.
  lemma {:induction false} BounceIsAWave(n: nat, b: BounceBox)
    requires b.minX < b.maxX && b.minY < b.maxY
    ensures Bounce(n, b) == (Wave(n, b.minX, b.maxX), Wave(n, b.minY, b.maxY))
    ensures b.minX <= Bounce(n, b).0.pos <= b.maxX && b.minY <= Bounce(n, b).1.pos <= b.maxY
  {
    if n > 0 {
      BounceIsAWave(n - 1, b);
      WaveStep(n - 1, b.minX, b.maxX);
      WaveStep(n - 1, b.minY, b.maxY);
    }
  }
}
