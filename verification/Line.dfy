/** AutumnAPI_DrawLine and AutumnAPI_DrawPix: Bresenham's line, clipped to a pixel buffer. */
module Line {

  import opened Pixels

  function Abs(x: int): nat { if x < 0 then -x else x }

  function Max(a: nat, b: nat): nat { if a < b then b else a }

  function Sign(a: int, b: int): int { if a < b then 1 else -1 }

  // ---------------------------------------------------------------- the ideal line

  /** How far m steps along the shorter axis run ahead of the line after k steps along the longer one,
    * in units of 1 / major of a pixel. */
  function Lead(k: int, m: int, minor: int, major: int): int { m * major - k * minor }

  lemma LeadSteps(k: int, m: int, minor: int, major: int)
    ensures Lead(k + 1, m, minor, major) == Lead(k, m, minor, major) - minor
    ensures Lead(k, m + 1, minor, major) == Lead(k, m, minor, major) + major
  {
  }

  /** The nearest whole number to k * minor / major, the upper one when two are equally near. */
  function Nearest(k: nat, minor: nat, major: nat): nat {
    if major == 0 then 0 else (2 * (k * minor) + major) / (2 * major)
  }

  predicate IsNearest(k: nat, m: nat, minor: nat, major: nat) {
    0 - major < 2 * Lead(k, m, minor, major) <= major
  }

  lemma NearestIsNearest(k: nat, minor: nat, major: nat)
    requires major > 0
    ensures IsNearest(k, Nearest(k, minor, major), minor, major)
  {
    var t, d := 2 * (k * minor) + major, 2 * major;
    var m := t / d;
    assert t == m * d + t % d;
    assert m * d == 2 * (m * major);
  }

  lemma NearestIsUnique(k: nat, m: nat, minor: nat, major: nat)
    requires major > 0 && IsNearest(k, m, minor, major)
    ensures m == Nearest(k, minor, major)
  {
    hide Nearest;
    var n := Nearest(k, minor, major);
    NearestIsNearest(k, minor, major);
    Spread(m, n, major);
    Spread(n, m, major);
  }

  /** One step along the longer axis takes one along the shorter exactly when that brings the point nearer. */
  lemma NextNearest(k: nat, m: nat, minor: nat, major: nat)
    requires 0 < major && minor <= major && m == Nearest(k, minor, major)
    ensures IsNearest(k, m, minor, major)
    ensures Nearest(k + 1, minor, major)
         == if 2 * Lead(k, m, minor, major) + major <= 2 * minor then m + 1 else m
  {
    hide Nearest, Lead;
    NearestIsNearest(k, minor, major);
    LeadSteps(k, m, minor, major);
    LeadSteps(k, m + 1, minor, major);
    var next := if 2 * Lead(k, m, minor, major) + major <= 2 * minor then m + 1 else m;
    NearestIsUnique(k + 1, next, minor, major);
  }

  lemma NearestEnds(minor: nat, major: nat)
    ensures Nearest(0, minor, major) == 0
    ensures minor <= major ==> Nearest(major, minor, major) == minor
  {
    if major > 0 {
      assert IsNearest(major, minor, minor, major);
      NearestIsUnique(major, minor, minor, major);
    }
  }

  /** The endpoints of a line. */
  datatype Segment = Segment(x0: int, y0: int, x1: int, y1: int) {
    function Dx(): nat { Abs(x1 - x0) }

    function Dy(): nat { Abs(y1 - y0) }

    function Major(): nat { Max(Dx(), Dy()) }

    /** The steps taken along x and along y once k are taken along the longer axis. */
    function Steps(k: nat): (nat, nat) {
      if Dx() >= Dy() then (k, Nearest(k, Dy(), Dx())) else (Nearest(k, Dx(), Dy()), k)
    }

    function PointAt(k: nat): (int, int) {
      (x0 + Sign(x0, x1) * Steps(k).0, y0 + Sign(y0, y1) * Steps(k).1)
    }
  }

  lemma StartsAndEnds(s: Segment)
    ensures s.PointAt(0) == (s.x0, s.y0)
    ensures s.PointAt(s.Major()) == (s.x1, s.y1)
  {
    hide Nearest;
    NearestEnds(s.Dy(), s.Dx());
    NearestEnds(s.Dx(), s.Dy());
  }

  /** Consecutive points differ by one along the longer axis and by at most one along the other. */
  lemma StepsAreAdjacent(s: Segment, k: nat)
    requires k < s.Major()
    ensures var p, q := s.PointAt(k), s.PointAt(k + 1);
            && (if s.Dx() >= s.Dy() then q.0 == p.0 + Sign(s.x0, s.x1) else q.1 == p.1 + Sign(s.y0, s.y1))
            && (if s.Dx() >= s.Dy() then q.1 == p.1 || q.1 == p.1 + Sign(s.y0, s.y1)
                else q.0 == p.0 || q.0 == p.0 + Sign(s.x0, s.x1))
  {
    hide Nearest, Lead;
    if s.Dx() >= s.Dy() {
      NextNearest(k, Nearest(k, s.Dy(), s.Dx()), s.Dy(), s.Dx());
    } else {
      NextNearest(k, Nearest(k, s.Dx(), s.Dy()), s.Dx(), s.Dy());
    }
  }

  /** No point is more than half a pixel off the line through the endpoints, along the shorter axis. */
  lemma WithinHalfAPixel(s: Segment, k: nat)
    ensures var p := s.PointAt(k);
            2 * Abs((p.1 - s.y0) * (s.x1 - s.x0) - (p.0 - s.x0) * (s.y1 - s.y0)) <= s.Major()
  {
    hide Nearest;
    var (a, b) := s.Steps(k);
    if s.Dx() >= s.Dy() && s.Dx() > 0 {
      NearestIsNearest(k, s.Dy(), s.Dx());
      assert Lead(a, b, s.Dy(), s.Dx()) == b * s.Dx() - a * s.Dy();
    } else if s.Dy() > 0 {
      NearestIsNearest(k, s.Dx(), s.Dy());
      assert Lead(b, a, s.Dx(), s.Dy()) == a * s.Dy() - b * s.Dx();
    }
    CrossProduct(a, b, s);
  }

  lemma CrossProduct(a: nat, b: nat, s: Segment)
    ensures Abs((Sign(s.y0, s.y1) * b) * (s.x1 - s.x0) - (Sign(s.x0, s.x1) * a) * (s.y1 - s.y0))
         == Abs(b * s.Dx() - a * s.Dy())
  {
    Signed(b, s.y0, s.y1, s.x0, s.x1);
    Signed(a, s.x0, s.x1, s.y0, s.y1);
  }

  lemma Signed(n: nat, p: int, q: int, from: int, to: int)
    ensures (Sign(p, q) * n) * (to - from) == (if (p < q) == (from < to) then 1 else -1) * (n * Abs(to - from))
  {
    if from < to {
      assert (0 - n) * (to - from) == -(n * (to - from));
    } else {
      assert n * (to - from) == -(n * (from - to));
      assert (0 - n) * (to - from) == n * (from - to);
    }
  }

  // ---------------------------------------------------------------- the pixel buffer

  class FbDev {
    const w: nat
    const h: nat
    const stride: nat
    const bkBf: array<Color>

    constructor (w: nat, h: nat, stride: nat, bkBf: array<Color>)
      requires stride % 4 == 0 && 4 * w <= stride && bkBf.Length == stride / 4 * h
      ensures Valid() && this.bkBf == bkBf && this.w == w && this.h == h && this.stride == stride
    {
      this.w, this.h, this.stride, this.bkBf := w, h, stride, bkBf;
    }

    /** The stride counts bytes and covers a row of four-byte pixels. */
    ghost predicate Valid() {
      stride % 4 == 0 && 4 * w <= stride && bkBf.Length == stride / 4 * h
    }

    function Words(): nat { stride / 4 }

    predicate OnScreen(x: int, y: int) { 0 <= x < w && 0 <= y < h }

    /** The word at (x, y), which may lie in the padding right of the screen. */
    ghost function Word(x: nat, y: nat): Color
      requires Valid() && x < Words() && y < h
      reads bkBf
    {
      AtIsInside(Words(), h, x, y);
      bkBf[At(Words(), x, y)]
    }

    /** The pixel changes if it is on the screen; nothing else does. */
    method DrawPix(x: int, y: int, color: Color)
      requires Valid()
      modifies bkBf
      ensures forall u: nat, v: nat :: u < Words() && v < h ==>
                Word(u, v) == if OnScreen(x, y) && (u, v) == (x, y) then color else old(Word(u, v))
    {
      hide At;
      if 0 <= x < w && 0 <= y < h {
        AtIsInside(Words(), h, x, y);
        forall u: nat, v: nat | u < Words() && At(Words(), u, v) == At(Words(), x, y) ensures u == x && v == y {
          AtIsInjective(Words(), u, v, x, y);
        }
        bkBf[At(Words(), x, y)] := color;
      }
    }

    /** Exactly Major() + 1 points are drawn, the k-th one being `PointAt(k)`; the ones on the screen, and
      * no other word of the buffer, take the colour. */
    method DrawLine(x0: int, y0: int, x1: int, y1: int, color: Color)
      returns (ghost drawn: seq<(int, int)>)
      requires Valid()
      modifies bkBf
      ensures var s := Segment(x0, y0, x1, y1);
              && |drawn| == s.Major() + 1
              && (forall k: nat :: k < |drawn| ==> drawn[k] == s.PointAt(k))
              && (forall u: nat, v: nat :: u < Words() && v < h ==>
                    Word(u, v) == if u < w && (u, v) in drawn then color else old(Word(u, v)))
    {
      hide Nearest, Segment.PointAt, Lead;
      ghost var s := Segment(x0, y0, x1, y1);
      ghost var k: nat := 0;
      drawn := [];
      var dx, dy := Abs(x1 - x0), 0 - Abs(y1 - y0);
      var sx, sy := if x0 < x1 then 1 else -1, if y0 < y1 then 1 else -1;
      var err := dx + dy;
      var x, y := x0, y0;
      StartsAndEnds(s);
      FirstError(s);
      while true
        invariant k <= s.Major() && |drawn| == k && (x, y) == s.PointAt(k) && err == Error(s, k)
        invariant forall i: nat :: i < k ==> drawn[i] == s.PointAt(i)
        invariant forall u: nat, v: nat :: u < Words() && v < h ==>
                    Word(u, v) == if u < w && (u, v) in drawn then color else old(Word(u, v))
        decreases s.Major() - k
      {
        DrawPix(x, y, color);
        drawn := drawn + [(x, y)];
        NotYet(s, k);
        if x == x1 && y == y1 { break; }
        OneStep(s, k);
        var e2 := 2 * err;
        if e2 >= dy {
          err := err + dy;
          x := x + sx;
        }
        if e2 <= dx {
          err := err + dx;
          y := y + sy;
        }
        k := k + 1;
      }
    }
  }

  // ---------------------------------------------------------------- the running error

  /** What `err` holds once k points are behind. */
  ghost function Error(s: Segment, k: nat): int {
    var (a, b) := s.Steps(k);
    (if s.Dx() >= s.Dy() then Lead(a, b, s.Dy(), s.Dx()) else -Lead(b, a, s.Dx(), s.Dy())) + s.Dx() - s.Dy()
  }

  lemma FirstError(s: Segment)
    ensures Error(s, 0) == s.Dx() - s.Dy()
  {
    NearestEnds(s.Dy(), s.Dx());
    NearestEnds(s.Dx(), s.Dy());
  }

  /** The endpoint is not met before the last point. */
  lemma NotYet(s: Segment, k: nat)
    requires k <= s.Major()
    ensures s.PointAt(k) == (s.x1, s.y1) <==> k == s.Major()
  {
    hide Nearest;
    StartsAndEnds(s);
  }

  /** The two comparisons of one round make exactly the step to the next point. */
  lemma OneStep(s: Segment, k: nat)
    requires k < s.Major()
    ensures var e2 := 2 * Error(s, k);
            var (right, down) := (e2 >= 0 - s.Dy(), e2 <= s.Dx());
            && s.PointAt(k + 1) == (s.PointAt(k).0 + (if right then Sign(s.x0, s.x1) else 0),
                                    s.PointAt(k).1 + (if down then Sign(s.y0, s.y1) else 0))
            && Error(s, k + 1) == Error(s, k) + (if right then 0 - s.Dy() else 0) + (if down then s.Dx() else 0)
  {
    hide Nearest, Lead;
    if s.Dx() >= s.Dy() {
      var m := Nearest(k, s.Dy(), s.Dx());
      NextNearest(k, m, s.Dy(), s.Dx());
      LeadSteps(k, m, s.Dy(), s.Dx());
      LeadSteps(k + 1, m, s.Dy(), s.Dx());
    } else {
      var m := Nearest(k, s.Dx(), s.Dy());
      NextNearest(k, m, s.Dx(), s.Dy());
      LeadSteps(k, m, s.Dx(), s.Dy());
      LeadSteps(k + 1, m, s.Dx(), s.Dy());
    }
  }
}
