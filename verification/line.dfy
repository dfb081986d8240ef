/** The line of gui/draw.c, Bresenham's algorithm.

With `i` and `j` the steps taken so far along the two axes, the running error is
`dx * (j + 1) - dy * (i + 1)`. `Off` is how far `(i, j)` is from the ideal line,
measured along the shorter axis in units of one over the longer side; the proof
is that the two comparisons keep it within half a pixel. The values it takes are
the multiples of the greatest common divisor of the two sides in that range, which
gives the lines for which nothing computed on the way leaves 32 bits. */
module Line {
  import Arith

  datatype Point = Point(x: int, y: int)

  function Abs(a: int): nat {
    if a < 0 then -a else a
  }

  function Max(a: int, b: int): int {
    if a > b then a else b
  }

  function Longer(p: Point, q: Point): nat {
    Max(Abs(q.x - p.x), Abs(q.y - p.y))
  }

  predicate Between(a: int, b: int, c: int) {
    a <= b <= c || c <= b <= a
  }

  /** `r` is at most half a pixel from the line from `p` to `q`. */
  predicate Near(p: Point, q: Point, r: Point) {
    2 * Abs((r.y - p.y) * (q.x - p.x) - (r.x - p.x) * (q.y - p.y)) <= Longer(p, q)
  }

  /** `r` is the pixel of the line in the `n`-th column or row from `p`, counted
      along the longer side. */
  predicate Plotted(p: Point, q: Point, n: nat, r: Point) {
    && Near(p, q, r) && Between(p.x, r.x, q.x) && Between(p.y, r.y, q.y)
    && n == if Abs(q.x - p.x) >= Abs(q.y - p.y) then Abs(r.x - p.x) else Abs(r.y - p.y)
  }

  function Off(dx: nat, dy: nat, i: nat, j: nat): int {
    j * dx - i * dy
  }

  /** Within half a pixel; of two pixels equally near the code takes the first
      it comes to. */
  predicate Centred(dx: nat, dy: nat, v: int) {
    if dx >= dy then 0 - dx <= 2 * v && (2 * v < dx || v == 0) else 0 - dy < 2 * v <= dy
  }

  /** `(i, j)` are the steps taken after `n` rounds. */
  predicate Good(dx: nat, dy: nat, n: nat, i: nat, j: nat) {
    i <= dx && j <= dy && n == (if dx >= dy then i else j) && Centred(dx, dy, Off(dx, dy, i, j))
  }

  /** There is only one such pair. */
  lemma GoodUnique(dx: nat, dy: nat, n: nat, i: nat, j: nat, i': nat, j': nat)
    requires Good(dx, dy, n, i, j) && Good(dx, dy, n, i', j')
    ensures i == i' && j == j'
  {
    if dx >= dy {
      Arith.MulSign(j - j', dx);
      Distribute(dx, j, j');
    } else {
      Arith.MulSign(i - i', dy);
      Distribute(dy, i, i');
    }
  }

  function Error(dx: nat, dy: nat, i: nat, j: nat): int {
    dx * (j + 1) - dy * (i + 1)
  }

  lemma ErrorOff(dx: nat, dy: nat, i: nat, j: nat)
    ensures Error(dx, dy, i, j) == Off(dx, dy, i, j) + dx - dy
    ensures Error(dx, dy, i + 1, j) == Error(dx, dy, i, j) - dy
    ensures Error(dx, dy, i, j + 1) == Error(dx, dy, i, j) + dx
    ensures Off(dx, dy, i + 1, j) == Off(dx, dy, i, j) - dy
    ensures Off(dx, dy, i, j + 1) == Off(dx, dy, i, j) + dx
  {
  }

  /** Less than one unit off at the end of the longer side is not off at all. */
  lemma EndExact(dx: nat, dy: nat, i: nat, j: nat)
    requires 0 < Max(dx, dy) && 0 - Max(dx, dy) <= 2 * Off(dx, dy, i, j) <= Max(dx, dy)
    ensures dx >= dy && i == dx ==> j == dy
    ensures dx < dy && j == dy ==> i == dx
    ensures dx == dy ==> i == j
  {
    if dx == dy {
      Multiple(dx, j - i, Off(dx, dy, i, j)) by { Distribute(dx, j, i); }
    }
    if dx >= dy && i == dx {
      Multiple(dx, j - dy, Off(dx, dy, i, j)) by { Distribute(dx, j, dy); }
    }
    if dx < dy && j == dy {
      Multiple(dy, dx - i, Off(dx, dy, i, j)) by { Distribute(dy, dx, i); }
    }
  }

  lemma Distribute(a: nat, k: int, l: int)
    ensures (k - l) * a == k * a - l * a == a * k - l * a
  {
  }

  /** A multiple of `a` that is at most half of it is zero. */
  lemma Multiple(a: nat, k: int, v: int)
    requires a > 0 && v == k * a && 0 - a <= 2 * v <= a
    ensures k == 0
  {
    Arith.MulSign(k - 1, a);
    Arith.MulSign(0 - k - 1, a);
  }

  /** Not past the end on the shorter side either. */
  lemma ShortSide(dx: nat, dy: nat, i: nat, j: nat)
    requires 0 < Max(dx, dy) && 0 - Max(dx, dy) <= 2 * Off(dx, dy, i, j) <= Max(dx, dy)
    ensures dx >= dy && i <= dx ==> j <= dy
    ensures dx < dy && j <= dy ==> i <= dx
  {
    if dx >= dy && i <= dx {
      Short(dx, dy, i, j);
    }
    if dx < dy && j <= dy {
      Short(dy, dx, j, i);
    }
  }

  lemma Short(long: nat, short: nat, i: nat, j: nat)
    requires 0 < long && i <= long && 2 * (j * long - i * short) <= long
    ensures j <= short
  {
    Arith.MulSign(long - i, short);
    Arith.MulSign(j - short - 1, long);
  }

  lemma GoodEnd(dx: nat, dy: nat, n: nat, i: nat, j: nat)
    requires Good(dx, dy, n, i, j)
    ensures n <= Max(dx, dy) && (n == Max(dx, dy) <==> i == dx && j == dy)
  {
    if n == Max(dx, dy) && n > 0 {
      EndExact(dx, dy, i, j);
    }
  }

  /** One round of the loop: one step along the longer side, and one along the
      shorter exactly when it is needed to stay within half a pixel. */
  lemma GoodStep(dx: nat, dy: nat, n: nat, i: nat, j: nat)
    requires Good(dx, dy, n, i, j) && n < Max(dx, dy)
    ensures var e2 := 2 * Error(dx, dy, i, j);
            Good(dx, dy, n + 1, if e2 > 0 - dy then i + 1 else i, if e2 < dx then j + 1 else j)
  {
    hide Off, Error;
    ErrorOff(dx, dy, i, j);
    ErrorOff(dx, dy, i + 1, j);
    if dx == dy {
      EndExact(dx, dy, i, j);
      OffDiagonal(dx, i);
    }
    var e2 := 2 * Error(dx, dy, i, j);
    ShortSide(dx, dy, if e2 > 0 - dy then i + 1 else i, if e2 < dx then j + 1 else j);
  }

  lemma OffDiagonal(dx: nat, i: nat)
    ensures Off(dx, dx, i, i) == 0
  {
  }

  function Along(a: int, b: int, k: nat): int {
    a + (if a < b then k else 0 - k)
  }

  lemma GoodPlotted(p: Point, q: Point, n: nat, i: nat, j: nat)
    requires Good(Abs(q.x - p.x), Abs(q.y - p.y), n, i, j)
    ensures Plotted(p, q, n, Point(Along(p.x, q.x, i), Along(p.y, q.y, j)))
  {
    var dx, dy := q.x - p.x, q.y - p.y;
    var r := Point(Along(p.x, q.x, i), Along(p.y, q.y, j));
    Signs(dx, dy, r.x - p.x, r.y - p.y, Abs(dx), Abs(dy), i, j);
  }

  lemma Signs(dx: int, dy: int, u: int, v: int, a: int, b: int, i: int, j: int)
    requires (dx == a && u == i) || (dx == -a && u == -i)
    requires (dy == b && v == j) || (dy == -b && v == -j)
    ensures Abs(v * dx - u * dy) == Abs(j * a - i * b)
  {
  }

  predicate Adjacent(r: Point, s: Point) {
    Abs(s.x - r.x) <= 1 && Abs(s.y - r.y) <= 1 && r != s
  }

  lemma Start(dx: nat, dy: nat)
    ensures Good(dx, dy, 0, 0, 0) && Error(dx, dy, 0, 0) == dx - dy
  {
  }

  lemma EndPoint(p: Point, q: Point, i: nat, j: nat)
    ensures Along(p.x, q.x, i) == q.x <==> i == Abs(q.x - p.x)
    ensures Along(p.y, q.y, j) == q.y <==> j == Abs(q.y - p.y)
  {
  }

  /** Every round moves. */
  lemma Moves(dx: nat, dy: nat, n: nat, i: nat, j: nat)
    requires Good(dx, dy, n, i, j) && n < Max(dx, dy)
    ensures 2 * Error(dx, dy, i, j) > 0 - dy || 2 * Error(dx, dy, i, j) < dx
  {
    hide Off, Error;
    ErrorOff(dx, dy, i, j);
    if dx == dy {
      EndExact(dx, dy, i, j);
      OffDiagonal(dx, i);
    }
  }

  // ---------------------------------------------------------------------
  // In 32 bits
  // ---------------------------------------------------------------------

  const MAX_INT: int := 0x7FFF_FFFF

  predicate Word(v: int) {
    0 - MAX_INT - 1 <= v <= MAX_INT
  }

  /** The values computed in the round after `i` and `j` steps. */
  predicate RoundFits(dx: nat, dy: nat, i: nat, j: nat) {
    var e := Error(dx, dy, i, j);
    var f := if 2 * e > 0 - dy then e - dy else e;
    Word(2 * e) && Word(f) && Word(if 2 * e < dx then f + dx else f)
  }

  ghost predicate RoundsFit(dx: nat, dy: nat, n: nat) {
    forall m: nat, i: nat, j: nat | m < n && Good(dx, dy, m, i, j) :: RoundFits(dx, dy, i, j)
  }

  lemma RoundsFitNext(dx: nat, dy: nat, n: nat, i: nat, j: nat)
    requires Good(dx, dy, n, i, j)
    ensures RoundsFit(dx, dy, n + 1) <==> RoundsFit(dx, dy, n) && RoundFits(dx, dy, i, j)
  {
    hide Good, RoundFits;
    forall m: nat, i': nat, j': nat | m == n && Good(dx, dy, m, i', j')
      ensures i' == i && j' == j
    {
      GoodUnique(dx, dy, n, i, j, i', j');
    }
  }

  function Gcd(a: nat, b: nat): nat
    decreases b
  {
    if b == 0 then a else Gcd(b, a % b)
  }

  /** The extended algorithm of Euclid. */
  lemma {:induction false} Euclid(a: nat, b: nat) returns (x: int, y: int, u: nat, v: nat)
    requires a > 0 || b > 0
    ensures Gcd(a, b) > 0 && x * a + y * b == Gcd(a, b) && a == u * Gcd(a, b) && b == v * Gcd(a, b)
    decreases b
  {
    if b == 0 {
      x, y, u, v := 1, 0, 1, 0;
    } else {
      var q, c := a / b, a % b;
      Arith.QuotientNat(a, b);
      var s, t, k, l := Euclid(b, c);
      EuclidStep(a, b, q, c, s, t, k, l, Gcd(b, c));
      x, y, u, v := t, s - q * t, q * k + l, k;
    }
  }

  lemma EuclidStep(a: nat, b: nat, q: nat, c: nat, s: int, t: int, k: nat, l: nat, g: nat)
    requires a == q * b + c && s * b + t * c == g && b == k * g && c == l * g
    ensures t * a + (s - q * t) * b == g && a == (q * k + l) * g && q * k + l >= 0
  {
    calc {
      t * a + (s - q * t) * b;
      t * (q * b + c) + (s - q * t) * b;
      t * q * b + t * c + s * b - q * t * b;
      s * b + t * c;
    }
    calc {
      (q * k + l) * g;
      q * (k * g) + l * g;
      a;
    }
  }

  /** The largest multiple of `g` below half of `a`, which is one itself. */
  function Below(a: nat, g: nat): int
    requires g > 0
  {
    g * ((a / g - 1) / 2)
  }

  /** The largest not above half of `a`. */
  function AtMost(a: nat, g: nat): int
    requires g > 0
  {
    g * (a / g / 2)
  }

  lemma BelowIs(a: nat, g: nat, u: nat, k: int)
    requires g > 0 && a == u * g && u > 0
    ensures Below(a, g) == ((u - 1) / 2) * g && 2 * Below(a, g) < a && (2 * (k * g) < a ==> k * g <= Below(a, g))
  {
    Arith.DivUnique(a, g, u, 0);
    HalfBelow(g, u, (u - 1) / 2, k);
  }

  lemma HalfBelow(g: nat, u: nat, h: nat, k: int)
    requires g > 0 && u - 2 <= 2 * h <= u - 1
    ensures 2 * (h * g) < u * g && (2 * (k * g) < u * g ==> k * g <= h * g)
  {
    Scale(g, 2 * h, u);
    Scale(g, u, 2 * k);
    Scale(g, k, h);
  }

  lemma AtMostIs(a: nat, g: nat, u: nat, k: int)
    requires g > 0 && a == u * g && u > 0
    ensures AtMost(a, g) == (u / 2) * g && 2 * AtMost(a, g) <= a && (2 * (k * g) <= a ==> k * g <= AtMost(a, g))
  {
    Arith.DivUnique(a, g, u, 0);
    HalfAtMost(g, u, u / 2, k);
  }

  lemma HalfAtMost(g: nat, u: nat, h: nat, k: int)
    requires g > 0 && u - 1 <= 2 * h <= u
    ensures 2 * (h * g) <= u * g && (2 * (k * g) <= u * g ==> k * g <= h * g)
  {
    Scale(g, 2 * h, u);
    Scale(g, u, 2 * k);
    Scale(g, k, h);
  }

  lemma Scale(g: nat, a: int, b: int)
    ensures a <= b ==> a * g <= b * g
    ensures a < b ==> a * g + g <= b * g
  {
    Arith.MulSign(b - a, g);
    Distribute(g, b, a);
  }

  lemma Solve(long: nat, short: nat, k: int) returns (s: nat, t: int)
    requires long > 0
    ensures s < long && t * long - s * short == k * Gcd(long, short)
  {
    var x, y, u, v := Euclid(long, short);
    var w := 0 - k * y;
    var q := w / long;
    s, t := w % long, k * x - q * short;
    SolveIs(long, short, k, x, y, Gcd(long, short), q, s);
  }

  lemma SolveIs(long: nat, short: nat, k: int, x: int, y: int, g: nat, q: int, s: nat)
    requires x * long + y * short == g && 0 - k * y == q * long + s
    ensures (k * x - q * short) * long - s * short == k * g
  {
    calc {
      (k * x - q * short) * long - s * short;
      k * x * long - q * short * long - s * short;
      k * x * long - (q * long + s) * short;
      k * x * long + k * y * short;
      k * (x * long + y * short);
    }
  }

  lemma NotNegative(long: nat, short: nat, s: nat, t: int, v: int)
    requires long > 0 && t * long - s * short == v && 0 - long <= 2 * v
    ensures t >= 0
  {
    Arith.MulSign(t, long);
    Arith.MulSign(s, short);
  }

  /** The rounds reach every multiple of the greatest common divisor, and no
      other value: `OffMultiple`. */
  lemma Reached(dx: nat, dy: nat, k: int) returns (n: nat, i: nat, j: nat)
    requires Max(dx, dy) > 0 && Centred(dx, dy, k * Gcd(dx, dy))
    ensures n < Max(dx, dy) && Good(dx, dy, n, i, j) && Off(dx, dy, i, j) == k * Gcd(dx, dy)
  {
    hide Gcd;
    var v, t := k * Gcd(dx, dy), 0;
    if dx >= dy {
      i, t := Solve(dx, dy, k);
      NotNegative(dx, dy, i, t, v);
      n, j := i, t;
    } else {
      GcdSwap(dx, dy);
      j, t := Solve(dy, dx, 0 - k);
      NotNegative(dy, dx, j, t, 0 - v);
      n, i := j, t;
    }
    ShortSide(dx, dy, i, j);
  }

  lemma GcdSwap(a: nat, b: nat)
    requires a < b
    ensures Gcd(a, b) == Gcd(b, a)
  {
    Arith.DivUnique(a, b, 0, a);
  }

  lemma OffMultiple(dx: nat, dy: nat, i: nat, j: nat) returns (k: int)
    requires Max(dx, dy) > 0
    ensures Off(dx, dy, i, j) == k * Gcd(dx, dy)
  {
    var x, y, u, v := Euclid(dx, dy);
    k := j * u - i * v;
  }

  /** Twice the error is twice the difference of the sides, give or take the longer side. */
  lemma ErrorBound(dx: nat, dy: nat, n: nat, i: nat, j: nat)
    requires Good(dx, dy, n, i, j)
    ensures 2 * (dx - dy) - Max(dx, dy) <= 2 * Error(dx, dy, i, j) <= 2 * (dx - dy) + Max(dx, dy)
  {
    hide Off, Error;
    ErrorOff(dx, dy, i, j);
  }

  /** What the two sides must satisfy. On a wide line the doubled error can grow
      too large, and the error less `dy` too small; on a tall one both can be too
      small. */
  predicate SidesFit(dx: nat, dy: nat)
    requires Gcd(dx, dy) > 0
  {
    var g := Gcd(dx, dy);
    if dx >= dy then
      2 * (dx - dy) + 2 * Below(dx, g) <= MAX_INT && 0 - MAX_INT - 1 <= dx - 2 * dy - AtMost(dx, g)
    else
      0 - MAX_INT - 1 <= 2 * (dx - dy) - 2 * Below(dy, g) && (dx > 0 ==> 0 - MAX_INT - 1 <= 0 - Below(dy, g) - dy)
  }

  predicate Fits(dx: nat, dy: nat) {
    && dx <= MAX_INT && dy <= MAX_INT
    && (Max(dx, dy) > 0 && Gcd(dx, dy) > 0 ==> SidesFit(dx, dy))
  }

  lemma WideFirst(dx: nat, dy: nat, n: nat, i: nat, j: nat)
    requires Good(dx, dy, n, i, j) && dx >= dy && n < dx
    ensures 2 * Error(dx, dy, i, j) > 0 - dy
  {
    hide Off, Error;
    ErrorOff(dx, dy, i, j);
    if dx == dy {
      EndExact(dx, dy, i, j);
      OffDiagonal(dx, i);
    }
  }

  lemma OffRange(dx: nat, dy: nat, i: nat, j: nat)
    requires Centred(dx, dy, Off(dx, dy, i, j)) && Max(dx, dy) > 0
    ensures Gcd(dx, dy) > 0 && 0 <= Below(Max(dx, dy), Gcd(dx, dy))
    ensures dx >= dy ==> 0 - AtMost(dx, Gcd(dx, dy)) <= Off(dx, dy, i, j) <= Below(dx, Gcd(dx, dy))
    ensures dx < dy ==> 0 - Below(dy, Gcd(dx, dy)) <= Off(dx, dy, i, j)
  {
    hide Off, Gcd, Below, AtMost;
    var x, y, u, v := Euclid(dx, dy);
    var k := OffMultiple(dx, dy, i, j);
    var g := Gcd(dx, dy);
    var w := if dx >= dy then u else v;
    assert (0 - k) * g == 0 - k * g;
    BelowIs(Max(dx, dy), g, w, 0);
    if dx >= dy {
      BelowIs(dx, g, u, k);
      AtMostIs(dx, g, u, 0 - k);
    } else {
      BelowIs(dy, g, v, 0 - k);
    }
  }

  lemma WideFits(dx: nat, dy: nat, n: nat, i: nat, j: nat)
    requires Good(dx, dy, n, i, j) && n < dx && dy <= dx <= MAX_INT && Gcd(dx, dy) > 0 && SidesFit(dx, dy)
    ensures RoundFits(dx, dy, i, j)
  {
    hide Off, Error, Gcd, Below, AtMost;
    OffRange(dx, dy, i, j);
    ErrorOff(dx, dy, i, j);
  }

  lemma TallFits(dx: nat, dy: nat, n: nat, i: nat, j: nat)
    requires Good(dx, dy, n, i, j) && n < dy && dx < dy <= MAX_INT && Gcd(dx, dy) > 0 && SidesFit(dx, dy)
    ensures RoundFits(dx, dy, i, j)
  {
    hide Off, Error, Gcd, Below, AtMost;
    OffRange(dx, dy, i, j);
    ErrorOff(dx, dy, i, j);
    ErrorOff(dx, dy, i + 1, j);
    if 2 * Error(dx, dy, i, j) > 0 - dy {
      OffRange(dx, dy, i + 1, j + 1);
    }
    if dx == 0 {
      OffVertical(dy, j);
    }
  }

  lemma OffVertical(dy: nat, j: nat)
    ensures Off(0, dy, 0, j) == 0
  {
  }

  // Each of the bounds is met by some round.

  lemma WideNeeded(dx: nat, dy: nat)
    requires dx >= dy && dx > 0 && Gcd(dx, dy) > 0 && RoundsFit(dx, dy, dx)
    ensures SidesFit(dx, dy)
  {
    hide Off, Error, Gcd, Below, AtMost, Good;
    var x, y, u, v := Euclid(dx, dy);
    var g := Gcd(dx, dy);
    BelowIs(dx, g, u, 0);
    AtMostIs(dx, g, u, 0);
    var n, i, j := Reached(dx, dy, (u - 1) / 2);
    ErrorOff(dx, dy, i, j);
    assert RoundFits(dx, dy, i, j);
    var h: int := u / 2;
    assert -h * g == -AtMost(dx, g);
    n, i, j := Reached(dx, dy, -h);
    ErrorOff(dx, dy, i, j);
    WideFirst(dx, dy, n, i, j);
    assert RoundFits(dx, dy, i, j);
  }

  lemma TallNeeded(dx: nat, dy: nat)
    requires dx < dy && Gcd(dx, dy) > 0 && RoundsFit(dx, dy, dy)
    ensures SidesFit(dx, dy)
  {
    hide Off, Error, Gcd, Below, AtMost, Good;
    var x, y, u, v := Euclid(dx, dy);
    var g := Gcd(dx, dy);
    var h: int := (v - 1) / 2;
    BelowIs(dy, g, v, 0);
    assert -h * g == -Below(dy, g);
    var n, i, j := Reached(dx, dy, -h);
    ErrorOff(dx, dy, i, j);
    assert RoundFits(dx, dy, i, j);
    if dx > 0 {
      Before(dx, dy, g, u, v, h);
      n, i, j := Reached(dx, dy, v - u - h);
      ErrorOff(dx, dy, i, j);
      assert RoundFits(dx, dy, i, j);
    }
  }

  /** The round before the lowest. */
  lemma Before(dx: nat, dy: nat, g: nat, u: nat, v: nat, h: nat)
    requires 0 < dx < dy && g > 0 && dx == u * g && dy == v * g && v - 2 <= 2 * h <= v - 1
    ensures (v - u - h) * g == dy - dx - h * g && Centred(dx, dy, (v - u - h) * g)
  {
    Distribute(g, v - u, h);
    Distribute(g, v, u);
    Scale(g, 2 * h, v);
    Scale(g, v, 2 * u + 2 * h);
  }

  lemma RoundsExact(dx: nat, dy: nat)
    requires dx <= MAX_INT && dy <= MAX_INT
    ensures RoundsFit(dx, dy, Max(dx, dy)) <==> Fits(dx, dy)
  {
    hide Good, RoundFits, SidesFit, Gcd;
    if Max(dx, dy) > 0 {
      var x, y, u, v := Euclid(dx, dy);
      if RoundsFit(dx, dy, Max(dx, dy)) {
        if dx >= dy {
          WideNeeded(dx, dy);
        } else {
          TallNeeded(dx, dy);
        }
      }
      if SidesFit(dx, dy) {
        forall n: nat, i: nat, j: nat | n < Max(dx, dy) && Good(dx, dy, n, i, j)
          ensures RoundFits(dx, dy, i, j)
        {
          if dx >= dy {
            WideFits(dx, dy, n, i, j);
          } else {
            TallFits(dx, dy, n, i, j);
          }
        }
      }
    }
  }

  // What this comes to for some kinds of line.

  lemma GcdSame(a: nat)
    ensures Gcd(a, a) == a
  {
    if a > 0 {
      Arith.DivUnique(a, a, 1, 0);
    }
  }

  /** Horizontal lines are drawn up to a length below 2^30, vertical ones up to
      2^30, diagonals whenever the sides fit. */
  lemma StraightExact(d: nat)
    ensures Fits(d, 0) <==> d < 0x4000_0000
    ensures Fits(0, d) <==> d <= 0x4000_0000
    ensures Fits(d, d) <==> d <= MAX_INT
  {
    hide Gcd, Below, AtMost;
    if d > 0 {
      GcdZero(d);
      GcdSwap(0, d);
      GcdSame(d);
      BelowIs(d, d, 1, 0);
      AtMostIs(d, d, 1, 0);
    }
  }

  lemma GcdZero(a: nat)
    ensures Gcd(a, 0) == a
  {
  }

  /** A line fits if twice the difference of its sides plus the longer one does, and
      three halves of the longer one do. */
  lemma FitsEnough(dx: nat, dy: nat)
    requires 2 * Abs(dx - dy) + Max(dx, dy) <= MAX_INT && 3 * Max(dx, dy) <= 2 * (MAX_INT + 1)
    ensures Fits(dx, dy)
  {
    hide Gcd, Below, AtMost;
    if Max(dx, dy) > 0 && Gcd(dx, dy) > 0 {
      var x, y, u, v := Euclid(dx, dy);
      if dx >= dy {
        BelowIs(dx, Gcd(dx, dy), u, 0);
        AtMostIs(dx, Gcd(dx, dy), u, 0);
      } else {
        BelowIs(dy, Gcd(dx, dy), v, 0);
      }
    }
  }

  /** Twice the difference of the sides must fit: it is the first value of all. */
  lemma FitsNeeds(dx: nat, dy: nat)
    requires Fits(dx, dy)
    ensures Word(2 * (dx - dy))
  {
    hide Gcd, Below, AtMost, SidesFit, Error, Off;
    RoundsExact(dx, dy);
    Start(dx, dy);
    if Max(dx, dy) > 0 {
      assert RoundFits(dx, dy, 0, 0);
    }
  }

  /** The first condition of `FitsEnough` does not suffice alone. */
  lemma NearDiagonal()
    ensures var dx, dy := 0x7FFF_FFFD, 0x7FFF_FFFC; 2 * Abs(dx - dy) + Max(dx, dy) <= MAX_INT && !Fits(dx, dy)
  {
    assert Gcd(0x7FFF_FFFD, 0x7FFF_FFFC) == Gcd(0x7FFF_FFFC, 1) == Gcd(1, 0) == 1;
  }

  /** The pixels set so far. */
  ghost predicate Drawn(p: Point, q: Point, pixels: seq<Point>) {
    && (pixels != [] ==> pixels[0] == p)
    && (forall n: nat | n < |pixels| :: Plotted(p, q, n, pixels[n]))
    && (forall n | 0 < n < |pixels| :: Adjacent(pixels[n - 1], pixels[n]))
  }

  lemma DrawnNext(p: Point, q: Point, pixels: seq<Point>, r: Point)
    requires Drawn(p, q, pixels) && Plotted(p, q, |pixels|, r)
    requires if pixels == [] then r == p else Adjacent(pixels[|pixels| - 1], r)
    ensures Drawn(p, q, pixels + [r])
  {
    hide Plotted, Adjacent;
  }

  lemma DrawnIs(p: Point, q: Point, pixels: seq<Point>)
    requires Drawn(p, q, pixels)
    ensures pixels != [] ==> pixels[0] == p
    ensures forall n: nat | n < |pixels| :: Plotted(p, q, n, pixels[n])
    ensures forall n | 0 < n < |pixels| :: Adjacent(pixels[n - 1], pixels[n])
  {
    hide Plotted, Adjacent;
  }

  /** draw_line, with the pixels it sets in order: one per column or row of the
      longer side, each within half a pixel of the ideal line and inside the box
      of the two end points, from the first to the last without gaps. `fits` says
      that all values computed on the way fit 32 bits. */
  method DrawLine(p: Point, q: Point) returns (pixels: seq<Point>, ghost fits: bool)
    ensures |pixels| == Longer(p, q) + 1
    ensures pixels[0] == p && pixels[Longer(p, q)] == q
    ensures forall n: nat | n < |pixels| :: Plotted(p, q, n, pixels[n])
    ensures forall n | 0 < n < |pixels| :: Adjacent(pixels[n - 1], pixels[n])
    ensures fits <==> Fits(Abs(q.x - p.x), Abs(q.y - p.y))
  {
    hide Good, Plotted, Error, Adjacent, RoundsFit, RoundFits, Fits, Drawn, Along;
    var dx := q.x - p.x;
    fits := Word(dx);
    if dx < 0 {
      dx := -dx;
    }
    var dy := q.y - p.y;
    fits := fits && Word(dx) && Word(dy);
    if dy < 0 {
      dy := -dy;
    }
    var sx := if p.x < q.x then 1 else -1;
    var sy := if p.y < q.y then 1 else -1;
    var err := dx - dy;
    fits := fits && Word(dy) && Word(err);
    ghost var small := fits;
    var x, y := p.x, p.y;
    ghost var i: nat, j: nat := 0, 0;
    pixels := [];
    Start(dx, dy);
    StartHere(p, q, dx, dy);
    while true
      invariant |pixels| <= Longer(p, q)
      invariant x == Along(p.x, q.x, i) && y == Along(p.y, q.y, j) && err == Error(dx, dy, i, j)
      invariant Good(dx, dy, |pixels|, i, j)
      invariant Drawn(p, q, pixels)
      invariant if pixels == [] then x == p.x && y == p.y else Adjacent(pixels[|pixels| - 1], Point(x, y))
      invariant fits <==> small && RoundsFit(dx, dy, |pixels|)
      decreases Longer(p, q) - |pixels|
    {
      GoodPlotted(p, q, |pixels|, i, j);
      GoodEnd(dx, dy, |pixels|, i, j);
      DrawnNext(p, q, pixels, Point(x, y));
      pixels := pixels + [Point(x, y)];
      EndPoint(p, q, i, j);
      if x == q.x && y == q.y {
        break;
      }
      RoundsFitNext(dx, dy, |pixels| - 1, i, j);
      ghost var round;
      x, y, err, i, j, round := Move(p, q, dx, dy, sx, sy, |pixels| - 1, x, y, err, i, j);
      fits := fits && round;
    }
    DrawnIs(p, q, pixels);
    FitsSmall(dx, dy);
    if small {
      RoundsExact(dx, dy);
    }
  }

  lemma StartHere(p: Point, q: Point, dx: nat, dy: nat)
    ensures RoundsFit(dx, dy, 0) && Drawn(p, q, []) && Along(p.x, q.x, 0) == p.x && Along(p.y, q.y, 0) == p.y
  {
  }

  lemma FitsSmall(dx: nat, dy: nat)
    ensures Fits(dx, dy) ==> dx <= MAX_INT && dy <= MAX_INT
  {
  }

  /** One round of the loop, after the end test. */
  method Move(p: Point, q: Point, dx: nat, dy: nat, sx: int, sy: int, ghost n: nat, x: int, y: int, err: int,
              ghost i: nat, ghost j: nat)
    returns (x': int, y': int, err': int, ghost i': nat, ghost j': nat, ghost fits: bool)
    requires Good(dx, dy, n, i, j) && n < Max(dx, dy) && err == Error(dx, dy, i, j)
    requires sx == (if p.x < q.x then 1 else -1) && sy == (if p.y < q.y then 1 else -1)
    requires x == Along(p.x, q.x, i) && y == Along(p.y, q.y, j)
    ensures Good(dx, dy, n + 1, i', j') && err' == Error(dx, dy, i', j')
    ensures x' == Along(p.x, q.x, i') && y' == Along(p.y, q.y, j') && Adjacent(Point(x, y), Point(x', y'))
    ensures fits == RoundFits(dx, dy, i, j)
  {
    hide Good, Error, Off;
    GoodStep(dx, dy, n, i, j);
    Moves(dx, dy, n, i, j);
    ErrorOff(dx, dy, i, j);
    x', y', err', i', j' := x, y, err, i, j;
    var e2 := 2 * err;
    fits := Word(e2);
    if e2 > 0 - dy {
      err' := err' - dy;
      x' := x' + sx;
      i' := i' + 1;
      ErrorOff(dx, dy, i', j');
    }
    fits := fits && Word(err');
    if e2 < dx {
      err' := err' + dx;
      y' := y' + sy;
      j' := j' + 1;
    }
    fits := fits && Word(err');
  }
}
