/**
 Numeric table cells as pandas sees them, over exact reals: a cell is missing
 (NaN / NA), a finite number, or an infinity. Arithmetic follows IEEE-754 on
 the extended reals (NaN absorbs; inf - inf, 0 * inf, 0 / 0 and inf / inf are
 NaN; x / 0 is an infinity of the sign of x), without rounding error and
 without signed zero (every zero denominator is taken as +0).
 */
module Cells {

  datatype Cell = Missing | Num(v: real) | Inf(negative: bool)

  function Neg(a: Cell): (r: Cell)
    ensures r.Missing? <==> a.Missing?
  {
    match a
    case Missing => Missing
    case Num(x) => Num(-x)
    case Inf(n) => Inf(!n)
  }

  /** IEEE addition: NaN absorbs, infinities of opposite sign give NaN. */
  function Add(a: Cell, b: Cell): (r: Cell)
    ensures r.Missing? <==> a.Missing? || b.Missing? || (a.Inf? && b.Inf? && a.negative != b.negative)
    ensures a.Num? && b.Num? ==> r == Num(a.v + b.v)
  {
    match (a, b)
    case (Missing, _) => Missing
    case (_, Missing) => Missing
    case (Num(x), Num(y)) => Num(x + y)
    case (Inf(n), Num(_)) => Inf(n)
    case (Num(_), Inf(n)) => Inf(n)
    case (Inf(n), Inf(m)) => if n == m then Inf(n) else Missing
  }

  function Sub(a: Cell, b: Cell): (r: Cell)
    ensures r.Missing? <==> a.Missing? || b.Missing? || (a.Inf? && b.Inf? && a.negative == b.negative)
    ensures a.Num? && b.Num? ==> r == Num(a.v - b.v)
  {
    Add(a, Neg(b))
  }

  /** IEEE multiplication: zero times an infinity is NaN. */
  function Mul(a: Cell, b: Cell): (r: Cell)
    ensures r.Missing? <==> a.Missing? || b.Missing? || (a.Inf? && b == Num(0.0)) || (a == Num(0.0) && b.Inf?)
    ensures a.Num? && b.Num? ==> r == Num(a.v * b.v)
  {
    match (a, b)
    case (Missing, _) => Missing
    case (_, Missing) => Missing
    case (Num(x), Num(y)) => Num(x * y)
    case (Inf(n), Num(y)) => if y == 0.0 then Missing else Inf(n != (y < 0.0))
    case (Num(x), Inf(n)) => if x == 0.0 then Missing else Inf(n != (x < 0.0))
    case (Inf(n), Inf(m)) => Inf(n != m)
  }

  /** IEEE division with a +0 denominator: x / 0 is +inf or -inf, 0 / 0 is NaN. */
  function Div(a: Cell, b: Cell): (r: Cell)
    ensures r.Missing? <==> a.Missing? || b.Missing? || (a.Inf? && b.Inf?) || (a == Num(0.0) && b == Num(0.0))
    ensures r.Inf? <==> (a.Inf? && b.Num?) || (a.Num? && a.v != 0.0 && b == Num(0.0))
    ensures a.Num? && b.Num? && b.v != 0.0 ==> r == Num(a.v / b.v)
  {
    match (a, b)
    case (Missing, _) => Missing
    case (_, Missing) => Missing
    case (Num(x), Num(y)) =>
      if y != 0.0 then Num(x / y)
      else if x == 0.0 then Missing
      else Inf(x < 0.0)
    case (Num(_), Inf(_)) => Num(0.0)
    case (Inf(n), Num(y)) => Inf(n != (y < 0.0))
    case (Inf(_), Inf(_)) => Missing
  }

  lemma {:induction false} DivSelf(a: Cell)
    requires a.Num? && a.v != 0.0
    ensures Div(a, a) == Num(1.0)
  {
  }

  // ---------------------------------------------------------------------------
  // Rounding

  function Pow10(n: nat): (r: nat)
    ensures r >= 1
  {
    if n == 0 then 1 else 10 * Pow10(n - 1)
  }

  /** `x` is a multiple of 1/scale. */
  predicate OnGridAt(x: real, scale: real)
  {
    (x * scale).Floor as real == x * scale
  }

  /** `x` is a multiple of 10^-digits. */
  predicate OnGrid(x: real, digits: nat)
  {
    OnGridAt(x, Pow10(digits) as real)
  }

  /** `r` lies within half a step of the 10^-digits grid from `x`. */
  predicate WithinHalfStep(r: real, x: real, digits: nat)
  {
    -0.5 <= (r - x) * Pow10(digits) as real <= 0.5
  }

  lemma MulLeq(a: real, b: real, s: real)
    requires a <= b && s > 0.0
    ensures a * s <= b * s
  {
    assert b * s - a * s == (b - a) * s;
  }

  lemma DivLeq(a: real, b: real, s: real)
    requires a <= b && s > 0.0
    ensures a / s <= b / s
  {
    assert b / s - a / s == (b - a) / s;
  }

  /** The integer nearest to `y`, ties to the even one. */
  function RoundToInt(y: real): (n: int)
    ensures -0.5 <= n as real - y <= 0.5
    ensures (n as real - y == 0.5 || n as real - y == -0.5) ==> n % 2 == 0
  {
    var f := y.Floor;
    var d := y - f as real;
    if d < 0.5 then f
    else if d > 0.5 then f + 1
    else if f % 2 == 0 then f
    else f + 1
  }

  /** The nearest multiple of 1/scale, ties to the even multiple. */
  function RoundAt(x: real, scale: real): real
    requires scale > 0.0
  {
    RoundToInt(x * scale) as real / scale
  }

  /** Python's round(x, digits) applied to the exact value: the nearest multiple
      of 10^-digits, ties to the even last digit. */
  function RoundHalfEven(x: real, digits: nat): real
  {
    RoundAt(x, Pow10(digits) as real)
  }

  lemma {:induction false} RoundAtProperties(x: real, scale: real)
    requires scale > 0.0
    ensures OnGridAt(RoundAt(x, scale), scale)
    ensures -0.5 <= (RoundAt(x, scale) - x) * scale <= 0.5
  {
    var n := RoundToInt(x * scale);
    var r := n as real / scale;
    assert RoundAt(x, scale) == r;
    assert r * scale == n as real;
    assert (n as real).Floor == n;
    assert (r * scale).Floor == n;
    assert OnGridAt(r, scale);
    assert (r - x) * scale == n as real - x * scale;
  }

  lemma {:induction false} RoundHalfEvenProperties(x: real, digits: nat)
    ensures OnGrid(RoundHalfEven(x, digits), digits)
    ensures WithinHalfStep(RoundHalfEven(x, digits), x, digits)
  {
    RoundAtProperties(x, Pow10(digits) as real);
  }

  lemma {:induction false} RoundToIntOfInt(n: int)
    ensures RoundToInt(n as real) == n
  {
  }

  lemma {:induction false} RoundAtOnGrid(x: real, scale: real)
    requires scale > 0.0 && OnGridAt(x, scale)
    ensures RoundAt(x, scale) == x
  {
    var y := x * scale;
    RoundToIntOfInt(y.Floor);
    assert RoundToInt(y) == y.Floor;
    assert y / scale == x;
  }

  /** A value already on the grid is left unchanged. */
  lemma {:induction false} RoundHalfEvenOnGrid(x: real, digits: nat)
    requires OnGrid(x, digits)
    ensures RoundHalfEven(x, digits) == x
  {
    RoundAtOnGrid(x, Pow10(digits) as real);
  }

  /** Rounding twice is rounding once. */
  lemma {:induction false} RoundHalfEvenIdempotent(x: real, digits: nat)
    ensures RoundHalfEven(RoundHalfEven(x, digits), digits) == RoundHalfEven(x, digits)
  {
    RoundHalfEvenProperties(x, digits);
    RoundHalfEvenOnGrid(RoundHalfEven(x, digits), digits);
  }

  lemma {:induction false} RoundToIntMonotone(y1: real, y2: real)
    requires y1 <= y2
    ensures RoundToInt(y1) <= RoundToInt(y2)
  {
    var f1, f2 := y1.Floor, y2.Floor;
    if f1 < f2 {
      assert RoundToInt(y1) <= f1 + 1 <= f2 <= RoundToInt(y2);
    }
  }

  lemma {:induction false} RoundAtMonotone(x1: real, x2: real, scale: real)
    requires x1 <= x2 && scale > 0.0
    ensures RoundAt(x1, scale) <= RoundAt(x2, scale)
  {
    MulLeq(x1, x2, scale);
    RoundToIntMonotone(x1 * scale, x2 * scale);
    DivLeq(RoundToInt(x1 * scale) as real, RoundToInt(x2 * scale) as real, scale);
  }

  lemma {:induction false} RoundHalfEvenMonotone(x1: real, x2: real, digits: nat)
    requires x1 <= x2
    ensures RoundHalfEven(x1, digits) <= RoundHalfEven(x2, digits)
  {
    RoundAtMonotone(x1, x2, Pow10(digits) as real);
  }

  /** pandas/numpy rounding of a cell: missing and infinite cells pass through. */
  function RoundCell(c: Cell, digits: nat): (r: Cell)
    ensures r.Missing? <==> c.Missing?
    ensures c.Inf? ==> r == c
    ensures c.Num? ==> r.Num? && OnGrid(r.v, digits) && WithinHalfStep(r.v, c.v, digits)
  {
    match c
    case Num(x) => RoundHalfEvenProperties(x, digits); Num(RoundHalfEven(x, digits))
    case _ => c
  }

  /** Whole numbers are on every grid. */
  lemma IntegerOnGrid(n: int, digits: nat)
    ensures OnGrid(n as real, digits)
  {
    var p := Pow10(digits);
    assert n as real * p as real == (n * p) as real;
    assert ((n * p) as real).Floor == n * p;
    assert OnGridAt(n as real, p as real);
  }

  /** A cell already on the grid is left unchanged by rounding. */
  lemma RoundCellOnGrid(c: Cell, digits: nat)
    requires c.Num? && OnGrid(c.v, digits)
    ensures RoundCell(c, digits) == c
  {
    RoundHalfEvenOnGrid(c.v, digits);
  }

  // ---------------------------------------------------------------------------
  // NaN-skipping mean (pandas mean with skipna)

  function CountPresent(cs: seq<Cell>): (n: nat)
    ensures n <= |cs|
    ensures n == 0 <==> forall i :: 0 <= i < |cs| ==> cs[i].Missing?
  {
    if |cs| == 0 then 0
    else CountPresent(cs[..|cs| - 1]) + (if cs[|cs| - 1].Missing? then 0 else 1)
  }

  function SumFinite(cs: seq<Cell>): real
  {
    if |cs| == 0 then 0.0
    else SumFinite(cs[..|cs| - 1]) + (if cs[|cs| - 1].Num? then cs[|cs| - 1].v else 0.0)
  }

  /** Mean of the non-missing cells; all missing (or empty) gives missing; an
      infinity dominates, and infinities of both signs give NaN. */
  function Mean(cs: seq<Cell>): Cell
  {
    if CountPresent(cs) == 0 then Missing
    else if Inf(false) in cs && Inf(true) in cs then Missing
    else if Inf(false) in cs then Inf(false)
    else if Inf(true) in cs then Inf(true)
    else Num(SumFinite(cs) / CountPresent(cs) as real)
  }

  lemma {:induction false} MeanMissingIff(cs: seq<Cell>)
    ensures Mean(cs).Missing? <==> (forall i :: 0 <= i < |cs| ==> cs[i].Missing?) || (Inf(false) in cs && Inf(true) in cs)
  {
    if Inf(false) in cs || Inf(true) in cs {
      assert CountPresent(cs) != 0;
    }
  }

  /** Dropping missing cells never changes the mean. */
  lemma {:induction false} MeanIgnoresMissing(cs: seq<Cell>, i: nat)
    requires i <= |cs|
    ensures Mean(cs[..i] + [Missing] + cs[i..]) == Mean(cs)
  {
    var ds := cs[..i] + [Missing] + cs[i..];
    CountSumInsertMissing(cs, i);
    forall c | c != Missing ensures c in ds <==> c in cs {
      if c in ds {
        var k :| 0 <= k < |ds| && ds[k] == c;
        if k < i { assert cs[k] == c; } else { assert k > i; assert cs[k - 1] == c; }
      }
      if c in cs {
        var k :| 0 <= k < |cs| && cs[k] == c;
        if k < i { assert ds[k] == c; } else { assert ds[k + 1] == c; }
      }
    }
  }

  lemma {:induction false} CountSumInsertMissing(cs: seq<Cell>, i: nat)
    requires i <= |cs|
    ensures CountPresent(cs[..i] + [Missing] + cs[i..]) == CountPresent(cs)
    ensures SumFinite(cs[..i] + [Missing] + cs[i..]) == SumFinite(cs)
    decreases |cs|
  {
    var ds := cs[..i] + [Missing] + cs[i..];
    if i == |cs| {
      assert ds[..|ds| - 1] == cs;
    } else {
      var cs' := cs[..|cs| - 1];
      CountSumInsertMissing(cs', i);
      assert ds[..|ds| - 1] == cs'[..i] + [Missing] + cs'[i..];
      assert ds[|ds| - 1] == cs[|cs| - 1];
    }
  }

  lemma {:induction false} SumFiniteAtLeast(cs: seq<Cell>, lo: real)
    requires forall i :: 0 <= i < |cs| ==> cs[i].Num? ==> lo <= cs[i].v
    ensures CountFinite(cs) as real * lo <= SumFinite(cs)
  {
    if |cs| > 0 {
      var cs' := cs[..|cs| - 1];
      SumFiniteAtLeast(cs', lo);
      var n := CountFinite(cs') as real;
      if cs[|cs| - 1].Num? {
        assert (n + 1.0) * lo == n * lo + lo;
      }
    }
  }

  lemma {:induction false} SumFiniteAtMost(cs: seq<Cell>, hi: real)
    requires forall i :: 0 <= i < |cs| ==> cs[i].Num? ==> cs[i].v <= hi
    ensures SumFinite(cs) <= CountFinite(cs) as real * hi
  {
    if |cs| > 0 {
      var cs' := cs[..|cs| - 1];
      SumFiniteAtMost(cs', hi);
      var n := CountFinite(cs') as real;
      if cs[|cs| - 1].Num? {
        assert (n + 1.0) * hi == n * hi + hi;
      }
    }
  }

  function CountFinite(cs: seq<Cell>): nat
  {
    if |cs| == 0 then 0
    else CountFinite(cs[..|cs| - 1]) + (if cs[|cs| - 1].Num? then 1 else 0)
  }

  lemma {:induction false} CountFiniteNoInf(cs: seq<Cell>)
    requires Inf(false) !in cs && Inf(true) !in cs
    ensures CountFinite(cs) == CountPresent(cs)
  {
    if |cs| > 0 {
      var cs' := cs[..|cs| - 1];
      assert forall c :: c in cs' ==> c in cs;
      CountFiniteNoInf(cs');
      assert cs[|cs| - 1] in cs;
    }
  }

  lemma RatioBetween(s: real, n: real, lo: real, hi: real)
    requires n > 0.0 && n * lo <= s <= n * hi
    ensures lo <= s / n <= hi
  {
    assert s / n - lo == (s - n * lo) / n;
    assert hi - s / n == (n * hi - s) / n;
  }

  /** The mean of finite values lies between their bounds. */
  lemma {:induction false} MeanBetween(cs: seq<Cell>, lo: real, hi: real)
    requires forall i :: 0 <= i < |cs| ==> cs[i].Num? ==> lo <= cs[i].v <= hi
    requires Inf(false) !in cs && Inf(true) !in cs
    requires CountPresent(cs) > 0
    ensures Mean(cs).Num? && lo <= Mean(cs).v <= hi
  {
    SumFiniteAtLeast(cs, lo);
    SumFiniteAtMost(cs, hi);
    CountFiniteNoInf(cs);
    RatioBetween(SumFinite(cs), CountPresent(cs) as real, lo, hi);
  }
}
