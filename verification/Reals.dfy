/** Products of reals by name, so that facts about them survive lemma calls. */
module Reals {

  function Times(x: real, y: real): real {
    x * y
  }

  function Square(x: real): real {
    Times(x, x)
  }

  function Max(a: real, b: real): real {
    if a >= b then a else b
  }

  function Min(a: real, b: real): real {
    if a <= b then a else b
  }

  lemma TimesPositive(x: real, y: real)
    requires x > 0.0 && y > 0.0
    ensures Times(x, y) > 0.0
  {}

  lemma TimesNonNegative(x: real, y: real)
    requires x >= 0.0 && y >= 0.0
    ensures Times(x, y) >= 0.0
  {}

  lemma TimesNegated(x: real, y: real)
    ensures Times(x, -y) == -Times(x, y)
    ensures Times(-x, y) == -Times(x, y)
    ensures Times(x, y) == Times(y, x)
  {}

  lemma Distribute(d: real, a: real, b: real)
    ensures Times(d, a + b) == Times(d, a) + Times(d, b)
    ensures Times(d, a - b) == Times(d, a) - Times(d, b)
  {}

  lemma TimesMonotone(d: real, a: real, b: real)
    requires d >= 0.0 && a <= b
    ensures Times(d, a) <= Times(d, b)
  {
    TimesNonNegative(d, b - a);
    Distribute(d, b, a);
  }

  lemma TimesOrder(d: real, a: real, b: real)
    requires d > 0.0
    ensures a <= b <==> Times(d, a) <= Times(d, b)
  {
    Distribute(d, a, b);
    if a > b { TimesPositive(d, a - b); } else { TimesMonotone(d, a, b); }
  }

  lemma DivideBack(d: real, a: real)
    requires d != 0.0
    ensures Times(d, a / d) == a
  {}

  lemma DivideOut(d: real, x: real, a: real)
    requires d != 0.0 && Times(d, x) == a
    ensures a / d == x
  {}

  lemma DivideMonotone(a: real, b: real, d: real)
    requires a <= b && d > 0.0
    ensures a / d <= b / d
  {
    DivideBack(d, a);
    DivideBack(d, b);
    TimesOrder(d, a / d, b / d);
  }

  lemma DivideSum(a: real, b: real, d: real)
    requires d != 0.0
    ensures (a + b) / d == a / d + b / d
    ensures (a - b) / d == a / d - b / d
  {
    DivideBack(d, a);
    DivideBack(d, b);
    Distribute(d, a / d, b / d);
    DivideOut(d, a / d + b / d, a + b);
    DivideOut(d, a / d - b / d, a - b);
  }

  lemma QuotientInUnitInterval(a: real, b: real)
    requires 0.0 <= a <= b && b > 0.0
    ensures 0.0 <= a / b <= 1.0
    ensures a / b == 1.0 <==> a == b
  {
    DivideBack(b, a);
    TimesOrder(b, a / b, 1.0);
    TimesOrder(b, 0.0, a / b);
    assert Times(b, 0.0) == 0.0 && Times(b, 1.0) == b;
  }

  lemma SquareOfDifference(a: real, b: real)
    ensures Square(a) - Square(b) == Times(a - b, a + b)
    ensures Square(a - b) == Square(a) - 2.0 * Times(a, b) + Square(b)
    ensures Square(a + b) == Square(a) + 2.0 * Times(a, b) + Square(b)
  {}

  lemma SquareNegated(a: real)
    ensures Square(-a) == Square(a)
  {}

  lemma SquarePositive(a: real)
    ensures Square(a) >= 0.0
    ensures a != 0.0 ==> Square(a) > 0.0
  {
    SquareNegated(a);
    if a > 0.0 { TimesPositive(a, a); } else if a < 0.0 { TimesPositive(-a, -a); }
  }

  lemma LargerSquare(a: real, m: real)
    requires a > m >= 0.0
    ensures Square(a) > Square(m)
  {
    SquareOfDifference(a, m);
    TimesPositive(a - m, a + m);
  }

  lemma SquareOrder(a: real, m: real)
    requires m >= 0.0
    ensures Square(a) <= Square(m) <==> -m <= a <= m
  {
    SquareNegated(a);
    if a > m {
      LargerSquare(a, m);
    } else if -a > m {
      LargerSquare(-a, m);
    } else {
      SquareOfDifference(m, a);
      TimesNonNegative(m - a, m + a);
    }
  }
}
