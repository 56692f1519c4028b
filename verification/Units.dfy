/** Compression units: the unit of `u` clusters, or bytes, that a position lies in. */
module Units {
  function Unit(x: int, u: int): int
    requires 0 < u
  {
    x / u
  }

  /** Two clusters of one unit are less than a unit apart. */
  lemma UnitSpan(a: int, b: int, u: int)
    requires 0 < u && a <= b && Unit(a, u) == Unit(b, u)
    ensures b - a < u
  {
    assert a == u * (a / u) + a % u && b == u * (b / u) + b % u;
  }

  lemma UnitMonotone(a: int, b: int, u: int)
    requires 0 < u && a <= b
    ensures Unit(a, u) <= Unit(b, u)
    ensures 0 <= a ==> 0 <= Unit(a, u)
  {
    var i, j := a / u, b / u;
    assert a == u * i + a % u && b == u * j + b % u;
    assert j < i ==> u * (j + 1) <= u * i;
    assert i < 0 ==> u * i <= 0 - u;
  }

  /** What lies between two clusters of one unit lies in it. */
  lemma UnitBetween(a: int, m: int, b: int, u: int)
    requires 0 < u && a <= m <= b && Unit(a, u) == Unit(b, u)
    ensures Unit(m, u) == Unit(a, u)
  {
    UnitMonotone(a, m, u);
    UnitMonotone(m, b, u);
  }

  /** Cutting a run that leaves its unit at the last boundary leaves something of it. */
  lemma UnitCut(start: int, next: int, u: int)
    requires 0 < u && 0 < next && Unit(start, u) != Unit(start + next, u)
    ensures 0 < next - (start + next) % u <= next && start + next - (start + next) % u == u * Unit(start + next, u)
  {
    var b := start + next;
    UnitMonotone(start, b, u);
    var i, j := Unit(start, u), Unit(b, u);
    Parts(start, u);
    Parts(b, u);
    hide Unit;
    Apart(u, i, j);
  }

  lemma Parts(x: int, u: int)
    requires 0 < u
    ensures x == u * Unit(x, u) + x % u && 0 <= x % u < u
  {
  }

  lemma Apart(u: int, i: int, j: int)
    requires 0 < u && i < j
    ensures u * i + u <= u * j
  {
    assert u * (i + 1) <= u * j;
  }
}
