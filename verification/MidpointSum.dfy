/** The threaded midpoint sum of SimplePrograms/Threads/integrate_Pi.c, over the reals and for any
    integrand. */
module MidpointSum {
  /** The piece of the interval one thread sums up. */
  datatype Zone = Zone(left: real, right: real, count: int)

  type Integrand = real -> real

  /** The middle of cell number `k` of width `w`, counted from `left`. */
  function Middle(left: real, w: real, k: int): real { left + k as real * w + w / 2.0 }

  /** The midpoint sum over the first `k` cells. */
  function Cells(f: Integrand, left: real, w: real, k: nat): real {
    if k == 0 then 0.0 else Cells(f, left, w, k - 1) + f(Middle(left, w, k - 1)) * w
  }

  /** C division: the quotient is cut off towards zero. */
  function Quotient(m: int, n: int): int
    requires n > 0
  {
    if m >= 0 then m / n else -((-m) / n)
  }

  function AtLeastZero(n: int): nat { if n < 0 then 0 else n }

  /** The width of one cell; with no cells it is never used. */
  function Width(z: Zone): real { if z.count == 0 then 0.0 else (z.right - z.left) / z.count as real }

  function ZoneSum(f: Integrand, z: Zone): real { Cells(f, z.left, Width(z), AtLeastZero(z.count)) }

  function ZoneOf(i: int, m: int, n: int): Zone
    requires n > 0
  {
    Zone(-1.0 + 2.0 * i as real / n as real, -1.0 + 2.0 * (i + 1) as real / n as real, Quotient(m, n))
  }

  function Joined(f: Integrand, zones: seq<Zone>): real {
    if zones == [] then 0.0 else Joined(f, zones[..|zones| - 1]) + ZoneSum(f, zones[|zones| - 1])
  }

  /** The sum a single thread would compute over [-1, 1] with `cells` cells. */
  function Whole(f: Integrand, cells: nat): real {
    if cells == 0 then 0.0 else Cells(f, -1.0, 2.0 / cells as real, cells)
  }

  lemma NextCell(f: Integrand, left: real, w: real, k: int)
    requires k > 0
    ensures Cells(f, left, w, k) == Cells(f, left, w, k - 1) + f(Middle(left, w, k - 1)) * w
  {
  }

  // ---------------------------------------------------------------- the program

  method Integrate(f: Integrand, z: Zone) returns (res: real)
    ensures res == ZoneSum(f, z)
  {
    res := 0.0;
    var width := if z.count == 0 then 0.0 else (z.right - z.left) / z.count as real;
    var i := 0;
    while i < z.count
      invariant 0 <= i <= AtLeastZero(z.count) && res == Cells(f, z.left, width, i)
    {
      var x := z.left + i as real * width + width / 2.0;
      assert x == Middle(z.left, width, i);
      res := res + f(x) * width;
      i := i + 1;
      assert res == Cells(f, z.left, width, i) by { NextCell(f, z.left, width, i); }
    }
  }

  /** main: fill the zones, let a thread sum each, and add the results up in the order of joining. */
  method Sum(f: Integrand, n: int, m: int) returns (result: real)
    ensures n >= 1 && m >= 0 ==> result == Whole(f, n * (m / n))
    ensures n < 1 || m < n ==> result == 0.0
  {
    if n <= 0 {
      return 0.0;
    }
    var zones := new Zone[n];
    for i := 0 to n
      invariant forall j :: 0 <= j < i ==> zones[j] == ZoneOf(j, m, n)
    {
      zones[i] := Zone(-1.0 + 2.0 * i as real / n as real, -1.0 + 2.0 * (i + 1) as real / n as real, Quotient(m, n));
    }
    result := 0.0;
    ghost var all := zones[..];
    assert |all| == n && forall j :: 0 <= j < n ==> all[j] == ZoneOf(j, m, n);
    hide ZoneOf, Quotient, ZoneSum;
    for i := 0 to n
      invariant zones[..] == all && result == Joined(f, all[..i])
    {
      var temp := Integrate(f, zones[i]);
      assert all[..i + 1][..i] == all[..i] && all[i] == zones[i];
      result := result + temp;
    }
    assert all[..n] == all;
    JoinedIsWhole(f, all, m, n);
    CellsInAll(m, n);
  }

  /** Each of the n threads gets m / n cells, and none if that is not positive. */
  lemma CellsInAll(m: int, n: int)
    requires n >= 1
    ensures m >= 0 ==> n * AtLeastZero(Quotient(m, n)) == n * (m / n) >= 0
    ensures m < n ==> n * AtLeastZero(Quotient(m, n)) == 0
  {
  }

  // ---------------------------------------------------------------- the zones

  /** The zones lie end to end and cover [-1, 1] exactly. */
  lemma ZonesTile(i: int, m: int, n: int)
    requires 0 <= i < n
    ensures ZoneOf(0, m, n).left == -1.0 && ZoneOf(n - 1, m, n).right == 1.0
    ensures ZoneOf(i, m, n).left < ZoneOf(i, m, n).right == ZoneOf(i + 1, m, n).left
    ensures -1.0 <= ZoneOf(i, m, n).left && ZoneOf(i, m, n).right <= 1.0
  {
    var x := n as real;
    Ordered(i as real, (i + 1) as real, x);
    Ordered(0.0, i as real, x);
    Ordered((i + 1) as real, x, x);
    WholeTurn(x);
  }

  lemma WholeTurn(n: real)
    requires n > 0.0
    ensures 2.0 * n / n == 2.0 && 2.0 * 0.0 / n == 0.0
  {
  }

  lemma Ordered(a: real, b: real, n: real)
    requires n > 0.0
    ensures a < b ==> 2.0 * a / n < 2.0 * b / n
    ensures a <= b ==> 2.0 * a / n <= 2.0 * b / n
  {
  }

  /** Every point where a thread asks for the integrand is strictly inside its zone. */
  lemma SamplesInside(i: int, m: int, n: int, k: int)
    requires 0 <= i < n && 0 <= k < Quotient(m, n)
    ensures var z := ZoneOf(i, m, n);
      z.left < Middle(z.left, Width(z), k) < z.right
    ensures var z := ZoneOf(i, m, n);
      -1.0 < Middle(z.left, Width(z), k) < 1.0
  {
    var z := ZoneOf(i, m, n);
    ZonesTile(i, m, n);
    MiddleInside(z.left, z.right, z.count, k);
  }

  lemma MiddleInside(left: real, right: real, count: int, k: int)
    requires left < right && 0 <= k < count
    ensures left < Middle(left, (right - left) / count as real, k) < right
  {
    hide Middle;
    var w := (right - left) / count as real;
    assert w > 0.0 && count as real * w == right - left;
    MiddleBetween(left, right, w, count, k);
  }

  lemma MiddleBetween(left: real, right: real, w: real, count: int, k: int)
    requires w > 0.0 && 0 <= k < count && count as real * w == right - left
    ensures left < Middle(left, w, k) < right
  {
    var offset := HalfCell(w, k as real, count as real);
    assert Middle(left, w, k) == left + offset;
  }

  lemma HalfCell(w: real, k: real, c: real) returns (offset: real)
    requires w > 0.0 && 0.0 <= k <= c - 1.0
    ensures offset == k * w + w / 2.0 && 0.0 < offset < c * w
  {
    offset := k * w + w / 2.0;
    var rest := c - 1.0 - k;
    assert c * w == rest * w + k * w + w;
    assert rest * w >= 0.0 && k * w >= 0.0;
  }

  // ---------------------------------------------------------------- split sum = whole sum

  lemma {:induction false} CellsSplit(f: Integrand, left: real, w: real, a: nat, b: nat)
    ensures Cells(f, left, w, a + b) == Cells(f, left, w, a) + Cells(f, left + a as real * w, w, b)
  {
    hide Middle;
    if b > 0 {
      CellsSplit(f, left, w, a, b - 1);
      MiddleShift(left, w, a, b - 1);
    }
  }

  lemma MiddleShift(left: real, w: real, a: nat, k: int)
    ensures Middle(left, w, a + k) == Middle(left + a as real * w, w, k)
  {
    assert (a + k) as real == a as real + k as real;
    assert (a as real + k as real) * w == a as real * w + k as real * w;
  }

  lemma ZoneGrid(i: nat, m: int, n: int, c: nat)
    requires n > 0 && Quotient(m, n) == c > 0
    ensures n * c > 0
    ensures var w := 2.0 / (n * c) as real;
      Width(ZoneOf(i, m, n)) == w && ZoneOf(i, m, n).left == -1.0 + (i * c) as real * w
  {
    var x, y := n as real, c as real;
    assert (n * c) as real == x * y;
    var w := 2.0 / (x * y);
    assert (2.0 * (i + 1) as real - 2.0 * i as real) / x == 2.0 / x;
    assert 2.0 * (i + 1) as real / x - 2.0 * i as real / x == 2.0 / x;
    assert (2.0 / x) / y == w;
    assert (i * c) as real == i as real * y;
    assert y * w == 2.0 / x;
    assert i as real * y * w == i as real * (2.0 / x) == 2.0 * i as real / x;
  }

  /** Zones of `c` cells each that continue one grid. */
  predicate OnGrid(zones: seq<Zone>, w: real, c: nat) {
    forall i :: 0 <= i < |zones| ==>
      zones[i].count == c && Width(zones[i]) == w && zones[i].left == -1.0 + (i * c) as real * w
  }

  lemma {:induction false} JoinedCells(f: Integrand, zones: seq<Zone>, w: real, c: nat)
    requires OnGrid(zones, w, c)
    ensures Joined(f, zones) == Cells(f, -1.0, w, |zones| * c)
  {
    hide Middle, Width, Cells;
    if zones == [] {
      NoCells(f, -1.0, w);
    } else {
      var i := |zones| - 1;
      assert zones[i].left == -1.0 + (i * c) as real * w;
      var front, start, total := zones[..i], i * c, |zones| * c;
      assert start + c == total by { Distribute(i, c); }
      JoinedCells(f, front, w, c);
      assert |front| * c == start by { assert |front| == i; }
      CellsSplit(f, -1.0, w, start, c);
      assert zones[i].left == -1.0 + start as real * w;
      assert ZoneSum(f, zones[i]) == Cells(f, -1.0 + start as real * w, w, c);
      assert Joined(f, zones) == Joined(f, front) + ZoneSum(f, zones[i]);
      assert Cells(f, -1.0, w, start + c) == Cells(f, -1.0, w, total);
    }
  }

  lemma NoCells(f: Integrand, left: real, w: real)
    ensures Cells(f, left, w, 0) == 0.0
  {
  }

  lemma Distribute(i: nat, c: nat)
    ensures i * c + c == (i + 1) * c
  {
  }

  lemma {:induction false} JoinedNothing(f: Integrand, zones: seq<Zone>)
    requires forall i :: 0 <= i < |zones| ==> zones[i].count <= 0
    ensures Joined(f, zones) == 0.0
  {
    if zones != [] { JoinedNothing(f, zones[..|zones| - 1]); }
  }

  /** Whatever the integrand, the threads together compute the single midpoint sum over [-1, 1] with
      n * (m / n) cells. */
  lemma JoinedIsWhole(f: Integrand, zones: seq<Zone>, m: int, n: int)
    requires n > 0 && |zones| == n
    requires forall i :: 0 <= i < n ==> zones[i] == ZoneOf(i, m, n)
    ensures Joined(f, zones) == Whole(f, n * AtLeastZero(Quotient(m, n)))
  {
    var c := AtLeastZero(Quotient(m, n));
    if c > 0 {
      ZoneGrid(0, m, n, c);
      var w := 2.0 / (n * c) as real;
      forall i | 0 <= i < n
        ensures zones[i].count == c && Width(zones[i]) == w && zones[i].left == -1.0 + (i * c) as real * w
      {
        ZoneGrid(i, m, n, c);
      }
      hide Quotient, ZoneOf, Width, Cells;
      JoinedCells(f, zones, w, c);
    } else {
      JoinedNothing(f, zones);
    }
  }

  // ---------------------------------------------------------------- what the sum means

  /** A single cell is its width times the integrand in its middle; with the splitting of sums this
      says what any number of cells come to. */
  lemma OneCell(f: Integrand, left: real, w: real)
    ensures Cells(f, left, w, 0) == 0.0
    ensures Cells(f, left, w, 1) == f(left + w / 2.0) * w
  {
    assert left + 0.0 * w + w / 2.0 == left + w / 2.0;
    assert Cells(f, left, w, 1) == Cells(f, left, w, 0) + f(Middle(left, w, 0)) * w;
  }

  /** The rule is exact for straight lines. */
  lemma {:induction false} LinesAreExact(a: real, b: real, left: real, w: real, k: nat)
    ensures Cells(x => a * x + b, left, w, k)
      == (a * (left + (left + k as real * w)) / 2.0 + b) * (k as real * w)
  {
    if k > 0 {
      LinesAreExact(a, b, left, w, k - 1);
      LineStep(a, b, left, w, (k - 1) as real);
    }
  }

  lemma LineStep(a: real, b: real, left: real, w: real, k: real)
    ensures (a * (left + (left + k * w)) / 2.0 + b) * (k * w) + (a * (left + k * w + w / 2.0) + b) * w
      == (a * (left + (left + (k + 1.0) * w)) / 2.0 + b) * ((k + 1.0) * w)
  {
  }

  /** So over [-1, 1] a line a x + b sums to exactly 2 b, whatever the number of threads and cells. */
  lemma WholeOfLine(a: real, b: real, cells: nat)
    requires cells > 0
    ensures Whole(x => a * x + b, cells) == 2.0 * b
  {
    var w := 2.0 / cells as real;
    LinesAreExact(a, b, -1.0, w, cells);
    assert cells as real * w == 2.0;
  }
}
