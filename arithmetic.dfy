/** Natural powers, facts about integer division and positional notation.
    The encoder peels digits off a number with `%` and `/`; the decoder adds
    them back up with place values. The lemmas here connect the two. */
module Arithmetic {

  /** b to the natural power e. */
  function Pow(b: nat, e: nat): (r: nat)
    ensures b > 0 ==> r > 0
  {
    if e == 0 then 1 else b * Pow(b, e - 1)
  }

  lemma {:induction false} PowAdd(b: nat, e1: nat, e2: nat)
    ensures Pow(b, e1) * Pow(b, e2) == Pow(b, e1 + e2)
  {
    if e1 > 0 {
      PowAdd(b, e1 - 1, e2);
      calc {
        Pow(b, e1) * Pow(b, e2);
        (b * Pow(b, e1 - 1)) * Pow(b, e2);
        b * (Pow(b, e1 - 1) * Pow(b, e2));
        b * Pow(b, e1 - 1 + e2);
        Pow(b, e1 + e2);
      }
    }
  }

  lemma {:induction false} PowMonotone(b: nat, e1: nat, e2: nat)
    requires 0 < b && e1 <= e2
    ensures Pow(b, e1) <= Pow(b, e2)
  {
    if e1 < e2 {
      PowMonotone(b, e1, e2 - 1);
      assert Pow(b, e2) == b * Pow(b, e2 - 1);
    }
  }

  lemma MulAtLeast(d: int, k: int)
    requires 0 < d && 1 <= k
    ensures d <= d * k
  {
    assert d * k == d + d * (k - 1);
  }

  lemma MulDiff(d: int, a: int, b: int)
    ensures d * a - d * b == d * (a - b)
  {
  }

  /** Quotient and remainder are determined by the division equation. */
  lemma DivUnique(x: int, d: int, q: int, r: int)
    requires 0 < d && 0 <= r < d && x == d * q + r
    ensures x / d == q && x % d == r
  {
    var q0, r0 := x / d, x % d;
    assert d * q0 + r0 == d * q + r;
    if q0 < q {
      MulAtLeast(d, q - q0);
      MulDiff(d, q, q0);
      assert false;
    } else if q0 > q {
      MulAtLeast(d, q0 - q);
      MulDiff(d, q0, q);
      assert false;
    }
  }

  /** Dividing twice is dividing by the product. */
  lemma DivDiv(x: nat, a: nat, b: nat)
    requires 0 < a && 0 < b
    ensures x / a / b == x / (a * b)
  {
    var q := x / a;
    DivDivQuotient(x, a, b, q, x % a, q / b, q % b);
  }

  /** DivDiv with the two division equations given. */
  lemma DivDivQuotient(x: nat, a: nat, b: nat, q: nat, r: nat, q2: nat, r2: nat)
    requires 0 < a && 0 < b
    requires x == a * q + r && r < a
    requires q == b * q2 + r2 && r2 < b
    ensures x / (a * b) == q2
  {
    DivDivParts(a, b, q2, r2, r);
    DivUnique(x, a * b, q2, a * r2 + r);
  }

  /** The division equation of x / a / b, regrouped around a * b. */
  lemma DivDivParts(a: nat, b: nat, q2: nat, r2: nat, r: nat)
    requires r < a && r2 < b
    ensures a * (b * q2 + r2) + r == (a * b) * q2 + (a * r2 + r)
    ensures a * r2 + r < a * b
  {
    assert a * (b * q2 + r2) == a * (b * q2) + a * r2;
    assert a * (b * q2) == (a * b) * q2;
    MulMonotone(r2, b - 1, a);
    assert a * (b - 1) == a * b - a;
  }

  lemma MulMonotone(x: int, y: int, k: nat)
    requires x <= y
    ensures x * k <= y * k
  {
  }

  /** Dividing a multiple of d by d. */
  lemma DivMultiple(p: nat, d: nat)
    requires 0 < d
    ensures (d * p) / d == p
  {
    DivUnique(d * p, d, p, 0);
  }

  lemma PowDivBase(b: nat, e: nat)
    requires 0 < b && 0 < e
    ensures Pow(b, e) / b == Pow(b, e - 1)
  {
    DivMultiple(Pow(b, e - 1), b);
  }

  /** Numbers are multiples of p rounded down. */
  lemma RoundDownBounds(x: nat, p: nat)
    requires 0 < p
    ensures (x / p) * p <= x < (x / p) * p + p
  {
  }

  /** The value of the digits ds, most significant first, in base b. */
  function Horner(ds: seq<int>, b: int): int
  {
    if ds == [] then 0 else Horner(ds[..|ds| - 1], b) * b + ds[|ds| - 1]
  }

  /** Of the n lowest base-b digits of x, the k-th counted from the most
      significant one. */
  function DigitAt(x: nat, b: nat, n: nat, k: nat): (d: nat)
    requires 1 < b && k < n
    ensures d < b
  {
    (x / Pow(b, n - 1 - k)) % b
  }

  /** Counted from the least significant end, digit n - 1 - i is the one
      at place value b^i. */
  lemma DigitAtPlace(x: nat, b: nat, n: nat, i: nat)
    requires 1 < b && i < n
    ensures DigitAt(x, b, n, n - 1 - i) == (x / Pow(b, i)) % b
  {
    assert n - 1 - (n - 1 - i) == i;
  }

  /** The m most significant of the n lowest base-b digits of x. */
  function LeadingDigits(x: nat, b: nat, n: nat, m: nat): (ds: seq<nat>)
    requires 1 < b && m <= n
    ensures |ds| == m
  {
    seq(m, k requires 0 <= k < m => DigitAt(x, b, n, k))
  }

  /** Reading back the m leading digits of the n lowest digits of x gives x
      with its n - m lowest digits dropped and its digits above the n-th
      dropped as well. */
  lemma {:induction false} LeadingDigitsValue(x: nat, b: nat, n: nat, m: nat)
    requires 1 < b && m <= n
    ensures Horner(LeadingDigits(x, b, n, m), b) == x / Pow(b, n - m) - x / Pow(b, n) * Pow(b, m)
  {
    var ds := LeadingDigits(x, b, n, m);
    if m == 0 {
      assert ds == [];
    } else {
      var prev := LeadingDigits(x, b, n, m - 1);
      assert ds[..m - 1] == prev;
      LeadingDigitsValue(x, b, n, m - 1);
      var y := x / Pow(b, n - m);
      NextPlace(x, b, n - m);
      assert ds[m - 1] == y % b;
      HornerStep(Horner(prev, b), y, b, x / Pow(b, n), Pow(b, m - 1));
    }
  }

  /** Dropping one more digit is dividing by the base once more. */
  lemma NextPlace(x: nat, b: nat, e: nat)
    requires 0 < b
    ensures x / Pow(b, e + 1) == x / Pow(b, e) / b
  {
    assert Pow(b, e + 1) == Pow(b, e) * b;
    DivDiv(x, Pow(b, e), b);
  }

  lemma HornerStep(h: int, y: int, b: int, top: int, p: int)
    requires 0 < b && h == y / b - top * p
    ensures h * b + y % b == y - top * (b * p)
  {
    assert h * b == (y / b) * b - top * (b * p);
  }

  /** When x has at most n digits, its m leading digits read back as x with
      the n - m lowest digits dropped. */
  lemma LeadingDigitsOfSmallValue(x: nat, b: nat, n: nat, m: nat)
    requires 1 < b && m <= n && x < Pow(b, n)
    ensures Horner(LeadingDigits(x, b, n, m), b) == x / Pow(b, n - m)
  {
    LeadingDigitsValue(x, b, n, m);
    DivUnique(x, Pow(b, n), 0, x);
  }

  /** A sequence of m digits below b reads back as less than b^m. */
  lemma {:induction false} HornerBound(ds: seq<int>, b: nat)
    requires 0 < b
    requires forall i | 0 <= i < |ds| :: 0 <= ds[i] < b
    ensures 0 <= Horner(ds, b) < Pow(b, |ds|)
  {
    if ds != [] {
      var init := ds[..|ds| - 1];
      HornerBound(init, b);
      var h := Horner(init, b);
      assert h <= Pow(b, |init|) - 1;
      assert h * b <= (Pow(b, |init|) - 1) * b;
      assert Pow(b, |ds|) == b * Pow(b, |init|);
    }
  }

  /** Appending a digit: one more place value, plus the digit. */
  lemma HornerPlaceStep(ds: seq<int>, d: int, b: nat, top: nat)
    requires |ds| < top
    ensures Horner(ds + [d], b) * Pow(b, top - |ds| - 1)
            == Horner(ds, b) * Pow(b, top - |ds|) + d * Pow(b, top - |ds| - 1)
  {
    assert (ds + [d])[..|ds|] == ds;
    var p := Pow(b, top - |ds| - 1);
    assert Pow(b, top - |ds|) == b * p;
    calc {
      Horner(ds + [d], b) * p;
      (Horner(ds, b) * b + d) * p;
      Horner(ds, b) * (b * p) + d * p;
    }
  }

  /** A number below a * d leaves a quotient below a when divided by d. */
  lemma DivBelow(x: nat, a: nat, d: nat)
    requires 0 < d && x < a * d
    ensures x / d < a
  {
    RoundDownBounds(x, d);
  }

  /** Rounding down to a multiple of a and then of b*a is rounding down to
      a multiple of b*a. */
  lemma RoundDownNested(x: nat, a: nat, b: nat)
    requires 0 < a && 0 < b
    ensures ((x / a) / b) * b * a == (x / (b * a)) * (b * a)
  {
    DivDiv(x, a, b);
    assert a * b == b * a;
  }

  /** Within a range that is a whole number of cells, the cell holding x,
      which starts at x rounded down to the cell, ends inside the range. */
  lemma CellWithinRange(x: nat, cell: nat, low: int, range: nat)
    requires 0 < cell && low == (x / cell) * cell
    requires x < range && range == (range / cell) * cell
    ensures 0 <= low && low + cell <= range
  {
    DivBelow(x, range / cell, cell);
    MulMonotone(x / cell + 1, range / cell, cell);
  }

  /** Products regroup. */
  lemma Regroup(x: int, y: int, z: int)
    ensures x * (y * z) == (x * y) * z
  {
  }

  /** A multiple of cell is its quotient by cell times cell. */
  lemma WholeCells(range: nat, cell: nat, k: nat)
    requires 0 < cell && range == k * cell
    ensures range == (range / cell) * cell
  {
    DivMultiple(k, cell);
    assert cell * k == k * cell;
  }

  /** The range of size_t (64 bits) and of int (32 bits). */
  const SizeModulus: nat := 0x1_0000_0000_0000_0000
  const IntModulus: nat := 0x1_0000_0000
  const IntLimit: nat := 0x8000_0000

  /** An int converted to size_t: taken modulo 2^64, so a negative value
      wraps to a huge one. */
  function ToSize(a: int): (u: nat)
    ensures u < SizeModulus
    ensures 0 <= a < SizeModulus ==> u == a
    ensures -(SizeModulus as int) <= a < 0 ==> u == a + SizeModulus
  {
    a % SizeModulus
  }

  /** A size_t converted to int: its low 32 bits read in two's complement. */
  function ToInt(u: nat): (i: int)
    ensures -(IntLimit as int) <= i < IntLimit
    ensures u < IntLimit ==> i == u
    ensures i % IntModulus == u % IntModulus
  {
    var low := u % IntModulus;
    if low < IntLimit then low else low - IntModulus
  }

  /** `int q = a / b` for an int a and a size_t b: a is converted to size_t,
      divided, and the quotient converted back to int. */
  function SizeDiv(a: int, b: nat): (q: int)
    requires 0 < b
    ensures 0 <= a < IntLimit ==> q == a / b
  {
    ToInt(ToSize(a) / b)
  }

  /** `int r = a % b` for an int a and a size_t b, likewise. */
  function SizeMod(a: int, b: nat): (r: int)
    requires 0 < b
    ensures 0 <= a < IntLimit ==> r == a % b
  {
    ToInt(ToSize(a) % b)
  }

  /** Four divides 2^64 and 2^62 is a multiple of 2^32, so for a negative
      int the unsigned quotient and remainder by four come back as the
      floor quotient and the non-negative remainder (Dafny's / and %),
      not the truncated ones of signed C++. */
  lemma SizeDivModFour(a: int)
    requires -(IntLimit as int) <= a < 0
    ensures SizeDiv(a, 4) == a / 4 && SizeMod(a, 4) == a % 4
  {
    var u := ToSize(a);
    var q := 0x4000_0000_0000_0000 + a / 4;
    DivUnique(u, 4, q, a % 4);
    DivUnique(q, IntModulus, 0x4000_0000 - 1, IntModulus + a / 4);
  }
}
