/** The unit selection of humanReadableSize: the power-of-1024 divisor, the
    exponent and the unit letter it picks for a byte count. The "%.1f" text of
    size/div is not modelled, only the integer choices behind it. */
module SizeFormat {

  /** Go's int64, the type of `size`, `n` and `div` in humanReadableSize. */
  newtype int64 = x: int | -0x8000_0000_0000_0000 <= x < 0x8000_0000_0000_0000

  predicate InInt64(x: int)
  {
    -0x8000_0000_0000_0000 <= x < 0x8000_0000_0000_0000
  }

  const Unit: int := 1024
  const UnitLetters: string := "KMGTPE"

  /** 1024^e, the divisor of unit e - 1. */
  function Pow(e: nat): (p: nat)
    ensures 1 <= p
  {
    if e == 0 then 1 else Unit * Pow(e - 1)
  }

  /** What humanReadableSize prints, up to the decimal rendering of numbers. */
  datatype Rendering =
    | Unscaled(bytes: int)                      // "<bytes> B"
    | Scaled(div: int, exp: nat, letter: char)  // "<size/div, one decimal> <letter>B"

  /** How many times n can be divided by 1024 before it drops below 1024. */
  function Divisions(n: int): nat
    decreases n
  {
    if n < Unit then 0 else 1 + Divisions(n / Unit)
  }

  /** The rendering humanReadableSize chooses for `size`: sizes below 1024 are
      left unscaled (negative ones included); otherwise the largest unit whose
      divisor keeps the quotient at or above 1, which is always one of KMGTPE. */
  function Render(size: int): (r: Rendering)
    requires InInt64(size)
    ensures r.Unscaled? <==> size < Unit
    ensures r.Unscaled? ==> r.bytes == size
    ensures r.Scaled? ==> r.exp < |UnitLetters| && r.letter == UnitLetters[r.exp]
    ensures r.Scaled? ==> r.div == Pow(r.exp + 1) && 1 <= size / r.div < Unit
  {
    if size < Unit then Unscaled(size)
    else
      var e := Divisions(size / Unit);
      DivisionsQuotient(size / Unit);
      DivDiv(size, Unit, Pow(e));
      ExponentBound(size);
      Scaled(Pow(e + 1), e, UnitLetters[e])
  }

  /** Models humanReadableSize (without the text): the loop keeps
      n == size / div and div == 1024^(exp+1), and `div *= unit` never
      overflows int64 (the newtype makes the verifier check it). */
  method HumanReadableSize(size: int64) returns (r: Rendering)
    ensures r == Render(size as int)
  {
    if size < 1024 {
      return Unscaled(size as int);
    }
    var div: int64, exp: nat := 1024, 0;
    var n: int64 := size / 1024;
    while n >= 1024
      invariant 1 <= n as int && 1024 <= div as int
      invariant div as int == Pow(exp + 1)
      invariant n as int == size as int / div as int
      invariant exp + Divisions(n as int) == Divisions(size as int / Unit)
      decreases n
    {
      LoopStep(size as int, div as int, n as int);
      div := div * 1024;
      exp := exp + 1;
      n := n / 1024;
    }
    DivDiv(size as int, Unit, Pow(exp));
    ExponentBound(size as int);
    r := Scaled(div as int, exp, UnitLetters[exp]);
  }

  /** An exact power 1024^(k+1) selects unit k with divisor equal to itself:
      1024 is "1.0 KB", 1048576 is "1.0 MB", and so on up to "1.0 EB". */
  lemma {:induction false} ExactPowerSelectsItself(k: nat)
    requires k < |UnitLetters|
    ensures InInt64(Pow(k + 1))
    ensures Render(Pow(k + 1)) == Scaled(Pow(k + 1), k, UnitLetters[k])
  {
    PowMonotone(k + 1, 6);
    SixthPower();
    DivisionsOfPower(k);
  }

  /** The chosen unit is the largest one: any exponent e whose divisor
      1024^(e+1) does not exceed the size is at most the chosen exponent. */
  lemma UnitIsLargest(size: int, e: nat)
    requires InInt64(size) && Unit <= size
    requires Pow(e + 1) <= size
    ensures e <= Render(size).exp
  {
    var r := Render(size);
    DivUpperBound(size, r.div, Unit);
    assert size < Pow(r.exp + 2);
    PowOrder(e + 1, r.exp + 2);
  }

  /** The choice is unique: only one exponent leaves a quotient in [1, 1024). */
  lemma UnitIsUnique(size: int, e: nat)
    requires InInt64(size) && Unit <= size
    requires 1 <= size / Pow(e + 1) < Unit
    ensures Render(size).exp == e
  {
    DivLowerBound(size, Pow(e + 1), 1);
    UnitIsLargest(size, e);
    var r := Render(size);
    DivUpperBound(size, Pow(e + 1), Unit);
    DivLowerBound(size, r.div, 1);
    assert size < Pow(e + 2);
    PowOrder(r.exp + 1, e + 2);
  }

  // ----- arithmetic helpers -----

  /** One turn of the loop of humanReadableSize: with n == size / div and
      n >= 1024, the next divisor fits in int64 and keeps the invariant. */
  lemma LoopStep(size: int, div: int, n: int)
    requires InInt64(size) && 0 < div && Unit <= n && n == size / div
    ensures div * Unit <= size
    ensures n / Unit == size / (div * Unit)
  {
    DivLowerBound(size, div, n);
    MulMonotone(div, Unit, n);
    DivDiv(size, div, Unit);
  }

  lemma {:induction false} DivisionsQuotient(n: int)
    requires 1 <= n
    ensures 1 <= n / Pow(Divisions(n)) < Unit
    decreases n
  {
    if n >= Unit {
      DivisionsQuotient(n / Unit);
      DivDiv(n, Unit, Pow(Divisions(n / Unit)));
    }
  }

  lemma {:induction false} DivisionsBelow(n: int, k: nat)
    requires n < Pow(k + 1)
    ensures Divisions(n) <= k
    decreases k
  {
    if n >= Unit {
      assert k > 0;
      DivStrictUpper(n, Unit, Pow(k));
      DivisionsBelow(n / Unit, k - 1);
    }
  }

  lemma {:induction false} DivisionsOfPower(k: nat)
    ensures Divisions(Pow(k)) == k
  {
    if k > 0 {
      DivisionsOfPower(k - 1);
      PowMonotone(1, k);
      assert Pow(k) / Unit == Pow(k - 1);
    }
  }

  /** Every int64 size selects an exponent within KMGTPE. */
  lemma ExponentBound(size: int)
    requires InInt64(size)
    ensures Divisions(size / Unit) <= 5
  {
    SixthPower();
    DivisionsBelow(size / Unit, 5);
  }

  lemma SixthPower()
    ensures Pow(6) == 0x1000_0000_0000_0000
  {
    assert Pow(3) == 0x4000_0000;
  }

  /** Pow(i) < Pow(j) implies i < j. */
  lemma PowOrder(i: nat, j: nat)
    ensures Pow(i) < Pow(j) ==> i < j
  {
    if j <= i {
      PowMonotone(j, i);
    }
  }

  lemma {:induction false} PowMonotone(i: nat, j: nat)
    requires i <= j
    ensures 1 <= Pow(i) <= Pow(j)
    decreases j
  {
    if i < j {
      PowMonotone(i, j - 1);
    } else if j > 0 {
      PowMonotone(0, j - 1);
    }
  }

  /** Division is uniquely determined by quotient and remainder. */
  lemma DivUnique(a: int, m: int, q: int, r: int)
    requires 0 < m && 0 <= r < m && a == m * q + r
    ensures a / m == q
  {
    var q' := a / m;
    var r' := a % m;
    assert a == m * q' + r';
    if q' > q {
      assert m * q' >= m * (q + 1) by { MulMonotone(m, q + 1, q'); }
    } else if q' < q {
      assert m * q >= m * (q' + 1) by { MulMonotone(m, q' + 1, q); }
    }
  }

  lemma MulMonotone(m: int, x: int, y: int)
    requires 0 < m && x <= y
    ensures m * x <= m * y
  {
  }

  lemma DivDiv(a: int, b: int, c: int)
    requires 0 <= a && 0 < b && 0 < c
    ensures a / b / c == a / (b * c)
  {
    var q, r := a / b, a % b;
    var q2, r2 := q / c, q % c;
    assert a == b * q + r;
    assert q == c * q2 + r2;
    assert b * q == b * (c * q2) + b * r2;
    assert b * (c * q2) == (b * c) * q2;
    assert 0 <= b * r2 by { MulMonotone(b, 0, r2); }
    assert b * r2 <= b * (c - 1) by { MulMonotone(b, r2, c - 1); }
    assert b * (c - 1) == b * c - b;
    DivUnique(a, b * c, q2, b * r2 + r);
  }

  /** a / b >= c implies a >= b * c. */
  lemma DivLowerBound(a: int, b: int, c: int)
    requires 0 <= a && 0 < b && 0 <= c && a / b >= c
    ensures a >= b * c
  {
    assert a == b * (a / b) + a % b;
    MulMonotone(b, c, a / b);
  }

  /** a / b < c implies a < b * c. */
  lemma DivUpperBound(a: int, b: int, c: int)
    requires 0 <= a && 0 < b && a / b < c
    ensures a < b * c
  {
    assert a == b * (a / b) + a % b;
    MulMonotone(b, a / b + 1, c);
  }

  /** a < b * c implies a / b < c. */
  lemma DivStrictUpper(a: int, b: int, c: int)
    requires 0 <= a && 0 < b && a < b * c
    ensures a / b < c
  {
    assert a == b * (a / b) + a % b;
    if a / b >= c {
      MulMonotone(b, c, a / b);
    }
  }
}
