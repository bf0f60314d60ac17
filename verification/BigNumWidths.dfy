/**
 Big numbers and fixed-width integers: the initialisers, the wrapping getters and the
 choice of the narrowest CFNumber type that holds a value.
 */
module BigNumWidths {
  import opened BigNum
  import opened Wrapping

  const Half8: int := 0x80
  const Half16: int := 0x8000
  const Half32: int := 0x8000_0000
  const Half64: int := 0x8000_0000_0000_0000
  const Half128: int := 0x8000_0000_0000_0000_0000_0000_0000_0000

  predicate Fits(x: int, half: int) { -half <= x < half }

  // ---------------------------------------------------------------- from integers

  /** A signed machine integer reinterpreted as unsigned. */
  function Unsigned(w: int, half: int): (u: int)
    requires 0 < half
    ensures 0 <= u < 2 * half
  {
    w % (2 * half)
  }

  /** The magnitude the initialisers compute, negation wrapping at the most negative value. */
  function Magnitude(n: int, half: int): nat
    requires 0 < half
  {
    if n < 0 then Unsigned(Wrap(-1 * n, half), half) else Unsigned(n, half)
  }

  lemma MagnitudeIsAbsolute(n: int, half: int)
    requires 0 < half && Fits(n, half)
    ensures Magnitude(n, half) == if n < 0 then -n else n
  {
    hide Wrap;
    hide Unsigned;
    if n == -half {
      WrapShift(-half, 1, half);
      WrapFits(-half, half);
      UnsignedReads(-half, half);
    } else {
      WrapFits(if n < 0 then -n else n, half);
      UnsignedReads(if n < 0 then -n else n, half);
    }
  }

  lemma UnsignedReads(w: int, half: int)
    requires 0 < half && -half <= w < half
    ensures Unsigned(w, half) == if w < 0 then w + 2 * half else w
  {
    var m := 2 * half;
    assert w == (w / m) * m + w % m;
    if w < 0 {
      SmallMultiple(w / m + 1, m);
    } else {
      SmallMultiple(w / m, m);
    }
  }

  method InitWithInt32(r: Number, n: int)
    requires Fits(n, Half32)
    modifies r
    ensures r.Canonical() && r.Int() == n
  {
    MagnitudeIsAbsolute(n, Half32);
    var u := Magnitude(n, Half32);
    var dig1 := u / Limit;
    r.digits := [u - dig1 * Limit, dig1, 0, 0, 0];
    r.sign := if n < 0 then -1 else 0;
    FiveDigits(r.digits);
  }

  method InitWithInt64(r: Number, n: int)
    requires Fits(n, Half64)
    modifies r
    ensures r.Canonical() && r.Int() == n
  {
    MagnitudeIsAbsolute(n, Half64);
    var u := Magnitude(n, Half64);
    var dig2 := u / Limit2;
    u := u - dig2 * Limit2;
    var dig1 := u / Limit;
    r.digits := [u - dig1 * Limit, dig1, dig2, 0, 0];
    r.sign := if n < 0 then -1 else 0;
    FiveDigits(r.digits);
  }

  method InitWithInt128(r: Number, n: int)
    requires Fits(n, Half128)
    modifies r
    ensures r.Canonical() && r.Int() == n
  {
    MagnitudeIsAbsolute(n, Half128);
    var u := Magnitude(n, Half128);
    var dig4 := u / Limit4;
    u := u - dig4 * Limit4;
    var dig3 := u / Limit3;
    u := u - dig3 * Limit3;
    var dig2 := u / Limit2;
    u := u - dig2 * Limit2;
    var dig1 := u / Limit;
    r.digits := [u - dig1 * Limit, dig1, dig2, dig3, dig4];
    r.sign := if n < 0 then -1 else 0;
    FiveDigits(r.digits);
  }

  // ---------------------------------------------------------------- to integers

  /** The first digits of a number, accumulated with wrap-around after every step. */
  function Accumulated(d: seq<nat>, n: nat, half: int): int
    requires n <= |d| && 0 < half
  {
    if n == 0 then 0 else Wrap(Accumulated(d, n - 1, half) + d[n - 1] * Weight(n - 1), half)
  }

  /** The getter of a given width: `n` digits, then the sign. */
  function GetInt(d: seq<nat>, sign: int, n: nat, half: int): int
    requires n <= |d| && 0 < half
  {
    var result := Accumulated(d, n, half);
    if sign < 0 then Wrap(-1 * result, half) else result
  }

  lemma {:induction false} AccumulatedWraps(d: seq<nat>, n: nat, half: int)
    requires n <= |d| && 0 < half
    ensures Accumulated(d, n, half) == Wrap(Value(d[..n]), half)
  {
    if n == 0 {
      WrapFits(0, half);
    } else {
      AccumulatedWraps(d, n - 1, half);
      BigNum.Step(d, n - 1);
      WrapSteps(Value(d[..n - 1]), d[n - 1] * Weight(n - 1), half);
    }
  }

  /** A getter that reads all nonzero digits returns the number wrapped to its width; in range, the number itself. */
  lemma GetIntWraps(d: seq<nat>, sign: int, n: nat, half: int)
    requires n <= |d| && 0 < half && forall i :: n <= i < |d| ==> d[i] == 0
    ensures GetInt(d, sign, n, half) == Wrap(Signed(d, sign), half)
    ensures Fits(Signed(d, sign), half) ==> GetInt(d, sign, n, half) == Signed(d, sign)
  {
    AccumulatedWraps(d, n, half);
    DropZeros(d, n);
    WrapSteps(Value(d), 0, half);
    if Fits(Signed(d, sign), half) {
      WrapFits(Signed(d, sign), half);
    }
  }

  // ---------------------------------------------------------------- the narrowing ladder

  datatype CFNumber = NULL | CFNumber(bits: nat, value: int)

  /** Whether a number lies between the limits of a width. */
  method WithinLimits(input: Number, half: int) returns (within: bool)
    requires input.Canonical() && (half == Half32 || half == Half64 || half == Half128)
    ensures within <==> Fits(input.Int(), half)
  {
    var maxlimit := new Number();
    var minlimit := new Number();
    if half == Half32 {
      InitWithInt32(maxlimit, half - 1);
      InitWithInt32(minlimit, -half);
    } else if half == Half64 {
      InitWithInt64(maxlimit, half - 1);
      InitWithInt64(minlimit, -half);
    } else {
      InitWithInt128(maxlimit, half - 1);
      InitWithInt128(minlimit, -half);
    }
    var cr := Compare(input, maxlimit);
    var crn := Compare(input, minlimit);
    within := (cr == Less || cr == Equal) && crn != Less;
  }

  /** How large a number with high digits is at least. */
  lemma Reach(d: seq<nat>, sign: int)
    requires |d| == Digits
    ensures d[4] == d[3] == d[2] == d[1] == 0 ==> if sign < 0 then Signed(d, sign) + d[0] == 0 else Signed(d, sign) == d[0]
    ensures d[4] + d[3] + d[2] + d[1] != 0 ==> Signed(d, sign) + Limit <= 0 || Limit <= Signed(d, sign)
    ensures d[4] + d[3] + d[2] != 0 ==> Signed(d, sign) + Limit2 <= 0 || Limit2 <= Signed(d, sign)
    ensures d[4] + d[3] != 0 ==> Signed(d, sign) + Limit3 <= 0 || Limit3 <= Signed(d, sign)
  {
    hide Value;
    FiveDigits(d);
  }

  /**
   The CFNumber made from a big number: the same value in the narrowest type, NULL
   beyond 128 bits.  A most negative 8- or 16-bit value goes one size up; the wider ones
   do not.
   */
  method CreateWithBigNum(input: Number) returns (n: CFNumber)
    requires input.Canonical()
    ensures n == NULL <==> !(-0x8000_0000_0000_0000_0000_0000_0000_0000 <= input.Int() < 0x8000_0000_0000_0000_0000_0000_0000_0000)
    ensures n != NULL ==> n.value == input.Int() && n.bits in {8, 16, 32, 64, 128}
    ensures n != NULL ==> (n.bits == 8 <==> -0x80 < n.value < 0x80)
    ensures n != NULL ==> (n.bits <= 16 <==> -0x8000 < n.value < 0x8000)
    ensures n != NULL ==> (n.bits <= 32 <==> -0x8000_0000 <= n.value < 0x8000_0000)
    ensures n != NULL ==> (n.bits <= 64 <==> -0x8000_0000_0000_0000 <= n.value < 0x8000_0000_0000_0000)
  {
    hide GetInt;
    hide Value;
    hide Signed;
    var d, sign := input.digits, input.sign;
    Reach(d, sign);
    if d[4] == 0 && d[3] == 0 && d[2] == 0 && d[1] == 0 {
      if d[0] <= Half8 - 1 {
        GetIntWraps(d, sign, 1, Half8);
        return CFNumber(8, GetInt(d, sign, 1, Half8));
      } else if d[0] <= Half16 - 1 {
        GetIntWraps(d, sign, 1, Half16);
        return CFNumber(16, GetInt(d, sign, 1, Half16));
      }
    }
    if d[4] == 0 && d[3] == 0 && d[2] == 0 {
      var within := WithinLimits(input, Half32);
      if within {
        GetIntWraps(d, sign, 2, Half32);
        return CFNumber(32, GetInt(d, sign, 2, Half32));
      }
    }
    if d[4] == 0 && d[3] == 0 {
      var within := WithinLimits(input, Half64);
      if within {
        GetIntWraps(d, sign, 3, Half64);
        return CFNumber(64, GetInt(d, sign, 3, Half64));
      }
    }
    var within := WithinLimits(input, Half128);
    if within {
      GetIntWraps(d, sign, 5, Half128);
      return CFNumber(128, GetInt(d, sign, 5, Half128));
    }
    return NULL;
  }
}
