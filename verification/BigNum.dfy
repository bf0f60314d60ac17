/**
 CFBigNumber's arithmetic: five base-10^9 digits, least significant first, and a
 sign that is 0 or -1.
 */
module BigNum {

  const Limit: nat := 1_000_000_000
  const Digits: nat := 5

  /** The weight of digit `i`. */
  function Weight(i: nat): (w: nat)
    ensures 0 < w
  {
    if i == 0 then 1 else Limit * Weight(i - 1)
  }

  /** The magnitude some digits stand for. */
  function Value(d: seq<nat>): nat {
    if d == [] then 0 else Value(d[..|d| - 1]) + d[|d| - 1] * Weight(|d| - 1)
  }

  function Signed(d: seq<nat>, sign: int): int {
    if sign < 0 then 0 - Value(d) else Value(d)
  }

  /** All digits below 10^9. */
  ghost predicate InRange(d: seq<nat>) {
    forall i :: 0 <= i < |d| ==> d[i] < Limit
  }

  /** The only form the header allows: five digits in range, and zero is not negative. */
  ghost predicate CanonicalForm(d: seq<nat>, sign: int) {
    && |d| == Digits
    && InRange(d)
    && (sign == 0 || sign == -1)
    && (sign == -1 ==> Value(d) != 0)
  }

  // ---------------------------------------------------------------- digits and their value

  lemma {:induction false} ValueBound(d: seq<nat>)
    requires InRange(d)
    ensures Value(d) < Weight(|d|)
  {
    if d != [] {
      ValueBound(d[..|d| - 1]);
      Scale(d[|d| - 1], Limit - 1, Weight(|d| - 1));
    }
  }

  lemma Scale(x: nat, y: nat, w: nat)
    requires x <= y
    ensures x * w <= y * w
  {
  }

  lemma Step(d: seq<nat>, i: nat)
    requires i < |d|
    ensures Value(d[..i + 1]) == Value(d[..i]) + d[i] * Weight(i)
  {
    assert d[..i + 1][..i] == d[..i];
  }

  lemma {:induction false} DropZeros(d: seq<nat>, n: nat)
    requires n <= |d| && forall i :: n <= i < |d| ==> d[i] == 0
    ensures Value(d[..n]) == Value(d)
    decreases |d| - n
  {
    if n == |d| {
      assert d[..n] == d;
    } else {
      DropZeros(d, n + 1);
      Step(d, n);
    }
  }

  /** Two numbers that agree from digit `i` on differ by what is below. */
  lemma {:induction false} SameAbove(a: seq<nat>, b: seq<nat>, i: nat)
    requires |a| == |b| && i <= |a| && a[i..] == b[i..]
    ensures Value(a) - Value(b) == Value(a[..i]) - Value(b[..i])
    decreases |a| - i
  {
    if i == |a| {
      assert a[..i] == a && b[..i] == b;
    } else {
      assert a[i] == a[i..][0] == b[i..][0] == b[i];
      assert a[i + 1..] == a[i..][1..] && b[i + 1..] == b[i..][1..];
      SameAbove(a, b, i + 1);
      Step(a, i);
      Step(b, i);
    }
  }

  /** The highest digit in which two numbers differ decides their order. */
  lemma HighestDecides(a: seq<nat>, b: seq<nat>, i: nat)
    requires InRange(a) && InRange(b) && |a| == |b| && i < |a|
    requires a[i + 1..] == b[i + 1..] && a[i] < b[i]
    ensures Value(a) < Value(b)
  {
    SameAbove(a, b, i + 1);
    Step(a, i);
    Step(b, i);
    ValueBound(a[..i]);
    Scale(a[i] + 1, b[i], Weight(i));
    assert (a[i] + 1) * Weight(i) == a[i] * Weight(i) + Weight(i);
  }

  // ---------------------------------------------------------------- the number object

  class Number {
    var digits: seq<nat>
    var sign: int

    constructor ()
      ensures digits == [0, 0, 0, 0, 0] && sign == 0
    {
      digits, sign := [0, 0, 0, 0, 0], 0;
    }

    ghost predicate Shape()
      reads this
    {
      |digits| == Digits && (sign == 0 || sign == -1)
    }

    ghost predicate Canonical()
      reads this
    {
      CanonicalForm(digits, sign)
    }

    ghost function Int(): int
      reads this
    {
      Signed(digits, sign)
    }
  }

  datatype Order = Less | Equal | Greater

  /** Compares two canonical numbers as integers. */
  method Compare(a: Number, b: Number) returns (o: Order)
    requires a.Canonical() && b.Canonical()
    ensures o == Less <==> a.Int() < b.Int()
    ensures o == Equal <==> a.Int() == b.Int()
    ensures o == Greater <==> a.Int() > b.Int()
  {
    if a.sign == b.sign {
      var negative := a.sign < 0;
      var i := Digits;
      while 0 < i
        invariant 0 <= i <= Digits && a.digits[i..] == b.digits[i..]
      {
        i := i - 1;
        if a.digits[i] < b.digits[i] {
          HighestDecides(a.digits, b.digits, i);
          return if !negative then Less else Greater;
        }
        if a.digits[i] > b.digits[i] {
          HighestDecides(b.digits, a.digits, i);
          return if negative then Less else Greater;
        }
      }
      assert a.digits == a.digits[0..] == b.digits[0..] == b.digits;
      return Equal;
    }
    return if a.sign < b.sign then Less else Greater;
  }

  /** Compares magnitudes. */
  method AbsoluteLessThan(a: Number, b: Number) returns (less: bool)
    requires a.Shape() && b.Shape() && InRange(a.digits) && InRange(b.digits)
    ensures less <==> Value(a.digits) < Value(b.digits)
  {
    var i := Digits;
    while 0 < i
      invariant 0 <= i <= Digits && a.digits[i..] == b.digits[i..]
    {
      i := i - 1;
      if a.digits[i] < b.digits[i] {
        HighestDecides(a.digits, b.digits, i);
        return true;
      }
      if a.digits[i] > b.digits[i] {
        HighestDecides(b.digits, a.digits, i);
        return false;
      }
    }
    assert a.digits == a.digits[0..] == b.digits[0..] == b.digits;
    return false;
  }

  // ---------------------------------------------------------------- adding magnitudes

  /** The carry into column `i` in the usual schoolbook sum. */
  ghost function SchoolCarry(a: seq<nat>, b: seq<nat>, i: nat): nat
    requires i <= |a| == |b|
  {
    if i == 0 then 0
    else if Limit <= a[i - 1] + b[i - 1] + SchoolCarry(a, b, i - 1) then 1 else 0
  }

  /** None of the first `i` columns of the schoolbook sum comes to exactly 10^9. */
  ghost predicate NoColumnHits(a: seq<nat>, b: seq<nat>, i: nat)
    requires i <= |a| == |b|
  {
    forall j :: 0 <= j < i ==> a[j] + b[j] + SchoolCarry(a, b, j) != Limit
  }

  lemma AddColumn(x: nat, y: nat, carry: nat, out: nat, carry': nat, w: nat)
    requires out + Limit * carry' == x + y + carry
    ensures out * w + carry' * (Limit * w) == x * w + y * w + carry * w
  {
  }

  /** What the digits written so far say about the columns added so far. */
  ghost predicate Summed(a: seq<nat>, b: seq<nat>, r: seq<nat>, carry: nat, i: nat)
    requires i <= |a| == |b| == |r|
  {
    && carry <= 1
    && Value(r[..i]) + carry * Weight(i) == Value(a[..i]) + Value(b[..i])
    && (InRange(a) && InRange(b) ==>
         && (InRange(r[..i]) <==> NoColumnHits(a, b, i))
         && (NoColumnHits(a, b, i) ==> carry == SchoolCarry(a, b, i))
         && (0 < i && carry == 1 ==> 0 < r[i - 1]))
  }

  lemma SumStep(a: seq<nat>, b: seq<nat>, r: seq<nat>, carry: nat, i: nat, out: nat, carry': nat)
    requires i < |a| == |b| == |r| && Summed(a, b, r, carry, i)
    requires var sum := a[i] + b[i] + carry;
             if Limit < sum then carry' == 1 && out == sum - Limit else carry' == 0 && out == sum
    ensures Summed(a, b, r[i := out], carry', i + 1)
  {
    var r' := r[i := out];
    assert r'[..i] == r[..i];
    Step(a, i);
    Step(b, i);
    Step(r', i);
    AddColumn(a[i], b[i], carry, out, carry', Weight(i));
    if InRange(a) && InRange(b) {
      assert r'[..i + 1] == r[..i] + [out];
      if InRange(r'[..i + 1]) {
        assert forall j :: 0 <= j < i ==> r[..i][j] == r'[..i + 1][j];
        assert r'[..i + 1][i] == out;
      }
    }
  }

  /** The same-sign loop; `r` may be `a` or `b`. */
  method AddMagnitudes(r: Number, a: Number, b: Number) returns (carry: nat)
    requires r.Shape() && a.Shape() && b.Shape()
    requires forall i :: 0 <= i < Digits ==> a.digits[i] < 0x8000_0000 && b.digits[i] < 0x8000_0000
    modifies r`digits
    ensures |r.digits| == Digits && Summed(old(a.digits), old(b.digits), r.digits, carry, Digits)
  {
    ghost var a0, b0 := a.digits, b.digits;
    carry := 0;
    for i := 0 to Digits
      invariant |r.digits| == Digits
      invariant forall j :: i <= j < Digits ==> a.digits[j] == a0[j] && b.digits[j] == b0[j]
      invariant |a.digits| == |b.digits| == Digits
      invariant Summed(a0, b0, r.digits, carry, i)
    {
      hide Summed;
      ghost var before := carry;
      var result := (a.digits[i] + b.digits[i] + carry) % 0x1_0000_0000;
      assert carry <= 1 by { SummedCarry(a0, b0, r.digits, carry, i); }
      if Limit < result {
        carry := 1;
        result := result - Limit;
      } else {
        carry := 0;
      }
      SumStep(a0, b0, r.digits, before, i, result, carry);
      r.digits := r.digits[i := result];
    }
  }

  lemma SummedCarry(a: seq<nat>, b: seq<nat>, r: seq<nat>, carry: nat, i: nat)
    requires i <= |a| == |b| == |r| && Summed(a, b, r, carry, i)
    ensures carry <= 1
  {
  }

  // ---------------------------------------------------------------- subtracting magnitudes

  ghost predicate Differenced(a: seq<nat>, b: seq<nat>, r: seq<nat>, borrow: nat, i: nat)
    requires i <= |a| == |b| == |r|
  {
    && borrow <= 1
    && Value(r[..i]) + Value(b[..i]) == Value(a[..i]) + borrow * Weight(i)
    && InRange(r[..i])
  }

  lemma DifferenceStep(a: seq<nat>, b: seq<nat>, r: seq<nat>, borrow: nat, i: nat, out: nat, borrow': nat)
    requires i < |a| == |b| == |r| && InRange(a) && InRange(b) && Differenced(a, b, r, borrow, i)
    requires var diff := a[i] - b[i] - borrow;
             if diff < 0 then borrow' == 1 && out == diff + Limit else borrow' == 0 && out == diff
    ensures Differenced(a, b, r[i := out], borrow', i + 1)
  {
    var r' := r[i := out];
    assert r'[..i] == r[..i];
    Step(a, i);
    Step(b, i);
    Step(r', i);
    AddColumn(out, b[i], borrow, a[i], borrow', Weight(i));
    assert r'[..i + 1] == r[..i] + [out];
  }

  /** The opposite-sign loop, larger magnitude first; `r` may be either operand.  No borrow is left over. */
  method SubtractMagnitudes(r: Number, big: Number, small: Number) returns (borrow: nat)
    requires r.Shape() && big.Shape() && small.Shape() && InRange(big.digits) && InRange(small.digits)
    requires Value(small.digits) <= Value(big.digits)
    modifies r`digits
    ensures borrow == 0 && |r.digits| == Digits && InRange(r.digits)
    ensures Value(r.digits) == old(Value(big.digits)) - old(Value(small.digits))
  {
    ghost var a0, b0 := big.digits, small.digits;
    borrow := 0;
    for i := 0 to Digits
      invariant |r.digits| == Digits && |big.digits| == |small.digits| == Digits
      invariant forall j :: i <= j < Digits ==> big.digits[j] == a0[j] && small.digits[j] == b0[j]
      invariant Differenced(a0, b0, r.digits, borrow, i)
    {
      ghost var before := borrow;
      var result := big.digits[i] - small.digits[i] - borrow;
      if result < 0 {
        borrow := 1;
        result := result + Limit;
      } else {
        borrow := 0;
      }
      DifferenceStep(a0, b0, r.digits, before, i, result, borrow);
      r.digits := r.digits[i := result];
    }
    assert r.digits[..Digits] == r.digits && a0[..Digits] == a0 && b0[..Digits] == b0;
    ValueBound(r.digits);
  }

  // ---------------------------------------------------------------- signed arithmetic

  lemma PositiveDigit(d: seq<nat>)
    requires d != [] && 0 < d[|d| - 1]
    ensures 0 < Value(d)
  {
  }

  /** Exactly when the sum of two canonical numbers comes out canonical. */
  ghost predicate SumIsCanonical(a: seq<nat>, signA: int, b: seq<nat>, signB: int)
    requires |a| == |b|
  {
    if signA == signB then NoColumnHits(a, b, |a|)
    else signA < 0 ==> Value(a) != Value(b)
  }

  /**
   r = a + b, with the carry out of the top digit; `r` may be `a` or `b`.  A column
   that comes to exactly 10^9 is not carried and stays as a digit out of range, and
   a sum that cancels takes the sign of `a`, so the result is canonical exactly when
   neither happens.
   */
  method Add(r: Number, a: Number, b: Number) returns (carry: nat)
    requires r.Shape() && a.Shape() && b.Shape()
    requires forall i :: 0 <= i < Digits ==> a.digits[i] < 0x8000_0000 && b.digits[i] < 0x8000_0000
    requires a.sign != b.sign ==> InRange(a.digits) && InRange(b.digits)
    modifies r
    ensures r.Shape() && carry <= 1
    ensures r.Int() + (if old(a.sign) < 0 then 0 - carry * Weight(Digits) else carry * Weight(Digits)) == old(a.Int()) + old(b.Int())
    ensures old(a.sign) != old(b.sign) ==> carry == 0
    ensures old(a.Canonical()) && old(b.Canonical()) ==>
      (r.Canonical() <==> SumIsCanonical(old(a.digits), old(a.sign), old(b.digits), old(b.sign)))
  {
    ghost var a0, b0 := a.digits, b.digits;
    if a.sign == b.sign {
      var sign := a.sign;
      carry := AddMagnitudes(r, a, b);
      r.sign := sign;
      assert r.digits[..Digits] == r.digits && a0[..Digits] == a0 && b0[..Digits] == b0;
      if carry == 1 && InRange(a0) && InRange(b0) {
        PositiveDigit(r.digits);
      }
    } else {
      var less := AbsoluteLessThan(a, b);
      var sign := if less then b.sign else a.sign;
      carry := SubtractMagnitudes(r, if less then b else a, if less then a else b);
      r.sign := if sign < 0 then -1 else 0;
    }
  }

  /** The two ways a sum of canonical numbers fails to be canonical do occur. */
  lemma SumNotAlwaysCanonical()
    ensures CanonicalForm([999_999_999, 0, 0, 0, 0], 0) && CanonicalForm([1, 0, 0, 0, 0], 0)
    ensures !SumIsCanonical([999_999_999, 0, 0, 0, 0], 0, [1, 0, 0, 0, 0], 0)
    ensures CanonicalForm([1, 0, 0, 0, 0], -1)
    ensures !SumIsCanonical([1, 0, 0, 0, 0], -1, [1, 0, 0, 0, 0], 0)
  {
    var a, b := [999_999_999, 0, 0, 0, 0], [1, 0, 0, 0, 0];
    assert a[0] + b[0] + SchoolCarry(a, b, 0) == Limit;
    FiveDigits(b);
  }

  const Limit2: nat := 1_000_000_000_000_000_000
  const Limit3: nat := 1_000_000_000_000_000_000_000_000_000
  const Limit4: nat := 1_000_000_000_000_000_000_000_000_000_000_000_000

  lemma FiveDigits(d: seq<nat>)
    requires |d| == Digits
    ensures Value(d) == d[0] + d[1] * Limit + d[2] * Limit2 + d[3] * Limit3 + d[4] * Limit4
  {
    assert Weight(0) == 1 && Weight(1) == Limit && Weight(2) == Limit2 && Weight(3) == Limit3 && Weight(4) == Limit4;
    Step(d, 0);
    Step(d, 1);
    Step(d, 2);
    Step(d, 3);
    Step(d, 4);
    assert d[..0] == [] && d[..5] == d;
  }

  /** What a number stands for, in so many digits. */
  lemma SignedReads(d: seq<nat>, sign: int)
    requires |d| == 5
    ensures var v: int := d[0] + d[1] * 1_000_000_000 + d[2] * 1_000_000_000_000_000_000
                     + d[3] * 1_000_000_000_000_000_000_000_000_000 + d[4] * 1_000_000_000_000_000_000_000_000_000_000_000_000;
            Signed(d, sign) == if sign < 0 then -v else v
  {
    FiveDigits(d);
  }

  lemma {:induction false} ZeroDigits(d: seq<nat>)
    ensures Value(d) == 0 <==> forall i :: 0 <= i < |d| ==> d[i] == 0
  {
    if d != [] {
      var n := |d| - 1;
      ZeroDigits(d[..n]);
      if 0 < d[n] {
        PositiveDigit(d);
      }
    }
  }

  ghost function NegatedSign(d: seq<nat>, sign: int): int {
    if Value(d) == 0 then sign else sign * sign - 1
  }

  /** r = -a; zero keeps its sign.  `r` may be `a`. */
  method Neg(r: Number, a: Number)
    requires r.Shape() && a.Shape()
    modifies r
    ensures r.digits == old(a.digits) && r.sign == NegatedSign(old(a.digits), old(a.sign))
    ensures r.Shape() && r.Int() == -old(a.Int())
    ensures r.Canonical() <==> old(a.Canonical())
  {
    r.digits, r.sign := a.digits, a.sign;
    var isZero := true;
    for i := 0 to Digits
      invariant isZero <==> forall j :: 0 <= j < i ==> r.digits[j] == 0
    {
      if r.digits[i] != 0 {
        isZero := false;
      }
    }
    ZeroDigits(r.digits);
    if !isZero {
      r.sign := r.sign * r.sign - 1;
    }
  }

  /** r = a - b, as the sum of `a` and the negated `b`; `r` may be `a` or `b`. */
  method Sub(r: Number, a: Number, b: Number) returns (carry: nat)
    requires r.Shape() && a.Canonical() && b.Canonical()
    modifies r
    ensures r.Shape() && carry <= 1
    ensures r.Int() + (if old(a.sign) < 0 then 0 - carry * Weight(Digits) else carry * Weight(Digits)) == old(a.Int()) - old(b.Int())
    ensures old(a.sign) != NegatedSign(old(b.digits), old(b.sign)) ==> carry == 0
    ensures r.Canonical() <==>
      SumIsCanonical(old(a.digits), old(a.sign), old(b.digits), NegatedSign(old(b.digits), old(b.sign)))
  {
    var nb := new Number();
    Neg(nb, b);
    carry := Add(r, a, nb);
  }
}
