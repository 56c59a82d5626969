/** The field with 256 elements of section 4.2 of FIPS 197, as computed by gf256Mul and gf256Inv.
    A byte is an int below 256; its digits are the coefficients of a binary polynomial. */
module GF256 {
  import opened BinaryEvaluation
  import opened BinaryPolynomials
  import opened Integers

  const POLYNOMIAL: nat := 0x11B  // x^8 + x^4 + x^3 + x + 1

  lemma ByteXor(a: byte, b: byte)
    ensures Xor(a, b) < 256
  {
    assert Pow2(8) == 256;
    XorBound(a, b, 8);
  }

  function Add(a: byte, b: byte): byte {
    ByteXor(a, b);
    Xor(a, b)
  }

  // a << 1 on a byte.
  function ShiftLeft(a: byte): (s: byte)
    ensures s == if a >= 128 then 2 * a - 256 else 2 * a
  {
    (2 * a) % 256
  }

  // Multiplication by x: shift left in eight bits and, if a bit fell out, subtract the polynomial.
  function XTime(a: byte): byte {
    if a >= 128 then Add(ShiftLeft(a), 0x1B) else ShiftLeft(a)
  }

  function Mul(a: byte, b: byte): byte
    decreases b, a
  {
    if b == 0 then 0
    else Add(if b % 2 == 1 then a else 0, Mul(XTime(a), b / 2))
  }

  // One iteration of gf256Mul moves one digit of b into p.
  lemma MulIteration(p: byte, a: byte, b: byte)
    ensures Xor(p, Mul(a, b)) == Xor(Add(p, if b % 2 == 1 then a else 0), Mul(XTime(a), b / 2))
  {
    XorAssoc(p, if b % 2 == 1 then a else 0, Mul(XTime(a), b / 2));
    XorComm(p, 0);
  }

  // The body of the loop of gf256Mul.
  method MulLoopBody(p0: byte, a0: byte, b0: byte) returns (p: byte, a: byte, b: byte)
    ensures p == Add(p0, if b0 % 2 == 1 then a0 else 0)
    ensures a == XTime(a0) && b == b0 / 2
  {
    p, a, b := p0, a0, b0;
    XorComm(p, 0);
    if b % 2 == 1 {
      p := Add(p, a);
    }
    var hi := a >= 128;
    a := ShiftLeft(a);
    if hi {
      a := Add(a, 0x1B);
    }
    b := b / 2;
  }

  method Gf256Mul(a0: byte, b0: byte) returns (p: byte)
    ensures p == Mul(a0, b0)
  {
    var a: byte, b: byte := a0, b0;
    p := 0;
    for i := 0 to 8
      invariant b < Pow2(8 - i)
      invariant Xor(p, Mul(a, b)) == Mul(a0, b0)
    {
      MulIteration(p, a, b);
      p, a, b := MulLoopBody(p, a, b);
    }
    XorComm(p, 0);
  }

  // ---------- Multiplication is multiplication of polynomials modulo the polynomial ----------

  lemma ShiftOut(y: byte, low: byte)
    ensures Xor(256 + y, 256 + low) == Xor(y, low)
  {
    assert Pow2(8) == 256;
    XorTopDigits(8, y, low);
  }

  lemma XTimeIsRemainder(a: byte)
    ensures XTime(a) == if a >= 128 then Xor(2 * a, POLYNOMIAL) else 2 * a
  {
    if a >= 128 {
      ShiftOut(2 * a - 256, 0x1B);
    }
  }

  lemma {:induction false} MulIsRemainder(a: byte, b: byte)
    ensures IsRemainder(ClMul(a, b), POLYNOMIAL, 8, Mul(a, b))
    decreases b
  {
    assert Pow2(8) == 256;
    if b == 0 {
      assert ClMul(a, b) == Xor(ClMul(POLYNOMIAL, 0), 0);
    } else {
      var x, h := XTime(a), b / 2;
      MulIsRemainder(x, h);
      var q: nat :| ClMul(x, h) == Xor(ClMul(POLYNOMIAL, q), Mul(x, h));
      var carry: nat := if a >= 128 then h else 0;
      var low: byte := if b % 2 == 1 then a else 0;
      XTimeIsRemainder(a);
      calc {
        ClMul(2 * a, h);
      == { XorCancel(POLYNOMIAL, 2 * a); ClMulLeftXor(x, POLYNOMIAL, h); }
        Xor(ClMul(x, h), ClMul(POLYNOMIAL, carry));
      == { XorComm(ClMul(x, h), ClMul(POLYNOMIAL, carry));
           XorAssoc(ClMul(POLYNOMIAL, carry), ClMul(POLYNOMIAL, q), Mul(x, h));
           ClMulRightXor(POLYNOMIAL, carry, q); }
        Xor(ClMul(POLYNOMIAL, Xor(carry, q)), Mul(x, h));
      }
      calc {
        ClMul(a, b);
        Xor(low, Xor(ClMul(POLYNOMIAL, Xor(carry, q)), Mul(x, h)));
      == { XorAssoc(low, ClMul(POLYNOMIAL, Xor(carry, q)), Mul(x, h));
           XorComm(low, ClMul(POLYNOMIAL, Xor(carry, q)));
           XorAssoc(ClMul(POLYNOMIAL, Xor(carry, q)), low, Mul(x, h)); }
        Xor(ClMul(POLYNOMIAL, Xor(carry, q)), Mul(a, b));
      }
    }
  }

  // The product is the only byte congruent to the product of the polynomials.
  lemma MulIsTheRemainder(a: byte, b: byte, r: nat)
    ensures IsRemainder(ClMul(a, b), 0x11B, 8, r) <==> r == Mul(a, b)
  {
    MulIsRemainder(a, b);
    assert Pow2(8) == 256;
    if IsRemainder(ClMul(a, b), POLYNOMIAL, 8, r) {
      RemainderIsUnique(ClMul(a, b), POLYNOMIAL, 8, r, Mul(a, b));
    }
  }

  // ---------- Ring laws ----------

  lemma MulComm(a: byte, b: byte)
    ensures Mul(a, b) == Mul(b, a)
  {
    MulIsRemainder(a, b);
    ClMulComm(a, b);
    MulIsTheRemainder(b, a, Mul(a, b));
  }

  lemma MulAssoc(a: byte, b: byte, c: byte)
    ensures Mul(Mul(a, b), c) == Mul(a, Mul(b, c))
  {
    assert Pow2(8) == 256;
    var p := ClMul(ClMul(a, b), c);
    MulIsRemainder(a, b);
    MulIsRemainder(Mul(a, b), c);
    RemainderOfProduct(ClMul(a, b), Mul(a, b), c, POLYNOMIAL, 8, Mul(Mul(a, b), c));
    assert IsRemainder(p, POLYNOMIAL, 8, Mul(Mul(a, b), c));
    MulIsRemainder(b, c);
    MulIsRemainder(Mul(b, c), a);
    RemainderOfProduct(ClMul(b, c), Mul(b, c), a, POLYNOMIAL, 8, Mul(Mul(b, c), a));
    ClMulAssoc(a, b, c);
    ClMulComm(a, ClMul(b, c));
    MulComm(a, Mul(b, c));
    RemainderIsUnique(p, POLYNOMIAL, 8, Mul(Mul(a, b), c), Mul(a, Mul(b, c)));
  }

  lemma {:induction false} MulLeftAdd(a: byte, a': byte, b: byte)
    ensures Mul(Add(a, a'), b) == Add(Mul(a, b), Mul(a', b))
    decreases b
  {
    if b != 0 {
      XTimeAdd(a, a');
      MulLeftAdd(XTime(a), XTime(a'), b / 2);
      if b % 2 == 1 {
        XorSwap(a, a', Mul(XTime(a), b / 2), Mul(XTime(a'), b / 2));
      }
    }
  }

  lemma XTimeAdd(a: byte, a': byte)
    ensures XTime(Add(a, a')) == Add(XTime(a), XTime(a'))
  {
    var p, p' := if a >= 128 then POLYNOMIAL else 0, if a' >= 128 then POLYNOMIAL else 0;
    XTimeIsRemainder(a);
    XTimeIsRemainder(a');
    XTimeIsRemainder(Add(a, a'));
    XorDouble(a, a');
    XorSwap(2 * a, p, 2 * a', p');
    XorSelf(POLYNOMIAL);
    assert Pow2(8) == 256 && Pow2(7) == 128;
    XorTopDigit(a, a', 7);
    assert XTime(a) == Xor(2 * a, p) && XTime(a') == Xor(2 * a', p') by {
      XorComm(2 * a, 0);
      XorComm(2 * a', 0);
    }
    XorComm(2 * Xor(a, a'), 0);
  }

  lemma MulRightAdd(a: byte, b: byte, b': byte)
    ensures Mul(a, Add(b, b')) == Add(Mul(a, b), Mul(a, b'))
  {
    MulComm(a, Add(b, b'));
    MulLeftAdd(b, b', a);
    MulComm(a, b);
    MulComm(a, b');
  }

  lemma MulZeroOne(a: byte)
    ensures Mul(a, 0) == Mul(0, a) == 0
    ensures Mul(a, 1) == Mul(1, a) == a
  {
    MulComm(0, a);
    MulComm(1, a);
    XorComm(a, 0);
  }

  // ---------- Every byte but 0 has an inverse ----------

  lemma NoDivisorBelow16(a: nat, c: nat)
    requires 1 < a < 16 && a % 2 == 1
    ensures ClMul(a, c) != POLYNOMIAL
  {
    if a == 3 { Not3(c); }
    else if a == 5 { Not5(c); }
    else if a == 7 { Not7(c); }
    else if a == 9 { Not9(c); }
    else if a == 11 { Not11(c); }
    else if a == 13 { Not13(c); }
    else { Not15(c); }
  }

  lemma NoDivisorBelow32(a: nat, c: nat)
    requires 16 < a < 32 && a % 2 == 1
    ensures ClMul(a, c) != POLYNOMIAL
  {
    if a == 17 { Not17(c); }
    else if a == 19 { Not19(c); }
    else if a == 21 { Not21(c); }
    else if a == 23 { Not23(c); }
    else if a == 25 { Not25(c); }
    else if a == 27 { Not27(c); }
    else if a == 29 { Not29(c); }
    else { Not31(c); }
  }

  lemma NoSmallDivisor(a: nat, c: nat)
    requires 1 < a < 32
    ensures ClMul(a, c) != POLYNOMIAL
  {
    if a % 2 == 0 {
      ClMulDouble(a / 2, c);
    } else if a < 16 {
      NoDivisorBelow16(a, c);
    } else {
      NoDivisorBelow32(a, c);
    }
  }

  lemma Irreducible(a: nat, c: nat)
    requires ClMul(a, c) == 0x11B
    ensures a == 1 || c == 1
  {
    ClMulComm(a, c);
    if 1 < a < 32 {
      NoSmallDivisor(a, c);
    } else if 1 < c < 32 {
      NoSmallDivisor(c, a);
    } else if a >= 32 && c >= 32 {
      assert Pow2(5) == 32 && Pow2(10) == 1024;
      ClMulAtLeast(a, c, 5, 5);
    } else {
      ClMulZero(c);
      ClMulZero(a);
    }
  }

  // Euclid: the polynomial is a q + r with r smaller than a, so q over r inverts a.
  lemma {:induction false} InverseExists(a: byte)
    requires a != 0
    ensures exists b: byte :: Mul(a, b) == 1
    decreases a
  {
    if a == 1 {
      MulZeroOne(1);
    } else {
      var q, r := EuclidStep(a);
      InverseExists(r);
      var b: byte :| Mul(r, b) == 1;
      MulAssoc(a, q, b);
    }
  }

  lemma EuclidStep(a: byte) returns (q: byte, r: byte)
    requires a > 1
    ensures 0 < r < a && Mul(a, q) == r
  {
    var n := Degree(a);
    assert Pow2(8) == 256 && Pow2(9) == 512;
    r := Rem(POLYNOMIAL, a, n);
    RemIsRemainder(POLYNOMIAL, a, n);
    var q': nat :| POLYNOMIAL == Xor(ClMul(a, q'), r);
    if r == 0 {
      XorComm(ClMul(a, q'), 0);
      Irreducible(a, q');
    }
    if n > 8 { Pow2Monotonic(9, n); }
    QuotientBound(POLYNOMIAL, a, q', r, n, 8);
    q := q';
    calc {
      ClMul(a, q);
    == { XorCancel(r, ClMul(a, q)); }
      Xor(POLYNOMIAL, r);
    == { ClMulComm(POLYNOMIAL, 1); ClMulOne(POLYNOMIAL); }
      Xor(ClMul(POLYNOMIAL, 1), r);
    }
    MulIsTheRemainder(a, q, r);
  }

  lemma NoZeroDivisors(a: byte, b: byte)
    requires Mul(a, b) == 0
    ensures a == 0 || b == 0
  {
    if a != 0 {
      InverseExists(a);
      var c: byte :| Mul(a, c) == 1;
      MulComm(a, c);
      MulAssoc(c, a, b);
      MulZeroOne(b);
      MulZeroOne(c);
    }
  }

  // ---------- Powers, and the inverse as a power ----------

  function Pow(a: byte, n: nat): byte {
    if n == 0 then 1 else Mul(a, Pow(a, n - 1))
  }

  lemma {:induction false} PowOfSquare(a: byte, n: nat)
    ensures Pow(Mul(a, a), n) == Pow(a, 2 * n)
  {
    if n != 0 {
      PowOfSquare(a, n - 1);
      MulAssoc(a, a, Pow(a, 2 * n - 2));
    }
  }

  // a squared k times
  function Squared(a: byte, k: nat): byte
    decreases k, a
  {
    if k == 0 then a else Squared(Mul(a, a), k - 1)
  }

  lemma {:induction false} SquaredIsPow(a: byte, k: nat)
    ensures Squared(a, k) == Pow(a, Pow2(k))
    decreases k
  {
    if k == 0 {
      MulZeroOne(a);
    } else {
      SquaredIsPow(Mul(a, a), k - 1);
      PowOfSquare(a, Pow2(k - 1));
    }
  }

  lemma SquareAdd(a: byte, b: byte)
    ensures Mul(Add(a, b), Add(a, b)) == Add(Mul(a, a), Mul(b, b))
  {
    MulLeftAdd(a, b, Add(a, b));
    MulRightAdd(a, a, b);
    MulRightAdd(b, a, b);
    MulComm(a, b);
    XorAssoc(Mul(a, a), Mul(a, b), Add(Mul(a, b), Mul(b, b)));
    XorCancel(Mul(a, b), Mul(b, b));
  }

  lemma {:induction false} SquaredAdd(a: byte, b: byte, k: nat)
    ensures Squared(Add(a, b), k) == Add(Squared(a, k), Squared(b, k))
    decreases k
  {
    if k != 0 {
      SquareAdd(a, b);
      SquaredAdd(Mul(a, a), Mul(b, b), k - 1);
    }
  }

  lemma {:induction false} SquaredMul(a: byte, b: byte, k: nat)
    ensures Squared(Mul(a, b), k) == Mul(Squared(a, k), Squared(b, k))
    decreases k
  {
    if k != 0 {
      var ab := Mul(a, b);
      MulAssoc(ab, a, b);
      MulComm(ab, a);
      MulAssoc(a, a, b);
      MulAssoc(Mul(a, a), b, b);
      SquaredMul(Mul(a, a), Mul(b, b), k - 1);
    }
  }

  lemma SquareCertificate(p: Digits, q: Digits, r: Digits)
    requires IsSquare(p, q, r) && Value(p) < 256 && Value(r) < 256
    ensures Mul(Value(p), Value(p)) == Value(r)
  {
    SquareEquation(p, q, r);
    assert Pow2(8) == 256;
    assert IsRemainder(ClMul(Value(p), Value(p)), POLYNOMIAL, 8, Value(r));
    MulIsTheRemainder(Value(p), Value(p), Value(r));
  }

  lemma SquaredStep(p: Digits, q: Digits, r: Digits, k: nat)
    requires IsSquare(p, q, r) && Value(p) < 256 && Value(r) < 256
    ensures Squared(Value(p), k + 1) == Squared(Value(r), k)
  {
    SquareCertificate(p, q, r);
  }

  // x squares to x^2, x^4, x^8 and so on, and after eight squarings is x again.
  lemma FirstSquarings(k: nat)
    ensures Squared(Value(O(I(Zero))), k + 3) == Squared(Value(I(I(O(I(I(Zero)))))), k)
  {
    SquareOf2();
    SquaredStep(O(I(Zero)), Zero, O(O(I(Zero))), k + 2);
    SquareOf4();
    SquaredStep(O(O(I(Zero))), Zero, O(O(O(O(I(Zero))))), k + 1);
    SquareOf16();
    SquaredStep(O(O(O(O(I(Zero))))), I(Zero), I(I(O(I(I(Zero))))), k + 0);
  }

  lemma MiddleSquarings(k: nat)
    ensures Squared(Value(I(I(O(I(I(Zero)))))), k + 2) == Squared(Value(O(O(I(O(O(I(I(I(Zero))))))))), k)
  {
    SquareOf27();
    SquaredStep(I(I(O(I(I(Zero))))), I(Zero), O(I(I(I(I(O(I(Zero))))))), k + 1);
    SquareOf94();
    SquaredStep(O(I(I(I(I(O(I(Zero))))))), O(O(O(O(I(Zero))))), O(O(I(O(O(I(I(I(Zero)))))))), k + 0);
  }

  lemma LaterSquarings(k: nat)
    ensures Squared(Value(O(O(I(O(O(I(I(I(Zero))))))))), k + 2) == Squared(Value(O(I(O(I(I(I(I(I(Zero))))))))), k)
  {
    SquareOf228();
    SquaredStep(O(O(I(O(O(I(I(I(Zero)))))))), I(I(O(O(I(O(I(Zero))))))), I(O(I(I(O(O(I(Zero))))))), k + 1);
    SquareOf77();
    SquaredStep(I(O(I(I(O(O(I(Zero))))))), I(O(O(O(I(Zero))))), O(I(O(I(I(I(I(I(Zero)))))))), k + 0);
  }

  lemma LastSquaring(k: nat)
    ensures Squared(Value(O(I(O(I(I(I(I(I(Zero))))))))), k + 1) == Squared(Value(O(I(Zero))), k)
  {
    SquareOf250();
    SquaredStep(O(I(O(I(I(I(I(I(Zero)))))))), O(I(O(O(I(O(I(Zero))))))), O(I(Zero)), k + 0);
  }

  const GENERATOR := O(I(Zero))

  lemma SquaredX(k: nat)
    ensures Squared(Value(GENERATOR), k + 8) == Squared(Value(GENERATOR), k)
  {
    FirstSquarings(k + 5);
    MiddleSquarings(k + 3);
    LaterSquarings(k + 1);
    LastSquaring(k);
  }

  // Squaring eight times respects sums and products and fixes x, so it fixes every byte.
  lemma {:induction false} SquaredFixes(a: byte, x: byte, k: nat)
    requires Squared(x, k) == x
    requires forall h: byte :: Mul(h, x) == XTime(h)
    ensures Squared(a, k) == a
    decreases a
  {
    if a < 2 {
      SquaredDigit(a, k);
    } else {
      var h, d: byte := a / 2, a % 2;
      SquaredFixes(h, x, k);
      DigitAndDouble(a, h, d);
      SquaredAdd(d, Mul(h, x), k);
      SquaredMul(h, x, k);
      SquaredDigit(d, k);
    }
  }

  lemma DigitAndDouble(a: byte, h: byte, d: byte)
    requires a == 2 * h + d && d < 2
    ensures a == Add(d, XTime(h))
  {
    XTimeIsRemainder(h);
    XorStep(d, 2 * h);
  }

  lemma MulByTwo(a: byte)
    ensures Mul(a, 2) == XTime(a)
  {
    MulZeroOne(XTime(a));
    assert Mul(a, 2) == Add(0, Mul(XTime(a), 1));
  }

  lemma {:induction false} SquaredDigit(d: byte, k: nat)
    requires d < 2
    ensures Squared(d, k) == d
    decreases k
  {
    MulZeroOne(d);
    if k != 0 {
      SquaredDigit(d, k - 1);
    }
  }

  lemma FixedX(k: nat) returns (x: byte)
    ensures Squared(x, k + 8) == Squared(x, k)
    ensures forall h: byte :: Mul(h, x) == XTime(h)
  {
    x := Value(GENERATOR);
    SquaredX(k);
    forall h: byte ensures Mul(h, x) == XTime(h) {
      MulByTwo(h);
    }
  }

  lemma PowCardinality(a: byte)
    ensures Pow(a, 256) == a
  {
    var x := FixedX(0);
    SquaredFixes(a, x, 8);
    SquaredIsPow(a, 8);
    assert Pow2(8) == 256;
  }

  lemma CancelFactor(a: byte, p: byte)
    requires a != 0 && Mul(a, p) == a
    ensures p == 1
  {
    MulRightAdd(a, p, 1);
    MulZeroOne(a);
    XorSelf(a);
    NoZeroDivisors(a, Add(p, 1));
    XorZero(p, 1);
  }

  // Every byte but 0 has order dividing 255.
  lemma PowOrder(a: byte)
    requires a != 0
    ensures Pow(a, 255) == 1
  {
    PowCardinality(a);
    CancelFactor(a, Pow(a, 255));
  }

  function Inv(a: byte): byte {
    if a == 0 then 0 else Pow(a, 254)
  }

  lemma InvIsInverse(a: byte)
    requires a != 0
    ensures Mul(a, Inv(a)) == 1
    ensures forall b: byte :: Mul(a, b) == 1 ==> b == Inv(a)
  {
    PowOrder(a);
    forall b: byte | Mul(a, b) == 1 ensures b == Inv(a) {
      MulAssoc(b, a, Inv(a));
      MulComm(a, b);
      MulZeroOne(b);
      MulZeroOne(Inv(a));
    }
  }

  // The square-and-multiply loop of gf256Inv.
  method Gf256Inv(a: byte) returns (result: byte)
    ensures result == Inv(a)
  {
    if a == 0 {
      return 0;
    }
    var base: byte, exp: nat := a, 254;
    result := 1;
    MulZeroOne(Pow(a, 254));
    while exp > 0
      invariant Mul(result, Pow(base, exp)) == Pow(a, 254)
    {
      PowOfSquare(base, exp / 2);
      if exp % 2 == 1 {
        MulAssoc(result, base, Pow(base, exp - 1));
        result := Gf256Mul(result, base);
      }
      base := Gf256Mul(base, base);
      exp := exp / 2;
    }
    MulZeroOne(result);
  }
}
