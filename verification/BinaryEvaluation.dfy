/** Binary polynomials as lists of digits, least significant first. The lists exist to let the verifier
    compute: it unfolds a function of a literal list, which it does not do for halves of a number. */
module BinaryEvaluation {
  import opened BinaryPolynomials

  datatype Digits = Zero | O(more: Digits) | I(more: Digits)

  function Value(p: Digits): nat {
    match p
    case Zero => 0
    case O(more) => 2 * Value(more)
    case I(more) => 2 * Value(more) + 1
  }

  function Sum(p: Digits, q: Digits): Digits {
    if p == Zero then q
    else if q == Zero then p
    else if p.I? == q.I? then O(Sum(p.more, q.more))
    else I(Sum(p.more, q.more))
  }

  lemma {:induction false} SumValue(p: Digits, q: Digits)
    ensures Value(Sum(p, q)) == Xor(Value(p), Value(q))
  {
    if p == Zero {
    } else if q == Zero {
      XorComm(Value(p), 0);
    } else {
      SumValue(p.more, q.more);
      var d, e := if p.I? then 1 else 0, if q.I? then 1 else 0;
      XorOfDoubles(Value(p.more), d, Value(q.more), e);
      assert Value(p) == 2 * Value(p.more) + d && Value(q) == 2 * Value(q.more) + e;
    }
  }

  function Product(p: Digits, q: Digits): Digits {
    match q
    case Zero => Zero
    case O(q') => O(Product(p, q'))
    case I(q') => Sum(p, O(Product(p, q')))
  }

  lemma SumOfDouble(p: Digits, r: Digits)
    ensures Value(Sum(p, O(r))) == Xor(Value(p), 2 * Value(r))
  {
    SumValue(p, O(r));
  }

  lemma OddFactor(a: nat, h: nat)
    ensures ClMul(a, 2 * h + 1) == Xor(a, 2 * ClMul(a, h))
  {
    ClMulStep(a, 2 * h + 1);
  }

  lemma ProductEven(p: Digits, q: Digits, a: nat, h: nat)
    requires a == Value(p) && Value(Product(p, q)) == ClMul(a, h)
    ensures Value(Product(p, O(q))) == ClMul(a, 2 * h)
  {
    ClMulDouble(a, h);
  }

  lemma ProductOdd(p: Digits, q: Digits, a: nat, h: nat)
    requires a == Value(p) && Value(Product(p, q)) == ClMul(a, h)
    ensures Value(Product(p, I(q))) == ClMul(a, 2 * h + 1)
  {
    OddFactor(a, h);
    SumOfDouble(p, Product(p, q));
  }

  lemma ProductStep(p: Digits, q: Digits, a: nat, h: nat)
    requires q != Zero && a == Value(p) && h == Value(q.more) && Value(Product(p, q.more)) == ClMul(a, h)
    ensures Value(Product(p, q)) == ClMul(a, Value(q))
  {
    match q
    case O(q') => ProductEven(p, q', a, h);
    case I(q') => ProductOdd(p, q', a, h);
  }

  lemma {:induction false} ProductValue(p: Digits, q: Digits)
    ensures Value(Product(p, q)) == ClMul(Value(p), Value(q))
  {
    if q != Zero {
      ProductValue(p, q.more);
      ProductStep(p, q, Value(p), Value(q.more));
    }
  }

  // Squaring spreads the digits out.
  function Spread(p: Digits): Digits {
    match p
    case Zero => Zero
    case O(more) => O(O(Spread(more)))
    case I(more) => if more == Zero then p else I(O(Spread(more)))
  }

  lemma {:induction false} SpreadValue(p: Digits)
    ensures Value(Spread(p)) == ClMul(Value(p), Value(p))
  {
    if p != Zero {
      var h, d := Value(p.more), if p.I? then 1 else 0;
      SpreadValue(p.more);
      SquareOfDouble(h, d);
    }
  }

  lemma SquareOfEven(h: nat)
    ensures ClMul(2 * h, 2 * h) == 4 * ClMul(h, h)
  {
    ClMulDouble(h, 2 * h);
    ClMulDouble(h, h);
  }

  lemma AddDigit(h: nat, d: nat)
    requires d < 2
    ensures Xor(2 * h, d) == 2 * h + d
  {
    XorComm(h, 0);
    XorOfDoubles(h, 0, 0, d);
  }

  lemma DigitSquare(d: nat)
    requires d < 2
    ensures ClMul(d, d) == d
  {
    ClMulOne(d);
  }

  lemma SquareOfSum(x: nat, e: nat, d: nat, s: nat)
    requires x == Xor(e, d) && ClMul(e, e) == 2 * s && ClMul(d, d) == d && d < 2
    ensures ClMul(x, x) == 2 * s + d
  {
    ClMulSquare(e, d);
    AddDigit(s, d);
  }

  lemma SquareOfDouble(h: nat, d: nat)
    requires d < 2
    ensures ClMul(2 * h + d, 2 * h + d) == 4 * ClMul(h, h) + d
  {
    AddDigit(h, d);
    SquareOfEven(h);
    DigitSquare(d);
    SquareOfSum(2 * h + d, 2 * h, d, 2 * ClMul(h, h));
  }

  // ---------- Certificates ----------

  // The polynomial x^8 + x^4 + x^3 + x + 1 times q, plus r, is the square of p.
  predicate IsSquare(p: Digits, q: Digits, r: Digits) {
    Sum(Product(I(I(O(I(I(O(O(O(I(Zero))))))))), q), r) == Spread(p)
  }

  lemma SquareEquation(p: Digits, q: Digits, r: Digits)
    requires IsSquare(p, q, r)
    ensures ClMul(Value(p), Value(p)) == Xor(ClMul(0x11B, Value(q)), Value(r))
  {
    var m := I(I(O(I(I(O(O(O(I(Zero)))))))));
    assert Value(m) == 0x11B;
    SpreadValue(p);
    SumValue(Product(m, q), r);
    ProductValue(m, q);
  }

  lemma SquareOf2()
    ensures IsSquare(O(I(Zero)), Zero, O(O(I(Zero))))
  {}

  lemma SquareOf4()
    ensures IsSquare(O(O(I(Zero))), Zero, O(O(O(O(I(Zero))))))
  {}

  lemma SquareOf16()
    ensures IsSquare(O(O(O(O(I(Zero))))), I(Zero), I(I(O(I(I(Zero))))))
  {}

  lemma SquareOf27()
    ensures IsSquare(I(I(O(I(I(Zero))))), I(Zero), O(I(I(I(I(O(I(Zero))))))))
  {}

  lemma SquareOf94()
    ensures IsSquare(O(I(I(I(I(O(I(Zero))))))), O(O(O(O(I(Zero))))), O(O(I(O(O(I(I(I(Zero)))))))))
  {
    assert Product(I(I(O(I(I(O(O(O(I(Zero))))))))), I(Zero)) == I(I(O(I(I(O(O(O(I(Zero)))))))));
  }

  lemma MultipleBy41()
    ensures Product(I(I(O(I(I(O(O(O(I(Zero))))))))), I(O(O(I(O(I(Zero)))))))
         == I(I(O(O(O(I(O(I(O(I(O(I(O(I(Zero))))))))))))))
  {
    assert Product(I(I(O(I(I(O(O(O(I(Zero))))))))), I(Zero)) == I(I(O(I(I(O(O(O(I(Zero)))))))));
    assert Product(I(I(O(I(I(O(O(O(I(Zero))))))))), I(O(I(Zero)))) == I(I(I(O(I(I(I(O(I(O(I(Zero)))))))))));
  }

  lemma MultipleBy83()
    ensures Product(I(I(O(I(I(O(O(O(I(Zero))))))))), I(I(O(O(I(O(I(Zero))))))))
         == I(O(I(I(I(O(I(O(O(O(I(O(I(O(I(Zero)))))))))))))))
  {
    MultipleBy41();
    assert Sum(I(I(O(I(I(O(O(O(I(Zero))))))))), O(I(I(O(O(O(I(O(I(O(I(O(I(O(I(Zero))))))))))))))))
        == I(O(I(I(I(O(I(O(O(O(I(O(I(O(I(Zero)))))))))))))));
  }

  lemma SquareOf228()
    ensures IsSquare(O(O(I(O(O(I(I(I(Zero)))))))), I(I(O(O(I(O(I(Zero))))))), I(O(I(I(O(O(I(Zero))))))))
  {
    MultipleBy83();
  }

  lemma SquareOf77()
    ensures IsSquare(I(O(I(I(O(O(I(Zero))))))), I(O(O(O(I(Zero))))), O(I(O(I(I(I(I(I(Zero)))))))))
  {
    assert Product(I(I(O(I(I(O(O(O(I(Zero))))))))), I(Zero)) == I(I(O(I(I(O(O(O(I(Zero)))))))));
  }

  lemma SquareOf250()
    ensures IsSquare(O(I(O(I(I(I(I(I(Zero)))))))), O(I(O(O(I(O(I(Zero))))))), O(I(Zero)))
  {
    assert Product(I(I(O(I(I(O(O(O(I(Zero))))))))), I(Zero)) == I(I(O(I(I(O(O(O(I(Zero)))))))));
    assert Product(I(I(O(I(I(O(O(O(I(Zero))))))))), I(O(I(Zero)))) == I(I(I(O(I(I(I(O(I(O(I(Zero)))))))))));
    assert Product(I(I(O(I(I(O(O(O(I(Zero))))))))), I(O(O(I(O(I(Zero)))))))
        == I(I(O(O(O(I(O(I(O(I(O(I(O(I(Zero))))))))))))));
  }

  lemma SquareOf188()
    ensures IsSquare(O(O(I(I(I(I(O(I(Zero)))))))), I(I(O(O(O(O(I(Zero))))))), I(O(I(I(I(I(O(I(Zero)))))))))
  {
    MultipleBy67();
  }

  lemma MultipleBy67()
    ensures Product(I(I(O(I(I(O(O(O(I(Zero))))))))), I(I(O(O(O(O(I(Zero))))))))
         == I(O(I(I(O(I(I(I(I(O(I(O(O(O(I(Zero)))))))))))))))
  {
    MultipleBy33();
    assert Sum(I(I(O(I(I(O(O(O(I(Zero))))))))), O(I(I(O(I(I(I(I(O(O(I(O(O(O(I(Zero))))))))))))))))
        == I(O(I(I(O(I(I(I(I(O(I(O(O(O(I(Zero)))))))))))))));
  }

  lemma MultipleBy33()
    ensures Product(I(I(O(I(I(O(O(O(I(Zero))))))))), I(O(O(O(O(I(Zero)))))))
         == I(I(O(I(I(I(I(O(O(I(O(O(O(I(Zero))))))))))))))
  {
    assert Product(I(I(O(I(I(O(O(O(I(Zero))))))))), I(Zero)) == I(I(O(I(I(O(O(O(I(Zero)))))))));
    assert Product(I(I(O(I(I(O(O(O(I(Zero))))))))), O(O(O(I(Zero))))) == O(O(O(I(I(O(I(I(O(O(O(I(Zero))))))))))));
  }

  // The polynomial is m times q plus r.
  predicate IsDivision(m: Digits, q: Digits, r: Digits) {
    Sum(Product(m, q), r) == I(I(O(I(I(O(O(O(I(Zero)))))))))
  }

  // So m does not divide it, if m has degree n and r, not 0, has a lower one.
  lemma NotADivisor(m: Digits, q: Digits, r: Digits, n: nat, c: nat)
    requires IsDivision(m, q, r)
    requires Pow2(n) <= Value(m) < Pow2(n + 1) && 0 < Value(r) < Pow2(n)
    ensures ClMul(Value(m), c) != 0x11B
  {
    var p := Value(Sum(Product(m, q), r));
    SumValue(Product(m, q), r);
    ProductValue(m, q);
    if ClMul(Value(m), c) == p {
      XorComm(p, 0);
      assert p == Xor(ClMul(Value(m), c), 0);
      RemainderIsUnique(p, Value(m), n, 0, Value(r));
    }
  }

  lemma Not3(c: nat)
    ensures ClMul(3, c) != 0x11B
  {
    NotADivisor(I(I(Zero)), O(I(I(O(I(I(I(I(Zero)))))))), I(Zero), 1, c);
  }

  lemma Not5(c: nat)
    ensures ClMul(5, c) != 0x11B
  {
    NotADivisor(I(O(I(Zero))), O(I(O(O(I(O(I(Zero))))))), I(Zero), 2, c);
  }

  lemma Not7(c: nat)
    ensures ClMul(7, c) != 0x11B
  {
    NotADivisor(I(I(I(Zero))), O(O(O(I(O(I(I(Zero))))))), I(I(Zero)), 2, c);
  }

  lemma Not9(c: nat)
    ensures ClMul(9, c) != 0x11B
  {
    NotADivisor(I(O(O(I(Zero)))), I(I(I(O(O(I(Zero)))))), O(O(I(Zero))), 3, c);
  }

  lemma Not11(c: nat)
    ensures ClMul(11, c) != 0x11B
  {
    NotADivisor(I(I(O(I(Zero)))), I(O(I(I(O(I(Zero)))))), O(O(I(Zero))), 3, c);
  }

  lemma Not13(c: nat)
    ensures ClMul(13, c) != 0x11B
  {
    NotADivisor(I(O(I(I(Zero)))), O(O(O(I(I(I(Zero)))))), I(I(Zero)), 3, c);
  }

  lemma Not15(c: nat)
    ensures ClMul(15, c) != 0x11B
  {
    NotADivisor(I(I(I(I(Zero)))), I(O(O(O(I(I(Zero)))))), O(O(I(Zero))), 3, c);
  }

  lemma Not17(c: nat)
    ensures ClMul(17, c) != 0x11B
  {
    NotADivisor(I(O(O(O(I(Zero))))), O(O(O(O(I(Zero))))), I(I(O(I(Zero)))), 4, c);
  }

  lemma Not19(c: nat)
    ensures ClMul(19, c) != 0x11B
  {
    NotADivisor(I(I(O(O(I(Zero))))), O(I(O(O(I(Zero))))), I(O(I(I(Zero)))), 4, c);
  }

  lemma Not21(c: nat)
    ensures ClMul(21, c) != 0x11B
  {
    NotADivisor(I(O(I(O(I(Zero))))), I(O(I(O(I(Zero))))), O(I(O(I(Zero)))), 4, c);
  }

  lemma Not23(c: nat)
    ensures ClMul(23, c) != 0x11B
  {
    NotADivisor(I(I(I(O(I(Zero))))), I(I(I(O(I(Zero))))), O(I(I(I(Zero)))), 4, c);
  }

  lemma Not25(c: nat)
    ensures ClMul(25, c) != 0x11B
  {
    NotADivisor(I(O(O(I(I(Zero))))), I(I(I(I(I(Zero))))), O(O(I(I(Zero)))), 4, c);
  }

  lemma Not27(c: nat)
    ensures ClMul(27, c) != 0x11B
  {
    NotADivisor(I(I(O(I(I(Zero))))), I(O(I(I(I(Zero))))), O(O(I(Zero))), 4, c);
  }

  lemma Not29(c: nat)
    ensures ClMul(29, c) != 0x11B
  {
    NotADivisor(I(O(I(I(I(Zero))))), I(I(O(I(I(Zero))))), O(O(I(Zero))), 4, c);
  }

  lemma Not31(c: nat)
    ensures ClMul(31, c) != 0x11B
  {
    NotADivisor(I(I(I(I(I(Zero))))), I(O(O(I(I(Zero))))), O(O(I(I(Zero)))), 4, c);
  }
}
