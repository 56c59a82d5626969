/** Polynomials over GF(2), each written as the natural number whose binary digits are its
    coefficients: addition is exclusive or, and multiplication is carry-less. */
module BinaryPolynomials {

  function Xor(a: nat, b: nat): nat
    decreases a, b
  {
    if a == 0 then b
    else if b == 0 then a
    else 2 * Xor(a / 2, b / 2) + if a % 2 == b % 2 then 0 else 1
  }

  lemma XorStep(a: nat, b: nat)
    ensures Xor(a, b) / 2 == Xor(a / 2, b / 2)
    ensures Xor(a, b) % 2 == if a % 2 == b % 2 then 0 else 1
  {}

  lemma {:induction false} XorComm(a: nat, b: nat)
    ensures Xor(a, b) == Xor(b, a)
  {
    if a != 0 && b != 0 {
      XorComm(a / 2, b / 2);
    }
  }

  lemma {:induction false} XorAssoc(a: nat, b: nat, c: nat)
    ensures Xor(Xor(a, b), c) == Xor(a, Xor(b, c))
    decreases a
  {
    if a != 0 {
      XorAssoc(a / 2, b / 2, c / 2);
      XorStep(a, b);
      XorStep(b, c);
      XorStep(Xor(a, b), c);
      XorStep(a, Xor(b, c));
    }
  }

  lemma {:induction false} XorSelf(a: nat)
    ensures Xor(a, a) == 0
  {
    if a != 0 {
      XorSelf(a / 2);
    }
  }

  lemma XorCancel(a: nat, b: nat)
    ensures Xor(a, Xor(a, b)) == b
    ensures Xor(Xor(b, a), a) == b
  {
    XorSelf(a);
    XorAssoc(a, a, b);
    XorAssoc(b, a, a);
  }

  lemma XorZero(a: nat, b: nat)
    requires Xor(a, b) == 0
    ensures a == b
  {
    XorCancel(a, b);
  }

  lemma XorSwap(a: nat, b: nat, c: nat, d: nat)
    ensures Xor(Xor(a, b), Xor(c, d)) == Xor(Xor(a, c), Xor(b, d))
  {
    XorAssoc(a, b, Xor(c, d));
    XorAssoc(b, c, d);
    XorComm(b, c);
    XorAssoc(c, b, d);
    XorAssoc(a, c, Xor(b, d));
  }

  lemma XorDouble(a: nat, b: nat)
    ensures Xor(2 * a, 2 * b) == 2 * Xor(a, b)
  {
    XorStep(2 * a, 2 * b);
  }

  lemma XorOfDoubles(a: nat, d: nat, b: nat, e: nat)
    requires d < 2 && e < 2
    ensures Xor(2 * a + d, 2 * b + e) == 2 * Xor(a, b) + if d == e then 0 else 1
  {
    assert (2 * a + d) / 2 == a && (2 * a + d) % 2 == d;
    assert (2 * b + e) / 2 == b && (2 * b + e) % 2 == e;
    XorStep(2 * a + d, 2 * b + e);
  }

  function Pow2(n: nat): (p: nat)
    ensures p >= 1
  {
    if n == 0 then 1 else 2 * Pow2(n - 1)
  }

  lemma {:induction false} XorBound(a: nat, b: nat, n: nat)
    requires a < Pow2(n) && b < Pow2(n)
    ensures Xor(a, b) < Pow2(n)
  {
    if a != 0 && b != 0 {
      XorBound(a / 2, b / 2, n - 1);
    }
  }

  lemma {:induction false} XorDisjoint(n: nat, y: nat)
    requires y < Pow2(n)
    ensures Xor(Pow2(n), y) == Pow2(n) + y
  {
    if n != 0 {
      XorDisjoint(n - 1, y / 2);
    }
  }

  // Two numbers that both have digit n: those digits cancel.
  lemma XorTopDigits(n: nat, y: nat, y': nat)
    requires y < Pow2(n) && y' < Pow2(n)
    ensures Xor(Pow2(n) + y, Pow2(n) + y') == Xor(y, y')
  {
    XorDisjoint(n, y);
    XorDisjoint(n, y');
    XorSwap(Pow2(n), y, Pow2(n), y');
    XorSelf(Pow2(n));
  }

  // Digit n of a sum, when it is the highest digit there is.
  lemma XorTopDigit(a: nat, b: nat, n: nat)
    requires a < Pow2(n + 1) && b < Pow2(n + 1)
    ensures Xor(a, b) >= Pow2(n) <==> (a >= Pow2(n)) != (b >= Pow2(n))
  {
    if a < Pow2(n) && b < Pow2(n) {
      XorBound(a, b, n);
    } else if a >= Pow2(n) && b >= Pow2(n) {
      XorTopDigits(n, a - Pow2(n), b - Pow2(n));
      XorBound(a - Pow2(n), b - Pow2(n), n);
    } else if Xor(a, b) < Pow2(n) {
      XorCancel(a, b);
      XorCancel(b, a);
      XorComm(a, b);
      XorBound(if a < Pow2(n) then a else b, Xor(a, b), n);
    }
  }

  predicate Digit(a: nat, i: nat) {
    if i == 0 then a % 2 == 1 else Digit(a / 2, i - 1)
  }

  lemma {:induction false} XorDigit(a: nat, b: nat, i: nat)
    ensures Digit(Xor(a, b), i) <==> Digit(a, i) != Digit(b, i)
    decreases i
  {
    XorStep(a, b);
    if i != 0 {
      XorDigit(a / 2, b / 2, i - 1);
    }
  }

  lemma {:induction false} DigitsDetermine(a: nat, b: nat)
    requires forall i: nat :: Digit(a, i) == Digit(b, i)
    ensures a == b
    decreases a + b
  {
    if a + b != 0 {
      assert Digit(a, 0) == Digit(b, 0);
      forall i: nat ensures Digit(a / 2, i) == Digit(b / 2, i) {
        assert Digit(a, i + 1) == Digit(b, i + 1);
      }
      DigitsDetermine(a / 2, b / 2);
    }
  }

  ghost predicate IsXor(a: nat, b: nat, r: nat) {
    forall i: nat :: Digit(r, i) == (Digit(a, i) != Digit(b, i))
  }

  // Xor is the exclusive or of the binary digits, and nothing else is.
  lemma XorIsDigitwise(a: nat, b: nat, r: nat)
    ensures IsXor(a, b, r) <==> r == Xor(a, b)
  {
    forall i: nat ensures Digit(Xor(a, b), i) == (Digit(a, i) != Digit(b, i)) {
      XorDigit(a, b, i);
    }
    if IsXor(a, b, r) {
      forall i: nat ensures Digit(r, i) == Digit(Xor(a, b), i) {
        assert Digit(r, i) == (Digit(a, i) != Digit(b, i));
      }
      DigitsDetermine(r, Xor(a, b));
    }
  }

  // ---------- Multiplication ----------

  function ClMul(a: nat, b: nat): nat
    decreases b, a
  {
    if b == 0 then 0
    else Xor(if b % 2 == 1 then a else 0, ClMul(2 * a, b / 2))
  }

  lemma {:induction false} ClMulLeftXor(a: nat, a': nat, b: nat)
    ensures ClMul(Xor(a, a'), b) == Xor(ClMul(a, b), ClMul(a', b))
    decreases b
  {
    if b != 0 {
      XorDouble(a, a');
      ClMulLeftXor(2 * a, 2 * a', b / 2);
      if b % 2 == 1 {
        XorSwap(a, a', ClMul(2 * a, b / 2), ClMul(2 * a', b / 2));
      }
    }
  }

  lemma {:induction false} ClMulDouble(a: nat, b: nat)
    ensures ClMul(2 * a, b) == 2 * ClMul(a, b) == ClMul(a, 2 * b)
    decreases b
  {
    if b != 0 {
      ClMulDouble(2 * a, b / 2);
      XorDouble(if b % 2 == 1 then a else 0, ClMul(2 * a, b / 2));
    }
  }

  // One digit of the right factor at a time, the most significant last.
  lemma ClMulStep(a: nat, b: nat)
    ensures ClMul(a, b) == Xor(if b % 2 == 1 then a else 0, 2 * ClMul(a, b / 2))
  {
    ClMulDouble(a, b / 2);
  }

  lemma {:induction false} ClMulZero(b: nat)
    ensures ClMul(0, b) == 0
  {
    if b != 0 {
      ClMulZero(b / 2);
    }
  }

  lemma {:induction false} ClMulOne(b: nat)
    ensures ClMul(1, b) == b
  {
    if b != 0 {
      ClMulStep(1, b);
      ClMulOne(b / 2);
      XorStep(b % 2, 2 * (b / 2));
    }
  }

  lemma {:induction false} ClMulComm(a: nat, b: nat)
    ensures ClMul(a, b) == ClMul(b, a)
    decreases b
  {
    if b == 0 {
      ClMulZero(a);
    } else {
      ClMulComm(a, b / 2);
      ClMulStep(a, b);
      XorStep(b % 2, 2 * (b / 2));
      assert b == Xor(b % 2, 2 * (b / 2));
      ClMulLeftXor(b % 2, 2 * (b / 2), a);
      ClMulDouble(b / 2, a);
      ClMulZero(a);
      ClMulOne(a);
    }
  }

  lemma ClMulRightXor(a: nat, b: nat, b': nat)
    ensures ClMul(a, Xor(b, b')) == Xor(ClMul(a, b), ClMul(a, b'))
  {
    ClMulComm(a, Xor(b, b'));
    ClMulLeftXor(b, b', a);
    ClMulComm(a, b);
    ClMulComm(a, b');
  }

  lemma {:induction false} ClMulAssoc(a: nat, b: nat, c: nat)
    ensures ClMul(ClMul(a, b), c) == ClMul(a, ClMul(b, c))
    decreases c
  {
    if c != 0 {
      ClMulAssoc(a, b, c / 2);
      ClMulStep(ClMul(a, b), c);
      ClMulStep(b, c);
      ClMulRightXor(a, if c % 2 == 1 then b else 0, 2 * ClMul(b, c / 2));
      ClMulDouble(a, ClMul(b, c / 2));
    }
  }

  // The cross terms of a square cancel.
  lemma ClMulSquare(a: nat, b: nat)
    ensures ClMul(Xor(a, b), Xor(a, b)) == Xor(ClMul(a, a), ClMul(b, b))
  {
    ClMulLeftXor(a, b, Xor(a, b));
    ClMulRightXor(a, a, b);
    ClMulRightXor(b, a, b);
    ClMulComm(a, b);
    XorAssoc(ClMul(a, a), ClMul(a, b), Xor(ClMul(a, b), ClMul(b, b)));
    XorCancel(ClMul(a, b), ClMul(b, b));
  }

  // Adding something of lower degree does not change the degree.
  lemma AddLower(low: nat, c: nat, m: nat)
    requires low < Pow2(m) <= c < Pow2(m + 1)
    ensures Pow2(m) <= Xor(low, c) < Pow2(m + 1)
  {
    XorTopDigit(low, c, m);
    XorBound(low, c, m + 1);
  }

  // Degrees add.
  lemma {:induction false} ClMulDegree(a: nat, b: nat, n: nat, k: nat)
    requires Pow2(n) <= a < Pow2(n + 1) && Pow2(k) <= b < Pow2(k + 1)
    ensures Pow2(n + k) <= ClMul(a, b) < Pow2(n + k + 1)
    decreases b
  {
    if b == 1 {
      assert k == 0;
      XorComm(a, 0);
    } else {
      assert k != 0;
      ClMulDegree(2 * a, b / 2, n + 1, k - 1);
      Pow2Monotonic(n + 1, n + k);
      AddLower(if b % 2 == 1 then a else 0, ClMul(2 * a, b / 2), n + k);
    }
  }

  lemma {:induction false} Pow2Monotonic(n: nat, k: nat)
    requires n <= k
    ensures Pow2(n) <= Pow2(k)
  {
    if n < k {
      Pow2Monotonic(n, k - 1);
    }
  }

  // Every number but 0 has a degree.
  lemma {:induction false} Degree(a: nat) returns (n: nat)
    requires a != 0
    ensures Pow2(n) <= a < Pow2(n + 1)
  {
    if a == 1 {
      n := 0;
    } else {
      n := Degree(a / 2);
      n := n + 1;
    }
  }

  lemma ClMulAtLeast(a: nat, b: nat, n: nat, k: nat)
    requires Pow2(n) <= a && Pow2(k) <= b
    ensures Pow2(n + k) <= ClMul(a, b)
  {
    var n' := Degree(a);
    var k' := Degree(b);
    if n' < n {
      Pow2Monotonic(n' + 1, n);
    }
    if k' < k {
      Pow2Monotonic(k' + 1, k);
    }
    ClMulDegree(a, b, n', k');
    Pow2Monotonic(n + k, n' + k');
  }

  // ---------- Remainders ----------

  // r is the remainder of p on division by m: p is a multiple of m plus r, and deg r < deg m.
  ghost predicate IsRemainder(p: nat, m: nat, n: nat, r: nat) {
    r < Pow2(n) && exists q: nat :: p == Xor(ClMul(m, q), r)
  }

  lemma RemainderIsUnique(p: nat, m: nat, n: nat, r: nat, r': nat)
    requires Pow2(n) <= m < Pow2(n + 1)
    requires IsRemainder(p, m, n, r) && IsRemainder(p, m, n, r')
    ensures r == r'
  {
    var q: nat :| p == Xor(ClMul(m, q), r);
    var q': nat :| p == Xor(ClMul(m, q'), r');
    calc {
      0;
    == { XorSelf(p); }
      Xor(Xor(ClMul(m, q), r), Xor(ClMul(m, q'), r'));
    == { XorSwap(ClMul(m, q), r, ClMul(m, q'), r'); ClMulRightXor(m, q, q'); }
      Xor(ClMul(m, Xor(q, q')), Xor(r, r'));
    }
    XorZero(ClMul(m, Xor(q, q')), Xor(r, r'));
    XorBound(r, r', n);
    if Xor(q, q') != 0 {
      ClMulAtLeast(m, Xor(q, q'), n, 0);
    }
    XorZero(r, r');
  }

  // Replacing a factor by something congruent to it does not change the remainder.
  lemma RemainderOfProduct(a: nat, a': nat, b: nat, m: nat, n: nat, r: nat)
    requires IsRemainder(a, m, n, a')
    requires IsRemainder(ClMul(a', b), m, n, r)
    ensures IsRemainder(ClMul(a, b), m, n, r)
  {
    var q: nat :| a == Xor(ClMul(m, q), a');
    var q': nat :| ClMul(a', b) == Xor(ClMul(m, q'), r);
    calc {
      ClMul(a, b);
    == { ClMulLeftXor(ClMul(m, q), a', b); ClMulAssoc(m, q, b); }
      Xor(ClMul(m, ClMul(q, b)), Xor(ClMul(m, q'), r));
    == { XorAssoc(ClMul(m, ClMul(q, b)), ClMul(m, q'), r); ClMulRightXor(m, ClMul(q, b), q'); }
      Xor(ClMul(m, Xor(ClMul(q, b), q')), r);
    }
  }

  // Long division, from the most significant digit of p down.
  function Rem(p: nat, m: nat, n: nat): (r: nat)
    requires Pow2(n) <= m < Pow2(n + 1)
    ensures r < Pow2(n)
    decreases p
  {
    if p == 0 then 0
    else
      var r := 2 * Rem(p / 2, m, n) + p % 2;
      if r < Pow2(n) then r
      else
        XorTopDigit(r, m, n);
        Xor(r, m)
  }

  lemma RemStep(p: nat, m: nat, n: nat, s: nat)
    requires IsRemainder(p / 2, m, n, s)
    ensures exists q: nat :: p == Xor(ClMul(m, q), 2 * s + p % 2)
  {
    var q: nat :| p / 2 == Xor(ClMul(m, q), s);
    ClMulDouble(m, q);
    XorOfDoubles(ClMul(m, q), 0, s, p % 2);
    assert p == Xor(ClMul(m, 2 * q), 2 * s + p % 2);
  }

  lemma RemSubtract(p: nat, m: nat, q: nat, r: nat)
    requires p == Xor(ClMul(m, q), r)
    ensures p == Xor(ClMul(m, Xor(q, 1)), Xor(r, m))
  {
    calc {
      p;
    == { XorCancel(m, r); }
      Xor(ClMul(m, q), Xor(m, Xor(m, r)));
    == { XorAssoc(ClMul(m, q), m, Xor(m, r)); XorComm(m, r); }
      Xor(Xor(ClMul(m, q), m), Xor(r, m));
    == { ClMulComm(m, 1); ClMulOne(m); ClMulRightXor(m, q, 1); }
      Xor(ClMul(m, Xor(q, 1)), Xor(r, m));
    }
  }

  lemma RemReduce(p: nat, m: nat, n: nat, r: nat)
    requires Pow2(n) <= m < Pow2(n + 1) && r < Pow2(n + 1)
    requires exists q: nat :: p == Xor(ClMul(m, q), r)
    ensures IsRemainder(p, m, n, if r < Pow2(n) then r else Xor(r, m))
  {
    if r >= Pow2(n) {
      var q: nat :| p == Xor(ClMul(m, q), r);
      RemSubtract(p, m, q, r);
      XorTopDigit(r, m, n);
    }
  }

  lemma RemUnfold(p: nat, m: nat, n: nat, r: nat)
    requires Pow2(n) <= m < Pow2(n + 1) && p != 0 && r == 2 * Rem(p / 2, m, n) + p % 2
    ensures Rem(p, m, n) == if r < Pow2(n) then r else Xor(r, m)
  {}

  lemma RemNext(p: nat, m: nat, n: nat, s: nat)
    requires Pow2(n) <= m < Pow2(n + 1) && p != 0
    requires s == Rem(p / 2, m, n) && IsRemainder(p / 2, m, n, s)
    ensures IsRemainder(p, m, n, Rem(p, m, n))
  {
    RemUnfold(p, m, n, 2 * s + p % 2);
    RemStep(p, m, n, s);
    RemReduce(p, m, n, 2 * s + p % 2);
  }

  lemma {:induction false} RemIsRemainder(p: nat, m: nat, n: nat)
    requires Pow2(n) <= m < Pow2(n + 1)
    ensures IsRemainder(p, m, n, Rem(p, m, n))
    decreases p
  {
    if p == 0 {
      assert p == Xor(ClMul(m, 0), 0);
    } else {
      RemIsRemainder(p / 2, m, n);
      RemNext(p, m, n, Rem(p / 2, m, n));
    }
  }

  lemma MultipleBound(p: nat, c: nat, r: nat, n: nat, d: nat)
    requires p == Xor(c, r) && p < Pow2(d) && r < Pow2(n) && n <= d
    ensures c < Pow2(d)
  {
    XorCancel(r, c);
    Pow2Monotonic(n, d);
    XorBound(p, r, d);
  }

  // Dividing by a polynomial of degree n > 0 lowers the degree.
  lemma QuotientBound(p: nat, a: nat, q: nat, r: nat, n: nat, d: nat)
    requires p < Pow2(d + 1) && 0 < n <= d && Pow2(n) <= a < Pow2(n + 1)
    requires p == Xor(ClMul(a, q), r) && r < Pow2(n)
    ensures q < Pow2(d)
  {
    MultipleBound(p, ClMul(a, q), r, n, d + 1);
    if q >= Pow2(d) {
      ClMulAtLeast(a, q, n, d);
      Pow2Monotonic(d + 1, n + d);
    }
  }
}
