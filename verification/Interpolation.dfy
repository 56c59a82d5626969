/** Polynomials over the field of bytes, and Lagrange interpolation.
    A polynomial is the sequence of its coefficients, the constant one first. */
module Interpolation {
  import opened BinaryPolynomials
  import opened GF256
  import opened Integers

  function Eval(p: seq<byte>, x: byte): byte {
    if p == [] then 0 else Add(p[0], Mul(x, Eval(p[1..], x)))
  }

  // The coefficients times the powers of x, from the other end.
  lemma {:induction false} EvalLast(p: seq<byte>, c: byte, x: byte)
    ensures Eval(p + [c], x) == Add(Eval(p, x), Mul(c, Pow(x, |p|)))
  {
    if p == [] {
      assert (p + [c])[1..] == [];
      MulZeroOne(x);
      MulZeroOne(c);
      XorComm(c, 0);
    } else {
      assert (p + [c])[1..] == p[1..] + [c];
      var rest, power := Eval(p[1..], x), Pow(x, |p| - 1);
      EvalLast(p[1..], c, x);
      MulRightAdd(x, rest, Mul(c, power));
      MulAssoc(x, c, power);
      MulComm(x, c);
      MulAssoc(c, x, power);
      XorAssoc(p[0], Mul(x, rest), Mul(c, Mul(x, power)));
    }
  }

  function Sum(p: seq<byte>, q: seq<byte>): (s: seq<byte>)
    requires |p| == |q|
    ensures |s| == |p|
  {
    if p == [] then [] else [Add(p[0], q[0])] + Sum(p[1..], q[1..])
  }

  function Scale(c: byte, p: seq<byte>): (s: seq<byte>)
    ensures |s| == |p|
  {
    if p == [] then [] else [Mul(c, p[0])] + Scale(c, p[1..])
  }

  // (x + a) p
  function TimesRoot(a: byte, p: seq<byte>): (s: seq<byte>)
    ensures |s| == |p| + 1
  {
    Sum([0] + p, Scale(a, p) + [0])
  }

  ghost predicate IsZero(p: seq<byte>) {
    forall i | 0 <= i < |p| :: p[i] == 0
  }

  ghost predicate Distinct(xs: seq<byte>) {
    forall i, j | 0 <= i < j < |xs| :: xs[i] != xs[j]
  }

  lemma {:induction false} EvalSum(p: seq<byte>, q: seq<byte>, x: byte)
    requires |p| == |q|
    ensures Eval(Sum(p, q), x) == Add(Eval(p, x), Eval(q, x))
  {
    if p != [] {
      EvalSum(p[1..], q[1..], x);
      assert Sum(p, q)[1..] == Sum(p[1..], q[1..]);
      MulRightAdd(x, Eval(p[1..], x), Eval(q[1..], x));
      XorSwap(p[0], q[0], Mul(x, Eval(p[1..], x)), Mul(x, Eval(q[1..], x)));
    }
  }

  lemma {:induction false} EvalScale(c: byte, p: seq<byte>, x: byte)
    ensures Eval(Scale(c, p), x) == Mul(c, Eval(p, x))
  {
    if p == [] {
      MulZeroOne(c);
    } else {
      var e := Eval(p[1..], x);
      EvalScale(c, p[1..], x);
      assert Scale(c, p)[1..] == Scale(c, p[1..]);
      MulRightAdd(c, p[0], Mul(x, e));
      MulAssoc(c, x, e);
      MulAssoc(x, c, e);
      MulComm(c, x);
    }
  }

  // Leading zeros do not change a polynomial.
  lemma {:induction false} EvalPad(p: seq<byte>, x: byte)
    ensures Eval(p + [0], x) == Eval(p, x)
  {
    MulZeroOne(x);
    if p == [] {
      assert (p + [0])[1..] == [];
    } else {
      assert (p + [0])[1..] == p[1..] + [0];
      EvalPad(p[1..], x);
    }
  }

  lemma EvalTimesRoot(a: byte, p: seq<byte>, x: byte)
    ensures Eval(TimesRoot(a, p), x) == Mul(Add(x, a), Eval(p, x))
  {
    EvalSum([0] + p, Scale(a, p) + [0], x);
    assert ([0] + p)[1..] == p;
    EvalPad(Scale(a, p), x);
    EvalScale(a, p, x);
    MulLeftAdd(x, a, Eval(p, x));
  }

  // ---------- A polynomial has fewer roots than coefficients ----------

  // The quotient by x + r, by Horner's scheme.
  function Quotient(p: seq<byte>, r: byte): (q: seq<byte>)
    ensures |q| == if p == [] then 0 else |p| - 1
  {
    if |p| <= 1 then [] else [Eval(p[1..], r)] + Quotient(p[1..], r)
  }

  lemma {:induction false} EvalQuotient(p: seq<byte>, r: byte, x: byte)
    ensures Eval(p, x) == Add(Eval(p, r), Mul(Add(x, r), Eval(Quotient(p, r), x)))
  {
    MulZeroOne(x);
    MulZeroOne(r);
    MulZeroOne(Add(x, r));
    if |p| <= 1 {
      XorComm(Eval(p, r), 0);
    } else {
      var t := p[1..];
      var tr, tx, q := Eval(t, r), Eval(t, x), Eval(Quotient(t, r), x);
      EvalQuotient(t, r, x);
      assert Quotient(p, r)[1..] == Quotient(t, r);
      HornerStep(p[0], x, r, tr, tx, q);
    }
  }

  lemma HornerStep(c: byte, x: byte, r: byte, tr: byte, tx: byte, q: byte)
    requires tx == Add(tr, Mul(Add(x, r), q))
    ensures Add(c, Mul(x, tx)) == Add(Add(c, Mul(r, tr)), Mul(Add(x, r), Add(tr, Mul(x, q))))
  {
    var s := Add(x, r);
    calc {
      Mul(x, tx);
    == { MulRightAdd(x, tr, Mul(s, q)); MulAssoc(x, s, q); MulComm(x, s); MulAssoc(s, x, q); }
      Add(Mul(x, tr), Mul(s, Mul(x, q)));
    == { MulLeftAdd(r, s, tr); XorComm(x, r); XorCancel(r, x); }
      Add(Add(Mul(r, tr), Mul(s, tr)), Mul(s, Mul(x, q)));
    == { XorAssoc(Mul(r, tr), Mul(s, tr), Mul(s, Mul(x, q))); MulRightAdd(s, tr, Mul(x, q)); }
      Add(Mul(r, tr), Mul(s, Add(tr, Mul(x, q))));
    }
    XorAssoc(c, Mul(r, tr), Mul(s, Add(tr, Mul(x, q))));
  }

  lemma {:induction false} ZeroQuotient(p: seq<byte>, r: byte)
    requires Eval(p, r) == 0 && IsZero(Quotient(p, r))
    ensures IsZero(p)
  {
    MulZeroOne(r);
    if |p| == 1 {
      XorComm(p[0], 0);
    } else if |p| > 1 {
      var q := Quotient(p, r);
      assert q[0] == Eval(p[1..], r);
      assert forall i | 0 <= i < |q| - 1 :: q[1..][i] == q[i + 1];
      assert q[1..] == Quotient(p[1..], r);
      ZeroQuotient(p[1..], r);
      XorComm(p[0], 0);
      assert forall i | 0 < i < |p| :: p[i] == p[1..][i - 1];
    }
  }

  lemma {:induction false} TooManyRoots(p: seq<byte>, xs: seq<byte>)
    requires |xs| >= |p| && Distinct(xs)
    requires forall i | 0 <= i < |xs| :: Eval(p, xs[i]) == 0
    ensures IsZero(p)
    decreases |xs|
  {
    if p != [] {
      var r, rest, q := xs[0], xs[1..], Quotient(p, xs[0]);
      forall i | 0 <= i < |rest| ensures Eval(q, rest[i]) == 0 {
        var x := xs[i + 1];
        EvalQuotient(p, r, x);
        NoZeroDivisors(Add(x, r), Eval(q, x));
        if Add(x, r) == 0 {
          XorZero(x, r);
        }
      }
      TooManyRoots(q, rest);
      ZeroQuotient(p, r);
    }
  }

  lemma {:induction false} ZeroSum(p: seq<byte>, q: seq<byte>)
    requires |p| == |q| && IsZero(Sum(p, q))
    ensures p == q
  {
    if p != [] {
      var s := Sum(p, q);
      assert s[0] == 0 && forall i | 0 <= i < |s| - 1 :: s[1..][i] == s[i + 1];
      assert s[1..] == Sum(p[1..], q[1..]);
      ZeroSum(p[1..], q[1..]);
      XorZero(p[0], q[0]);
      assert p == [p[0]] + p[1..] && q == [q[0]] + q[1..];
    }
  }

  // Polynomials with at most |xs| coefficients that agree on |xs| points are the same.
  lemma Uniqueness(p: seq<byte>, q: seq<byte>, xs: seq<byte>)
    requires |p| == |q| <= |xs| && Distinct(xs)
    requires forall i | 0 <= i < |xs| :: Eval(p, xs[i]) == Eval(q, xs[i])
    ensures p == q
  {
    forall i | 0 <= i < |xs| ensures Eval(Sum(p, q), xs[i]) == 0 {
      EvalSum(p, q, xs[i]);
      XorSelf(Eval(p, xs[i]));
    }
    TooManyRoots(Sum(p, q), xs);
    ZeroSum(p, q);
  }

  // ---------- Lagrange interpolation ----------

  // The product of x - xs[j] over the j below n other than i.
  function ProductExcept(xs: seq<byte>, i: nat, x: byte, n: nat): byte
    requires n <= |xs|
  {
    if n == 0 then 1
    else if n - 1 == i then ProductExcept(xs, i, x, n - 1)
    else Mul(ProductExcept(xs, i, x, n - 1), Add(x, xs[n - 1]))
  }

  function Weight(xs: seq<byte>, i: nat, x: byte): byte
    requires i < |xs|
  {
    Mul(ProductExcept(xs, i, x, |xs|), Inv(ProductExcept(xs, i, xs[i], |xs|)))
  }

  // The first n terms of Lagrange's formula at x.
  function Lagrange(xs: seq<byte>, ys: seq<byte>, x: byte, n: nat): byte
    requires |xs| == |ys| && n <= |xs|
  {
    if n == 0 then 0
    else Add(Lagrange(xs, ys, x, n - 1), Mul(ys[n - 1], Weight(xs, n - 1, x)))
  }

  // The same as coefficients.
  function Basis(xs: seq<byte>, i: nat, n: nat): (p: seq<byte>)
    requires n <= |xs|
    ensures |p| == if i < n then n else n + 1
  {
    if n == 0 then [1]
    else if n - 1 == i then Basis(xs, i, n - 1)
    else TimesRoot(xs[n - 1], Basis(xs, i, n - 1))
  }

  lemma {:induction false} EvalBasis(xs: seq<byte>, i: nat, n: nat, x: byte)
    requires n <= |xs|
    ensures Eval(Basis(xs, i, n), x) == ProductExcept(xs, i, x, n)
  {
    if n == 0 {
      MulZeroOne(x);
      XorComm(1, 0);
    } else {
      EvalBasis(xs, i, n - 1, x);
      if n - 1 != i {
        EvalTimesRoot(xs[n - 1], Basis(xs, i, n - 1), x);
        MulComm(Add(x, xs[n - 1]), ProductExcept(xs, i, x, n - 1));
      }
    }
  }

  function Interpolant(xs: seq<byte>, ys: seq<byte>, n: nat): (p: seq<byte>)
    requires |xs| == |ys| && n <= |xs|
    ensures |p| == |xs|
  {
    if n == 0 then seq(|xs|, _ => 0)
    else
      var i := n - 1;
      var c := Mul(ys[i], Inv(ProductExcept(xs, i, xs[i], |xs|)));
      Sum(Interpolant(xs, ys, i), Scale(c, Basis(xs, i, |xs|)))
  }

  lemma {:induction false} EvalZero(p: seq<byte>, x: byte)
    requires IsZero(p)
    ensures Eval(p, x) == 0
  {
    MulZeroOne(x);
    if p != [] {
      EvalZero(p[1..], x);
    }
  }

  lemma {:induction false} EvalInterpolant(xs: seq<byte>, ys: seq<byte>, n: nat, x: byte)
    requires |xs| == |ys| && n <= |xs|
    ensures Eval(Interpolant(xs, ys, n), x) == Lagrange(xs, ys, x, n)
  {
    if n == 0 {
      EvalZero(Interpolant(xs, ys, n), x);
    } else {
      var i := n - 1;
      var num, inv := ProductExcept(xs, i, x, |xs|), Inv(ProductExcept(xs, i, xs[i], |xs|));
      var c := Mul(ys[i], inv);
      EvalInterpolant(xs, ys, i, x);
      EvalSum(Interpolant(xs, ys, i), Scale(c, Basis(xs, i, |xs|)), x);
      EvalScale(c, Basis(xs, i, |xs|), x);
      EvalBasis(xs, i, |xs|, x);
      MulAssoc(ys[i], inv, num);
      MulComm(inv, num);
    }
  }

  // A product with a zero factor, and one without.
  lemma {:induction false} ProductExceptZero(xs: seq<byte>, i: nat, k: nat, n: nat)
    requires n <= |xs| && k < n && k != i
    ensures ProductExcept(xs, i, xs[k], n) == 0
  {
    var rest := ProductExcept(xs, i, xs[k], n - 1);
    MulZeroOne(rest);
    if k == n - 1 {
      XorSelf(xs[k]);
    } else {
      ProductExceptZero(xs, i, k, n - 1);
      if n - 1 != i {
        MulZeroOne(Add(xs[k], xs[n - 1]));
      }
    }
  }

  lemma {:induction false} ProductExceptNonzero(xs: seq<byte>, i: nat, n: nat)
    requires n <= |xs| && i < |xs| && Distinct(xs)
    ensures ProductExcept(xs, i, xs[i], n) != 0
  {
    if n != 0 {
      ProductExceptNonzero(xs, i, n - 1);
      if n - 1 != i {
        if Add(xs[i], xs[n - 1]) == 0 {
          XorZero(xs[i], xs[n - 1]);
        }
        if ProductExcept(xs, i, xs[i], n) == 0 {
          NoZeroDivisors(ProductExcept(xs, i, xs[i], n - 1), Add(xs[i], xs[n - 1]));
        }
      }
    }
  }

  lemma {:induction false} LagrangeAtPoint(xs: seq<byte>, ys: seq<byte>, k: nat, n: nat)
    requires |xs| == |ys| && n <= |xs| && k < |xs| && Distinct(xs)
    ensures Lagrange(xs, ys, xs[k], n) == if k < n then ys[k] else 0
  {
    if n != 0 {
      var i := n - 1;
      LagrangeAtPoint(xs, ys, k, i);
      if i == k {
        ProductExceptNonzero(xs, k, |xs|);
        InvIsInverse(ProductExcept(xs, k, xs[k], |xs|));
        MulZeroOne(ys[k]);
      } else {
        ProductExceptZero(xs, i, k, |xs|);
        MulZeroOne(Inv(ProductExcept(xs, i, xs[i], |xs|)));
        MulZeroOne(ys[i]);
        XorComm(Lagrange(xs, ys, xs[k], i), 0);
      }
    }
  }

  // There is exactly one polynomial with |xs| coefficients through the points.
  lemma InterpolantIsUnique(xs: seq<byte>, ys: seq<byte>, p: seq<byte>)
    requires |xs| == |ys| == |p| && Distinct(xs)
    ensures (forall i | 0 <= i < |xs| :: Eval(p, xs[i]) == ys[i]) <==> p == Interpolant(xs, ys, |xs|)
  {
    var q := Interpolant(xs, ys, |xs|);
    forall i | 0 <= i < |xs| ensures Eval(q, xs[i]) == ys[i] {
      EvalInterpolant(xs, ys, |xs|, xs[i]);
      LagrangeAtPoint(xs, ys, i, |xs|);
    }
    if forall i | 0 <= i < |xs| :: Eval(p, xs[i]) == ys[i] {
      Uniqueness(p, q, xs);
    }
  }

  lemma {:induction false} PadTo(p: seq<byte>, n: nat) returns (q: seq<byte>)
    requires |p| <= n
    ensures |q| == n && forall x: byte :: Eval(q, x) == Eval(p, x)
    decreases n
  {
    if |p| == n {
      q := p;
    } else {
      q := PadTo(p, n - 1);
      forall x: byte ensures Eval(q + [0], x) == Eval(p, x) {
        EvalPad(q, x);
      }
      q := q + [0];
    }
  }

  // Lagrange's formula on enough distinct points of a polynomial is the polynomial.
  lemma LagrangeIsEval(p: seq<byte>, xs: seq<byte>, ys: seq<byte>, x: byte)
    requires |p| <= |xs| == |ys| && Distinct(xs)
    requires forall i | 0 <= i < |xs| :: ys[i] == Eval(p, xs[i])
    ensures Lagrange(xs, ys, x, |xs|) == Eval(p, x)
  {
    var q := PadTo(p, |xs|);
    InterpolantIsUnique(xs, ys, q);
    EvalInterpolant(xs, ys, |xs|, x);
  }
}
