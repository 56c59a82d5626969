/** Which lists of shares give back every secret: ShamirCombine of daemon/ca/root.go takes any list, with repeats. */
module Recovery {
  import opened BinaryEvaluation
  import opened BinaryPolynomials
  import opened GF256
  import opened Integers
  import opened Interpolation
  import opened Shamir

  // ---------- Repeated coordinates ----------

  predicate Repeated(xs: seq<byte>, i: nat)
    requires i < |xs|
  {
    exists j | 0 <= j < |xs| :: j != i && xs[j] == xs[i]
  }

  ghost predicate Once(xs: seq<byte>, n: nat, u: byte)
    requires n <= |xs|
  {
    exists i :: 0 <= i < n && xs[i] == u && !Repeated(xs, i)
  }

  // The coordinates below n that occur once in xs.
  function Unrepeated(xs: seq<byte>, n: nat): (us: seq<byte>)
    requires n <= |xs|
    ensures |us| <= n
    ensures forall i | 0 <= i < n && !Repeated(xs, i) :: xs[i] in us
    ensures forall u | u in us :: Once(xs, n, u)
    ensures Distinct(us)
  {
    if n == 0 then []
    else if Repeated(xs, n - 1) then Unrepeated(xs, n - 1)
    else
      var us := Unrepeated(xs, n - 1);
      assert Once(xs, n, xs[n - 1]);
      assert forall u | u in us :: Once(xs, n - 1, u) && Once(xs, n, u);
      us + [xs[n - 1]]
  }

  // A repeated share has no weight: its denominator is zero, and so is what gf256Inv makes of it.
  lemma RepeatedWeight(xs: seq<byte>, i: nat, x: byte)
    requires i < |xs| && Repeated(xs, i)
    ensures Weight(xs, i, x) == 0
  {
    var j :| 0 <= j < |xs| && j != i && xs[j] == xs[i];
    ProductExceptZero(xs, i, j, |xs|);
    MulZeroOne(ProductExcept(xs, i, x, |xs|));
  }

  // Repeated shares and shares with the byte 0 contribute nothing.
  lemma {:induction false} LagrangeVanishes(xs: seq<byte>, ys: seq<byte>, x: byte, n: nat)
    requires |xs| == |ys| && n <= |xs|
    requires forall i | 0 <= i < |xs| :: Repeated(xs, i) || ys[i] == 0
    ensures Lagrange(xs, ys, x, n) == 0
  {
    if n != 0 {
      LagrangeVanishes(xs, ys, x, n - 1);
      MulZeroOne(ys[n - 1]);
      MulZeroOne(Weight(xs, n - 1, x));
      if Repeated(xs, n - 1) {
        RepeatedWeight(xs, n - 1, x);
      }
    }
  }

  // When every coordinate repeats, the answer is zeros.
  lemma AllRepeated(shares: seq<seq<byte>>, length: nat)
    requires SameLength(shares, length + 1)
    requires forall i | 0 <= i < |shares| :: Repeated(XCoordinates(shares), i)
    ensures Combine(shares, length) == seq(length, _ => 0)
  {
    var zeros: seq<byte> := seq(length, _ => 0);
    forall b | 0 <= b < length ensures Combine(shares, length)[b] == zeros[b] {
      LagrangeVanishes(XCoordinates(shares), Column(shares, b + 1), 0, |shares|);
    }
  }

  // So the same share twice gives zeros, whatever the secret.
  lemma RepeatedShare(share: seq<byte>)
    requires |share| > 0
    ensures Combine([share, share], |share| - 1) == seq(|share| - 1, _ => 0)
  {
    var xs := XCoordinates([share, share]);
    assert xs[0] == xs[1];
    AllRepeated([share, share], |share| - 1);
  }

  // ---------- Lagrange's formula is linear ----------

  lemma {:induction false} LagrangeLinear(xs: seq<byte>, c: byte, ys: seq<byte>, zs: seq<byte>, ws: seq<byte>, n: nat)
    requires |xs| == |ys| == |zs| == |ws| && n <= |xs|
    requires forall i | 0 <= i < |xs| :: ws[i] == Add(Mul(c, ys[i]), zs[i])
    ensures Lagrange(xs, ws, 0, n) == Add(Mul(c, Lagrange(xs, ys, 0, n)), Lagrange(xs, zs, 0, n))
  {
    if n == 0 {
      MulZeroOne(c);
    } else {
      var i, w := n - 1, Weight(xs, n - 1, 0);
      var y, z := Lagrange(xs, ys, 0, i), Lagrange(xs, zs, 0, i);
      LagrangeLinear(xs, c, ys, zs, ws, i);
      MulLeftAdd(Mul(c, ys[i]), zs[i], w);
      MulAssoc(c, ys[i], w);
      MulRightAdd(c, y, Mul(ys[i], w));
      XorSwap(Mul(c, y), z, Mul(c, Mul(ys[i], w)), Mul(zs[i], w));
    }
  }

  function Powers(xs: seq<byte>, t: nat): (ys: seq<byte>)
    ensures |ys| == |xs|
  {
    seq(|xs|, i requires 0 <= i < |xs| => Pow(xs[i], t))
  }

  // Lagrange's formula gives the value at 0 of the t-th power.
  ghost predicate Reproduces(xs: seq<byte>, t: nat) {
    Lagrange(xs, Powers(xs, t), 0, |xs|) == if t == 0 then 1 else 0
  }

  // x^t p is c x^t + x^(t+1) times the rest of p.
  lemma ShiftedValue(x: byte, t: nat, p: seq<byte>)
    requires p != []
    ensures Mul(Pow(x, t), Eval(p, x)) == Add(Mul(p[0], Pow(x, t)), Mul(Pow(x, t + 1), Eval(p[1..], x)))
  {
    MulRightAdd(Pow(x, t), p[0], Mul(x, Eval(p[1..], x)));
    MulComm(p[0], Pow(x, t));
    MulAssoc(Pow(x, t), x, Eval(p[1..], x));
    MulComm(x, Pow(x, t));
  }

  function Shifted(xs: seq<byte>, t: nat, p: seq<byte>): (ys: seq<byte>)
    ensures |ys| == |xs|
  {
    seq(|xs|, i requires 0 <= i < |xs| => Mul(Pow(xs[i], t), Eval(p, xs[i])))
  }

  // What reproduces the powers from t on reproduces x^t p.
  lemma {:induction false} ReproducesPolynomial(xs: seq<byte>, t: nat, p: seq<byte>)
    requires forall u | t <= u < t + |p| :: Reproduces(xs, u)
    ensures Lagrange(xs, Shifted(xs, t, p), 0, |xs|) == if t == 0 && p != [] then p[0] else 0
    decreases |p|
  {
    if p == [] {
      forall i | 0 <= i < |xs| ensures Shifted(xs, t, p)[i] == 0 {
        MulZeroOne(Pow(xs[i], t));
      }
      LagrangeVanishes(xs, Shifted(xs, t, p), 0, |xs|);
    } else {
      ReproducesPolynomial(xs, t + 1, p[1..]);
      forall i | 0 <= i < |xs|
        ensures Shifted(xs, t, p)[i] == Add(Mul(p[0], Powers(xs, t)[i]), Shifted(xs, t + 1, p[1..])[i])
      {
        ShiftedValue(xs[i], t, p);
      }
      LagrangeLinear(xs, p[0], Powers(xs, t), Shifted(xs, t + 1, p[1..]), Shifted(xs, t, p), |xs|);
      assert Reproduces(xs, t);
      MulZeroOne(p[0]);
      XorComm(p[0], 0);
    }
  }

  // x^t as k coefficients.
  function Unit(t: nat, k: nat): (p: seq<byte>)
    ensures |p| == k
  {
    seq(k, j requires 0 <= j < k => if j == t then 1 else 0)
  }

  lemma {:induction false} EvalUnit(t: nat, k: nat, x: byte)
    requires t < k
    ensures Eval(Unit(t, k), x) == Pow(x, t)
  {
    var rest := Unit(t, k)[1..];
    if t == 0 {
      EvalZero(rest, x);
      MulZeroOne(x);
      XorComm(1, 0);
    } else {
      EvalUnit(t - 1, k - 1, x);
      assert rest == Unit(t - 1, k - 1);
      XorComm(0, Pow(x, t));
    }
  }

  // ---------- Which lists recover every secret ----------

  ghost predicate Picks(picks: seq<nat>, n: nat) {
    forall i | 0 <= i < |picks| :: picks[i] < n
  }

  // The x coordinates of the shares picked.
  function Coordinates(picks: seq<nat>): (xs: seq<byte>)
    requires Picks(picks, 255)
    ensures |xs| == |picks|
  {
    seq(|picks|, i requires 0 <= i < |picks| => picks[i] + 1)
  }

  ghost predicate Recovered(secret: seq<byte>, n: nat, rows: seq<seq<byte>>, picks: seq<nat>)
    requires |rows| == |secret| && n <= 255 && Picks(picks, n)
  {
    Combine(Pick(Split(secret, n, rows), picks), |secret|) == secret
  }

  // The shares picked, in any order and with any repeats, give back every secret.
  ghost predicate Recovers(k: nat, n: nat, picks: seq<nat>)
    requires 1 <= k && n <= 255 && Picks(picks, n)
  {
    forall secret, rows | Rows(rows, k, |secret|) :: Recovered(secret, n, rows, picks)
  }

  lemma CoordinatesOfPicks(secret: seq<byte>, n: nat, rows: seq<seq<byte>>, picks: seq<nat>)
    requires |rows| == |secret| && n <= 255 && Picks(picks, n)
    ensures XCoordinates(Pick(Split(secret, n, rows), picks)) == Coordinates(picks)
  {}

  lemma PickedColumn(secret: seq<byte>, n: nat, rows: seq<seq<byte>>, picks: seq<nat>, b: nat)
    requires |rows| == |secret| && n <= 255 && Picks(picks, n) && b < |secret|
    ensures Column(Pick(Split(secret, n, rows), picks), b + 1)
         == Shifted(Coordinates(picks), 0, [secret[b]] + rows[b])
  {
    var p, xs, ys := [secret[b]] + rows[b], Coordinates(picks), Column(Pick(Split(secret, n, rows), picks), b + 1);
    forall i | 0 <= i < |xs| ensures ys[i] == Shifted(xs, 0, p)[i] {
      MulZeroOne(Eval(p, xs[i]));
    }
  }

  // One byte of the answer: Lagrange's formula on the values of its polynomial.
  lemma PickedByte(secret: seq<byte>, n: nat, rows: seq<seq<byte>>, picks: seq<nat>, b: nat)
    requires |rows| == |secret| && n <= 255 && Picks(picks, n) && b < |secret|
    ensures var xs := Coordinates(picks);
      Combine(Pick(Split(secret, n, rows), picks), |secret|)[b]
        == Lagrange(xs, Shifted(xs, 0, [secret[b]] + rows[b]), 0, |xs|)
  {
    CoordinatesOfPicks(secret, n, rows, picks);
    PickedColumn(secret, n, rows, picks, b);
  }

  // A polynomial with k coefficients as the secret and the random row of one byte.
  lemma OneByte(p: seq<byte>, k: nat, n: nat, picks: seq<nat>)
    requires 1 <= k == |p| && n <= 255 && Picks(picks, n) && Recovers(k, n, picks)
    ensures var xs := Coordinates(picks); Lagrange(xs, Shifted(xs, 0, p), 0, |xs|) == p[0]
  {
    var secret, rows := [p[0]], [p[1..]];
    assert Rows(rows, k, |secret|);
    assert Recovered(secret, n, rows, picks);
    PickedByte(secret, n, rows, picks, 0);
    assert [p[0]] + p[1..] == p;
  }

  // The exact condition, on the x coordinates alone: Lagrange's formula reproduces the first k powers.
  lemma RecoversExactly(k: nat, n: nat, picks: seq<nat>)
    requires 2 <= k <= n <= 255 && Picks(picks, n)
    ensures Recovers(k, n, picks) <==> forall t | 0 <= t < k :: Reproduces(Coordinates(picks), t)
  {
    var xs := Coordinates(picks);
    if forall t | 0 <= t < k :: Reproduces(xs, t) {
      forall secret, rows | Rows(rows, k, |secret|) ensures Recovered(secret, n, rows, picks) {
        forall b | 0 <= b < |secret| ensures Combine(Pick(Split(secret, n, rows), picks), |secret|)[b] == secret[b] {
          PickedByte(secret, n, rows, picks, b);
          ReproducesPolynomial(xs, 0, [secret[b]] + rows[b]);
        }
      }
    }
    if Recovers(k, n, picks) {
      forall t | 0 <= t < k ensures Reproduces(xs, t) {
        PowersAreValues(xs, t, k);
        OneByte(Unit(t, k), k, n, picks);
      }
    }
  }

  lemma PowersAreValues(xs: seq<byte>, t: nat, k: nat)
    requires t < k
    ensures Shifted(xs, 0, Unit(t, k)) == Powers(xs, t)
  {
    forall i | 0 <= i < |xs| ensures Shifted(xs, 0, Unit(t, k))[i] == Powers(xs, t)[i] {
      EvalUnit(t, k, xs[i]);
      MulZeroOne(Pow(xs[i], t));
    }
  }

  // Repeats do not count: fewer than k shares that occur once never do.
  lemma NeedsUnrepeated(k: nat, n: nat, picks: seq<nat>)
    requires 2 <= k <= n <= 255 && Picks(picks, n) && Recovers(k, n, picks)
    ensures |Unrepeated(Coordinates(picks), |picks|)| >= k
  {
    var xs := Coordinates(picks);
    var us := Unrepeated(xs, |picks|);
    if |us| < k {
      var p := VanishingOn(us, k);
      forall i | 0 <= i < |xs| ensures Repeated(xs, i) || Shifted(xs, 0, p)[i] == 0 {
        MulZeroOne(Pow(xs[i], 0));
      }
      LagrangeVanishes(xs, Shifted(xs, 0, p), 0, |xs|);
      OneByte(p, k, n, picks);
    }
  }

  // A polynomial with k coefficients that is zero at each of fewer than k points, but not at 0.
  lemma VanishingOn(us: seq<byte>, k: nat) returns (p: seq<byte>)
    requires |us| < k && 0 !in us
    ensures |p| == k && p[0] != 0 && forall u | u in us :: Eval(p, u) == 0
  {
    var basis := Basis(us, |us|, |us|);
    p := PadTo(basis, k);
    forall u | u in us ensures Eval(p, u) == 0 {
      var j :| 0 <= j < |us| && us[j] == u;
      EvalBasis(us, |us|, |us|, u);
      ProductExceptZero(us, |us|, j, |us|);
    }
    EvalAtZero(p);
    EvalBasis(us, |us|, |us|, 0);
    ProductAtZero(us, |us|);
  }

  lemma {:induction false} ProductAtZero(us: seq<byte>, n: nat)
    requires n <= |us| && 0 !in us
    ensures ProductExcept(us, |us|, 0, n) != 0
  {
    if n != 0 {
      ProductAtZero(us, n - 1);
      assert us[n - 1] in us;
      if ProductExcept(us, |us|, 0, n) == 0 {
        NoZeroDivisors(ProductExcept(us, |us|, 0, n - 1), Add(0, us[n - 1]));
      }
    }
  }

  // So different shares give back every secret if and only if there are at least k of them.
  lemma DistinctSharesRecover(k: nat, n: nat, picks: seq<nat>)
    requires 2 <= k <= n <= 255 && Selection(picks, n)
    ensures Recovers(k, n, picks) <==> |picks| >= k
  {
    if |picks| >= k {
      forall secret, rows | Rows(rows, k, |secret|) ensures Recovered(secret, n, rows, picks) {
        RoundTrip(secret, k, n, rows, picks);
      }
    }
    if Recovers(k, n, picks) {
      NeedsUnrepeated(k, n, picks);
    }
  }

  // Of exactly k shares, none may be repeated.
  lemma ExactlyKShares(k: nat, n: nat, picks: seq<nat>)
    requires 2 <= k <= n <= 255 && Picks(picks, n) && |picks| == k
    ensures Recovers(k, n, picks) <==> Selection(picks, n)
  {
    if Selection(picks, n) {
      DistinctSharesRecover(k, n, picks);
    }
    if Recovers(k, n, picks) {
      NeedsUnrepeated(k, n, picks);
      AllUnrepeated(Coordinates(picks), k);
      forall i, j | 0 <= i < j < k ensures picks[i] != picks[j] {
        assert !Repeated(Coordinates(picks), i);
        assert Coordinates(picks)[i] != Coordinates(picks)[j];
      }
    }
  }

  lemma {:induction false} AllUnrepeated(xs: seq<byte>, n: nat)
    requires n <= |xs| && |Unrepeated(xs, n)| >= n
    ensures forall i | 0 <= i < n :: !Repeated(xs, i)
  {
    if n != 0 {
      AllUnrepeated(xs, n - 1);
    }
  }

  // ---------- Repeats alone do not decide longer lists ----------

  // a is a cube root of 1 other than 1, and so is a + 1.
  lemma CubeRoots(a: byte, b: byte)
    requires Mul(a, a) == b && b == Add(a, 1)
    ensures Mul(a, b) == Mul(b, a) == 1 && Mul(b, b) == a
    ensures Add(b, 1) == a && Add(a, b) == Add(b, a) == 1
  {
    XorCancel(1, a);
    XorCancel(a, 1);
    XorComm(a, b);
    MulRightAdd(a, a, 1);
    MulZeroOne(a);
    XorComm(b, a);
    MulRightAdd(b, a, 1);
    MulZeroOne(b);
    MulComm(a, b);
    XorComm(1, b);
  }

  // 188 and 189 are such roots.
  lemma CubeRootOfOne(a: byte, b: byte)
    requires a == 188 && b == 189
    ensures Mul(a, a) == b == Add(a, 1)
  {
    var p, q, r := O(O(I(I(I(I(O(I(Zero)))))))), I(I(O(O(O(O(I(Zero))))))), I(O(I(I(I(I(O(I(Zero))))))));
    assert Value(p) == a && Value(r) == b;
    SquareOf188();
    SquareCertificate(p, q, r);
    AddDigit(94, 1);
  }

  // The weights of a and b in the list with three shares at 1.
  lemma WeightsOfCubeRoots(a: byte, b: byte)
    requires Mul(a, a) == b && b == Add(a, 1)
    ensures var xs := [1, 1, 1, a, b];
      Weight(xs, 3, 0) == b && Weight(xs, 4, 0) == a && forall i | 0 <= i < 3 :: Weight(xs, i, 0) == 0
  {
    var xs: seq<byte> := [1, 1, 1, a, b];
    CubeRoots(a, b);
    assert xs[0] == xs[1] == xs[2];
    RepeatedWeight(xs, 0, 0);
    RepeatedWeight(xs, 1, 0);
    RepeatedWeight(xs, 2, 0);
    ProductOfFive(xs, 3, 0);
    ProductOfFive(xs, 3, a);
    ProductOfFive(xs, 4, 0);
    ProductOfFive(xs, 4, b);
    CubeProducts(a, b);
    CubeProducts(b, a);
    InverseOfOne();
    MulZeroOne(a);
    MulZeroOne(b);
  }

  function ThreeTimes(c: byte): byte {
    Mul(Mul(Mul(1, c), c), c)
  }

  lemma ProductOfFive(xs: seq<byte>, i: nat, x: byte)
    requires |xs| == 5 && 3 <= i < 5 && xs[0] == xs[1] == xs[2]
    ensures ProductExcept(xs, i, x, 5) == Mul(ThreeTimes(Add(x, xs[0])), Add(x, xs[7 - i]))
  {
    var c := Add(x, xs[0]);
    assert ProductExcept(xs, i, x, 1) == Mul(1, c);
    assert ProductExcept(xs, i, x, 2) == Mul(Mul(1, c), c);
    assert ProductExcept(xs, i, x, 3) == ThreeTimes(c);
  }

  lemma CubeProducts(a: byte, b: byte)
    requires Mul(a, a) == b && Mul(b, a) == 1 && Add(a, b) == 1
    ensures ThreeTimes(a) == 1 && ThreeTimes(Add(0, 1)) == 1
    ensures Mul(ThreeTimes(Add(0, 1)), Add(0, b)) == b && Mul(ThreeTimes(a), Add(a, b)) == 1
  {
    MulZeroOne(a);
    MulZeroOne(b);
    MulZeroOne(1);
  }

  lemma InverseOfOne()
    ensures Inv(1) == 1
  {
    MulZeroOne(1);
    InvIsInverse(1);
  }

  // The first two powers of the list.
  lemma CubeRootsReproduce(xs: seq<byte>, a: byte, b: byte)
    requires Mul(a, a) == b && b == Add(a, 1) && xs == [1, 1, 1, a, b]
    ensures Reproduces(xs, 0) && Reproduces(xs, 1)
  {
    WeightsOfCubeRoots(a, b);
    CubeRoots(a, b);
    SumOfFive(xs, Powers(xs, 0));
    SumOfFive(xs, Powers(xs, 1));
    MulZeroOne(a);
    MulZeroOne(b);
    XorSelf(1);
  }

  lemma CubeRootCoordinates(picks: seq<nat>, a: byte, b: byte)
    requires a == 188 && b == 189 && picks == [0, 0, 0, a - 1, b - 1]
    ensures Picks(picks, 189) && Coordinates(picks) == [1, 1, 1, a, b]
  {}

  lemma TwoPowers(xs: seq<byte>, k: nat)
    requires k == 2 && Reproduces(xs, 0) && Reproduces(xs, 1)
    ensures forall t | 0 <= t < k :: Reproduces(xs, t)
  {}

  // With one share three times, shares 188 and 189 still give back every secret split with k = 2.
  lemma RepeatsMayRecover(k: nat, n: nat, picks: seq<nat>, a: byte, b: byte)
    requires k == 2 && 189 <= n <= 255 && a == 188 && b == 189 && picks == [0, 0, 0, a - 1, b - 1]
    ensures Picks(picks, n) && Recovers(k, n, picks)
  {
    CubeRootOfOne(a, b);
    CubeRootCoordinates(picks, a, b);
    CubeRootsReproduce(Coordinates(picks), a, b);
    TwoPowers(Coordinates(picks), k);
    RecoversExactly(k, n, picks);
  }

  lemma SumOfFive(xs: seq<byte>, ys: seq<byte>)
    requires |xs| == |ys| == 5 && forall i | 0 <= i < 3 :: Weight(xs, i, 0) == 0
    ensures Lagrange(xs, ys, 0, 5) == Add(Mul(ys[3], Weight(xs, 3, 0)), Mul(ys[4], Weight(xs, 4, 0)))
  {
    MulZeroOne(ys[0]);
    MulZeroOne(ys[1]);
    MulZeroOne(ys[2]);
    assert Lagrange(xs, ys, 0, 1) == 0;
    assert Lagrange(xs, ys, 0, 2) == 0;
    assert Lagrange(xs, ys, 0, 3) == 0;
  }
}
