/** K-of-N secret sharing: ShamirSplit and ShamirCombine of daemon/ca/root.go. */
module Shamir {
  import opened BinaryPolynomials
  import opened GF256
  import opened Integers
  import opened Interpolation
  import opened Wrappers

  // A panic of the original is an error here: ShamirCombine makes a slice of length -1 for empty shares.
  datatype Error = InvalidParameters | RandomFailed | NoShares | InconsistentLengths | Panic

  // One row of k-1 random coefficients for each byte of the secret.
  ghost predicate Rows(rows: seq<seq<byte>>, k: nat, length: nat) {
    |rows| == length && forall b | 0 <= b < length :: |rows[b]| == k - 1
  }

  // Byte j of the share with the x coordinate x.
  function ShareByte(secret: seq<byte>, rows: seq<seq<byte>>, x: byte, j: nat): byte
    requires |rows| == |secret| && j <= |secret|
  {
    if j == 0 then x else Eval([secret[j - 1]] + rows[j - 1], x)
  }

  function Share(secret: seq<byte>, rows: seq<seq<byte>>, x: byte): (s: seq<byte>)
    requires |rows| == |secret|
    ensures |s| == |secret| + 1
  {
    seq(|secret| + 1, j requires 0 <= j <= |secret| => ShareByte(secret, rows, x, j))
  }

  function Split(secret: seq<byte>, n: nat, rows: seq<seq<byte>>): (shares: seq<seq<byte>>)
    requires |rows| == |secret| && n <= 255
  {
    seq(n, i requires 0 <= i < n => Share(secret, rows, i + 1))
  }

  // Adding the next coefficient times the next power of x to y.
  lemma TermStep(y: byte, power: byte, c: byte, x: byte, rest: byte)
    ensures Add(Add(y, Mul(c, power)), Mul(Mul(power, x), rest)) == Add(y, Mul(power, Add(c, Mul(x, rest))))
  {
    MulRightAdd(power, c, Mul(x, rest));
    MulComm(power, c);
    MulAssoc(power, x, rest);
    XorAssoc(y, Mul(c, power), Mul(Mul(power, x), rest));
  }

  // The innermost loop of ShamirSplit: a sum of powers, not Horner's scheme.
  method EvaluateShare(coeffs: array<byte>, x: byte) returns (y: byte)
    ensures y == Eval(coeffs[..], x)
  {
    y := 0;
    var xPow: byte := 1;
    MulZeroOne(Eval(coeffs[..], x));
    assert coeffs[0..] == coeffs[..];
    for j := 0 to coeffs.Length
      invariant Add(y, Mul(xPow, Eval(coeffs[j..], x))) == Eval(coeffs[..], x)
    {
      var c := coeffs[j];
      assert coeffs[j..][1..] == coeffs[j + 1..];
      TermStep(y, xPow, c, x, Eval(coeffs[j + 1..], x));
      var term := Gf256Mul(c, xPow);
      y := Add(y, term);
      xPow := Gf256Mul(xPow, x);
    }
    MulZeroOne(xPow);
    XorComm(y, 0);
  }

  // The loop over the shares for one byte of the secret.
  method FillColumn(shares: array2<byte>, coeffs: array<byte>, b: nat)
    requires b + 1 < shares.Length1 && shares.Length0 <= 255
    modifies shares
    ensures forall i, j | 0 <= i < shares.Length0 && 0 <= j < shares.Length1 ::
      shares[i, j] == if j == b + 1 then Eval(coeffs[..], i + 1) else old(shares[i, j])
  {
    for i := 0 to shares.Length0
      invariant forall i', j | 0 <= i' < shares.Length0 && 0 <= j < shares.Length1 ::
        shares[i', j] == if j == b + 1 && i' < i then Eval(coeffs[..], i' + 1) else old(shares[i', j])
    {
      var y := EvaluateShare(coeffs, i + 1);
      shares[i, b + 1] := y;
    }
  }

  // The rows that were read, when every read succeeded.
  function Values(random: seq<Option<seq<byte>>>): (rows: seq<seq<byte>>)
    ensures |rows| == |random|
  {
    seq(|random|, b requires 0 <= b < |random| => match random[b] case Some(row) => row case None => [])
  }

  // rand.Read(coeffs[1:])
  method ReadRow(coeffs: array<byte>, row: seq<byte>)
    requires coeffs.Length == |row| + 1
    modifies coeffs
    ensures coeffs[..] == [old(coeffs[0])] + row
  {
    forall j | 1 <= j < coeffs.Length {
      coeffs[j] := row[j - 1];
    }
  }

  // The body of the loop over the bytes of the secret; not ok when the read fails.
  method SplitByte(shares: array2<byte>, coeffs: array<byte>, secretByte: byte, read: Option<seq<byte>>, b: nat)
    returns (ok: bool)
    requires b + 1 < shares.Length1 && shares.Length0 <= 255 && coeffs.Length > 0
    requires read.Some? ==> |read.value| == coeffs.Length - 1
    modifies shares, coeffs
    ensures ok <==> read.Some?
    ensures ok ==> forall i, j | 0 <= i < shares.Length0 && 0 <= j < shares.Length1 ::
      shares[i, j] == if j == b + 1 then Eval([secretByte] + read.value, i + 1) else old(shares[i, j])
  {
    coeffs[0] := secretByte;
    if read == None {
      return false;
    }
    ReadRow(coeffs, read.value);
    FillColumn(shares, coeffs, b);
    return true;
  }

  // The loops of ShamirSplit; not ok when a read fails.
  method SplitAll(secret: seq<byte>, k: nat, n: nat, random: seq<Option<seq<byte>>>)
    returns (ok: bool, shares: array2<byte>)
    requires 2 <= k && n <= 255 && |random| == |secret|
    requires forall row | Some(row) in random :: |row| == k - 1
    ensures fresh(shares) && shares.Length0 == n && shares.Length1 == |secret| + 1
    ensures ok <==> None !in random
    ensures ok ==> forall i, j | 0 <= i < n && 0 <= j <= |secret| ::
      shares[i, j] == ShareByte(secret, Values(random), i + 1, j)
  {
    ghost var rows := Values(random);
    shares := new byte[n, |secret| + 1];
    for i := 0 to n
      invariant forall i' | 0 <= i' < i :: shares[i', 0] == i' + 1
    {
      shares[i, 0] := i + 1;
    }
    var coeffs := new byte[k];
    for b := 0 to |secret|
      invariant None !in random[..b]
      invariant forall i, j | 0 <= i < n && 0 <= j <= b :: shares[i, j] == ShareByte(secret, rows, i + 1, j)
    {
      assert random[b] in random;
      ok := SplitByte(shares, coeffs, secret[b], random[b], b);
      if !ok {
        return;
      }
    }
    assert random[..|secret|] == random;
    ok := true;
  }

  // random: what each call of rand.Read delivered, None for an error.
  method ShamirSplit(secret: seq<byte>, k: int, n: int, random: seq<Option<seq<byte>>>)
    returns (r: Result<array2<byte>, Error>)
    requires |random| == |secret|
    requires forall row | Some(row) in random :: |row| == k - 1
    ensures r == Err(InvalidParameters) <==> k < 2 || k > n || n > 255
    ensures r == Err(RandomFailed) <==> 2 <= k <= n <= 255 && None in random
    ensures r.Ok? <==> 2 <= k <= n <= 255 && None !in random
    ensures r.Ok? ==> fresh(r.value) && r.value.Length0 == n && r.value.Length1 == |secret| + 1
    ensures r.Ok? ==> forall i | 0 <= i < n :: r.value[i, 0] == i + 1
    ensures r.Ok? ==> forall i, j | 0 <= i < n && 1 <= j <= |secret| ::
      r.value[i, j] == Eval([secret[j - 1]] + random[j - 1].value, i + 1)
    ensures r.Ok? ==> forall i, j | 0 <= i < n && 0 <= j <= |secret| ::
      r.value[i, j] == Split(secret, n, Values(random))[i][j]
  {
    if k < 2 || k > n || n > 255 {
      return Err(InvalidParameters);
    }
    var ok, shares := SplitAll(secret, k, n, random);
    if !ok {
      return Err(RandomFailed);
    }
    forall i, j | 0 <= i < n && 0 <= j <= |secret|
      ensures shares[i, j] == Split(secret, n, Values(random))[i][j]
      ensures j > 0 ==> shares[i, j] == Eval([secret[j - 1]] + random[j - 1].value, i + 1)
    {
      assert shares[i, j] == ShareByte(secret, Values(random), i + 1, j);
    }
    return Ok(shares);
  }

  // ---------- Recombination ----------

  function XCoordinates(shares: seq<seq<byte>>): (xs: seq<byte>)
    requires forall i | 0 <= i < |shares| :: |shares[i]| > 0
    ensures |xs| == |shares|
  {
    seq(|shares|, i requires 0 <= i < |shares| => shares[i][0])
  }

  function Column(shares: seq<seq<byte>>, b: nat): (ys: seq<byte>)
    requires forall i | 0 <= i < |shares| :: |shares[i]| > b
    ensures |ys| == |shares|
  {
    seq(|shares|, i requires 0 <= i < |shares| => shares[i][b])
  }

  predicate SameLength(shares: seq<seq<byte>>, length: nat) {
    forall i | 0 <= i < |shares| :: |shares[i]| == length
  }

  function Combine(shares: seq<seq<byte>>, length: nat): (secret: seq<byte>)
    requires SameLength(shares, length + 1)
    ensures |secret| == length
  {
    seq(length, b requires 0 <= b < length =>
      Lagrange(XCoordinates(shares), Column(shares, b + 1), 0, |shares|))
  }

  // The loop over the other shares: numerator and denominator of one Lagrange weight.
  method LagrangeWeight(shares: seq<seq<byte>>, i: nat) returns (num: byte, den: byte)
    requires i < |shares| && forall j | 0 <= j < |shares| :: |shares[j]| > 0
    ensures num == ProductExcept(XCoordinates(shares), i, 0, |shares|)
    ensures den == ProductExcept(XCoordinates(shares), i, shares[i][0], |shares|)
  {
    num, den := 1, 1;
    for j := 0 to |shares|
      invariant num == ProductExcept(XCoordinates(shares), i, 0, j)
      invariant den == ProductExcept(XCoordinates(shares), i, shares[i][0], j)
    {
      if i != j {
        var xj := shares[j][0];
        num := Gf256Mul(num, xj);
        den := Gf256Mul(den, Add(shares[i][0], xj));
      }
    }
  }

  // The loop that recovers one byte of the secret.
  method CombineByte(shares: seq<seq<byte>>, b: nat) returns (result: byte)
    requires forall i | 0 <= i < |shares| :: |shares[i]| > b + 1
    ensures result == Lagrange(XCoordinates(shares), Column(shares, b + 1), 0, |shares|)
  {
    ghost var xs, ys := XCoordinates(shares), Column(shares, b + 1);
    result := 0;
    for i := 0 to |shares|
      invariant result == Lagrange(xs, ys, 0, i)
    {
      var yi := shares[i][b + 1];
      var num, den := LagrangeWeight(shares, i);
      var inv := Gf256Inv(den);
      var weight := Gf256Mul(num, inv);
      assert xs[i] == shares[i][0] && weight == Weight(xs, i, 0);
      var term := Gf256Mul(yi, weight);
      result := Add(result, term);
    }
  }

  // The loop that compares the lengths.
  method CheckLengths(shares: seq<seq<byte>>, length: nat) returns (same: bool)
    ensures same <==> SameLength(shares, length)
  {
    for i := 0 to |shares|
      invariant SameLength(shares[..i], length)
    {
      if |shares[i]| != length {
        return false;
      }
    }
    assert shares[..|shares|] == shares;
    return true;
  }

  method ShamirCombine(shares: seq<seq<byte>>) returns (r: Result<array<byte>, Error>)
    ensures r == Err(NoShares) <==> shares == []
    ensures r == Err(InconsistentLengths) <==> exists i :: 0 <= i < |shares| && |shares[i]| != |shares[0]|
    ensures r == Err(Panic) <==> shares != [] && forall i | 0 <= i < |shares| :: shares[i] == []
    ensures r.Ok? <==> shares != [] && shares[0] != [] && forall i | 0 <= i < |shares| :: |shares[i]| == |shares[0]|
    ensures r.Ok? ==> fresh(r.value) && r.value[..] == Combine(shares, |shares[0]| - 1)
  {
    if |shares| == 0 {
      return Err(NoShares);
    }
    var secretLen := |shares[0]| - 1;
    var same := CheckLengths(shares, secretLen + 1);
    if !same {
      return Err(InconsistentLengths);
    }
    if secretLen < 0 {
      return Err(Panic);
    }
    var secret := new byte[secretLen];
    for b := 0 to secretLen
      invariant forall b' | 0 <= b' < b ::
        secret[b'] == Lagrange(XCoordinates(shares), Column(shares, b' + 1), 0, |shares|)
    {
      var y := CombineByte(shares, b);
      secret[b] := y;
    }
    return Ok(secret);
  }

  // ---------- Any k shares give the secret ----------

  ghost predicate Selection(picks: seq<nat>, n: nat) {
    && (forall i | 0 <= i < |picks| :: picks[i] < n)
    && forall i, j | 0 <= i < j < |picks| :: picks[i] != picks[j]
  }

  function Pick(shares: seq<seq<byte>>, picks: seq<nat>): (s: seq<seq<byte>>)
    requires forall i | 0 <= i < |picks| :: picks[i] < |shares|
    ensures |s| == |picks|
  {
    seq(|picks|, i requires 0 <= i < |picks| => shares[picks[i]])
  }

  lemma PickedCoordinates(shares: seq<seq<byte>>, picks: seq<nat>)
    requires Selection(picks, |shares|)
    requires forall i | 0 <= i < |shares| :: |shares[i]| > 0 && shares[i][0] == i + 1
    ensures Distinct(XCoordinates(Pick(shares, picks)))
  {}

  lemma PickedPoint(secret: seq<byte>, n: nat, rows: seq<seq<byte>>, picks: seq<nat>, b: nat, i: nat)
    requires |rows| == |secret| && n <= 255 && b < |secret| && i < |picks|
    requires forall j | 0 <= j < |picks| :: picks[j] < n
    ensures var share := Pick(Split(secret, n, rows), picks)[i];
      share[0] == picks[i] + 1 && share[b + 1] == Eval([secret[b]] + rows[b], share[0])
  {}

  lemma ByteRoundTrip(secret: seq<byte>, n: nat, rows: seq<seq<byte>>, picks: seq<nat>, b: nat)
    requires |rows| == |secret| && n <= 255 && b < |secret| && |rows[b]| < |picks| && Selection(picks, n)
    ensures Combine(Pick(Split(secret, n, rows), picks), |secret|)[b] == secret[b]
  {
    var shares := Split(secret, n, rows);
    var picked, p := Pick(shares, picks), [secret[b]] + rows[b];
    PickedCoordinates(shares, picks);
    forall i | 0 <= i < |picked| ensures picked[i][b + 1] == Eval(p, picked[i][0]) {
      PickedPoint(secret, n, rows, picks, b, i);
    }
    ByteFromShares(picked, p, b + 1);
  }

  lemma RoundTrip(secret: seq<byte>, k: nat, n: nat, rows: seq<seq<byte>>, picks: seq<nat>)
    requires 2 <= k <= n <= 255 && Rows(rows, k, |secret|)
    requires Selection(picks, n) && |picks| >= k
    ensures Combine(Pick(Split(secret, n, rows), picks), |secret|) == secret
  {
    forall b | 0 <= b < |secret| ensures Combine(Pick(Split(secret, n, rows), picks), |secret|)[b] == secret[b] {
      ByteRoundTrip(secret, n, rows, picks, b);
    }
  }

  // Every byte of the answer is the value at 0 of the one polynomial through the shares, whoever made them.
  lemma ByteFromShares(shares: seq<seq<byte>>, p: seq<byte>, j: nat)
    requires 0 < |p| <= |shares| && forall i | 0 <= i < |shares| :: |shares[i]| > j
    requires Distinct(XCoordinates(shares))
    requires forall i | 0 <= i < |shares| :: shares[i][j] == Eval(p, shares[i][0])
    ensures Lagrange(XCoordinates(shares), Column(shares, j), 0, |shares|) == p[0]
  {
    LagrangeIsEval(p, XCoordinates(shares), Column(shares, j), 0);
    EvalAtZero(p);
  }

  lemma EvalAtZero(p: seq<byte>)
    requires p != []
    ensures Eval(p, 0) == p[0]
  {
    MulZeroOne(Eval(p[1..], 0));
    XorComm(p[0], 0);
  }

  // ---------- k-1 shares give nothing ----------

  // The shares picks of this secret, with these random rows, carry the bytes seen.
  ghost predicate Explains(secret: seq<byte>, n: nat, rows: seq<seq<byte>>, picks: seq<nat>, seen: seq<seq<byte>>)
    requires |rows| == |secret| && n <= 255 && Selection(picks, n)
  {
    Pick(Split(secret, n, rows), picks) == seen
  }

  // Shares as Split makes them: the right x coordinates and the right length, but any bytes.
  ghost predicate Plausible(seen: seq<seq<byte>>, picks: seq<nat>, length: nat) {
    |seen| == |picks| && forall i | 0 <= i < |seen| :: |seen[i]| == length + 1 && seen[i][0] == picks[i] + 1
  }

  // The one row that explains byte b: interpolate through the secret at 0 and the bytes seen.
  function Row(secret: byte, xs: seq<byte>, ys: seq<byte>): (row: seq<byte>)
    requires |xs| == |ys|
    ensures |row| == |xs|
  {
    Interpolant([0] + xs, [secret] + ys, |xs| + 1)[1..]
  }

  ghost predicate Through(p: seq<byte>, xs: seq<byte>, ys: seq<byte>)
    requires |xs| == |ys|
  {
    forall i | 0 <= i < |xs| :: Eval(p, xs[i]) == ys[i]
  }

  lemma ThroughSecret(p: seq<byte>, secret: byte, xs: seq<byte>, ys: seq<byte>)
    requires |xs| == |ys| && p != []
    ensures Through(p, [0] + xs, [secret] + ys) <==> p[0] == secret && Through(p, xs, ys)
  {
    var zs, ws := [0] + xs, [secret] + ys;
    EvalAtZero(p);
    forall i | 0 <= i < |xs| ensures zs[i + 1] == xs[i] && ws[i + 1] == ys[i] {}
    if Through(p, zs, ws) {
      assert Eval(p, zs[0]) == ws[0];
      forall i | 0 <= i < |xs| ensures Eval(p, xs[i]) == ys[i] {
        assert Eval(p, zs[i + 1]) == ws[i + 1];
      }
    }
  }

  lemma RowIsUnique(secret: byte, xs: seq<byte>, ys: seq<byte>, row: seq<byte>)
    requires |xs| == |ys| == |row| && Distinct([0] + xs)
    ensures Through([secret] + row, xs, ys) <==> row == Row(secret, xs, ys)
  {
    var q := Interpolant([0] + xs, [secret] + ys, |xs| + 1);
    InterpolantIsUnique([0] + xs, [secret] + ys, [secret] + row);
    InterpolantIsUnique([0] + xs, [secret] + ys, q);
    ThroughSecret([secret] + row, secret, xs, ys);
    ThroughSecret(q, secret, xs, ys);
    assert q == [secret] + q[1..];
    assert ([secret] + row)[1..] == row;
  }

  function Explanation(secret: seq<byte>, seen: seq<seq<byte>>): (rows: seq<seq<byte>>)
    requires forall i | 0 <= i < |seen| :: |seen[i]| == |secret| + 1
    ensures |rows| == |secret|
  {
    seq(|secret|, b requires 0 <= b < |secret| => Row(secret[b], XCoordinates(seen), Column(seen, b + 1)))
  }

  // Byte b of every share picked is as seen.
  ghost predicate ExplainsByte(secret: byte, row: seq<byte>, seen: seq<seq<byte>>, b: nat)
    requires forall i | 0 <= i < |seen| :: |seen[i]| > b + 1
  {
    Through([secret] + row, XCoordinates(seen), Column(seen, b + 1))
  }

  ghost predicate ExplainsBytes(secret: seq<byte>, rows: seq<seq<byte>>, seen: seq<seq<byte>>)
    requires |rows| == |secret| && forall i | 0 <= i < |seen| :: |seen[i]| == |secret| + 1
  {
    forall b | 0 <= b < |secret| :: ExplainsByte(secret[b], rows[b], seen, b)
  }

  lemma ExplainsByBytes(secret: seq<byte>, n: nat, rows: seq<seq<byte>>, picks: seq<nat>, seen: seq<seq<byte>>)
    requires |rows| == |secret| && n <= 255 && Selection(picks, n) && Plausible(seen, picks, |secret|)
    ensures Explains(secret, n, rows, picks, seen) <==> ExplainsBytes(secret, rows, seen)
  {
    var picked := Pick(Split(secret, n, rows), picks);
    forall i, b | 0 <= i < |picks| && 0 <= b < |secret|
      ensures picked[i][b + 1] == Eval([secret[b]] + rows[b], XCoordinates(seen)[i])
      ensures picked[i][0] == seen[i][0]
    {}
    if ExplainsBytes(secret, rows, seen) {
      forall i | 0 <= i < |picks| ensures picked[i] == seen[i] {
        forall j | 0 < j <= |secret| ensures picked[i][j] == seen[i][j] {
          assert ExplainsByte(secret[j - 1], rows[j - 1], seen, j - 1);
          assert Eval([secret[j - 1]] + rows[j - 1], XCoordinates(seen)[i]) == Column(seen, j)[i];
        }
        assert picked[i][0] == seen[i][0];
      }
    }
  }

  lemma PlausibleDistinct(seen: seq<seq<byte>>, picks: seq<nat>, length: nat, n: nat)
    requires Plausible(seen, picks, length) && Selection(picks, n)
    ensures Distinct([0] + XCoordinates(seen))
  {
    var xs := XCoordinates(seen);
    assert forall i | 0 <= i < |xs| :: xs[i] == picks[i] + 1;
    assert Distinct(xs);
  }

  // Every byte of the secret has exactly one row.
  lemma BytesExplained(secret: seq<byte>, seen: seq<seq<byte>>, rows: seq<seq<byte>>)
    requires |rows| == |secret| && forall b | 0 <= b < |rows| :: |rows[b]| == |seen|
    requires forall i | 0 <= i < |seen| :: |seen[i]| == |secret| + 1
    requires Distinct([0] + XCoordinates(seen))
    ensures ExplainsBytes(secret, rows, seen) <==> rows == Explanation(secret, seen)
  {
    var all := Explanation(secret, seen);
    forall b | 0 <= b < |secret| ensures ExplainsByte(secret[b], rows[b], seen, b) <==> rows[b] == all[b] {
      RowIsUnique(secret[b], XCoordinates(seen), Column(seen, b + 1), rows[b]);
    }
  }

  // Whatever k-1 shares show, every secret of that length explains it, by exactly one choice of coefficients.
  lemma ThresholdExact(secret: seq<byte>, k: nat, n: nat, picks: seq<nat>, seen: seq<seq<byte>>,
                       rows: seq<seq<byte>>)
    requires 2 <= k <= n <= 255 && Selection(picks, n) && |picks| == k - 1
    requires Plausible(seen, picks, |secret|) && Rows(rows, k, |secret|)
    ensures Rows(Explanation(secret, seen), k, |secret|)
    ensures Explains(secret, n, rows, picks, seen) <==> rows == Explanation(secret, seen)
  {
    PlausibleDistinct(seen, picks, |secret|, n);
    ExplainsByBytes(secret, n, rows, picks, seen);
    BytesExplained(secret, seen, rows);
  }
}
