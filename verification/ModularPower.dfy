/** Natural powers and their residues: the arithmetic behind pow(s, e, n). */
module ModularPower {

  function Power(b: nat, e: nat): nat {
    if e == 0 then 1 else b * Power(b, e - 1)
  }

  /** pow(b, e, n) for a positive modulus. */
  function ModPow(b: nat, e: nat, n: nat): (r: nat)
    requires n > 0
    ensures r < n
  {
    Power(b, e) % n
  }

  /** A nonzero multiple of n is at least n away from zero. */
  lemma NonzeroMultiple(n: nat, d: int)
    ensures d >= 1 ==> n * d >= n
    ensures d <= -1 ==> n * d <= 0 - n
  {
    assert d >= 1 ==> n * (d - 1) >= 0;
    assert d <= -1 ==> n * (-1 - d) >= 0;
  }

  lemma RemainderUnique(q: int, r: nat, n: nat)
    requires r < n
    ensures (n * q + r) % n == r
  {
    var m := n * q + r;
    var d := m / n - q;
    assert n * (m / n) + m % n == m;
    assert n * d == n * (m / n) - n * q;
    assert n * d == r - m % n;
    NonzeroMultiple(n, d);
  }

  /** Reducing one factor first does not change the residue of a product. */
  lemma ReduceFactor(a: nat, b: nat, n: nat)
    requires n > 0
    ensures (a % n) * b % n == a * b % n
  {
    var q, r := a / n, a % n;
    var rb := r * b;
    var k := rb / n;
    assert a == n * q + r;
    assert a * b == n * (q * b) + rb;
    assert rb == n * k + rb % n;
    assert n * (q * b) + n * k == n * (q * b + k);
    RemainderUnique(q * b + k, rb % n, n);
    assert a * b == n * (q * b + k) + rb % n;
  }

  lemma {:induction false} ReduceBase(b: nat, e: nat, n: nat)
    requires n > 0
    ensures Power(b % n, e) % n == Power(b, e) % n
  {
    if e > 0 {
      ReduceBase(b, e - 1, n);
      ReduceStep(b, Power(b % n, e - 1), Power(b, e - 1), n);
    }
  }

  lemma ReduceStep(b: nat, x: nat, y: nat, n: nat)
    requires n > 0 && x % n == y % n
    ensures (b % n) * x % n == b * y % n
  {
    ReduceFactor(b, x, n);
    ReduceFactor(x, b, n);
    ReduceFactor(y, b, n);
    Commute(b, x);
    Commute(b, y);
  }

  lemma Commute(x: nat, y: nat)
    ensures x * y == y * x
  {
  }

  lemma Associate(x: nat, y: nat, z: nat)
    ensures x * (y * z) == (x * y) * z
  {
  }

  lemma {:induction false} PowerAdd(b: nat, i: nat, j: nat)
    ensures Power(b, i + j) == Power(b, i) * Power(b, j)
  {
    if i > 0 {
      PowerAdd(b, i - 1, j);
      Associate(b, Power(b, i - 1), Power(b, j));
    }
  }

  lemma {:induction false} PowerPower(b: nat, i: nat, j: nat)
    ensures Power(Power(b, i), j) == Power(b, i * j)
  {
    if j > 0 {
      PowerPower(b, i, j - 1);
      PowerAdd(b, i, i * (j - 1));
      assert i + i * (j - 1) == i * j;
    } else {
      assert i * j == 0;
    }
  }

  /** Raising in two steps, reducing in between, is raising to the product. */
  lemma ModPowCompose(b: nat, i: nat, j: nat, n: nat)
    requires n > 0
    ensures ModPow(ModPow(b, i, n), j, n) == Power(b, i * j) % n
  {
    ReduceBase(Power(b, i), j, n);
    PowerPower(b, i, j);
  }
}
