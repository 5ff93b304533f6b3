/** `power` and `getBit`: the integer helpers behind corner enumeration. */
module Bits {
  import opened Outcomes

  /** The largest dimension count for which 2^D, and so every corner index, fits a Java `int`. */
  const MaxDims: nat := 30

  /** 2^32: the number of distinct Java `int` values. */
  const IntModulus: int := 0x1_0000_0000

  /** `power(n, exp)`: n raised to exp by recursion on exp; a negative exponent is refused. */
  function Power(n: int, exp: int): (r: Result<int>)
    ensures r.Ok? <==> exp >= 0
    ensures r.Err? ==> r.error == IllegalArgument
    ensures r.Ok? && n > 0 ==> r.value > 0
    decreases if exp < 0 then 0 else exp
  {
    if exp < 0 then Err(IllegalArgument)
    else if exp == 0 then Ok(1)
    else Ok(n * Power(n, exp - 1).value)
  }

  /** 2^e, the number of corners of an e-dimensional cell. */
  function Pow2(e: nat): (r: nat)
    ensures r >= 1
  {
    Power(2, e).value
  }

  /** The exponent law that makes `power` exponentiation: n^(a+b) = n^a * n^b. */
  lemma {:induction false} PowerAdd(n: int, a: nat, b: nat)
    ensures Power(n, a + b).value == Power(n, a).value * Power(n, b).value
    decreases b
  {
    if b > 0 {
      PowerAdd(n, a, b - 1);
      var x, y := Power(n, a).value, Power(n, b - 1).value;
      assert Power(n, a + b).value == n * Power(n, a + b - 1).value;
      assert Power(n, a + b - 1).value == x * y;
      assert Power(n, b).value == n * y;
      MulRotate(n, x, y);
    }
  }

  lemma MulRotate(n: int, x: int, y: int)
    ensures n * (x * y) == x * (n * y)
  {
  }

  /** The values power(2, 0) = 1 and power(2, 3) = 8, and the refusal of power(2, -1). */
  lemma PowerExamples()
    ensures Power(2, 0) == Ok(1)
    ensures Power(2, 3) == Ok(8)
    ensures Power(2, -1) == Err(IllegalArgument)
  {
  }

  lemma Pow2Step(e: nat)
    requires e >= 1
    ensures Pow2(e) == 2 * Pow2(e - 1)
  {
  }

  lemma {:induction false} Pow2Monotone(a: nat, b: nat)
    requires a <= b
    ensures Pow2(a) <= Pow2(b)
    decreases b
  {
    if a < b {
      Pow2Monotone(a, b - 1);
      Pow2Step(b);
    }
  }

  /** Every corner index of a cell with at most MaxDims axes is below 2^30. */
  lemma Pow2Bounded(e: nat)
    requires e <= MaxDims
    ensures Pow2(e) <= 0x4000_0000
  {
    assert Pow2(5) == 32;
    PowerAdd(2, 5, 5);
    PowerAdd(2, 10, 10);
    PowerAdd(2, 20, 10);
    Pow2Monotone(e, MaxDims);
  }

  /** `getBit(integer, bit)`: whether bit `bit` of `integer`, read as a 32-bit two's-complement
      word, is set. Java's `1 << bit` uses the shift distance modulo 32, and the word's unsigned
      value is `integer` modulo 2^32; the masked bit is nonzero exactly when that value divided
      by 2^(bit mod 32) is odd. */
  function GetBit(integer: int, bit: int): bool
  {
    (integer % IntModulus) / Pow2(bit % 32) % 2 == 1
  }

  /** `getBit` reads Java's bits: the low bits of 5 are 1, 0, 1; a shift distance of 32 acts as 0;
      bit 31 of -1 is its sign bit, which is set. */
  lemma GetBitExamples()
    ensures GetBit(5, 0) && !GetBit(5, 1) && GetBit(5, 2)
    ensures GetBit(5, 32) == GetBit(5, 0)
    ensures GetBit(-1, 31)
  {
    assert Pow2(1) == 2 && Pow2(2) == 4;
    assert Pow2(5) == 32;
    PowerAdd(2, 5, 5);
    PowerAdd(2, 10, 10);
    PowerAdd(2, 20, 10);
    Pow2Step(31);
    assert Pow2(31) == 0x8000_0000;
    DivUnique(IntModulus - 1, Pow2(31), 1, 0x7FFF_FFFF);
  }

  /** Euclidean division is unique: a = q*k + r with 0 <= r < q fixes a / q. */
  lemma DivUnique(a: int, q: int, k: int, r: int)
    requires q > 0 && 0 <= r < q && a == q * k + r
    ensures a / q == k
  {
    var m := k - a / q;
    assert q * m == a % q - r by {
      assert a == q * (a / q) + a % q;
      MulSub(q, k, a / q);
    }
    MulBelow(q, m);
    MulBelow(q, -m);
  }

  lemma MulSub(q: int, x: int, y: int)
    ensures q * (x - y) == q * x - q * y
  {
  }

  /** A multiple of a positive q lying strictly below q has a factor below 1. */
  lemma MulBelow(q: int, m: int)
    requires q > 0 && q * m < q
    ensures m < 1
  {
  }

  /** An index below 2^b has bit b clear. */
  lemma BitOfLow(i: int, b: nat)
    requires 0 <= i < Pow2(b) && b < MaxDims
    ensures !GetBit(i, b)
  {
    Pow2Bounded(b);
    GetBitOfWord(i, b);
    DivUnique(i, Pow2(b), 0, i);
  }

  /** An index in [2^b, 2^(b+1)) has bit b set. */
  lemma BitOfHigh(i: int, b: nat)
    requires Pow2(b) <= i < Pow2(b + 1) && b < MaxDims
    ensures GetBit(i, b)
  {
    Pow2Step(b + 1);
    Pow2Bounded(b + 1);
    GetBitOfWord(i, b);
    DivUnique(i, Pow2(b), 1, i - Pow2(b));
  }

  /** For a nonnegative index below 2^32 and a bit below 32, getBit is the parity of i / 2^b. */
  lemma GetBitOfWord(i: int, b: nat)
    requires 0 <= i < IntModulus && b < 32
    ensures GetBit(i, b) == (i / Pow2(b) % 2 == 1)
  {
    ModSmall(i, IntModulus);
    ModSmall(b, 32);
  }

  /** A nonnegative number below the modulus is its own remainder. */
  lemma ModSmall(a: int, q: int)
    requires 0 <= a < q
    ensures a % q == a
  {
    DivUnique(a, q, 0, a);
  }

  lemma MulAdd(q: int, x: int, y: int)
    ensures q * (x + y) == q * x + q * y
  {
  }

  /** 2^b splits as 2^d * 2^(b-d) with an even second factor when d < b. */
  lemma Pow2Split(d: nat, b: nat)
    requires d < b
    ensures Pow2(b) == Pow2(d) * Pow2(b - d) && Pow2(b - d) % 2 == 0
  {
    PowerAdd(2, d, b - d);
    Pow2Step(b - d);
  }

  /** Adding 2^b to an index below 2^b leaves every lower bit unchanged. */
  lemma BitOfShifted(i: int, b: nat, d: nat)
    requires 0 <= i < Pow2(b) && d < b < MaxDims
    ensures GetBit(i + Pow2(b), d) == GetBit(i, d)
  {
    Pow2Step(b + 1);
    Pow2Bounded(b + 1);
    var q, m, j := Pow2(d), Pow2(b - d), i + Pow2(b);
    Pow2Split(d, b);
    assert j == i + q * m;
    ShiftParity(i, q, m);
    SameBit(i, j, d);
  }

  /** Two words whose quotients by 2^d have the same parity agree on bit d. */
  lemma SameBit(i: int, j: int, d: nat)
    requires 0 <= i < IntModulus && 0 <= j < IntModulus && d < 32
    requires j / Pow2(d) % 2 == i / Pow2(d) % 2
    ensures GetBit(j, d) == GetBit(i, d)
  {
    GetBitOfWord(i, d);
    GetBitOfWord(j, d);
  }

  /** Adding an even multiple of q keeps the parity of the quotient by q. */
  lemma ShiftParity(i: int, q: int, m: int)
    requires q > 0 && m % 2 == 0
    ensures (i + q * m) / q % 2 == i / q % 2
  {
    ShiftQuotient(i, q, m);
    AddEvenParity(i / q, m);
  }

  /** Adding m multiples of q to i adds m to its quotient by q. */
  lemma ShiftQuotient(i: int, q: int, m: int)
    requires q > 0
    ensures (i + q * m) / q == i / q + m
  {
    var z := i / q;
    assert i == q * z + i % q;
    MulAdd(q, z, m);
    DivUnique(i + q * m, q, z + m, i % q);
  }

  lemma AddEvenParity(z: int, m: int)
    requires m % 2 == 0
    ensures (z + m) % 2 == z % 2
  {
  }

  /** The last corner index 2^D - 1 has every bit below D set. */
  lemma BitOfAllOnes(e: nat, d: nat)
    requires d < e <= MaxDims
    ensures GetBit(Pow2(e) - 1, d)
  {
    Pow2Bounded(e);
    GetBitOfWord(Pow2(e) - 1, d);
    Pow2Split(d, e);
    AllOnesQuotient(Pow2(d), Pow2(e - d));
  }

  /** One less than a multiple q * m of q by an even m has an odd quotient by q. */
  lemma AllOnesQuotient(q: int, m: int)
    requires q > 0 && m % 2 == 0
    ensures (q * m - 1) / q % 2 == 1
  {
    MulSub(q, m, 1);
    DivUnique(q * m - 1, q, m - 1, q - 1);
    DivUnique(m - 1, 2, m / 2 - 1, 1);
  }
}
