/**
 Amounts of money in compact form: CompressAmount and DecompressAmount in src/core.cpp.

 Amounts tend to end in zeros; up to nine of them are taken off and counted.
 */
module Amount {
  import opened Arithmetic
  import opened Transactions

  function Pow10(k: nat): (r: nat)
    ensures r >= 1
  {
    if k == 0 then 1 else 10 * Pow10(k - 1)
  }

  /** How many decimal zeros `n` ends in, up to `k` of them. */
  function Zeros(n: nat, k: nat): (e: nat)
    ensures e <= k
  {
    if k > 0 && n % 10 == 0 then 1 + Zeros(n / 10, k - 1) else 0
  }

  /** `n` without those zeros. */
  function Rest(n: nat, k: nat): nat {
    if k > 0 && n % 10 == 0 then Rest(n / 10, k - 1) else n
  }

  /** The code of a number that is `m` with `e` zeros behind it. */
  function Code(m: nat, e: nat): nat
    requires m > 0
  {
    if e < 9 && m % 10 != 0 then 1 + (m / 10 * 9 + m % 10 - 1) * 10 + e else 1 + (m - 1) * 10 + 9
  }

  function Compressed(n: nat): nat {
    if n == 0 then 0 else
    RestPositive(n, 9);
    Code(Rest(n, 9), Zeros(n, 9))
  }

  /** The number without its zeros, and how many there are. */
  function Decoded(x: nat): (r: (nat, nat))
    requires x > 0
  {
    var e, q := (x - 1) % 10, (x - 1) / 10;
    (if e < 9 then q / 9 * 10 + q % 9 + 1 else q + 1, e)
  }

  function Decompressed(x: nat): nat {
    if x == 0 then 0 else Decoded(x).0 * Pow10(Decoded(x).1)
  }

  lemma {:induction false} RestPositive(n: nat, k: nat)
    requires n > 0
    ensures Rest(n, k) > 0 && n == Rest(n, k) * Pow10(Zeros(n, k))
    ensures Zeros(n, k) < k ==> Rest(n, k) % 10 != 0
  {
    if k > 0 && n % 10 == 0 {
      RestPositive(n / 10, k - 1);
      assert n == 10 * (n / 10);
      Regroup(Rest(n / 10, k - 1), Pow10(Zeros(n / 10, k - 1)));
    }
  }

  lemma Regroup(m: nat, p: nat)
    ensures 10 * (m * p) == m * (10 * p)
  {
  }

  lemma {:induction false} ZerosOf(m: nat, e: nat, k: nat)
    requires m > 0 && e <= k && (e < k ==> m % 10 != 0)
    ensures Zeros(m * Pow10(e), k) == e && Rest(m * Pow10(e), k) == m
  {
    if e > 0 {
      Regroup(m, Pow10(e - 1));
      ZerosOf(m, e - 1, k - 1);
    }
  }

  lemma CodeDecodes(m: nat, e: nat)
    requires m > 0 && e <= 9 && (e < 9 ==> m % 10 != 0)
    ensures Code(m, e) > 0 && Decoded(Code(m, e)) == (m, e)
  {
    if e < 9 {
      var q := m / 10 * 9 + m % 10 - 1;
      assert (Code(m, e) - 1) / 10 == q && (Code(m, e) - 1) % 10 == e;
      assert q / 9 == m / 10 && q % 9 == m % 10 - 1;
    }
  }

  lemma DecodedCodes(x: nat)
    requires x > 0
    ensures var (m, e) := Decoded(x);
      m > 0 && e <= 9 && (e < 9 ==> m % 10 != 0) && Code(m, e) == x
  {
    var e, q := (x - 1) % 10, (x - 1) / 10;
    if e < 9 {
      var m := q / 9 * 10 + q % 9 + 1;
      assert m / 10 == q / 9 && m % 10 == q % 9 + 1;
    }
  }

  /** Compression loses nothing, for any amount. */
  lemma DecompressCompress(n: nat)
    ensures Decompressed(Compressed(n)) == n
  {
    if n > 0 {
      RestPositive(n, 9);
      CodeDecodes(Rest(n, 9), Zeros(n, 9));
    }
  }

  /** The compact form of an amount that ends in a digit `d` that is not zero and `e` zeros, fewer than nine, with `n`
      in front; and of a multiple of 10^9. */
  lemma CompactForm(n: nat, d: nat, e: nat)
    ensures Compressed(0) == 0
    ensures 1 <= d <= 9 && e < 9 ==> Compressed((10 * n + d) * Pow10(e)) == 1 + 10 * (9 * n + d - 1) + e
    ensures n >= 1 ==> Compressed(n * 1_000_000_000) == 1 + 10 * (n - 1) + 9
  {
    hide Zeros, Rest, Pow10;
    if 1 <= d <= 9 && e < 9 {
      var m := 10 * n + d;
      assert m / 10 == n && m % 10 == d;
      ZerosOf(m, e, 9);
      ProductPositive(m, Pow10(e));
    }
    if n >= 1 {
      TenToTheNine();
      ZerosOf(n, 9, 9);
    }
  }

  lemma ProductPositive(m: nat, p: nat)
    requires m > 0 && p > 0
    ensures m * p > 0
  {
  }

  lemma TenToTheNine()
    ensures Pow10(9) == 1_000_000_000
  {
    assert Pow10(3) == 1000;
    assert Pow10(6) == 1_000_000;
  }

  /** Every number is the compact form of some amount, and of only one. */
  lemma CompressDecompress(x: nat)
    ensures Compressed(Decompressed(x)) == x
  {
    if x > 0 {
      DecodedCodes(x);
      var (m, e) := Decoded(x);
      ZerosOf(m, e, 9);
      assert m * Pow10(e) > 0;
    }
  }

  /** The compact form is never more than nine times the amount, so 64 bits hold it for all the money there is. */
  lemma CompressedBound(n: nat)
    ensures Compressed(n) <= 9 * n
    ensures n <= MAX_MONEY ==> Compressed(n) < TWO64
  {
    hide Rest, Zeros, Pow10, Code;
    if n > 0 {
      RestPositive(n, 9);
      var m, e := Rest(n, 9), Zeros(n, 9);
      ManyZeros(e);
      Scale(m, 1 + e, Pow10(e));
      Distribute(m, 1, e);
      Scale(e, 1, m);
      CodeBound(m, e);
    }
  }

  lemma CodeBound(m: nat, e: nat)
    requires m > 0 && e <= 9 && (e < 9 ==> m % 10 != 0)
    ensures Code(m, e) <= 9 * (m + m * e)
  {
    if e == 9 { assert m * e == 9 * m; } else { Scale(e, 1, m); }
  }

  lemma {:induction false} ManyZeros(e: nat)
    ensures 1 + e <= Pow10(e)
  {
    if e > 0 { ManyZeros(e - 1); }
  }

  lemma ByParts(n: nat)
    ensures Compressed(0) == 0
    ensures n > 0 ==> Rest(n, 9) > 0 && Compressed(n) == Code(Rest(n, 9), Zeros(n, 9))
    ensures n > 0 && Zeros(n, 9) < 9 ==> Rest(n, 9) % 10 != 0
  {
    if n > 0 { RestPositive(n, 9); }
  }

  method StripZeros(n0: nat) returns (n: nat, e: nat)
    requires n0 > 0
    ensures n == Rest(n0, 9) && e == Zeros(n0, 9)
  {
    n, e := n0, 0;
    while n % 10 == 0 && e < 9
      invariant 0 <= e <= 9 && n > 0
      invariant Rest(n0, 9) == Rest(n, 9 - e) && Zeros(n0, 9) == e + Zeros(n, 9 - e)
      decreases 9 - e
    {
      n := n / 10;
      e := e + 1;
    }
  }

  method CompressAmount(n0: nat) returns (r: nat)
    requires n0 < TWO64
    ensures r == Compressed(n0) % TWO64
    ensures n0 <= MAX_MONEY ==> r == Compressed(n0)
  {
    CompressedBound(n0);
    hide Compressed, Rest, Zeros;
    ByParts(n0);
    if n0 == 0 { return 0; }
    var n, e := StripZeros(n0);
    if e < 9 {
      var d := n % 10;
      assert 1 <= d <= 9;
      n := n / 10;
      return (1 + (n * 9 + d - 1) * 10 + e) % TWO64;
    } else {
      return (1 + (n - 1) * 10 + 9) % TWO64;
    }
  }

  lemma DecompressedParts(x: nat)
    ensures Decompressed(x) == if x == 0 then 0 else Decoded(x).0 * Pow10(Decoded(x).1)
  {
  }

  method DecompressAmount(x0: nat) returns (n: nat)
    requires x0 < TWO64
    ensures n == Decompressed(x0) % TWO64
    ensures Decompressed(x0) < TWO64 ==> n == Decompressed(x0)
  {
    hide Pow10, Decompressed;
    DecompressedParts(x0);
    if x0 == 0 { return 0; }
    var x := x0 - 1;
    var e := x % 10;
    x := x / 10;
    if e < 9 {
      var d := x % 9 + 1;
      x := x / 9;
      n := (x * 10 + d) % TWO64;
    } else {
      n := (x + 1) % TWO64;
    }
    n := AppendZeros(n, e, Decoded(x0).0);
  }

  method AppendZeros(n0: nat, e0: nat, ghost m: nat) returns (n: nat)
    requires n0 == m % TWO64
    ensures n == m * Pow10(e0) % TWO64
  {
    n := n0;
    var e := e0;
    ghost var k: nat := 0;
    while e != 0
      invariant 0 <= e && e + k == e0
      invariant n == m * Pow10(k) % TWO64
      decreases e
    {
      TimesTen(m, k);
      n := n * 10 % TWO64;
      e := e - 1;
      k := k + 1;
    }
  }

  lemma TimesTen(m: nat, k: nat)
    ensures m * Pow10(k) % TWO64 * 10 % TWO64 == m * Pow10(k + 1) % TWO64
  {
    ModLinear(m * Pow10(k), TWO64, 10, 0);
    Regroup(m, Pow10(k));
  }
}
