/** Powers of two and 256 and the division facts the byte codecs rely on. */
module Powers {

  function Pow2(k: nat): (r: int)
    ensures r >= 1
  {
    if k == 0 then 1 else 2 * Pow2(k - 1)
  }

  /** 256^k, the number of values `k` bytes can hold. */
  function Pow256(k: nat): (r: int)
    ensures r >= 1
  {
    if k == 0 then 1 else 256 * Pow256(k - 1)
  }

  lemma {:induction false} Pow256IsPow2(k: nat)
    ensures Pow256(k) == Pow2(8 * k)
  {
    if k > 0 {
      Pow256IsPow2(k - 1);
      assert Pow2(8 * k) == 256 * Pow2(8 * (k - 1)) by {
        var j := 8 * (k - 1);
        assert 8 * k == j + 8;
        assert Pow2(j + 8) == 2 * Pow2(j + 7) == 4 * Pow2(j + 6) == 8 * Pow2(j + 5) == 16 * Pow2(j + 4);
        assert Pow2(j + 4) == 2 * Pow2(j + 3) == 4 * Pow2(j + 2) == 8 * Pow2(j + 1) == 16 * Pow2(j);
      }
    }
  }

  /** Quotient and remainder are determined by `n == q * d + r` with `0 <= r < d`. */
  lemma DivModUnique(n: int, d: int, q: int, r: int)
    requires d > 0
    requires 0 <= r < d
    requires n == q * d + r
    ensures n / d == q && n % d == r
  {
    var q', r' := n / d, n % d;
    assert n == q' * d + r';
    var t := q - q';
    assert t * d == r' - r by {
      assert q * d - q' * d == (q - q') * d;
    }
    if t >= 1 {
      MulAtLeast(t, d);
    } else if t <= -1 {
      MulAtLeast(-t, d);
    }
  }

  lemma MulAtLeast(t: int, d: int)
    requires t >= 1 && d > 0
    ensures t * d >= d
  {
  }

  /** Taking the low digit off and reducing the rest modulo `M` is reducing modulo `M * 256`. */
  lemma ModStep(num: int, M: int)
    requires M >= 1
    ensures ((num / 256) % M) * 256 + num % 256 == num % (M * 256)
  {
    var q, r := num / 256, num % 256;
    var a, b := q / M, q % M;
    assert num == q * 256 + r;
    assert q == a * M + b;
    assert num == a * (M * 256) + (b * 256 + r) by {
      assert q * 256 == a * M * 256 + b * 256;
    }
    assert 0 <= b * 256 + r < M * 256 by {
      assert b <= M - 1;
      assert b * 256 <= (M - 1) * 256;
    }
    DivModUnique(num, M * 256, a, b * 256 + r);
  }
}
