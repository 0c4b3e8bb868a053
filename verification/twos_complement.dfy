/**
 * `twoscompbytes` (AudioGeneration/audiowave.py, and a copy with the same
 * statements in AudioGeneration/Wave.py): a signed sample as `numbytes`
 * little-endian two's-complement bytes, built from Python's unbounded `^`
 * and `int.to_bytes`.
 */
module TwosComplement {
  import opened Wrappers
  import opened Powers

  type Byte = b: int | 0 <= b < 256

  /** `to_bytes` raises OverflowError when the value does not fit, ValueError or TypeError on a negative length. */
  datatype EncodeError = Overflow | NegativeLength

  /** Python's `^` on non-negative integers, bit by bit from the least significant. */
  function Xor(a: nat, b: nat): nat
    decreases a + b
  {
    if a == 0 && b == 0 then 0 else 2 * Xor(a / 2, b / 2) + (a % 2 + b % 2) % 2
  }

  lemma {:induction false} XorZero(a: nat)
    ensures Xor(a, 0) == a
    decreases a
  {
    if a > 0 {
      XorZero(a / 2);
    }
  }

  /**
   * Flipping the low `k` bits: below 2^k it is `2^k - 1 - a`; at or above
   * 2^k the high bits survive and the result stays at or above 2^k.
   */
  lemma {:induction false} XorMask(a: nat, k: nat)
    ensures a < Pow2(k) ==> Xor(a, Pow2(k) - 1) == Pow2(k) - 1 - a
    ensures a >= Pow2(k) ==> Xor(a, Pow2(k) - 1) >= Pow2(k)
  {
    if k == 0 {
      XorZero(a);
    } else {
      var m' := Pow2(k - 1) - 1;
      assert Pow2(k) - 1 == 2 * m' + 1;
      XorMask(a / 2, k - 1);
      assert Xor(a, Pow2(k) - 1) == 2 * Xor(a / 2, m') + (a % 2 + 1) % 2;
    }
  }

  /** `v % 256` first: the `n` little-endian base-256 digits of `v`. */
  function LittleDigits(v: nat, n: nat): (r: seq<Byte>)
    ensures |r| == n
  {
    if n == 0 then [] else [v % 256] + LittleDigits(v / 256, n - 1)
  }

  /** Reading little-endian bytes back: `int.from_bytes(bs, 'little')`. */
  function FromLittle(bs: seq<Byte>): nat
  {
    if |bs| == 0 then 0 else bs[0] + 256 * FromLittle(bs[1..])
  }

  lemma {:induction false} FromLittleDigits(v: nat, n: nat)
    requires v < Pow256(n)
    ensures FromLittle(LittleDigits(v, n)) == v
  {
    if n > 0 {
      assert v / 256 < Pow256(n - 1);
      FromLittleDigits(v / 256, n - 1);
      assert LittleDigits(v, n)[1..] == LittleDigits(v / 256, n - 1);
    }
  }

  /** `v.to_bytes(n, 'little')` on a non-negative `v` or a negative one. */
  function ToBytesLittle(v: int, n: int): (r: Result<seq<Byte>, EncodeError>)
    ensures r.Success? <==> 0 <= n && 0 <= v < Pow256(n)
    ensures r.Success? ==> |r.value| == n && FromLittle(r.value) == v
    ensures n < 0 ==> r == Failure(NegativeLength)
  {
    if n < 0 then Failure(NegativeLength)
    else if v < 0 || v >= Pow256(n) then Failure(Overflow)
    else
      FromLittleDigits(v, n);
      Success(LittleDigits(v, n))
  }

  /**
   * `twoscompbytes`: exactly `numbytes` bytes holding `x` modulo 256^numbytes,
   * least significant first; it succeeds exactly for
   * -256^numbytes <= x < 256^numbytes.
   */
  function TwosCompBytes(x: int, numbytes: int): (r: Result<seq<Byte>, EncodeError>)
    ensures r.Success? <==> 0 <= numbytes && -Pow256(numbytes) <= x < Pow256(numbytes)
    ensures r.Success? ==> |r.value| == numbytes
    ensures r.Success? ==> FromLittle(r.value) == x % Pow256(numbytes)
    ensures numbytes < 0 ==> r == Failure(NegativeLength)
    ensures 0 <= numbytes && !(-Pow256(numbytes) <= x < Pow256(numbytes)) ==> r == Failure(Overflow)
  {
    if x < 0 then
      if numbytes < 0 then Failure(NegativeLength)
      else
        var complementbits := Pow2(8 * numbytes) - 1;
        var flipped := Xor(-x - 1, complementbits);
        XorMask(-x - 1, 8 * numbytes);
        Pow256IsPow2(numbytes);
        assert -x - 1 < Pow256(numbytes) ==> flipped == Pow256(numbytes) + x;
        assert x >= -Pow256(numbytes) ==> x % Pow256(numbytes) == Pow256(numbytes) + x by {
          if x >= -Pow256(numbytes) {
            DivModUnique(x, Pow256(numbytes), -1, Pow256(numbytes) + x);
          }
        }
        ToBytesLittle(flipped, numbytes)
    else
      assert 0 <= numbytes && x < Pow256(numbytes) ==> x % Pow256(numbytes) == x by {
        if 0 <= numbytes && x < Pow256(numbytes) {
          DivModUnique(x, Pow256(numbytes), 0, x);
        }
      }
      ToBytesLittle(x, numbytes)
  }

  /** The little-endian digits of a value in [0, 256^n) are exactly what `to_bytes` writes for it. */
  lemma EncodeNonNegative(x: int, n: nat)
    requires 0 <= x < Pow256(n)
    ensures TwosCompBytes(x, n) == Success(LittleDigits(x, n))
  {
  }

  /** x and x - 256^n encode identically. */
  lemma EncodeWraps(x: int, n: nat)
    requires 0 <= x < Pow256(n)
    ensures TwosCompBytes(x - Pow256(n), n) == TwosCompBytes(x, n)
  {
    var y := x - Pow256(n);
    XorMask(-y - 1, 8 * n);
    Pow256IsPow2(n);
  }

  /** Reading bytes back as a signed number: the top half of the range is negative. */
  function SignedValue(bs: seq<Byte>): int
  {
    var v := FromLittle(bs);
    if 2 * v >= Pow256(|bs|) then v - Pow256(|bs|) else v
  }

  /** Every sample in the signed range [-2^(8n-1), 2^(8n-1)) is read back unchanged. */
  lemma SignedRoundTrip(x: int, n: nat)
    requires -Pow256(n) <= 2 * x < Pow256(n)
    ensures TwosCompBytes(x, n).Success?
    ensures SignedValue(TwosCompBytes(x, n).value) == x
  {
    var p := Pow256(n);
    var bs := TwosCompBytes(x, n).value;
    if x < 0 {
      DivModUnique(x, p, -1, p + x);
    } else {
      DivModUnique(x, p, 0, x);
    }
  }

  /** On the signed range the encoding is injective. */
  lemma EncodeInjective(x: int, y: int, n: nat)
    requires -Pow256(n) <= 2 * x < Pow256(n)
    requires -Pow256(n) <= 2 * y < Pow256(n)
    requires TwosCompBytes(x, n) == TwosCompBytes(y, n)
    ensures x == y
  {
    SignedRoundTrip(x, n);
    SignedRoundTrip(y, n);
  }
}
