/**
 * `get_color_int` and `get_color_tuple` of ImageGeneration/markov_data.py:
 * a colour packed into one integer, eight bits per channel, first channel
 * most significant, and unpacked again into four channels.
 */
module ColorCodec {
  import opened Powers

  /** `get_color_int`: for each channel in order, shift left by 8 bits and add the channel. */
  function ColorInt(rgba: seq<int>): int
  {
    if |rgba| == 0 then 0 else ColorInt(rgba[..|rgba| - 1]) * 256 + rgba[|rgba| - 1]
  }

  /** The last `k` channels of `num`, most significant first: `num % 256` is the last one. */
  function Unpack(num: int, k: nat): (r: seq<int>)
    ensures |r| == k
    ensures forall i :: 0 <= i < k ==> 0 <= r[i] < 256
    decreases k
  {
    if k == 0 then [] else Unpack(num / 256, k - 1) + [num % 256]
  }

  /** `get_color_tuple`: four channels, each `num % 256` before `num >>= 8`, filled from the last. */
  function ColorTuple(num: int): (r: seq<int>)
    ensures |r| == 4
    ensures forall i :: 0 <= i < 4 ==> 0 <= r[i] < 256
  {
    Unpack(num, 4)
  }

  ghost predicate ChannelsInRange(s: seq<int>)
  {
    forall i :: 0 <= i < |s| ==> 0 <= s[i] < 256
  }

  /** Packing `k` unpacked channels gives back `num` modulo 256^k (Python's `>>` and `%` floor, as Dafny's do for a positive divisor). */
  lemma {:induction false} ColorIntOfUnpack(num: int, k: nat)
    ensures ColorInt(Unpack(num, k)) == num % Pow256(k)
    decreases k
  {
    if k == 0 {
      assert num % 1 == 0;
    } else {
      var u := Unpack(num, k);
      assert u[..k - 1] == Unpack(num / 256, k - 1);
      ColorIntOfUnpack(num / 256, k - 1);
      ModStep(num, Pow256(k - 1));
    }
  }

  /** Unpacking a packed sequence of in-range channels gives the channels back. */
  lemma {:induction false} UnpackOfColorInt(s: seq<int>)
    requires ChannelsInRange(s)
    ensures Unpack(ColorInt(s), |s|) == s
  {
    if |s| > 0 {
      var init, last := s[..|s| - 1], s[|s| - 1];
      UnpackOfColorInt(init);
      DivModUnique(ColorInt(s), 256, ColorInt(init), last);
      assert s == init + [last];
    }
  }

  /** `get_color_tuple(get_color_int(c)) == c` for a four-channel colour with channels in [0, 255]. */
  lemma TupleOfInt(c: seq<int>)
    requires |c| == 4 && ChannelsInRange(c)
    ensures ColorTuple(ColorInt(c)) == c
  {
    UnpackOfColorInt(c);
  }

  /** `get_color_int(get_color_tuple(n)) == n` for 0 <= n < 2^32; in general the result is `n mod 2^32`. */
  lemma IntOfTuple(n: int)
    ensures ColorInt(ColorTuple(n)) == n % 0x1_0000_0000
    ensures 0 <= n < 0x1_0000_0000 ==> ColorInt(ColorTuple(n)) == n
  {
    ColorIntOfUnpack(n, 4);
    assert Pow256(4) == 0x1_0000_0000;
  }

  /** A packed colour with in-range channels fits in 32 bits. */
  lemma {:induction false} ColorIntRange(s: seq<int>)
    requires ChannelsInRange(s)
    ensures 0 <= ColorInt(s) < Pow256(|s|)
  {
    if |s| > 0 {
      ColorIntRange(s[..|s| - 1]);
    }
  }
}
