/**
 * Python's `dict`: a finite map that remembers the order in which keys were
 * first inserted. Iteration over a dict (and therefore every roulette-wheel
 * scan of the model) follows that order, so it is modelled as a sequence of
 * key/value pairs with distinct keys rather than as a Dafny `map`.
 */
module Dict {

  type Dict<K, V> = seq<(K, V)>

  /** Sum of a sequence of counts. */
  function SumSeq(s: seq<nat>): nat
  {
    if |s| == 0 then 0 else s[0] + SumSeq(s[1..])
  }

  lemma {:induction false} SumSeqAppend(s: seq<nat>, v: nat)
    ensures SumSeq(s + [v]) == SumSeq(s) + v
  {
    if |s| == 0 {
      assert s + [v] == [v];
      assert [v][1..] == [];
    } else {
      assert (s + [v])[1..] == s[1..] + [v];
      SumSeqAppend(s[1..], v);
    }
  }

  lemma {:induction false} SumSeqConcat(s: seq<nat>, t: seq<nat>)
    ensures SumSeq(s + t) == SumSeq(s) + SumSeq(t)
  {
    if |s| == 0 {
      assert s + t == t;
    } else {
      assert (s + t)[1..] == s[1..] + t;
      SumSeqConcat(s[1..], t);
    }
  }

  /** Replacing one count changes the sum by exactly the difference. */
  lemma {:induction false} SumSeqUpdate(s: seq<nat>, i: nat, v: nat)
    requires i < |s|
    ensures SumSeq(s[i := v]) + s[i] == SumSeq(s) + v
  {
    if i == 0 {
      assert s[i := v][1..] == s[1..];
    } else {
      assert s[i := v][1..] == s[1..][i - 1 := v];
      SumSeqUpdate(s[1..], i - 1, v);
    }
  }

  /** Prefix sums grow with the prefix, one element at a time. */
  lemma SumSeqPrefixStep(s: seq<nat>, i: nat)
    requires i < |s|
    ensures SumSeq(s[..i + 1]) == SumSeq(s[..i]) + s[i]
  {
    assert s[..i + 1] == s[..i] + [s[i]];
    SumSeqAppend(s[..i], s[i]);
  }

  lemma {:induction false} SumSeqPrefixMonotone(s: seq<nat>, i: nat, j: nat)
    requires i <= j <= |s|
    ensures SumSeq(s[..i]) <= SumSeq(s[..j])
    decreases j - i
  {
    if i < j {
      SumSeqPrefixStep(s, j - 1);
      SumSeqPrefixMonotone(s, i, j - 1);
    }
  }

  function Keys<K, V>(d: Dict<K, V>): seq<K>
  {
    seq(|d|, i requires 0 <= i < |d| => d[i].0)
  }

  function Values<K, V>(d: Dict<K, V>): seq<V>
  {
    seq(|d|, i requires 0 <= i < |d| => d[i].1)
  }

  /** The keys as a set. */
  function KeySet<K, V>(d: Dict<K, V>): set<K>
  {
    set i | 0 <= i < |d| :: d[i].0
  }

  /** No key occurs twice: the shape every Python dict has. */
  ghost predicate DistinctKeys<K, V>(d: Dict<K, V>)
  {
    forall i, j :: 0 <= i < j < |d| ==> d[i].0 != d[j].0
  }

  /** Position of the first entry with key `k`, or `|d|` when there is none. */
  function IndexOf<K(==), V>(d: Dict<K, V>, k: K): (r: nat)
    ensures r <= |d|
    ensures r < |d| ==> d[r].0 == k
    ensures forall j :: 0 <= j < r ==> d[j].0 != k
  {
    if |d| == 0 then 0
    else if d[0].0 == k then 0
    else 1 + IndexOf(d[1..], k)
  }

  /** Python's `k in d`. */
  predicate Contains<K(==), V>(d: Dict<K, V>, k: K)
  {
    IndexOf(d, k) < |d|
  }

  lemma ContainsIsKeyMembership<K, V>(d: Dict<K, V>, k: K)
    ensures Contains(d, k) <==> k in Keys(d)
  {
    if Contains(d, k) {
      assert Keys(d)[IndexOf(d, k)] == k;
    }
    if k in Keys(d) {
      var j :| 0 <= j < |d| && Keys(d)[j] == k;
      assert d[j].0 == k;
    }
  }

  /** In a dict with distinct keys, the entry at position `i` is found by its key. */
  lemma IndexOfDistinct<K, V>(d: Dict<K, V>, i: nat)
    requires DistinctKeys(d)
    requires i < |d|
    ensures IndexOf(d, d[i].0) == i
  {
  }

  /** Python's `d[k]` on a present key. */
  function Get<K(==), V>(d: Dict<K, V>, k: K): V
    requires Contains(d, k)
  {
    d[IndexOf(d, k)].1
  }

  /** Python's `d.get(k, default)`. */
  function GetOr<K(==), V>(d: Dict<K, V>, k: K, default: V): V
  {
    if Contains(d, k) then Get(d, k) else default
  }

  /**
   * Python's `d[k] = v`: an existing key keeps its position and gets the new
   * value; a new key is appended at the end of the iteration order.
   */
  function Put<K(==,!new), V>(d: Dict<K, V>, k: K, v: V): (r: Dict<K, V>)
    ensures Contains(d, k) ==> |r| == |d| && Keys(r) == Keys(d)
    ensures Contains(d, k) ==> r[IndexOf(d, k)] == (k, v)
    ensures Contains(d, k) ==> forall j :: 0 <= j < |d| && j != IndexOf(d, k) ==> r[j] == d[j]
    ensures !Contains(d, k) ==> r == d + [(k, v)]
    ensures Contains(r, k) && Get(r, k) == v
    ensures forall k' :: k' != k ==> (Contains(r, k') <==> Contains(d, k'))
    ensures forall k' :: k' != k && Contains(d, k') ==> Get(r, k') == Get(d, k')
    ensures DistinctKeys(d) ==> DistinctKeys(r)
  {
    var i := IndexOf(d, k);
    if i < |d| then
      var r := d[i := (k, v)];
      assert Keys(r) == Keys(d);
      assert forall k' :: k' != k ==> IndexOf(r, k') == IndexOf(d, k') by {
        forall k' | k' != k ensures IndexOf(r, k') == IndexOf(d, k') {
          IndexOfUpdate(d, i, v, k');
        }
      }
      r
    else
      var r := d + [(k, v)];
      assert r[|d|].0 == k;
      assert forall k' :: k' != k ==> IndexOf(r, k') == IndexOf(d, k') + (if Contains(d, k') then 0 else 1) by {
        forall k' | k' != k ensures IndexOf(r, k') == IndexOf(d, k') + (if Contains(d, k') then 0 else 1) {
          IndexOfAppend(d, k, v, k');
        }
      }
      r
  }

  lemma {:induction false} IndexOfUpdate<K, V>(d: Dict<K, V>, i: nat, v: V, k': K)
    requires i < |d|
    requires k' != d[i].0
    ensures IndexOf(d[i := (d[i].0, v)], k') == IndexOf(d, k')
  {
    if |d| > 0 && d[0].0 != k' && i > 0 {
      assert d[i := (d[i].0, v)][1..] == d[1..][i - 1 := (d[i].0, v)];
      IndexOfUpdate(d[1..], i - 1, v, k');
    }
  }

  lemma {:induction false} IndexOfAppend<K, V>(d: Dict<K, V>, k: K, v: V, k': K)
    requires k' != k
    ensures IndexOf(d + [(k, v)], k') == IndexOf(d, k') + (if Contains(d, k') then 0 else 1)
  {
    if |d| > 0 && d[0].0 != k' {
      assert (d + [(k, v)])[1..] == d[1..] + [(k, v)];
      IndexOfAppend(d[1..], k, v, k');
    }
  }

  /** Sum of the values of a count dict: Python's `sum(d.values())`. */
  function Total<K>(d: Dict<K, nat>): nat
  {
    SumSeq(Values(d))
  }

  /** Storing `v` under `k` moves the total by `v` minus the value it replaced. */
  lemma PutTotal<K(!new)>(d: Dict<K, nat>, k: K, v: nat)
    ensures Total(Put(d, k, v)) + GetOr(d, k, 0) == Total(d) + v
  {
    var i := IndexOf(d, k);
    if i < |d| {
      assert Values(Put(d, k, v)) == Values(d)[i := v];
      SumSeqUpdate(Values(d), i, v);
    } else {
      assert Values(Put(d, k, v)) == Values(d) + [v];
      SumSeqAppend(Values(d), v);
    }
  }
}
