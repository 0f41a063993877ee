/**
 * Ordered maps in the manner of PHP arrays: a sequence of key/value pairs
 * kept in insertion order. Assigning to an existing key replaces its value
 * where it stands; assigning to a new key appends; `unset` drops the key.
 */
module OrderedMap {

  /** Array keys. PHP's int/string key coercion is not modelled: every key is a string. */
  type Key = string

  /** The keys of `m`, in iteration order. */
  function Keys<V>(m: seq<(Key, V)>): seq<Key>
  {
    seq(|m|, i requires 0 <= i < |m| => m[i].0)
  }

  /** `array_key_exists(k, m)`. */
  predicate HasKey<V>(m: seq<(Key, V)>, k: Key)
  {
    k in Keys(m)
  }

  /** The set of keys of `m`. */
  function KeySet<V>(m: seq<(Key, V)>): set<Key>
  {
    set i | 0 <= i < |m| :: m[i].0
  }

  /** No key occurs twice; every PHP array has this property. */
  predicate UniqueKeys<V>(m: seq<(Key, V)>)
  {
    forall i, j :: 0 <= i < j < |m| ==> m[i].0 != m[j].0
  }

  lemma KeySetHasKey<V>(m: seq<(Key, V)>, k: Key)
    ensures k in KeySet(m) <==> HasKey(m, k)
  {
    if k in KeySet(m) {
      var i :| 0 <= i < |m| && m[i].0 == k;
      assert Keys(m)[i] == k;
    }
  }

  /** `m[k]`: the value stored under the first occurrence of `k`. */
  function Get<V>(m: seq<(Key, V)>, k: Key): V
    requires HasKey(m, k)
  {
    if m[0].0 == k then m[0].1
    else
      assert Keys(m) == [m[0].0] + Keys(m[1..]);
      Get(m[1..], k)
  }

  /** In a map without repeated keys, `Get` finds the one pair holding the key. */
  lemma {:induction false} GetAt<V>(m: seq<(Key, V)>, i: nat)
    requires UniqueKeys(m) && i < |m|
    ensures HasKey(m, m[i].0) && Get(m, m[i].0) == m[i].1
  {
    assert Keys(m)[i] == m[i].0;
    if i > 0 {
      assert Keys(m) == [m[0].0] + Keys(m[1..]);
      GetAt(m[1..], i - 1);
    }
  }

  /** `m[k] = v`: replace the value in place when `k` is present, append otherwise. */
  function Put<V>(m: seq<(Key, V)>, k: Key, v: V): (r: seq<(Key, V)>)
    ensures HasKey(m, k) ==> Keys(r) == Keys(m)
    ensures !HasKey(m, k) ==> r == m + [(k, v)]
    ensures HasKey(r, k) && Get(r, k) == v
    ensures forall i :: 0 <= i < |m| && m[i].0 != k ==> r[i] == m[i]
  {
    if m == [] then
      assert Keys([(k, v)]) == [k];
      [(k, v)]
    else if m[0].0 == k then
      assert Keys(m)[0] == k;
      assert Keys([(k, v)] + m[1..]) == Keys(m);
      [(k, v)] + m[1..]
    else
      var rest := Put(m[1..], k, v);
      assert Keys(m) == [m[0].0] + Keys(m[1..]);
      assert Keys([m[0]] + rest) == [m[0].0] + Keys(rest);
      [m[0]] + rest
  }

  lemma {:induction false} PutKeepsUnique<V>(m: seq<(Key, V)>, k: Key, v: V)
    requires UniqueKeys(m)
    ensures UniqueKeys(Put(m, k, v))
  {
    var r := Put(m, k, v);
    if HasKey(m, k) {
      forall i, j | 0 <= i < j < |r| ensures r[i].0 != r[j].0 {
        assert Keys(r)[i] == Keys(m)[i] && Keys(r)[j] == Keys(m)[j];
      }
    } else {
      forall i | 0 <= i < |m| ensures m[i].0 != k {
        assert Keys(m)[i] == m[i].0;
      }
    }
  }

  /**
   * `r` is `m` with some pairs deleted: every pair of `r` comes from `m`, and
   * the pairs of `r` stand in the same order as in `m`.
   */
  ghost predicate IsSubsequence<V>(r: seq<(Key, V)>, m: seq<(Key, V)>)
    decreases |m|
  {
    if r == [] then true
    else if m == [] then false
    else (r[0] == m[0] && IsSubsequence(r[1..], m[1..])) || IsSubsequence(r, m[1..])
  }

  /** A pair kept in a subsequence comes from `m`. */
  lemma {:induction false} SubsequenceMember<V>(r: seq<(Key, V)>, m: seq<(Key, V)>, i: nat)
    requires IsSubsequence(r, m) && i < |r|
    ensures exists p :: 0 <= p < |m| && r[i] == m[p]
    decreases |m|
  {
    if r[0] == m[0] && IsSubsequence(r[1..], m[1..]) {
      if i == 0 {
        assert r[0] == m[0];
      } else {
        SubsequenceMember(r[1..], m[1..], i - 1);
        var p :| 0 <= p < |m[1..]| && r[1..][i - 1] == m[1..][p];
        assert r[i] == m[p + 1];
      }
    } else {
      SubsequenceMember(r, m[1..], i);
      var p :| 0 <= p < |m[1..]| && r[i] == m[1..][p];
      assert r[i] == m[p + 1];
    }
  }

  /** Any two pairs of a subsequence stand in `m` in the same order. */
  lemma {:induction false} SubsequenceKeepsOrder<V>(r: seq<(Key, V)>, m: seq<(Key, V)>, i: nat, j: nat)
    requires IsSubsequence(r, m) && i < j < |r|
    ensures exists p, q :: 0 <= p < q < |m| && r[i] == m[p] && r[j] == m[q]
    decreases |m|
  {
    if r[0] == m[0] && IsSubsequence(r[1..], m[1..]) {
      if i == 0 {
        SubsequenceMember(r[1..], m[1..], j - 1);
        var q :| 0 <= q < |m[1..]| && r[1..][j - 1] == m[1..][q];
        assert r[i] == m[0] && r[j] == m[q + 1];
      } else {
        SubsequenceKeepsOrder(r[1..], m[1..], i - 1, j - 1);
        var p, q :| 0 <= p < q < |m[1..]| && r[1..][i - 1] == m[1..][p] && r[1..][j - 1] == m[1..][q];
        assert r[i] == m[p + 1] && r[j] == m[q + 1];
      }
    } else {
      SubsequenceKeepsOrder(r, m[1..], i, j);
      var p, q :| 0 <= p < q < |m[1..]| && r[i] == m[1..][p] && r[j] == m[1..][q];
      assert r[i] == m[p + 1] && r[j] == m[q + 1];
    }
  }

  /** `unset(m[k])`: drop every pair under `k`, keeping the other pairs, their values and their order. */
  function Remove<V>(m: seq<(Key, V)>, k: Key): (r: seq<(Key, V)>)
    ensures !HasKey(m, k) ==> r == m
    ensures forall k' :: HasKey(r, k') <==> HasKey(m, k') && k' != k
    ensures forall k' :: HasKey(r, k') ==> Get(r, k') == Get(m, k')
    ensures IsSubsequence(r, m)
  {
    if m == [] then []
    else
      var rest := Remove(m[1..], k);
      assert Keys(m) == [m[0].0] + Keys(m[1..]);
      if m[0].0 == k then rest
      else
        assert Keys([m[0]] + rest) == [m[0].0] + Keys(rest);
        assert forall k' :: HasKey([m[0]] + rest, k') <==> k' == m[0].0 || HasKey(rest, k');
        assert ([m[0]] + rest)[1..] == rest;
        [m[0]] + rest
  }

  /** The pairs of `m` whose key is not in `ks`, with their values, in their original order. */
  function RemoveKeys<V>(m: seq<(Key, V)>, ks: set<Key>): (r: seq<(Key, V)>)
    ensures |r| <= |m|
    ensures forall k :: HasKey(r, k) <==> HasKey(m, k) && k !in ks
    ensures forall k :: HasKey(r, k) ==> Get(r, k) == Get(m, k)
    ensures IsSubsequence(r, m)
  {
    if m == [] then []
    else
      var rest := RemoveKeys(m[1..], ks);
      assert Keys(m) == [m[0].0] + Keys(m[1..]);
      if m[0].0 in ks then rest
      else
        assert Keys([m[0]] + rest) == [m[0].0] + Keys(rest);
        assert forall k :: HasKey([m[0]] + rest, k) <==> k == m[0].0 || HasKey(rest, k);
        assert ([m[0]] + rest)[1..] == rest;
        [m[0]] + rest
  }

  lemma {:induction false} RemoveNoKeys<V>(m: seq<(Key, V)>)
    ensures RemoveKeys(m, {}) == m
  {
    if m != [] {
      RemoveNoKeys(m[1..]);
    }
  }

  /** Removing the keys one at a time, as a loop of `unset` does, removes the set. */
  lemma {:induction false} RemoveKeysOneMore<V>(m: seq<(Key, V)>, ks: set<Key>, k: Key)
    ensures RemoveKeys(m, ks + {k}) == Remove(RemoveKeys(m, ks), k)
  {
    if m != [] {
      RemoveKeysOneMore(m[1..], ks, k);
    }
  }

  /** The keys of a concatenation are those of either part. */
  lemma HasKeyConcat<V>(a: seq<(Key, V)>, b: seq<(Key, V)>, k: Key)
    ensures HasKey(a + b, k) <==> HasKey(a, k) || HasKey(b, k)
  {
    assert Keys(a + b) == Keys(a) + Keys(b);
  }

  /** Looking up a key of the first part of a concatenation finds it there. */
  lemma {:induction false} GetConcat<V>(a: seq<(Key, V)>, b: seq<(Key, V)>, k: Key)
    requires HasKey(a, k)
    ensures HasKey(a + b, k) && Get(a + b, k) == Get(a, k)
  {
    HasKeyConcat(a, b, k);
    if a[0].0 != k {
      assert Keys(a) == [a[0].0] + Keys(a[1..]);
      assert (a + b)[1..] == a[1..] + b;
      GetConcat(a[1..], b, k);
    }
  }

  /** Looking up a key that only the second part of a concatenation holds finds it there. */
  lemma {:induction false} GetConcatRight<V>(a: seq<(Key, V)>, b: seq<(Key, V)>, k: Key)
    requires !HasKey(a, k) && HasKey(b, k)
    ensures HasKey(a + b, k) && Get(a + b, k) == Get(b, k)
  {
    HasKeyConcat(a, b, k);
    if a != [] {
      assert Keys(a) == [a[0].0] + Keys(a[1..]);
      assert (a + b)[0] == a[0] && (a + b)[1..] == a[1..] + b;
      assert a[0].0 != k;
      GetConcatRight(a[1..], b, k);
      assert Get(a + b, k) == Get(a[1..] + b, k);
    } else {
      assert a + b == b;
    }
  }
}
