/** Python dictionaries as ordered association lists. Iteration follows
    insertion order; assigning to a key that is already present changes its
    value and keeps its position, as `d[k] = v` does in Python. */
module Dicts {
  import opened Wrappers

  type Dict<K, V> = seq<(K, V)>

  function Keys<K, V>(d: Dict<K, V>): (ks: seq<K>)
  {
    seq(|d|, i requires 0 <= i < |d| => d[i].0)
  }

  predicate HasKey<K(==), V>(d: Dict<K, V>, k: K)
  {
    k in Keys(d)
  }

  ghost predicate DistinctKeys<K, V>(d: Dict<K, V>)
  {
    forall i, j :: 0 <= i < j < |d| ==> d[i].0 != d[j].0
  }

  /** `d.get(k)`: the value stored under the first entry for `k`. */
  function Get<K(==), V>(d: Dict<K, V>, k: K): (r: Option<V>)
    ensures r.Some? <==> HasKey(d, k)
    ensures r.Some? ==> exists i :: 0 <= i < |d| && d[i] == (k, r.value) && forall j :: 0 <= j < i ==> d[j].0 != k
    decreases |d|
  {
    if d == [] then None
    else
      assert Keys(d) == [d[0].0] + Keys(d[1..]);
      if d[0].0 == k then
        assert d[0] == (k, d[0].1);
        Some(d[0].1)
      else
        var r := Get(d[1..], k);
        FirstShift(d, k, r);
        r
  }

  /** A first entry for `k` in the tail of `d` is a first entry in `d` when
      the head has another key. */
  lemma FirstShift<K, V>(d: Dict<K, V>, k: K, r: Option<V>)
    requires d != [] && d[0].0 != k
    requires r.Some? ==> exists i :: 0 <= i < |d| - 1 && d[1..][i] == (k, r.value) && forall j :: 0 <= j < i ==> d[1..][j].0 != k
    ensures r.Some? ==> exists i :: 0 <= i < |d| && d[i] == (k, r.value) && forall j :: 0 <= j < i ==> d[j].0 != k
  {
    if r.Some? {
      var i :| 0 <= i < |d| - 1 && d[1..][i] == (k, r.value) && forall j :: 0 <= j < i ==> d[1..][j].0 != k;
      assert d[i + 1] == (k, r.value);
      forall j | 0 <= j < i + 1 ensures d[j].0 != k {
        if j > 0 { assert d[j] == d[1..][j - 1]; }
      }
    }
  }

  /** `d[k] = v`. */
  function Put<K(==), V>(d: Dict<K, V>, k: K, v: V): (r: Dict<K, V>)
    decreases |d|
  {
    if d == [] then [(k, v)]
    else if d[0].0 == k then [(k, v)] + d[1..]
    else [d[0]] + Put(d[1..], k, v)
  }

  /** Assigning every pair of `ps` in turn, as `dict(ps)` and `d.update(ps)` do. */
  function PutAll<K(==), V>(d: Dict<K, V>, ps: seq<(K, V)>): Dict<K, V>
    decreases |ps|
  {
    if ps == [] then d else PutAll(Put(d, ps[0].0, ps[0].1), ps[1..])
  }

  function FromPairs<K(==), V>(ps: seq<(K, V)>): Dict<K, V>
  {
    PutAll([], ps)
  }

  /** `d[k] = v` keeps the order of the existing keys and appends a new key
      at the end; it reads back `v` under `k` and leaves every other key as it was. */
  lemma PutSpec<K, V>(d: Dict<K, V>, k: K, v: V)
    ensures Keys(Put(d, k, v)) == if HasKey(d, k) then Keys(d) else Keys(d) + [k]
    ensures Get(Put(d, k, v), k) == Some(v)
    ensures forall k' :: k' != k ==> Get(Put(d, k, v), k') == Get(d, k')
  {
    PutKeys(d, k, v);
    PutGetSame(d, k, v);
    forall k' | k' != k
      ensures Get(Put(d, k, v), k') == Get(d, k')
    {
      PutGetOther(d, k, v, k');
    }
  }

  lemma KeysCons<K, V>(d: Dict<K, V>)
    requires d != []
    ensures Keys(d) == [d[0].0] + Keys(d[1..])
  {
  }

  lemma {:induction false} PutKeys<K, V>(d: Dict<K, V>, k: K, v: V)
    ensures Keys(Put(d, k, v)) == if HasKey(d, k) then Keys(d) else Keys(d) + [k]
    decreases |d|
  {
    if d != [] {
      KeysCons(d);
      KeysCons(Put(d, k, v));
      if d[0].0 != k {
        PutKeys(d[1..], k, v);
        assert Put(d, k, v)[1..] == Put(d[1..], k, v);
      } else {
        assert Put(d, k, v)[1..] == d[1..];
      }
    }
  }

  lemma {:induction false} PutGetSame<K, V>(d: Dict<K, V>, k: K, v: V)
    ensures Get(Put(d, k, v), k) == Some(v)
    decreases |d|
  {
    if d != [] && d[0].0 != k {
      PutGetSame(d[1..], k, v);
      assert Put(d, k, v)[1..] == Put(d[1..], k, v);
    }
  }

  lemma {:induction false} PutGetOther<K, V>(d: Dict<K, V>, k: K, v: V, k': K)
    requires k' != k
    ensures Get(Put(d, k, v), k') == Get(d, k')
    decreases |d|
  {
    if d != [] && d[0].0 != k {
      PutGetOther(d[1..], k, v, k');
      assert Put(d, k, v)[1..] == Put(d[1..], k, v);
    } else if d != [] {
      assert Put(d, k, v)[1..] == d[1..];
    }
  }

  lemma {:induction false} PutKeepsDistinct<K, V>(d: Dict<K, V>, k: K, v: V)
    requires DistinctKeys(d)
    ensures DistinctKeys(Put(d, k, v))
    decreases |d|
  {
    var r := Put(d, k, v);
    if d != [] && d[0].0 != k {
      var t := Put(d[1..], k, v);
      assert r == [d[0]] + t;
      DistinctTail(d);
      PutKeepsDistinct(d[1..], k, v);
      PutKeys(d[1..], k, v);
      assert d[0].0 !in Keys(t);
      DistinctCons(d[0], t);
    } else if d != [] {
      forall i, j | 0 <= i < j < |r| ensures r[i].0 != r[j].0 {
        assert r[j] == d[j];
        if i > 0 {
          assert r[i] == d[i];
        }
      }
    }
  }

  lemma DistinctTail<K, V>(d: Dict<K, V>)
    requires d != [] && DistinctKeys(d)
    ensures DistinctKeys(d[1..]) && d[0].0 !in Keys(d[1..])
  {
    forall i, j | 0 <= i < j < |d| - 1 ensures d[1..][i].0 != d[1..][j].0 {
      assert d[1..][i] == d[i + 1] && d[1..][j] == d[j + 1];
    }
    forall j | 0 <= j < |d| - 1 ensures Keys(d[1..])[j] != d[0].0 {
      assert Keys(d[1..])[j] == d[j + 1].0;
    }
  }

  lemma DistinctCons<K, V>(h: (K, V), t: Dict<K, V>)
    requires DistinctKeys(t) && h.0 !in Keys(t)
    ensures DistinctKeys([h] + t)
  {
    var r := [h] + t;
    forall i, j | 0 <= i < j < |r| ensures r[i].0 != r[j].0 {
      assert r[j] == t[j - 1];
      if i == 0 {
        assert Keys(t)[j - 1] == t[j - 1].0;
      } else {
        assert r[i] == t[i - 1];
      }
    }
  }

  /** A dictionary built from pairs never repeats a key. */
  lemma {:induction false} PutAllDistinct<K, V>(d: Dict<K, V>, ps: seq<(K, V)>)
    requires DistinctKeys(d)
    ensures DistinctKeys(PutAll(d, ps))
    decreases |ps|
  {
    if ps != [] {
      PutKeepsDistinct(d, ps[0].0, ps[0].1);
      PutAllDistinct(Put(d, ps[0].0, ps[0].1), ps[1..]);
    }
  }

  /** Its keys are exactly the keys already there and the keys of the pairs. */
  lemma {:induction false} PutAllHasKey<K, V>(d: Dict<K, V>, ps: seq<(K, V)>, k: K)
    ensures HasKey(PutAll(d, ps), k) <==> HasKey(d, k) || exists i :: 0 <= i < |ps| && ps[i].0 == k
    decreases |ps|
  {
    if ps != [] {
      PutSpec(d, ps[0].0, ps[0].1);
      PutAllHasKey(Put(d, ps[0].0, ps[0].1), ps[1..], k);
      if exists i :: 0 <= i < |ps| && ps[i].0 == k {
        var i :| 0 <= i < |ps| && ps[i].0 == k;
        if i > 0 {
          assert ps[1..][i - 1].0 == k;
        }
      }
      if exists i :: 0 <= i < |ps[1..]| && ps[1..][i].0 == k {
        var i :| 0 <= i < |ps[1..]| && ps[1..][i].0 == k;
        assert ps[i + 1].0 == k;
      }
    }
  }

  /** A key that no pair mentions keeps its old value. */
  lemma {:induction false} PutAllGetUntouched<K, V>(d: Dict<K, V>, ps: seq<(K, V)>, k: K)
    requires forall i :: 0 <= i < |ps| ==> ps[i].0 != k
    ensures Get(PutAll(d, ps), k) == Get(d, k)
    decreases |ps|
  {
    if ps != [] {
      PutSpec(d, ps[0].0, ps[0].1);
      PutAllGetUntouched(Put(d, ps[0].0, ps[0].1), ps[1..], k);
    }
  }

  /** The last pair for a key wins. */
  lemma {:induction false} PutAllGetLast<K, V>(d: Dict<K, V>, ps: seq<(K, V)>, i: nat)
    requires i < |ps|
    requires forall j :: i < j < |ps| ==> ps[j].0 != ps[i].0
    ensures Get(PutAll(d, ps), ps[i].0) == Some(ps[i].1)
    decreases |ps|
  {
    var d' := Put(d, ps[0].0, ps[0].1);
    assert PutAll(d, ps) == PutAll(d', ps[1..]);
    if i == 0 {
      PutGetSame(d, ps[0].0, ps[0].1);
      assert forall j :: 0 <= j < |ps[1..]| ==> ps[1..][j].0 != ps[0].0 by {
        forall j | 0 <= j < |ps[1..]| ensures ps[1..][j].0 != ps[0].0 {
          assert ps[1..][j] == ps[j + 1];
        }
      }
      PutAllGetUntouched(d', ps[1..], ps[0].0);
    } else {
      assert ps[1..][i - 1] == ps[i];
      assert forall j :: i - 1 < j < |ps[1..]| ==> ps[1..][j].0 != ps[1..][i - 1].0 by {
        forall j | i - 1 < j < |ps[1..]| ensures ps[1..][j].0 != ps[1..][i - 1].0 {
          assert ps[1..][j] == ps[j + 1];
        }
      }
      PutAllGetLast(d', ps[1..], i - 1);
    }
  }

  /** Copying a dictionary entry by entry gives the same dictionary. */
  lemma {:induction false} PutAllCopy<K, V>(d: Dict<K, V>)
    requires DistinctKeys(d)
    ensures PutAll([], d) == d
  {
    PutAllPrefix(d, 0);
    assert d[..0] == [] && d[0..] == d;
  }

  lemma {:induction false} PutAllPrefix<K, V>(d: Dict<K, V>, n: nat)
    requires DistinctKeys(d) && n <= |d|
    ensures PutAll(d[..n], d[n..]) == d
    decreases |d| - n
  {
    if n < |d| {
      PutAppendFresh(d[..n], d[n].0, d[n].1);
      assert d[..n] + [d[n]] == d[..n + 1];
      assert d[n..][1..] == d[n + 1..];
      PutAllPrefix(d, n + 1);
    } else {
      assert d[..n] == d;
    }
  }

  lemma {:induction false} PutAppendFresh<K, V>(d: Dict<K, V>, k: K, v: V)
    requires forall i :: 0 <= i < |d| ==> d[i].0 != k
    ensures Put(d, k, v) == d + [(k, v)]
    decreases |d|
  {
    if d != [] {
      PutAppendFresh(d[1..], k, v);
      assert d == [d[0]] + d[1..];
    }
  }

  /** Every value read back came from the old dictionary or from a pair. */
  lemma {:induction false} PutAllGetFrom<K, V>(d: Dict<K, V>, ps: seq<(K, V)>, k: K)
    ensures Get(PutAll(d, ps), k).Some? ==>
      Get(PutAll(d, ps), k) == Get(d, k) || exists i :: 0 <= i < |ps| && ps[i] == (k, Get(PutAll(d, ps), k).value)
    decreases |ps|
  {
    if ps != [] {
      PutSpec(d, ps[0].0, ps[0].1);
      PutAllGetFrom(Put(d, ps[0].0, ps[0].1), ps[1..], k);
      var r := Get(PutAll(d, ps), k);
      if r.Some? && exists i :: 0 <= i < |ps[1..]| && ps[1..][i] == (k, r.value) {
        var i :| 0 <= i < |ps[1..]| && ps[1..][i] == (k, r.value);
        assert ps[i + 1] == (k, r.value);
      }
    }
  }
}
