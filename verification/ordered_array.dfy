/**
 A PHP array used as an ordered dictionary: a sequence of key/value pairs in
 insertion order. Assigning `$a[$k] = $v` overwrites the value of an existing
 key where it stands and appends a new key at the end; iteration visits the
 pairs in order.
 */
module OrderedArray {
  import opened Wrappers

  /** The keys present in `m`. */
  function KeySet<K, V>(m: seq<(K, V)>): set<K>
  {
    set i | 0 <= i < |m| :: m[i].0
  }

  /** No key occurs twice; every genuine PHP array has this shape. */
  ghost predicate DistinctKeys<K, V>(m: seq<(K, V)>)
  {
    forall i, j | 0 <= i < j < |m| :: m[i].0 != m[j].0
  }

  lemma KeySetCons<K, V>(m: seq<(K, V)>)
    requires |m| > 0
    ensures KeySet(m) == {m[0].0} + KeySet(m[1..])
  {
    forall x | x in KeySet(m[1..]) ensures x in KeySet(m) {
      var i :| 0 <= i < |m[1..]| && m[1..][i].0 == x;
      assert m[i + 1].0 == x;
    }
    forall x | x in KeySet(m) ensures x in {m[0].0} + KeySet(m[1..]) {
      var i :| 0 <= i < |m| && m[i].0 == x;
      if i > 0 {
        assert m[1..][i - 1].0 == x;
      }
    }
  }

  lemma KeySetAppend<K, V>(a: seq<(K, V)>, b: seq<(K, V)>)
    ensures KeySet(a + b) == KeySet(a) + KeySet(b)
  {
    forall x | x in KeySet(a + b) ensures x in KeySet(a) + KeySet(b) {
      var i :| 0 <= i < |a + b| && (a + b)[i].0 == x;
      if i >= |a| {
        assert b[i - |a|].0 == x;
      }
    }
    forall x | x in KeySet(a) ensures x in KeySet(a + b) {
      var i :| 0 <= i < |a| && a[i].0 == x;
      assert (a + b)[i].0 == x;
    }
    forall x | x in KeySet(b) ensures x in KeySet(a + b) {
      var i :| 0 <= i < |b| && b[i].0 == x;
      assert (a + b)[|a| + i].0 == x;
    }
  }

  /** `$m[$k]` when the key is set: the value paired with `k`. */
  function Get<K(==, !new), V>(m: seq<(K, V)>, k: K): (r: Option<V>)
    ensures r.None? <==> k !in KeySet(m)
    ensures r.Some? ==> exists i | 0 <= i < |m| :: m[i] == (k, r.value)
  {
    if m == [] then None
    else
      KeySetCons(m);
      if m[0].0 == k then Some(m[0].1)
      else
        var r := Get(m[1..], k);
        assert r.Some? ==> exists i | 0 <= i < |m| :: m[i] == (k, r.value) by {
          if r.Some? {
            var i :| 0 <= i < |m[1..]| && m[1..][i] == (k, r.value);
            assert m[i + 1] == (k, r.value);
          }
        }
        r
  }

  /** `$m[$k] = $v`: overwrite in place when `k` is present, append otherwise. */
  function Put<K(==, !new), V>(m: seq<(K, V)>, k: K, v: V): (r: seq<(K, V)>)
    ensures |m| <= |r|
    ensures k in KeySet(m) ==> |r| == |m|
    ensures k !in KeySet(m) ==> r == m + [(k, v)]
    ensures forall i | 0 <= i < |m| :: r[i].0 == m[i].0
    ensures forall i | 0 <= i < |m| && m[i].0 != k :: r[i] == m[i]
    ensures Get(r, k) == Some(v)
    ensures forall k' | k' != k :: Get(r, k') == Get(m, k')
  {
    if m == [] then [(k, v)]
    else
      KeySetCons(m);
      if m[0].0 == k then
        var r := [(k, v)] + m[1..];
        KeySetCons(r);
        assert r[1..] == m[1..];
        r
      else
        var tail := Put(m[1..], k, v);
        var r := [m[0]] + tail;
        KeySetCons(r);
        assert r[1..] == tail;
        r
  }

  /** An assignment adds its key to the key set and never duplicates a key. */
  lemma PutKeys<K(!new), V>(m: seq<(K, V)>, k: K, v: V)
    ensures KeySet(Put(m, k, v)) == KeySet(m) + {k}
    ensures DistinctKeys(m) ==> DistinctKeys(Put(m, k, v))
  {
    if k in KeySet(m) {
      SameKeysSameKeySet(m, Put(m, k, v));
    } else {
      AppendFreshKey(m, k, v);
    }
  }

  lemma AppendFreshKey<K, V>(m: seq<(K, V)>, k: K, v: V)
    requires k !in KeySet(m)
    ensures KeySet(m + [(k, v)]) == KeySet(m) + {k}
    ensures DistinctKeys(m) ==> DistinctKeys(m + [(k, v)])
  {
    var r := m + [(k, v)];
    KeySetAppend(m, [(k, v)]);
    assert KeySet([(k, v)]) == {k} by {
      assert [(k, v)][0].0 == k;
    }
    if DistinctKeys(m) {
      forall i, j | 0 <= i < j < |r| ensures r[i].0 != r[j].0 {
        assert r[i] == m[i];
        if j < |m| {
          assert r[j] == m[j];
        }
      }
    }
  }

  /** Arrays with the same keys at the same positions have the same key set and the same repetitions. */
  lemma SameKeysSameKeySet<K, V>(m: seq<(K, V)>, r: seq<(K, V)>)
    requires |m| == |r| && forall i | 0 <= i < |m| :: r[i].0 == m[i].0
    ensures KeySet(r) == KeySet(m)
    ensures DistinctKeys(m) ==> DistinctKeys(r)
  {
    forall x | x in KeySet(m) ensures x in KeySet(r) {
      var i :| 0 <= i < |m| && m[i].0 == x;
      assert r[i].0 == x;
    }
    forall x | x in KeySet(r) ensures x in KeySet(m) {
      var i :| 0 <= i < |r| && r[i].0 == x;
      assert m[i].0 == x;
    }
  }

  /** The assignments `$m[$k] = $v` for every pair of `s`, in order. */
  function PutAll<K(==, !new), V>(m: seq<(K, V)>, s: seq<(K, V)>): (r: seq<(K, V)>)
    ensures |m| <= |r|
    ensures forall i | 0 <= i < |m| :: r[i].0 == m[i].0
    ensures KeySet(r) == KeySet(m) + KeySet(s)
    ensures forall k | k !in KeySet(s) :: Get(r, k) == Get(m, k)
    ensures DistinctKeys(m) ==> DistinctKeys(r)
    decreases |s|
  {
    if s == [] then m
    else
      KeySetCons(s);
      PutKeys(m, s[0].0, s[0].1);
      PutAll(Put(m, s[0].0, s[0].1), s[1..])
  }

  /** The value of the last pair of `s` whose key is `k`. */
  function LastValue<K(==, !new), V>(s: seq<(K, V)>, k: K): (r: V)
    requires k in KeySet(s)
    ensures exists i | 0 <= i < |s| :: s[i] == (k, r) && forall j | i < j < |s| :: s[j].0 != k
  {
    var n := |s| - 1;
    if s[n].0 == k then s[n].1
    else
      KeySetAppend(s[..n], [s[n]]);
      assert s[..n] + [s[n]] == s;
      var r := LastValue(s[..n], k);
      assert exists i | 0 <= i < |s| :: s[i] == (k, r) && forall j | i < j < |s| :: s[j].0 != k by {
        var i :| 0 <= i < n && s[..n][i] == (k, r) && forall j | i < j < n :: s[..n][j].0 != k;
        assert s[i] == (k, r);
        assert forall j | i < j < |s| :: s[j].0 != k by {
          forall j | i < j < |s| ensures s[j].0 != k {
            if j < n {
              assert s[..n][j].0 != k;
            }
          }
        }
      }
      r
  }

  lemma {:induction false} PutAllAppend<K(!new), V>(m: seq<(K, V)>, a: seq<(K, V)>, b: seq<(K, V)>)
    ensures PutAll(m, a + b) == PutAll(PutAll(m, a), b)
    decreases |a|
  {
    if a == [] {
      assert a + b == b;
    } else {
      assert (a + b)[0] == a[0];
      assert (a + b)[1..] == a[1..] + b;
      PutAllAppend(Put(m, a[0].0, a[0].1), a[1..], b);
    }
  }

  /** After the assignments of `s`, a key of `s` holds the last value `s` gave it. */
  lemma {:induction false} GetPutAll<K(!new), V>(m: seq<(K, V)>, s: seq<(K, V)>, k: K)
    ensures Get(PutAll(m, s), k) == if k in KeySet(s) then Some(LastValue(s, k)) else Get(m, k)
    decreases |s|
  {
    if s != [] && k in KeySet(s) {
      var n := |s| - 1;
      assert s[..n] + [s[n]] == s;
      PutAllAppend(m, s[..n], [s[n]]);
      KeySetAppend(s[..n], [s[n]]);
      var before := PutAll(m, s[..n]);
      assert [s[n]][1..] == [];
      assert PutAll(before, [s[n]]) == Put(before, s[n].0, s[n].1);
      if s[n].0 != k {
        GetPutAll(m, s[..n], k);
      }
    }
  }

  /** Assigning fresh, distinct keys simply appends them. */
  lemma {:induction false} PutAllFresh<K(!new), V>(m: seq<(K, V)>, s: seq<(K, V)>)
    requires DistinctKeys(m + s)
    ensures PutAll(m, s) == m + s
    decreases |s|
  {
    if s != [] {
      assert s[0].0 !in KeySet(m) by {
        forall i | 0 <= i < |m| ensures m[i].0 != s[0].0 {
          assert (m + s)[i] == m[i] && (m + s)[|m|] == s[0];
        }
      }
      var m' := Put(m, s[0].0, s[0].1);
      assert m' == m + [s[0]];
      assert m' + s[1..] == m + s;
      PutAllFresh(m', s[1..]);
    }
  }

  /** In an array without repeated keys, counting pairs counts keys. */
  lemma {:induction false} DistinctKeysCard<K, V>(m: seq<(K, V)>)
    ensures |KeySet(m)| <= |m|
    ensures DistinctKeys(m) ==> |KeySet(m)| == |m|
    decreases |m|
  {
    if m != [] {
      KeySetCons(m);
      DistinctKeysCard(m[1..]);
      if DistinctKeys(m) {
        assert m[0].0 !in KeySet(m[1..]) by {
          forall i | 0 <= i < |m[1..]| ensures m[1..][i].0 != m[0].0 {
            assert m[1..][i] == m[i + 1];
          }
        }
      }
    }
  }

  /** Without repeated keys, the first and the last value of a key agree. */
  lemma LastValueDistinct<K(!new), V>(s: seq<(K, V)>, k: K)
    requires DistinctKeys(s)
    requires k in KeySet(s)
    ensures Get(s, k) == Some(LastValue(s, k))
  {
    var r := LastValue(s, k);
    var i :| 0 <= i < |s| && s[i] == (k, r) && forall j | i < j < |s| :: s[j].0 != k;
    var j :| 0 <= j < |s| && s[j] == (k, Get(s, k).value);
    assert i == j;
  }
}
