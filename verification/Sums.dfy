/** Sums over finite maps. The order in which a map is visited does not matter; these lemmas are
    what every statement about "the total size" rests on. */
module Sums {

  /** The sum of all values of `m`. */
  ghost function Sum<K>(m: map<K, nat>): nat
    decreases |m|
  {
    if m == map[] then 0 else
      var k :| k in m;
      m[k] + Sum(m - {k})
  }

  /** Any key may be split off first. */
  lemma {:induction false} SumRemove<K>(m: map<K, nat>, k: K)
    requires k in m
    ensures Sum(m) == m[k] + Sum(m - {k})
    decreases |m|
  {
    var j :| j in m && Sum(m) == m[j] + Sum(m - {j});
    if j != k {
      SumRemove(m - {j}, k);
      SumRemove(m - {k}, j);
      assert m - {j} - {k} == m - {k} - {j};
    }
  }

  /** Overwriting or adding one entry moves the sum by the difference at that entry. */
  lemma SumPut<K>(m: map<K, nat>, k: K, v: nat)
    ensures Sum(m[k := v]) == Sum(m) + v - (if k in m then m[k] else 0)
  {
    SumRemove(m[k := v], k);
    if k in m {
      SumRemove(m, k);
      assert m[k := v] - {k} == m - {k};
    } else {
      assert m[k := v] - {k} == m;
    }
  }

  /** Entries of value zero can be added freely. */
  lemma {:induction false} SumPad<K>(m: map<K, nat>, n: map<K, nat>)
    requires m.Keys <= n.Keys
    requires forall k :: k in n ==> n[k] == if k in m then m[k] else 0
    ensures Sum(m) == Sum(n)
    decreases |n|
  {
    if m.Keys == n.Keys {
      assert m == n;
    } else {
      var k :| k in n && k !in m;
      SumRemove(n, k);
      assert |n - {k}| < |n| by { assert n == (n - {k})[k := n[k]]; }
      SumPad(m, n - {k});
    }
  }

  /** Pointwise larger maps have larger sums. */
  lemma {:induction false} SumMonotone<K>(m: map<K, nat>, n: map<K, nat>)
    requires m.Keys <= n.Keys
    requires forall k :: k in m ==> m[k] <= n[k]
    ensures Sum(m) <= Sum(n)
    decreases |n|
  {
    if n == map[] {
      assert m == map[];
    } else {
      var k :| k in n;
      SumRemove(n, k);
      if k in m {
        SumRemove(m, k);
        SumMonotone(m - {k}, n - {k});
      } else {
        SumMonotone(m, n - {k});
      }
    }
  }

  /** Renaming the keys injectively preserves the sum. */
  lemma {:induction false} SumRekey<J, K>(m: map<J, nat>, n: map<K, nat>, f: map<J, K>)
    requires f.Keys == m.Keys
    requires forall i, j :: i in f && j in f && f[i] == f[j] ==> i == j
    requires forall k :: k in n <==> exists j :: j in f && f[j] == k
    requires forall j :: j in m ==> f[j] in n && n[f[j]] == m[j]
    ensures Sum(m) == Sum(n)
    decreases |m|
  {
    if m == map[] {
      assert n == map[];
    } else {
      var j :| j in m;
      SumRemove(m, j);
      SumRemove(n, f[j]);
      var n' := n - {f[j]};
      var f' := f - {j};
      forall k ensures k in n' <==> exists i :: i in f' && f'[i] == k {
        if k in n' {
          var i :| i in f && f[i] == k;
          assert i in f' && f'[i] == k;
        }
      }
      SumRekey(m - {j}, n', f');
    }
  }

  /** The sum over a map is the sum over the keys in `ks` plus the sum over the others. */
  lemma {:induction false} SumSplit<K>(m: map<K, nat>, ks: set<K>)
    ensures Sum(m) == Sum(map k | k in m && k in ks :: m[k]) + Sum(m - ks)
    decreases |m|
  {
    var inside := map k | k in m && k in ks :: m[k];
    if inside == map[] {
      assert forall k :: k in m ==> k !in inside;
      assert m - ks == m;
    } else {
      var k :| k in inside;
      SumRemove(m, k);
      SumRemove(inside, k);
      var m' := m - {k};
      assert |m'| < |m| by { assert m == m'[k := m[k]]; }
      SumSplit(m', ks);
      assert (map j | j in m' && j in ks :: m'[j]) == inside - {k};
      assert m' - ks == m - ks;
    }
  }
}
