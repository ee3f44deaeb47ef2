/**
 * Sums over frequency tables (Go's `map[string]int`).
 *
 * Go iterates a map in an unspecified order, so a sum over the entries is
 * defined here by repeatedly choosing an arbitrary remaining key, and
 * `SumOverRemove` proves that the choice does not matter.
 */
module MapSums {

  /** A frequency table: key to occurrence count. */
  type Counts = map<string, int>

  /** An arbitrary element of a non-empty set of keys. */
  ghost function Pick(keys: set<string>): (k: string)
    requires keys != {}
    ensures k in keys
  {
    var k :| k in keys; k
  }

  /** The sum of `m[k]` over the keys `k` in `keys`. */
  ghost function SumOver(m: Counts, keys: set<string>): int
    requires keys <= m.Keys
    decreases keys
  {
    if keys == {} then 0
    else
      var k := Pick(keys);
      m[k] + SumOver(m, keys - {k})
  }

  /** The sum of all counts of a table. */
  ghost function Total(m: Counts): int {
    SumOver(m, m.Keys)
  }

  /** Every count is at least one (true of every table built by counting). */
  predicate Positive(m: Counts) {
    forall k :: k in m ==> m[k] >= 1
  }

  /** No count is negative. */
  predicate NonNegative(m: Counts) {
    forall k :: k in m ==> m[k] >= 0
  }

  /** The frequency table of a multiset. */
  function CountsOf(ms: multiset<string>): Counts {
    map k | k in ms :: ms[k]
  }

  /** Any key may be taken out first: the sum does not depend on the order of the keys. */
  lemma {:induction false} SumOverRemove(m: Counts, keys: set<string>, x: string)
    requires keys <= m.Keys && x in keys
    ensures SumOver(m, keys) == m[x] + SumOver(m, keys - {x})
    decreases keys
  {
    var k := Pick(keys);
    if k != x {
      SumOverRemove(m, keys - {k}, x);
      SumOverRemove(m, keys - {x}, k);
      assert keys - {k} - {x} == keys - {x} - {k};
    }
  }

  /** Two tables that agree on `keys` have the same sum over `keys`. */
  lemma {:induction false} SumOverAgree(m: Counts, n: Counts, keys: set<string>)
    requires keys <= m.Keys && keys <= n.Keys
    requires forall k :: k in keys ==> m[k] == n[k]
    ensures SumOver(m, keys) == SumOver(n, keys)
    decreases keys
  {
    if keys != {} {
      SumOverAgree(m, n, keys - {Pick(keys)});
    }
  }

  /** A pointwise smaller table has a smaller sum. */
  lemma {:induction false} SumOverMono(m: Counts, n: Counts, keys: set<string>)
    requires keys <= m.Keys && keys <= n.Keys
    requires forall k :: k in keys ==> m[k] <= n[k]
    ensures SumOver(m, keys) <= SumOver(n, keys)
    decreases keys
  {
    if keys != {} {
      SumOverMono(m, n, keys - {Pick(keys)});
    }
  }

  /** With no negative counts, summing over more keys gives no less. */
  lemma {:induction false} SumOverSubset(m: Counts, small: set<string>, big: set<string>)
    requires small <= big <= m.Keys
    requires forall k :: k in big ==> m[k] >= 0
    ensures SumOver(m, small) <= SumOver(m, big)
    decreases big
  {
    if small != big {
      assert big - small != {} by {
        if big - small == {} {
          forall k | k in big ensures k in small {
            assert k !in big - small;
          }
        }
      }
      var x :| x in big - small;
      SumOverRemove(m, big, x);
      SumOverSubset(m, small, big - {x});
    }
  }

  /** When every count is at least one, the sum is at least the number of keys. */
  lemma {:induction false} SumOverAtLeastSize(m: Counts, keys: set<string>)
    requires keys <= m.Keys
    requires forall k :: k in keys ==> m[k] >= 1
    ensures SumOver(m, keys) >= |keys|
    decreases keys
  {
    if keys != {} {
      SumOverAtLeastSize(m, keys - {Pick(keys)});
    }
  }

  /** Setting one count to `v` changes the total by `v` minus the old count (0 if absent). */
  lemma TotalUpdate(m: Counts, x: string, v: int)
    ensures Total(m[x := v]) == Total(m) - (if x in m then m[x] else 0) + v
  {
    var m' := m[x := v];
    var others := m.Keys - {x};
    assert m'.Keys - {x} == others;
    SumOverRemove(m', m'.Keys, x);
    SumOverAgree(m', m, others);
    if x in m {
      SumOverRemove(m, m.Keys, x);
    } else {
      assert others == m.Keys;
    }
  }

  /** The counts of a multiset add up to its size. */
  lemma {:induction false} TotalCountsOf(ms: multiset<string>)
    ensures Total(CountsOf(ms)) == |ms|
    decreases |ms|
  {
    if ms == multiset{} {
      assert CountsOf(ms) == map[];
    } else {
      var x :| x in ms;
      var rest := ms - multiset{x};
      TotalCountsOf(rest);
      assert CountsOf(ms) == CountsOf(rest)[x := ms[x]];
      TotalUpdate(CountsOf(rest), x, ms[x]);
    }
  }
}
