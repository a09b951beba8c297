/** Finite sums over maps, independent of the order in which the keys are visited. */
module Sums {

  ghost function Pick<K>(m: map<K, int>): (k: K)
    requires m != map[]
    ensures k in m
  {
    var k :| k in m;
    k
  }

  ghost function Sum<K>(m: map<K, int>): int
    decreases |m|
  {
    if m == map[] then 0
    else
      var k := Pick(m);
      m[k] + Sum(m - {k})
  }

  lemma {:induction false} SumWithout<K>(m: map<K, int>, k: K)
    requires k in m
    ensures Sum(m) == m[k] + Sum(m - {k})
    decreases |m|
  {
    var p := Pick(m);
    if p != k {
      SumWithout(m - {p}, k);
      SumWithout(m - {k}, p);
      assert m - {p} - {k} == m - {k} - {p};
    }
  }

  lemma SumUpdate<K>(m: map<K, int>, k: K, v: int)
    ensures Sum(m[k := v]) == Sum(m) + v - if k in m then m[k] else 0
  {
    var n := m[k := v];
    SumWithout(n, k);
    if k in m {
      SumWithout(m, k);
      assert n - {k} == m - {k};
    } else {
      assert n - {k} == m;
    }
  }

  /** A sum over fewer keys is the same when the keys left out hold zero. */
  lemma {:induction false} SumSupport<K>(m: map<K, int>, n: map<K, int>)
    requires n.Keys <= m.Keys
    requires forall k <- n :: n[k] == m[k]
    requires forall k <- m :: k !in n ==> m[k] == 0
    ensures Sum(n) == Sum(m)
    decreases |m|
  {
    if m == map[] {
      assert n == map[];
    } else {
      var p := Pick(m);
      SumWithout(m, p);
      if p in n {
        SumWithout(n, p);
        SumSupport(m - {p}, n - {p});
      } else {
        SumSupport(m - {p}, n);
      }
    }
  }

  lemma {:induction false} SumBounds<K>(m: map<K, int>, lo: map<K, int>, hi: map<K, int>)
    requires m.Keys == lo.Keys == hi.Keys
    requires forall k <- m :: lo[k] <= m[k] <= hi[k]
    ensures Sum(lo) <= Sum(m) <= Sum(hi)
    decreases |m|
  {
    if m == map[] {
      assert lo == map[] && hi == map[];
    } else {
      var p := Pick(m);
      SumWithout(lo, p);
      SumWithout(hi, p);
      SumBounds(m - {p}, lo - {p}, hi - {p});
    }
  }

  lemma {:induction false} SumOfEqual<K>(m: map<K, int>, value: int)
    requires forall k <- m :: m[k] == value
    ensures Sum(m) == value * |m|
    decreases |m|
  {
    if m != map[] {
      var p := Pick(m);
      SumOfEqual(m - {p}, value);
      OneLess(m, p);
      assert value * |m| == value * |m - {p}| + value;
    }
  }

  lemma OneLess<K>(m: map<K, int>, k: K)
    requires k in m
    ensures |m| == |m - {k}| + 1
  {
    assert m == (m - {k})[k := m[k]];
  }

  lemma {:induction false} SumNonNegative<K>(m: map<K, int>)
    requires forall k <- m :: m[k] >= 0
    ensures Sum(m) >= 0
    ensures forall k <- m :: m[k] <= Sum(m)
    decreases |m|
  {
    if m != map[] {
      forall k | k in m
        ensures m[k] <= Sum(m) && Sum(m) >= 0
      {
        SumWithout(m, k);
        SumNonNegative(m - {k});
      }
      assert Pick(m) in m;
    }
  }

  lemma {:induction false} SumAdd<K>(m: map<K, int>, n: map<K, int>, s: map<K, int>)
    requires m.Keys == n.Keys == s.Keys
    requires forall k <- m :: s[k] == m[k] + n[k]
    ensures Sum(s) == Sum(m) + Sum(n)
    decreases |m|
  {
    if m == map[] {
      assert n == map[] && s == map[];
    } else {
      var p := Pick(m);
      SumWithout(n, p);
      SumWithout(s, p);
      SumAdd(m - {p}, n - {p}, s - {p});
    }
  }

  /** The sum of the values met while walking a list of keys. */
  ghost function SumAlong<K>(m: map<K, int>, keys: seq<K>): int
    requires forall k <- keys :: k in m
  {
    if keys == [] then 0 else m[keys[0]] + SumAlong(m, keys[1..])
  }

  ghost predicate Distinct<K>(keys: seq<K>) {
    forall i, j :: 0 <= i < j < |keys| ==> keys[i] != keys[j]
  }

  lemma {:induction false} SumAlongAll<K>(m: map<K, int>, keys: seq<K>)
    requires Distinct(keys)
    requires m.Keys == set k <- keys
    ensures SumAlong(m, keys) == Sum(m)
    decreases |keys|
  {
    if keys == [] {
      assert m == map[];
    } else {
      assert keys[0] in m.Keys;
      SumWithout(m, keys[0]);
      var n := m - {keys[0]};
      forall k | k in keys[1..] ensures k in n {
        var i :| 0 <= i < |keys[1..]| && keys[1..][i] == k;
        assert keys[i + 1] == k && keys[0] != keys[i + 1];
      }
      assert n.Keys == set k <- keys[1..];
      SumAlongAll(n, keys[1..]);
      SumAlongSame(m, n, keys[1..]);
    }
  }

  lemma {:induction false} SumAlongSame<K>(m: map<K, int>, n: map<K, int>, keys: seq<K>)
    requires forall k <- keys :: k in m && k in n && m[k] == n[k]
    ensures SumAlong(m, keys) == SumAlong(n, keys)
  {
    if keys != [] {
      SumAlongSame(m, n, keys[1..]);
    }
  }

  lemma {:induction false} SumAlongSplit<K>(m: map<K, int>, a: seq<K>, b: seq<K>)
    requires forall k <- a + b :: k in m
    ensures forall k <- a :: k in m
    ensures forall k <- b :: k in m
    ensures SumAlong(m, a + b) == SumAlong(m, a) + SumAlong(m, b)
  {
    forall k | k in a ensures k in m { assert k in a + b; }
    forall k | k in b ensures k in m { assert k in a + b; }
    if a == [] {
      assert a + b == b;
    } else {
      assert (a + b)[1..] == a[1..] + b;
      SumAlongSplit(m, a[1..], b);
    }
  }

  // ---- sums of real values

  ghost function PickReal<K>(m: map<K, real>): (k: K)
    requires m != map[]
    ensures k in m
  {
    var k :| k in m;
    k
  }

  ghost function SumReal<K>(m: map<K, real>): real
    decreases |m|
  {
    if m == map[] then 0.0
    else
      var k := PickReal(m);
      m[k] + SumReal(m - {k})
  }

  lemma {:induction false} SumRealWithout<K>(m: map<K, real>, k: K)
    requires k in m
    ensures SumReal(m) == m[k] + SumReal(m - {k})
    decreases |m|
  {
    var p := PickReal(m);
    if p != k {
      SumRealWithout(m - {p}, k);
      SumRealWithout(m - {k}, p);
      assert m - {p} - {k} == m - {k} - {p};
    }
  }

  // ---- tables summed by row and by column

  ghost function RowSums<R, C>(rows: map<R, map<C, int>>): map<R, int> {
    map r | r in rows :: Sum(rows[r])
  }

  ghost predicate Transposed<R(!new), C(!new)>(rows: map<R, map<C, int>>, cols: map<C, map<R, int>>) {
    && (forall r, c :: r in rows && c in rows[r] ==> c in cols && r in cols[c] && cols[c][r] == rows[r][c])
    && (forall r, c :: c in cols && r in cols[c] ==> r in rows && c in rows[r])
  }

  ghost function WithoutRow<R, C>(cols: map<C, map<R, int>>, r: R): map<C, map<R, int>> {
    map c | c in cols :: cols[c] - {r}
  }

  /** The entries of one row, with zero for the columns that have none. */
  ghost function Entries<R, C>(cols: map<C, map<R, int>>, r: R): map<C, int> {
    map c | c in cols :: if r in cols[c] then cols[c][r] else 0
  }

  lemma TransposedWithoutRow<R(!new), C(!new)>(rows: map<R, map<C, int>>, cols: map<C, map<R, int>>, r: R)
    requires Transposed(rows, cols)
    ensures Transposed(rows - {r}, WithoutRow(cols, r))
  {
  }

  lemma SumOfOneColumn<R>(col: map<R, int>, r: R)
    ensures Sum(col) == (if r in col then col[r] else 0) + Sum(col - {r})
  {
    if r in col { SumWithout(col, r); } else { assert col - {r} == col; }
  }

  lemma SumOfEntries<R(!new), C(!new)>(rows: map<R, map<C, int>>, cols: map<C, map<R, int>>, r: R)
    requires Transposed(rows, cols) && r in rows
    ensures Sum(Entries(cols, r)) == Sum(rows[r])
  {
    assert rows[r].Keys <= Entries(cols, r).Keys;
    SumSupport(Entries(cols, r), rows[r]);
  }

  /** Taking one row out of a table takes its entries out of the column sums. */
  lemma ColumnSumsWithoutRow<R, C>(cols: map<C, map<R, int>>, r: R)
    ensures Sum(RowSums(cols)) == Sum(Entries(cols, r)) + Sum(RowSums(WithoutRow(cols, r)))
  {
    forall c | c in cols ensures RowSums(cols)[c] == Entries(cols, r)[c] + RowSums(WithoutRow(cols, r))[c] {
      SumOfOneColumn(cols[c], r);
    }
    SumAdd(Entries(cols, r), RowSums(WithoutRow(cols, r)), RowSums(cols));
  }

  lemma SumOfEmptyColumns<R(!new), C(!new)>(rows: map<R, map<C, int>>, cols: map<C, map<R, int>>)
    requires Transposed(rows, cols) && rows == map[]
    ensures Sum(RowSums(cols)) == 0
  {
    assert forall c <- cols :: cols[c] == map[];
    var none: map<C, int> := map[];
    SumSupport(RowSums(cols), none);
  }

  /** Summing a table row by row and column by column gives the same total. */
  lemma {:induction false} SumOfTranspose<R(!new), C(!new)>(rows: map<R, map<C, int>>, cols: map<C, map<R, int>>)
    requires Transposed(rows, cols)
    ensures Sum(RowSums(rows)) == Sum(RowSums(cols))
    decreases |rows|
  {
    if rows == map[] {
      SumOfEmptyColumns(rows, cols);
    } else {
      var r :| r in rows;
      TransposedWithoutRow(rows, cols, r);
      SumOfTranspose(rows - {r}, WithoutRow(cols, r));
      SumsWithoutRow(rows, r);
      SumOfEntries(rows, cols, r);
      ColumnSumsWithoutRow(cols, r);
    }
  }

  lemma SumsWithoutRow<R(!new), C>(rows: map<R, map<C, int>>, r: R)
    requires r in rows
    ensures Sum(RowSums(rows)) == Sum(rows[r]) + Sum(RowSums(rows - {r}))
  {
    SumWithout(RowSums(rows), r);
    assert RowSums(rows) - {r} == RowSums(rows - {r});
  }
}
