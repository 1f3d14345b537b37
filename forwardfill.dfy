// Last-observation-carried-forward within groups: the per-column step of the
// imputation in trewscore.py (groupby(...).apply(fillna(method="ffill"))).
// Rows are taken in the order given; `keys[i]` is row i's group and `col[i]`
// its cell, None where the cell is missing.

module ForwardFill {
  import opened Tables

  /**
   * The position of the most recent row before position `n` that belongs to
   * group `k` and has an observed cell; -1 when there is none.
   */
  function LastObservedIndex<K(==), T>(keys: seq<K>, col: seq<Option<T>>, k: K, n: nat): (j: int)
    requires |keys| == |col| && n <= |col|
    ensures -1 <= j < n
    ensures j >= 0 ==> keys[j] == k && col[j].Some?
    ensures forall i :: j < i < n && keys[i] == k ==> col[i].None?
    decreases n
  {
    if n == 0 then -1
    else if keys[n - 1] == k && col[n - 1].Some? then n - 1
    else LastObservedIndex(keys, col, k, n - 1)
  }

  /** Row i's cell after the fill: the last observation of its group up to and including row i. */
  function FilledCell<K(==), T>(keys: seq<K>, col: seq<Option<T>>, i: nat): Option<T>
    requires |keys| == |col| && i < |col|
  {
    var j := LastObservedIndex(keys, col, keys[i], i + 1);
    if j >= 0 then col[j] else None
  }

  /** Forward fill of one column within the groups given by `keys`. */
  function FillColumn<K(==), T>(keys: seq<K>, col: seq<Option<T>>): (r: seq<Option<T>>)
    requires |keys| == |col|
    ensures |r| == |col|
    ensures forall i :: 0 <= i < |col| ==> r[i] == FilledCell(keys, col, i)
  {
    seq(|col|, i requires 0 <= i < |col| => FilledCell(keys, col, i))
  }

  /** An observed cell is left as it is. */
  lemma FillKeepsObserved<K, T>(keys: seq<K>, col: seq<Option<T>>, i: nat)
    requires |keys| == |col| && i < |col| && col[i].Some?
    ensures FillColumn(keys, col)[i] == col[i]
  {
  }

  /**
   * A filled cell is the value of the most recent observation at or before its
   * row in the same group (never a later one, never another group's); a cell
   * stays missing exactly when its group has no observation up to its row.
   */
  lemma FillTakesMostRecent<K, T>(keys: seq<K>, col: seq<Option<T>>, i: nat)
    requires |keys| == |col| && i < |col|
    ensures var r := FillColumn(keys, col);
      && (r[i].Some? ==> exists j :: 0 <= j <= i && keys[j] == keys[i] && col[j] == r[i] &&
                                     forall m :: j < m <= i && keys[m] == keys[i] ==> col[m].None?)
      && (r[i].None? <==> forall j :: 0 <= j <= i && keys[j] == keys[i] ==> col[j].None?)
  {
    var j := LastObservedIndex(keys, col, keys[i], i + 1);
    if j >= 0 {
      assert col[j].Some?;
    }
  }

  /** The last-observation index is determined by the group's cells alone. */
  lemma {:induction false} LastObservedIndexLocal<K, T>(keys: seq<K>, col: seq<Option<T>>, col': seq<Option<T>>, k: K, n: nat)
    requires |keys| == |col| == |col'| && n <= |col|
    requires forall i :: 0 <= i < |col| && keys[i] == k ==> col[i] == col'[i]
    ensures LastObservedIndex(keys, col, k, n) == LastObservedIndex(keys, col', k, n)
  {
    if n > 0 {
      LastObservedIndexLocal(keys, col, col', k, n - 1);
    }
  }

  /**
   * Group isolation: changing the cells of other groups never changes how a
   * group is filled.
   */
  lemma FillGroupIsolation<K, T>(keys: seq<K>, col: seq<Option<T>>, col': seq<Option<T>>, k: K)
    requires |keys| == |col| == |col'|
    requires forall i :: 0 <= i < |col| && keys[i] == k ==> col[i] == col'[i]
    ensures forall i :: 0 <= i < |col| && keys[i] == k ==> FillColumn(keys, col)[i] == FillColumn(keys, col')[i]
  {
    forall i | 0 <= i < |col| && keys[i] == k
      ensures FillColumn(keys, col)[i] == FillColumn(keys, col')[i]
    {
      LastObservedIndexLocal(keys, col, col', k, i + 1);
    }
  }

  /** Forward fill is idempotent: filling an already filled column changes nothing. */
  lemma FillIdempotent<K, T>(keys: seq<K>, col: seq<Option<T>>)
    requires |keys| == |col|
    ensures FillColumn(keys, FillColumn(keys, col)) == FillColumn(keys, col)
  {
    var r := FillColumn(keys, col);
    var rr := FillColumn(keys, r);
    forall i | 0 <= i < |col| ensures rr[i] == r[i] {
      var k := keys[i];
      if r[i].Some? {
        assert LastObservedIndex(keys, r, k, i + 1) == i;
      } else {
        // no observation of group k up to row i, hence no filled cell either
        assert LastObservedIndex(keys, col, k, i + 1) == -1;
        forall m | 0 <= m <= i && keys[m] == k ensures r[m].None? {
          NoObservationNoIndex(keys, col, k, m + 1);
        }
        NoObservationNoIndex(keys, r, k, i + 1);
      }
    }
  }

  /** Without an observation of group `k` before position `n` there is no index to fill from. */
  lemma {:induction false} NoObservationNoIndex<K, T>(keys: seq<K>, col: seq<Option<T>>, k: K, n: nat)
    requires |keys| == |col| && n <= |col|
    requires forall i :: 0 <= i < n && keys[i] == k ==> col[i].None?
    ensures LastObservedIndex(keys, col, k, n) == -1
  {
    if n > 0 {
      NoObservationNoIndex(keys, col, k, n - 1);
    }
  }
}
