// cohort.py: restricting a table to a list of values, choosing the
// development cohort (the smallest subject ids), and joining the two
// admission-level infection tables.

module Cohort {
  import opened Tables

  type Column = string

  /** A table: its column names, and its rows as maps from column name to cell. */
  datatype Frame<V> = Frame(columns: seq<Column>, rows: seq<map<Column, V>>)

  datatype FilterError = ValueError(column: Column)

  datatype Result<T, E> = Ok(value: T) | Err(error: E)

  predicate InValues<V(==)>(row: map<Column, V>, column: Column, values: seq<V>) {
    column in row && row[column] in values
  }

  /**
   * filter_df: the rows whose `filterCol` cell is one of `valueList`.  An empty
   * value list is answered first, with an empty table of the same columns, so a
   * missing column raises only for a non-empty list.
   */
  function FilterDf<V(==,!new)>(df: Frame<V>, filterCol: Column, valueList: seq<V>): (r: Result<Frame<V>, FilterError>)
    ensures valueList == [] ==> r == Ok(Frame(df.columns, []))
    ensures valueList != [] && filterCol !in df.columns ==> r == Err(ValueError(filterCol))
    ensures valueList != [] && filterCol in df.columns ==>
      && r.Ok?
      && r.value.columns == df.columns
      && (forall row :: row in r.value.rows <==> row in df.rows && InValues(row, filterCol, valueList))
      && (forall row :: multiset(r.value.rows)[row] ==
            if InValues(row, filterCol, valueList) then multiset(df.rows)[row] else 0)
  {
    if valueList == [] then Ok(Frame(df.columns, []))
    else if filterCol !in df.columns then Err(ValueError(filterCol))
    else Ok(Frame(df.columns, Where(df.rows, row => InValues(row, filterCol, valueList))))
  }

  /** filter_df keeps the original row order: filtering a table split in two filters each half. */
  lemma FilterDfKeepsOrder<V(!new)>(columns: seq<Column>, a: seq<map<Column, V>>, b: seq<map<Column, V>>,
                                        filterCol: Column, valueList: seq<V>)
    requires valueList != [] && filterCol in columns
    ensures FilterDf(Frame(columns, a + b), filterCol, valueList).value.rows
         == FilterDf(Frame(columns, a), filterCol, valueList).value.rows
          + FilterDf(Frame(columns, b), filterCol, valueList).value.rows
  {
    WhereAppend(a, b, row => InValues(row, filterCol, valueList));
  }

  predicate StrictlyAscending(s: seq<int>) {
    forall i, j :: 0 <= i < j < |s| ==> s[i] < s[j]
  }

  function Id(x: int): int { x }

  function IdKey(x: int): (int, int) { (x, 0) }

  lemma UniqueIdsDistinct(subjectIds: seq<int>)
    ensures Distinct(DropDuplicatesBy(subjectIds, Id))
  {
    var unique := DropDuplicatesBy(subjectIds, Id);
    forall i, j | 0 <= i < j < |unique| ensures unique[i] != unique[j] {
      assert Id(unique[i]) != Id(unique[j]);
    }
  }

  lemma UniqueIdsValues(subjectIds: seq<int>)
    ensures (set x | x in DropDuplicatesBy(subjectIds, Id)) == (set x | x in subjectIds)
    ensures forall x :: x in DropDuplicatesBy(subjectIds, Id) <==> x in subjectIds
  {
    var unique := DropDuplicatesBy(subjectIds, Id);
    assert KeysOf(unique, Id) == KeysOf(subjectIds, Id);
    forall x ensures x in unique <==> x in subjectIds {
      assert x in unique <==> Id(x) in KeysOf(unique, Id);
      assert x in subjectIds <==> Id(x) in KeysOf(subjectIds, Id);
    }
  }

  lemma SameMembers(a: seq<int>, b: seq<int>)
    requires multiset(a) == multiset(b)
    ensures forall x :: x in a <==> x in b
  {
    forall x ensures x in a <==> x in b {
      assert x in a <==> x in multiset(a);
      assert x in b <==> x in multiset(b);
    }
  }

  lemma SortedDistinctAscending(s: seq<int>)
    requires SortedBy(s, IdKey) && Distinct(s)
    ensures StrictlyAscending(s)
  {
    forall i, j | 0 <= i < j < |s| ensures s[i] < s[j] {
      assert LexLe(IdKey(s[i]), IdKey(s[j]));
    }
  }

  /** The distinct values of the subject_id column, sorted ascending (unique() then sort). */
  function SortedUniqueIds(subjectIds: seq<int>): (r: seq<int>)
    ensures StrictlyAscending(r)
    ensures forall x :: x in r <==> x in subjectIds
    ensures |r| == |set x | x in subjectIds|
  {
    var unique := DropDuplicatesBy(subjectIds, Id);
    var sorted := SortBy(unique, IdKey);
    assert StrictlyAscending(sorted) && |sorted| == |set x | x in subjectIds| by {
      UniqueIdsDistinct(subjectIds);
      UniqueIdsValues(subjectIds);
      PermutationDistinct(unique, sorted);
      SortedDistinctAscending(sorted);
      DistinctCardinality(unique);
    }
    assert forall x :: x in sorted <==> x in subjectIds by {
      UniqueIdsValues(subjectIds);
      SameMembers(unique, sorted);
    }
    sorted
  }

  /** The first `n` values of a sorted id list (none when n <= 0, all when n exceeds its length). */
  function Take(sorted: seq<int>, n: int): seq<int> {
    if n <= 0 then [] else if n > |sorted| then sorted else sorted[..n]
  }

  lemma TakeAscending(sorted: seq<int>, n: int)
    requires StrictlyAscending(sorted)
    ensures StrictlyAscending(Take(sorted, n))
    ensures |Take(sorted, n)| == if n <= 0 then 0 else if n < |sorted| then n else |sorted|
  {
  }

  lemma TakeSmallest(sorted: seq<int>, n: int)
    requires StrictlyAscending(sorted)
    ensures forall x, y :: x in sorted && x !in Take(sorted, n) && y in Take(sorted, n) ==> y < x
    ensures forall y :: y in Take(sorted, n) ==> y in sorted
  {
    var r := Take(sorted, n);
    forall x, y | x in sorted && x !in r && y in r ensures y < x {
      var k :| 0 <= k < |sorted| && sorted[k] == x;
      var i :| 0 <= i < |r| && r[i] == y;
      assert r[i] == sorted[i];
      assert i < k;
    }
  }

  /**
   * get_dev_cohort_list: the `numSubjectIds` smallest distinct subject ids of
   * the subject_id column, in ascending order (all of them when there are fewer).
   */
  function GetDevCohortList(subjectIds: seq<int>, numSubjectIds: int): (r: seq<int>)
    ensures numSubjectIds <= 0 ==> r == []
    ensures StrictlyAscending(r)
    ensures forall x :: x in r ==> x in subjectIds
    ensures |r| == if numSubjectIds <= 0 then 0
                   else if numSubjectIds < |set x | x in subjectIds| then numSubjectIds
                   else |set x | x in subjectIds|
    ensures forall x, y :: x in subjectIds && x !in r && y in r ==> y < x
  {
    var sorted := SortedUniqueIds(subjectIds);
    TakeAscending(sorted, numSubjectIds);
    TakeSmallest(sorted, numSubjectIds);
    Take(sorted, numSubjectIds)
  }

  // ---------------------------------------------------------------------------
  // join_infections
  // ---------------------------------------------------------------------------

  /** One row of an admission-level infection table: a flag that may be missing. */
  datatype FlagRow = FlagRow(subject: int, hadm: int, flag: Option<int>)

  /** A row of the joined infection table; every cell is filled. */
  datatype Infection = Infection(subject: int, hadm: int, hasIcd9Infection: int, hasNoteInfection: int)

  function Keyed(df: seq<FlagRow>): (r: seq<((int, int), Option<int>)>)
    ensures |r| == |df|
    ensures forall i :: 0 <= i < |df| ==> r[i] == ((df[i].subject, df[i].hadm), df[i].flag)
  {
    if df == [] then [] else [((df[0].subject, df[0].hadm), df[0].flag)] + Keyed(df[1..])
  }

  /** fillna(0) on a cell that the join may have left missing. */
  function ZeroIfMissing(cell: Option<Option<int>>): int {
    if cell.Some? && cell.value.Some? then cell.value.value else 0
  }

  /** The full outer join of the two tables on (subject_id, hadm_id), every missing cell replaced by 0. */
  function ZeroFilledJoin(df1: seq<FlagRow>, df2: seq<FlagRow>): seq<Infection> {
    var joined := OuterJoin(Keyed(df1), Keyed(df2));
    seq(|joined|, i requires 0 <= i < |joined| =>
      Infection(joined[i].0.0, joined[i].0.1, ZeroIfMissing(joined[i].1), ZeroIfMissing(joined[i].2)))
  }

  /** The flag a table holds for an admission, 0 if it has no row for it or the cell is missing. */
  function FlagOf(df: seq<FlagRow>, subject: int, hadm: int): int {
    if df == [] then 0
    else if df[0].subject == subject && df[0].hadm == hadm then
      (if df[0].flag.Some? then df[0].flag.value else 0)
    else FlagOf(df[1..], subject, hadm)
  }

  predicate AdmissionsUnique(df: seq<FlagRow>) {
    forall i, j :: 0 <= i < j < |df| ==> (df[i].subject, df[i].hadm) != (df[j].subject, df[j].hadm)
  }

  predicate HasAdmission(df: seq<FlagRow>, subject: int, hadm: int) {
    exists f :: f in df && f.subject == subject && f.hadm == hadm
  }

  lemma {:induction false} FlagOfRow(df: seq<FlagRow>, i: nat)
    requires AdmissionsUnique(df) && i < |df|
    ensures FlagOf(df, df[i].subject, df[i].hadm) == if df[i].flag.Some? then df[i].flag.value else 0
  {
    if i > 0 {
      assert (df[0].subject, df[0].hadm) != (df[i].subject, df[i].hadm);
      assert df[1..][i - 1] == df[i];
      FlagOfRow(df[1..], i - 1);
    }
  }

  lemma {:induction false} FlagOfAbsent(df: seq<FlagRow>, subject: int, hadm: int)
    requires !HasAdmission(df, subject, hadm)
    ensures FlagOf(df, subject, hadm) == 0
  {
    if df != [] {
      assert df[0] in df;
      assert !HasAdmission(df[1..], subject, hadm) by {
        forall f | f in df[1..] ensures !(f.subject == subject && f.hadm == hadm) {
          assert f in df;
        }
      }
      FlagOfAbsent(df[1..], subject, hadm);
    }
  }

  lemma KeyedUnique(df: seq<FlagRow>)
    requires AdmissionsUnique(df)
    ensures KeysUnique(Keyed(df))
  {
  }

  lemma KeyedHasKey(df: seq<FlagRow>, subject: int, hadm: int)
    ensures HasKey(Keyed(df), (subject, hadm)) <==> HasAdmission(df, subject, hadm)
  {
    var kd := Keyed(df);
    if HasKey(kd, (subject, hadm)) {
      var p :| p in kd && p.0 == (subject, hadm);
      var i :| 0 <= i < |kd| && kd[i] == p;
      assert df[i] in df;
    }
    if HasAdmission(df, subject, hadm) {
      var f :| f in df && f.subject == subject && f.hadm == hadm;
      var i :| 0 <= i < |df| && df[i] == f;
      assert kd[i] in kd;
    }
  }

  lemma JoinInfectionsAt(df1: seq<FlagRow>, df2: seq<FlagRow>, i: nat)
    requires i < |ZeroFilledJoin(df1, df2)|
    ensures var joined := OuterJoin(Keyed(df1), Keyed(df2));
      && |joined| == |ZeroFilledJoin(df1, df2)|
      && joined[i] in joined
      && ZeroFilledJoin(df1, df2)[i] ==
           Infection(joined[i].0.0, joined[i].0.1, ZeroIfMissing(joined[i].1), ZeroIfMissing(joined[i].2))
  {
  }

  /** With one row per admission in each input, the joined table has one row per admission. */
  lemma JoinInfectionsAdmissionsUnique(df1: seq<FlagRow>, df2: seq<FlagRow>)
    requires AdmissionsUnique(df1) && AdmissionsUnique(df2)
    ensures var out := ZeroFilledJoin(df1, df2);
      forall i, j :: 0 <= i < j < |out| ==> (out[i].subject, out[i].hadm) != (out[j].subject, out[j].hadm)
  {
    var out := ZeroFilledJoin(df1, df2);
    var joined := OuterJoin(Keyed(df1), Keyed(df2));
    KeyedUnique(df1);
    KeyedUnique(df2);
    OuterJoinOneRowPerKey(Keyed(df1), Keyed(df2));
    forall i, j | 0 <= i < j < |out| ensures (out[i].subject, out[i].hadm) != (out[j].subject, out[j].hadm) {
      JoinInfectionsAt(df1, df2, i);
      JoinInfectionsAt(df1, df2, j);
      assert joined[i].0 != joined[j].0;
    }
  }

  lemma JoinInfectionsRowIsAdmission(df1: seq<FlagRow>, df2: seq<FlagRow>, r: Infection)
    requires r in ZeroFilledJoin(df1, df2)
    ensures HasAdmission(df1, r.subject, r.hadm) || HasAdmission(df2, r.subject, r.hadm)
  {
    var out := ZeroFilledJoin(df1, df2);
    var joined := OuterJoin(Keyed(df1), Keyed(df2));
    KeyedHasKey(df1, r.subject, r.hadm);
    KeyedHasKey(df2, r.subject, r.hadm);
    var i :| 0 <= i < |out| && out[i] == r;
    JoinInfectionsAt(df1, df2, i);
    var row := joined[i];
    if row.1.Some? {
      assert (row.0, row.1.value) in Keyed(df1);
    } else {
      assert (row.0, row.2.value) in Keyed(df2);
    }
  }

  lemma JoinedRowInOutput(df1: seq<FlagRow>, df2: seq<FlagRow>, row: ((int, int), Option<Option<int>>, Option<Option<int>>))
    requires row in OuterJoin(Keyed(df1), Keyed(df2))
    ensures exists r :: r in ZeroFilledJoin(df1, df2) && r.subject == row.0.0 && r.hadm == row.0.1
  {
    var joined := OuterJoin(Keyed(df1), Keyed(df2));
    var i :| 0 <= i < |joined| && joined[i] == row;
    JoinInfectionsAt(df1, df2, i);
    assert ZeroFilledJoin(df1, df2)[i] in ZeroFilledJoin(df1, df2);
  }

  lemma AdmissionHasJoinedRow(df1: seq<FlagRow>, df2: seq<FlagRow>, s: int, h: int)
    requires HasAdmission(df1, s, h) || HasAdmission(df2, s, h)
    ensures exists r :: r in ZeroFilledJoin(df1, df2) && r.subject == s && r.hadm == h
  {
    var k1, k2 := Keyed(df1), Keyed(df2);
    KeyedHasKey(df1, s, h);
    KeyedHasKey(df2, s, h);
    var row: ((int, int), Option<Option<int>>, Option<Option<int>>);
    if HasKey(k1, (s, h)) {
      var p :| p in k1 && p.0 == (s, h);
      if HasKey(k2, (s, h)) {
        var q :| q in k2 && q.0 == (s, h);
        row := ((s, h), Some(p.1), Some(q.1));
      } else {
        row := ((s, h), Some(p.1), None);
      }
    } else {
      var q :| q in k2 && q.0 == (s, h);
      row := ((s, h), None, Some(q.1));
    }
    assert row in OuterJoin(k1, k2) by {
      assert row.1.Some? ==> (row.0, row.1.value) in k1;
      assert row.2.Some? ==> (row.0, row.2.value) in k2;
    }
    JoinedRowInOutput(df1, df2, row);
  }

  /** The joined table has a row for an admission exactly when either input has one. */
  lemma JoinInfectionsCoversAdmissions(df1: seq<FlagRow>, df2: seq<FlagRow>, s: int, h: int)
    ensures (exists r :: r in ZeroFilledJoin(df1, df2) && r.subject == s && r.hadm == h) <==>
            HasAdmission(df1, s, h) || HasAdmission(df2, s, h)
  {
    if exists r :: r in ZeroFilledJoin(df1, df2) && r.subject == s && r.hadm == h {
      var r :| r in ZeroFilledJoin(df1, df2) && r.subject == s && r.hadm == h;
      JoinInfectionsRowIsAdmission(df1, df2, r);
    }
    if HasAdmission(df1, s, h) || HasAdmission(df2, s, h) {
      AdmissionHasJoinedRow(df1, df2, s, h);
    }
  }

  /** A joined cell, zero-filled, is the flag its input holds for the admission. */
  lemma CellFlag(df: seq<FlagRow>, key: (int, int), cell: Option<Option<int>>)
    requires AdmissionsUnique(df)
    requires cell.Some? ==> (key, cell.value) in Keyed(df)
    requires cell.None? ==> !HasKey(Keyed(df), key)
    ensures ZeroIfMissing(cell) == FlagOf(df, key.0, key.1)
  {
    var kd := Keyed(df);
    if cell.Some? {
      var j :| 0 <= j < |kd| && kd[j] == (key, cell.value);
      FlagOfRow(df, j);
    } else {
      KeyedHasKey(df, key.0, key.1);
      FlagOfAbsent(df, key.0, key.1);
    }
  }

  /**
   * With one row per admission in each input, every joined row carries each
   * input's flag for its admission, and 0 where that input has no row for it or
   * its cell is missing.
   */
  lemma JoinInfectionsFlags(df1: seq<FlagRow>, df2: seq<FlagRow>)
    requires AdmissionsUnique(df1) && AdmissionsUnique(df2)
    ensures forall r :: r in ZeroFilledJoin(df1, df2) ==>
      r.hasIcd9Infection == FlagOf(df1, r.subject, r.hadm) &&
      r.hasNoteInfection == FlagOf(df2, r.subject, r.hadm)
  {
    var joined := OuterJoin(Keyed(df1), Keyed(df2));
    var out := ZeroFilledJoin(df1, df2);
    forall r | r in out ensures r.hasIcd9Infection == FlagOf(df1, r.subject, r.hadm)
                           && r.hasNoteInfection == FlagOf(df2, r.subject, r.hadm) {
      var i :| 0 <= i < |out| && out[i] == r;
      JoinInfectionsAt(df1, df2, i);
      var row := joined[i];
      CellFlag(df1, row.0, row.1);
      CellFlag(df2, row.0, row.2);
    }
  }

  /**
   * join_infections: the full outer join of the two tables on (subject_id,
   * hadm_id), every missing cell replaced by 0. It has a row for an admission
   * exactly when either table has one; with one row per admission in each table
   * it has one row per admission, carrying the ICD-9 flag of the first table and
   * the note flag of the second, 0 where a table has no row or the cell is missing.
   */
  function JoinInfections(df1: seq<FlagRow>, df2: seq<FlagRow>): (r: seq<Infection>)
    ensures forall s, h :: (exists x :: x in r && x.subject == s && x.hadm == h) <==>
      HasAdmission(df1, s, h) || HasAdmission(df2, s, h)
    ensures AdmissionsUnique(df1) && AdmissionsUnique(df2) ==>
      forall i, j :: 0 <= i < j < |r| ==> (r[i].subject, r[i].hadm) != (r[j].subject, r[j].hadm)
    ensures AdmissionsUnique(df1) && AdmissionsUnique(df2) ==>
      forall x :: x in r ==> x.hasIcd9Infection == FlagOf(df1, x.subject, x.hadm) &&
                             x.hasNoteInfection == FlagOf(df2, x.subject, x.hadm)
  {
    assert forall s, h :: (exists x :: x in ZeroFilledJoin(df1, df2) && x.subject == s && x.hadm == h) <==>
      HasAdmission(df1, s, h) || HasAdmission(df2, s, h) by {
      forall s, h ensures (exists x :: x in ZeroFilledJoin(df1, df2) && x.subject == s && x.hadm == h) <==>
        HasAdmission(df1, s, h) || HasAdmission(df2, s, h) {
        JoinInfectionsCoversAdmissions(df1, df2, s, h);
      }
    }
    if AdmissionsUnique(df1) && AdmissionsUnique(df2) then
      JoinInfectionsAdmissionsUnique(df1, df2);
      JoinInfectionsFlags(df1, df2);
      ZeroFilledJoin(df1, df2)
    else
      ZeroFilledJoin(df1, df2)
  }
}
