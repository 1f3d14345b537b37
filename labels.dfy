// Admission labelling (labels.py): the 12-hour admission filter, the merge of
// the septic-shock rows with their admissions, the relative charttime and
// index time columns, and the septic-shock label of each subject's latest
// admission.
//
// Times are whole seconds. relative_charttime is in hours, as a real; a
// missing cell (NaN) is None and compares as false.

module Labels {
  import opened Tables
  import Trewscore

  /** One row of the admissions table. */
  datatype Admission = Admission(subject: int, hadm: int, admittime: int, dischtime: int)

  /** Twelve hours, in seconds. */
  const TwelveHours: int := 43200

  predicate LongEnough(a: Admission) {
    a.dischtime - a.admittime >= TwelveHours
  }

  /** filter_admissions: the admissions that last at least twelve hours, in their order. */
  function FilterAdmissions(admissions: seq<Admission>): (r: seq<Admission>)
    ensures forall a :: a in r <==> a in admissions && a.dischtime - a.admittime >= TwelveHours
    ensures forall a :: multiset(r)[a] == if a.dischtime - a.admittime >= TwelveHours then multiset(admissions)[a] else 0
  {
    Where(admissions, LongEnough)
  }

  // ------------------------------------------------------------------- merge

  /** A row of the merged cohort: a septic-shock row with its admission and the two time columns. */
  datatype CohortRow = CohortRow(subject: int, hadm: int, icustay: int, charttime: int, septicShock: bool,
                                 admittime: int, dischtime: int,
                                 relativeCharttime: Option<real>, indexTime: Option<int>)

  function ShockKey(s: Trewscore.ShockRow): (int, int) { (s.subject, s.hadm) }

  function AdmissionKey(a: Admission): (int, int) { (a.subject, a.hadm) }

  /** A merged row before the time columns exist. */
  function Untimed(s: Trewscore.ShockRow, a: Admission): CohortRow {
    CohortRow(s.subject, s.hadm, s.icustay, s.charttime, s.septicShock, a.admittime, a.dischtime, None, None)
  }

  /** Hours from admission to charttime, unrounded. */
  function RelativeHours(charttime: int, admittime: int): real {
    (charttime - admittime) as real / 3600.0
  }

  type JoinedAdmission = ((int, int), Trewscore.ShockRow, Admission)

  /** The inner join of the septic-shock rows with the admissions on (subject_id, hadm_id). */
  function JoinAdmissions(cohortLabels: seq<Trewscore.ShockRow>, admissions: seq<Admission>): seq<JoinedAdmission> {
    InnerJoin(KeyBy(cohortLabels, ShockKey), KeyBy(admissions, AdmissionKey))
  }

  function UntimedRows(joined: seq<JoinedAdmission>): (r: seq<CohortRow>)
    ensures |r| == |joined| && forall i :: 0 <= i < |joined| ==> r[i] == Untimed(joined[i].1, joined[i].2)
  {
    seq(|joined|, i requires 0 <= i < |joined| => Untimed(joined[i].1, joined[i].2))
  }

  /** A joined row pairs a septic-shock row with an admission of the same key. */
  lemma JoinedAdmissionRow(cohortLabels: seq<Trewscore.ShockRow>, admissions: seq<Admission>, row: JoinedAdmission)
    requires row in JoinAdmissions(cohortLabels, admissions)
    ensures row.1 in cohortLabels && row.2 in admissions && ShockKey(row.1) == AdmissionKey(row.2)
  {
  }

  /** The inner merge on (subject_id, hadm_id), before the time columns are added. */
  function InnerMerge(cohortLabels: seq<Trewscore.ShockRow>, admissions: seq<Admission>): (r: seq<CohortRow>)
    ensures forall c :: c in r <==>
      exists s, a :: s in cohortLabels && a in admissions && ShockKey(s) == AdmissionKey(a) && c == Untimed(s, a)
  {
    var joined := JoinAdmissions(cohortLabels, admissions);
    var r := UntimedRows(joined);
    forall c | c in r
      ensures exists s, a :: s in cohortLabels && a in admissions && ShockKey(s) == AdmissionKey(a) && c == Untimed(s, a)
    {
      var i :| 0 <= i < |r| && r[i] == c;
      JoinedAdmissionRow(cohortLabels, admissions, joined[i]);
    }
    forall s, a | s in cohortLabels && a in admissions && ShockKey(s) == AdmissionKey(a)
      ensures Untimed(s, a) in r
    {
      var row := (ShockKey(s), s, a);
      assert row in joined;
      var i :| 0 <= i < |joined| && joined[i] == row;
      assert r[i] == Untimed(s, a);
    }
    r
  }

  function WithRelativeCharttime(c: CohortRow): CohortRow {
    c.(relativeCharttime := Some(RelativeHours(c.charttime, c.admittime)))
  }

  function WithIndexTime(c: CohortRow): CohortRow {
    c.(indexTime := Some(c.admittime + TwelveHours))
  }

  /** A merged row with both time columns. */
  function Timed(s: Trewscore.ShockRow, a: Admission): CohortRow {
    WithIndexTime(WithRelativeCharttime(Untimed(s, a)))
  }

  /** get_relative_charttime: adds the relative charttime column in place; no other cell changes. */
  method GetRelativeCharttime(rows: array<CohortRow>)
    modifies rows
    ensures forall i :: 0 <= i < rows.Length ==>
      rows[i] == old(rows[i]).(relativeCharttime := Some(RelativeHours(old(rows[i]).charttime, old(rows[i]).admittime)))
  {
    forall i | 0 <= i < rows.Length {
      rows[i] := WithRelativeCharttime(rows[i]);
    }
  }

  /** get_index_time: adds the index time column, twelve hours after admission, in place; no other cell changes. */
  method GetIndexTime(rows: array<CohortRow>)
    modifies rows
    ensures forall i :: 0 <= i < rows.Length ==> rows[i] == old(rows[i]).(indexTime := Some(old(rows[i]).admittime + TwelveHours))
  {
    forall i | 0 <= i < rows.Length {
      rows[i] := WithIndexTime(rows[i]);
    }
  }

  method NewCohortFrame(rows: seq<CohortRow>) returns (frame: array<CohortRow>)
    ensures fresh(frame) && frame[..] == rows
  {
    frame := new CohortRow[|rows|];
    forall i | 0 <= i < |rows| {
      frame[i] := rows[i];
    }
  }

  /** A timed merge row pairs a septic-shock row with an admission of the same key. */
  lemma TimedRowsSound(cohortLabels: seq<Trewscore.ShockRow>, admissions: seq<Admission>, merged: seq<CohortRow>, c: CohortRow)
    requires |merged| == |InnerMerge(cohortLabels, admissions)|
    requires forall i :: 0 <= i < |merged| ==> merged[i] == WithIndexTime(WithRelativeCharttime(InnerMerge(cohortLabels, admissions)[i]))
    requires c in merged
    ensures exists s, a :: s in cohortLabels && a in admissions && ShockKey(s) == AdmissionKey(a) && c == Timed(s, a)
  {
    var untimed := InnerMerge(cohortLabels, admissions);
    var i :| 0 <= i < |merged| && merged[i] == c;
    assert untimed[i] in untimed;
    var s, a :| s in cohortLabels && a in admissions && ShockKey(s) == AdmissionKey(a) && untimed[i] == Untimed(s, a);
    assert c == Timed(s, a);
  }

  /** Every pair of rows with equal keys has its timed merge row. */
  lemma TimedRowsComplete(cohortLabels: seq<Trewscore.ShockRow>, admissions: seq<Admission>, merged: seq<CohortRow>,
                          s: Trewscore.ShockRow, a: Admission)
    requires |merged| == |InnerMerge(cohortLabels, admissions)|
    requires forall i :: 0 <= i < |merged| ==> merged[i] == WithIndexTime(WithRelativeCharttime(InnerMerge(cohortLabels, admissions)[i]))
    requires s in cohortLabels && a in admissions && ShockKey(s) == AdmissionKey(a)
    ensures Timed(s, a) in merged
  {
    var untimed := InnerMerge(cohortLabels, admissions);
    assert Untimed(s, a) in untimed;
    var i :| 0 <= i < |untimed| && untimed[i] == Untimed(s, a);
    assert merged[i] == Timed(s, a);
  }

  /** The timed rows of the merge: each untimed row with both time columns. */
  lemma TimedMergeRows(cohortLabels: seq<Trewscore.ShockRow>, admissions: seq<Admission>, merged: seq<CohortRow>)
    requires |merged| == |InnerMerge(cohortLabels, admissions)|
    requires forall i :: 0 <= i < |merged| ==> merged[i] == WithIndexTime(WithRelativeCharttime(InnerMerge(cohortLabels, admissions)[i]))
    ensures forall c :: c in merged <==>
      exists s, a :: s in cohortLabels && a in admissions && ShockKey(s) == AdmissionKey(a) && c == Timed(s, a)
  {
    forall c | c in merged
      ensures exists s, a :: s in cohortLabels && a in admissions && ShockKey(s) == AdmissionKey(a) && c == Timed(s, a)
    {
      TimedRowsSound(cohortLabels, admissions, merged, c);
    }
    forall s, a | s in cohortLabels && a in admissions && ShockKey(s) == AdmissionKey(a)
      ensures Timed(s, a) in merged
    {
      TimedRowsComplete(cohortLabels, admissions, merged, s, a);
    }
  }

  /**
   * merge_and_create_times: the inner merge of the septic-shock rows with their
   * admissions on (subject_id, hadm_id), then the two time columns added in
   * place. A merged row exists exactly for each pair of rows with equal keys.
   */
  method MergeAndCreateTimes(cohortLabels: seq<Trewscore.ShockRow>, admissions: seq<Admission>) returns (merged: array<CohortRow>)
    ensures fresh(merged)
    ensures forall c :: c in merged[..] <==>
      exists s, a :: s in cohortLabels && a in admissions && ShockKey(s) == AdmissionKey(a) && c == Timed(s, a)
  {
    var untimed := InnerMerge(cohortLabels, admissions);
    merged := NewCohortFrame(untimed);
    GetRelativeCharttime(merged);
    GetIndexTime(merged);
    TimedMergeRows(cohortLabels, admissions, merged[..]);
  }

  /** Relative hours below 15 are exactly charttimes less than 54000 seconds after admission. */
  lemma RelativeBelowFifteen(charttime: int, admittime: int)
    ensures RelativeHours(charttime, admittime) < 15.0 <==> charttime - admittime < 54000
  {
    var d := charttime - admittime;
    if d < 54000 {
      assert d as real <= 53999.0;
    } else {
      assert d as real >= 54000.0;
    }
  }

  // ---------------------------------------------------------------- labelling

  /** Septic shock before fifteen hours; a missing relative time compares as false. */
  predicate EarlyShock(c: CohortRow) {
    c.septicShock && c.relativeCharttime.Some? && c.relativeCharttime.value < 15.0
  }

  /** Septic shock at fifteen hours or later. */
  predicate LateShock(c: CohortRow) {
    c.septicShock && c.relativeCharttime.Some? && c.relativeCharttime.value >= 15.0
  }

  /** Admission h has a row with septic shock before fifteen hours. */
  predicate Excluded(rows: seq<CohortRow>, h: int) {
    exists x :: x in rows && x.hadm == h && EarlyShock(x)
  }

  predicate HasLateShock(rows: seq<CohortRow>, h: int) {
    exists x :: x in rows && x.hadm == h && LateShock(x)
  }

  predicate NeverShocked(rows: seq<CohortRow>, h: int) {
    forall x :: x in rows && x.hadm == h ==> !x.septicShock
  }

  predicate HasAdmission(rows: seq<CohortRow>, h: int) {
    exists x :: x in rows && x.hadm == h
  }

  /** check_exclude, and the exclusion step of get_shock_labels: admissions with septic shock before fifteen hours. */
  function CheckExclude(rows: seq<CohortRow>): (r: set<int>)
    ensures forall h :: h in r <==> Excluded(rows, h)
  {
    set x | x in rows && EarlyShock(x) :: x.hadm
  }

  /** The rows of the admissions that are not excluded, in their order. */
  function Survivors(rows: seq<CohortRow>): (r: seq<CohortRow>)
    ensures forall x :: x in r <==> x in rows && !Excluded(rows, x.hadm)
  {
    var excludes := CheckExclude(rows);
    Where(rows, (x: CohortRow) => x.hadm !in excludes)
  }

  /** check_positive: admissions with septic shock at fifteen hours or later. */
  function CheckPositive(rows: seq<CohortRow>): (r: set<int>)
    ensures forall h :: h in r <==> HasLateShock(rows, h)
  {
    set x | x in rows && LateShock(x) :: x.hadm
  }

  /** check_negative: admissions whose rows never have septic shock (the group maximum is False). */
  function CheckNegative(rows: seq<CohortRow>): (r: set<int>)
    ensures forall h :: h in r <==> HasAdmission(rows, h) && NeverShocked(rows, h)
  {
    set x | x in rows && NeverShocked(rows, x.hadm) :: x.hadm
  }

  /** A merged row with its label; None where neither label was written. */
  datatype LabelledRow = LabelledRow(row: CohortRow, shockLabel: Option<bool>)

  /** The label column after the two `.loc` writes: positives first, then negatives. */
  function LabelOf(h: int, pos: set<int>, neg: set<int>): Option<bool> {
    if h in neg then Some(false) else if h in pos then Some(true) else None
  }

  function WithLabels(rows: seq<CohortRow>, pos: set<int>, neg: set<int>): (r: seq<LabelledRow>)
    ensures |r| == |rows| && forall i :: 0 <= i < |rows| ==> r[i] == LabelledRow(rows[i], LabelOf(rows[i].hadm, pos, neg))
  {
    seq(|rows|, i requires 0 <= i < |rows| => LabelledRow(rows[i], LabelOf(rows[i].hadm, pos, neg)))
  }

  /** Sort key: subject ascending, admittime descending. */
  function LatestFirst(x: LabelledRow): (int, int) { (x.row.subject, -x.row.admittime) }

  function LabelledSubject(x: LabelledRow): int { x.row.subject }

  /** One row of the output of get_shock_labels. */
  datatype LabelRow = LabelRow(subject: int, hadm: int, admittime: int, dischtime: int,
                               indexTime: Option<int>, shockLabel: Option<bool>, icustay: int)

  function ToLabelRow(x: LabelledRow): LabelRow {
    LabelRow(x.row.subject, x.row.hadm, x.row.admittime, x.row.dischtime, x.row.indexTime, x.shockLabel, x.row.icustay)
  }

  /** The final column selection. */
  function Project(rows: seq<LabelledRow>): (r: seq<LabelRow>)
    ensures |r| == |rows| && forall i :: 0 <= i < |rows| ==> r[i] == ToLabelRow(rows[i])
  {
    seq(|rows|, i requires 0 <= i < |rows| => ToLabelRow(rows[i]))
  }

  /** An output row comes from a merged row of its admission with the same columns. */
  predicate FromMerged(merged: seq<CohortRow>, o: LabelRow) {
    exists x :: x in merged && ToLabelRow(LabelledRow(x, o.shockLabel)) == o
  }

  /** Exclusion is per admission: an admission that survives keeps all its rows. */
  lemma SurvivorsKeepAdmission(rows: seq<CohortRow>, h: int)
    requires !Excluded(rows, h)
    ensures HasLateShock(Survivors(rows), h) <==> HasLateShock(rows, h)
    ensures NeverShocked(Survivors(rows), h) <==> NeverShocked(rows, h)
    ensures HasAdmission(Survivors(rows), h) <==> HasAdmission(rows, h)
  {
  }

  /**
   * The partition at fifteen hours: once relative times are present, an
   * admission that is not excluded either has late septic shock or never has
   * septic shock, and not both.
   */
  lemma LabelPartition(rows: seq<CohortRow>, h: int)
    requires forall x :: x in rows ==> x.relativeCharttime.Some?
    requires HasAdmission(rows, h) && !Excluded(rows, h)
    ensures HasLateShock(rows, h) <==> !NeverShocked(rows, h)
  {
    if !NeverShocked(rows, h) {
      var x :| x in rows && x.hadm == h && x.septicShock;
      assert !EarlyShock(x);
      assert LateShock(x);
    }
  }

  /** The first row of a subject in the sorted order has the latest admittime of that subject. */
  lemma FirstIsLatest(sorted: seq<LabelledRow>, i: nat, x: LabelledRow)
    requires SortedBy(sorted, LatestFirst) && i < |sorted|
    requires forall j :: 0 <= j < i ==> LabelledSubject(sorted[j]) != LabelledSubject(sorted[i])
    requires x in sorted && x.row.subject == sorted[i].row.subject
    ensures x.row.admittime <= sorted[i].row.admittime
  {
    var j :| 0 <= j < |sorted| && sorted[j] == x;
    if j > i {
      assert LexLe(LatestFirst(sorted[i]), LatestFirst(sorted[j]));
    }
  }

  /** Each output row carries the latest admittime of its subject among the surviving rows. */
  lemma LatestPerSubject(labelled: seq<LabelledRow>, latest: seq<LabelledRow>)
    requires latest == DropDuplicatesBy(SortBy(labelled, LatestFirst), LabelledSubject)
    ensures forall o, x :: o in latest && x in labelled && x.row.subject == o.row.subject ==> x.row.admittime <= o.row.admittime
  {
    var sorted := SortBy(labelled, LatestFirst);
    forall o, x | o in latest && x in labelled && x.row.subject == o.row.subject
      ensures x.row.admittime <= o.row.admittime
    {
      var k := LabelledSubject(o);
      assert k in KeysOf(sorted, LabelledSubject);
      var i := FirstIndexOf(sorted, LabelledSubject, k);
      assert o == sorted[i];
      assert x in multiset(sorted);
      FirstIsLatest(sorted, i, x);
    }
  }

  /** Every surviving subject has an output row. */
  lemma EverySubjectLabelled(labelled: seq<LabelledRow>, latest: seq<LabelledRow>, x: LabelledRow)
    requires latest == DropDuplicatesBy(SortBy(labelled, LatestFirst), LabelledSubject)
    requires x in labelled
    ensures exists o :: o in latest && o.row.subject == x.row.subject
  {
    var sorted := SortBy(labelled, LatestFirst);
    assert x in multiset(sorted);
    assert LabelledSubject(x) in KeysOf(sorted, LabelledSubject);
    assert LabelledSubject(x) in KeysOf(latest, LabelledSubject);
  }

  /** The label of a surviving row, in terms of the merged rows of its admission. */
  lemma LabelMeaning(merged: seq<CohortRow>, x: CohortRow)
    requires x in Survivors(merged)
    ensures var l := LabelOf(x.hadm, CheckPositive(Survivors(merged)), CheckNegative(Survivors(merged)));
      && (l == Some(true) <==> HasLateShock(merged, x.hadm))
      && (l == Some(false) <==> NeverShocked(merged, x.hadm))
  {
    SurvivorsKeepAdmission(merged, x.hadm);
    assert HasAdmission(Survivors(merged), x.hadm);
  }

  /**
   * get_shock_labels: admissions with septic shock before fifteen hours are
   * removed whole; the rest are labelled True when septic shock occurs at
   * fifteen hours or later and False when it never occurs; each subject keeps
   * the row of its latest admission. The input is not changed.
   */
  method GetShockLabels(merged: seq<CohortRow>) returns (labels: seq<LabelRow>)
    ensures forall o :: o in labels ==> FromMerged(merged, o) && !Excluded(merged, o.hadm)
    ensures forall o :: o in labels ==> (o.shockLabel == Some(true) <==> HasLateShock(merged, o.hadm))
    ensures forall o :: o in labels ==> (o.shockLabel == Some(false) <==> NeverShocked(merged, o.hadm))
    ensures forall i, j :: 0 <= i < j < |labels| ==> labels[i].subject != labels[j].subject
    ensures forall o, x :: o in labels && x in merged && x.subject == o.subject && !Excluded(merged, x.hadm) ==>
      x.admittime <= o.admittime
    ensures forall x :: x in merged && !Excluded(merged, x.hadm) ==> exists o :: o in labels && o.subject == x.subject
  {
    var labelDf := Survivors(merged);
    var pos := CheckPositive(labelDf);
    var neg := CheckNegative(labelDf);
    var labelled := WithLabels(labelDf, pos, neg);
    var sorted := SortBy(labelled, LatestFirst);
    var latest := DropDuplicatesBy(sorted, LabelledSubject);
    labels := Project(latest);
    LabelledRowsSound(merged, labelled, latest);
    LatestAmongSurvivors(merged, pos, neg, latest);
    SurvivingSubjectsLabelled(merged, pos, neg, latest);
  }

  /** A surviving merged row is among the labelled rows. */
  lemma SurvivorLabelled(merged: seq<CohortRow>, pos: set<int>, neg: set<int>, x: CohortRow)
    requires x in merged && !Excluded(merged, x.hadm)
    ensures LabelledRow(x, LabelOf(x.hadm, pos, neg)) in WithLabels(Survivors(merged), pos, neg)
  {
    var labelDf := Survivors(merged);
    assert x in labelDf;
    var k :| 0 <= k < |labelDf| && labelDf[k] == x;
    assert WithLabels(labelDf, pos, neg)[k] == LabelledRow(x, LabelOf(x.hadm, pos, neg));
  }

  /** An output row is the projection of a de-duplicated row. */
  lemma ProjectedFrom(latest: seq<LabelledRow>, o: LabelRow) returns (y: LabelledRow)
    requires o in Project(latest)
    ensures y in latest && o == ToLabelRow(y)
  {
    var i :| 0 <= i < |Project(latest)| && Project(latest)[i] == o;
    y := latest[i];
  }

  /** Each output row has the latest admittime of its subject among the rows that survive the exclusion. */
  lemma LatestAmongSurvivors(merged: seq<CohortRow>, pos: set<int>, neg: set<int>, latest: seq<LabelledRow>)
    requires latest == DropDuplicatesBy(SortBy(WithLabels(Survivors(merged), pos, neg), LatestFirst), LabelledSubject)
    ensures forall o, x :: o in Project(latest) && x in merged && x.subject == o.subject && !Excluded(merged, x.hadm) ==>
      x.admittime <= o.admittime
  {
    var labelled := WithLabels(Survivors(merged), pos, neg);
    LatestPerSubject(labelled, latest);
    forall o, x | o in Project(latest) && x in merged && x.subject == o.subject && !Excluded(merged, x.hadm)
      ensures x.admittime <= o.admittime
    {
      var y := ProjectedFrom(latest, o);
      SurvivorLabelled(merged, pos, neg, x);
      assert LabelledRow(x, LabelOf(x.hadm, pos, neg)) in labelled;
    }
  }

  /** A de-duplicated row has its projection in the output. */
  lemma ProjectedInto(latest: seq<LabelledRow>, y: LabelledRow)
    requires y in latest
    ensures ToLabelRow(y) in Project(latest)
  {
    var i :| 0 <= i < |latest| && latest[i] == y;
    assert Project(latest)[i] == ToLabelRow(y);
  }

  /** Every subject with a surviving row has an output row. */
  lemma SurvivingSubjectsLabelled(merged: seq<CohortRow>, pos: set<int>, neg: set<int>, latest: seq<LabelledRow>)
    requires latest == DropDuplicatesBy(SortBy(WithLabels(Survivors(merged), pos, neg), LatestFirst), LabelledSubject)
    ensures forall x :: x in merged && !Excluded(merged, x.hadm) ==> exists o :: o in Project(latest) && o.subject == x.subject
  {
    var labelled := WithLabels(Survivors(merged), pos, neg);
    forall x | x in merged && !Excluded(merged, x.hadm)
      ensures exists o :: o in Project(latest) && o.subject == x.subject
    {
      SurvivorLabelled(merged, pos, neg, x);
      EverySubjectLabelled(labelled, latest, LabelledRow(x, LabelOf(x.hadm, pos, neg)));
      var y :| y in latest && y.row.subject == x.subject;
      ProjectedInto(latest, y);
    }
  }

  /** A labelled row is a row of the input with the label of its admission. */
  lemma LabelledFrom(rows: seq<CohortRow>, pos: set<int>, neg: set<int>, y: LabelledRow)
    requires y in WithLabels(rows, pos, neg)
    ensures y.row in rows && y.shockLabel == LabelOf(y.row.hadm, pos, neg)
  {
    var k :| 0 <= k < |rows| && WithLabels(rows, pos, neg)[k] == y;
  }

  /** A de-duplicated row is a surviving merged row with the label of its admission. */
  lemma LatestRowMeaning(merged: seq<CohortRow>, latest: seq<LabelledRow>, y: LabelledRow)
    requires latest == DropDuplicatesBy(SortBy(WithLabels(Survivors(merged), CheckPositive(Survivors(merged)),
                                                          CheckNegative(Survivors(merged))), LatestFirst), LabelledSubject)
    requires y in latest
    ensures y.row in merged && !Excluded(merged, y.row.hadm)
    ensures y.shockLabel == Some(true) <==> HasLateShock(merged, y.row.hadm)
    ensures y.shockLabel == Some(false) <==> NeverShocked(merged, y.row.hadm)
  {
    var pos, neg := CheckPositive(Survivors(merged)), CheckNegative(Survivors(merged));
    var labelled := WithLabels(Survivors(merged), pos, neg);
    assert y in SortBy(labelled, LatestFirst);
    assert y in multiset(labelled);
    LabelledFrom(Survivors(merged), pos, neg, y);
    LabelMeaning(merged, y.row);
  }

  /** The per-row promises of the output: where each row comes from, its label, one row per subject. */
  lemma LabelledRowsSound(merged: seq<CohortRow>, labelled: seq<LabelledRow>, latest: seq<LabelledRow>)
    requires labelled == WithLabels(Survivors(merged), CheckPositive(Survivors(merged)), CheckNegative(Survivors(merged)))
    requires latest == DropDuplicatesBy(SortBy(labelled, LatestFirst), LabelledSubject)
    ensures forall o :: o in Project(latest) ==> FromMerged(merged, o) && !Excluded(merged, o.hadm)
    ensures forall o :: o in Project(latest) ==> (o.shockLabel == Some(true) <==> HasLateShock(merged, o.hadm))
    ensures forall o :: o in Project(latest) ==> (o.shockLabel == Some(false) <==> NeverShocked(merged, o.hadm))
    ensures forall i, j :: 0 <= i < j < |Project(latest)| ==> Project(latest)[i].subject != Project(latest)[j].subject
  {
    var labels := Project(latest);
    forall o | o in labels
      ensures FromMerged(merged, o) && !Excluded(merged, o.hadm)
      ensures o.shockLabel == Some(true) <==> HasLateShock(merged, o.hadm)
      ensures o.shockLabel == Some(false) <==> NeverShocked(merged, o.hadm)
    {
      var y := ProjectedFrom(latest, o);
      LatestRowMeaning(merged, latest, y);
      assert ToLabelRow(LabelledRow(y.row, o.shockLabel)) == o;
    }
    forall i, j | 0 <= i < j < |labels| ensures labels[i].subject != labels[j].subject {
      assert LabelledSubject(latest[i]) != LabelledSubject(latest[j]);
    }
  }
}
