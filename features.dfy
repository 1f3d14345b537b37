// Diagnosis features (features.py): the diagnoses before each subject's index
// time, the per-code count of distinct patients behind the information
// content (IC), the IC range filter, and the RECENT/PRIOR time bins with their
// per-(subject, code) sums.
//
// Times are whole seconds. The IC value itself (a base-2 logarithm) is taken
// as a given function of the patient count and the cohort size.

module Features {
  import opened Tables
  import Labels

  /** One row of the diagnoses table. */
  datatype Diagnosis = Diagnosis(subject: int, hadm: int, icd9: string)

  /**
   * One diagnosis feature row; `recent` and `prior` are the time-bin columns,
   * None until they are added.
   */
  datatype DxRow = DxRow(subject: int, hadm: int, icd9: string, diagnosisTime: int, indexTime: int,
                         recent: Option<int>, prior: Option<int>)

  function AdmissionKey(a: Labels.Admission): (int, int) { (a.subject, a.hadm) }

  function DiagnosisKey(d: Diagnosis): (int, int) { (d.subject, d.hadm) }

  type AdmissionDx = ((int, int), Labels.Admission, Diagnosis)

  function JoinedSubject(j: AdmissionDx): int { j.1.subject }

  function LabelSubject(l: Labels.LabelRow): int { l.subject }

  type LabelledDx = (int, AdmissionDx, Labels.LabelRow)

  /** admittime <= dischtime < index_time; a missing index time compares as false. */
  predicate InWindow(a: Labels.Admission, l: Labels.LabelRow) {
    l.indexTime.Some? && a.dischtime < l.indexTime.value && a.dischtime >= a.admittime
  }

  predicate WindowedRow(m: LabelledDx) {
    InWindow(m.1.1, m.2)
  }

  /** The output row of an admission, one of its diagnoses and the subject's label row: dischtime becomes diagnosis_time. */
  function DxRowOf(a: Labels.Admission, d: Diagnosis, l: Labels.LabelRow): DxRow
    requires l.indexTime.Some?
  {
    DxRow(a.subject, a.hadm, d.icd9, a.dischtime, l.indexTime.value, None, None)
  }

  /** The two inner merges: diagnoses with admissions on (subject_id, hadm_id), then with shock labels on subject_id. */
  function DiagnosisMerge(admissions: seq<Labels.Admission>, diagnoses: seq<Diagnosis>, shockLabels: seq<Labels.LabelRow>)
    : seq<LabelledDx>
  {
    var joined := InnerJoin(KeyBy(admissions, AdmissionKey), KeyBy(diagnoses, DiagnosisKey));
    InnerJoin(KeyBy(joined, JoinedSubject), KeyBy(shockLabels, LabelSubject))
  }

  /** The filter on the window followed by the column selection, in the merge's order. */
  function WindowedDx(merged: seq<LabelledDx>): (r: seq<DxRow>)
    ensures forall x :: x in r <==> exists m :: m in merged && WindowedRow(m) && x == DxRowOf(m.1.1, m.1.2, m.2)
  {
    if merged == [] then []
    else
      assert merged == [merged[0]] + merged[1..];
      (if WindowedRow(merged[0]) then [DxRowOf(merged[0].1.1, merged[0].1.2, merged[0].2)] else []) + WindowedDx(merged[1..])
  }

  /** A merged row pairs an admission, one of its diagnoses and a label row of the same subject. */
  lemma DiagnosisMergeRow(admissions: seq<Labels.Admission>, diagnoses: seq<Diagnosis>, shockLabels: seq<Labels.LabelRow>, m: LabelledDx)
    requires m in DiagnosisMerge(admissions, diagnoses, shockLabels)
    ensures m.1.1 in admissions && m.1.2 in diagnoses && m.2 in shockLabels
    ensures AdmissionKey(m.1.1) == DiagnosisKey(m.1.2) && m.2.subject == m.1.1.subject
  {
  }

  /** Every admission, diagnosis and label row that agree on their keys meet in the merge. */
  lemma DiagnosisMergeHas(admissions: seq<Labels.Admission>, diagnoses: seq<Diagnosis>, shockLabels: seq<Labels.LabelRow>,
                          a: Labels.Admission, d: Diagnosis, l: Labels.LabelRow)
    requires a in admissions && d in diagnoses && l in shockLabels
    requires AdmissionKey(a) == DiagnosisKey(d) && l.subject == a.subject
    ensures (a.subject, (AdmissionKey(a), a, d), l) in DiagnosisMerge(admissions, diagnoses, shockLabels)
  {
    var joined := InnerJoin(KeyBy(admissions, AdmissionKey), KeyBy(diagnoses, DiagnosisKey));
    assert (AdmissionKey(a), a, d) in joined;
  }

  /** A windowed diagnosis row, described by the input rows it comes from. */
  predicate DiagnosisFrom(admissions: seq<Labels.Admission>, diagnoses: seq<Diagnosis>, shockLabels: seq<Labels.LabelRow>, x: DxRow) {
    exists a, d, l :: a in admissions && d in diagnoses && l in shockLabels &&
                      AdmissionKey(a) == DiagnosisKey(d) && l.subject == a.subject && InWindow(a, l) && x == DxRowOf(a, d, l)
  }

  lemma GetDiagnosesSound(admissions: seq<Labels.Admission>, diagnoses: seq<Diagnosis>, shockLabels: seq<Labels.LabelRow>, x: DxRow)
    requires x in WindowedDx(DiagnosisMerge(admissions, diagnoses, shockLabels))
    ensures DiagnosisFrom(admissions, diagnoses, shockLabels, x)
  {
    var m :| m in DiagnosisMerge(admissions, diagnoses, shockLabels) && WindowedRow(m) && x == DxRowOf(m.1.1, m.1.2, m.2);
    DiagnosisMergeRow(admissions, diagnoses, shockLabels, m);
  }

  lemma GetDiagnosesComplete(admissions: seq<Labels.Admission>, diagnoses: seq<Diagnosis>, shockLabels: seq<Labels.LabelRow>,
                             a: Labels.Admission, d: Diagnosis, l: Labels.LabelRow)
    requires a in admissions && d in diagnoses && l in shockLabels
    requires AdmissionKey(a) == DiagnosisKey(d) && l.subject == a.subject && InWindow(a, l)
    ensures DxRowOf(a, d, l) in WindowedDx(DiagnosisMerge(admissions, diagnoses, shockLabels))
  {
    var m := (a.subject, (AdmissionKey(a), a, d), l);
    DiagnosisMergeHas(admissions, diagnoses, shockLabels, a, d, l);
    assert WindowedRow(m);
  }

  /**
   * get_diagnoses: the diagnoses of each admission whose discharge time lies
   * in [admittime, index_time), where the index time comes from any label row
   * of the same subject (the label merge is on subject_id only). The
   * discharge time becomes the diagnosis time.
   */
  function GetDiagnoses(admissions: seq<Labels.Admission>, diagnoses: seq<Diagnosis>, shockLabels: seq<Labels.LabelRow>)
    : (r: seq<DxRow>)
    ensures forall x :: x in r <==> DiagnosisFrom(admissions, diagnoses, shockLabels, x)
    ensures forall x :: x in r ==> x.diagnosisTime < x.indexTime
  {
    var r := WindowedDx(DiagnosisMerge(admissions, diagnoses, shockLabels));
    forall x | x in r ensures DiagnosisFrom(admissions, diagnoses, shockLabels, x) {
      GetDiagnosesSound(admissions, diagnoses, shockLabels, x);
    }
    forall x | DiagnosisFrom(admissions, diagnoses, shockLabels, x) ensures x in r {
      var a, d, l :| a in admissions && d in diagnoses && l in shockLabels &&
                     AdmissionKey(a) == DiagnosisKey(d) && l.subject == a.subject && InWindow(a, l) && x == DxRowOf(a, d, l);
      GetDiagnosesComplete(admissions, diagnoses, shockLabels, a, d, l);
    }
    r
  }

  // ---------------------------------------------------------------------- IC

  /** The distinct subjects with diagnosis code `c`. */
  function SubjectsWith(dx: seq<DxRow>, c: string): set<int> {
    set x | x in dx && x.icd9 == c :: x.subject
  }

  /** The number of distinct patients with code `c`: the count behind the code's IC. */
  function PatientCount(dx: seq<DxRow>, c: string): nat {
    |SubjectsWith(dx, c)|
  }

  /** The number of diagnosis rows with code `c`. */
  function CodeRows(dx: seq<DxRow>, c: string): nat {
    if dx == [] then 0 else (if dx[0].icd9 == c then 1 else 0) + CodeRows(dx[1..], c)
  }

  /** A code's patient count is at least one when the code occurs, and at most its number of rows. */
  lemma {:induction false} PatientCountBounds(dx: seq<DxRow>, c: string)
    ensures PatientCount(dx, c) <= CodeRows(dx, c)
    ensures (exists x :: x in dx && x.icd9 == c) ==> PatientCount(dx, c) >= 1
  {
    if dx != [] {
      PatientCountBounds(dx[1..], c);
      assert dx == [dx[0]] + dx[1..];
      var rest := SubjectsWith(dx[1..], c);
      if dx[0].icd9 == c {
        assert SubjectsWith(dx, c) == rest + {dx[0].subject};
      } else {
        assert SubjectsWith(dx, c) == rest;
      }
    }
  }

  /** One row of the IC table. */
  datatype IcRow = IcRow(icd9: string, ic: real)

  function Code(x: DxRow): string { x.icd9 }

  function IcCode(t: IcRow): string { t.icd9 }

  /** The IC rows of the given first rows, one per row, in order. */
  function IcRows(dx: seq<DxRow>, firsts: seq<DxRow>, allPatients: int, information: (nat, int) -> real): (r: seq<IcRow>)
    ensures |r| == |firsts|
    ensures forall i :: 0 <= i < |r| ==> r[i] == IcRow(firsts[i].icd9, information(PatientCount(dx, firsts[i].icd9), allPatients))
  {
    seq(|firsts|, i requires 0 <= i < |firsts| => IcRow(firsts[i].icd9, information(PatientCount(dx, firsts[i].icd9), allPatients)))
  }

  /** The IC rows carry the codes of the rows they were made from, with the IC of each code's patient count. */
  lemma IcRowsCodes(dx: seq<DxRow>, firsts: seq<DxRow>, allPatients: int, information: (nat, int) -> real)
    ensures KeysOf(IcRows(dx, firsts, allPatients, information), IcCode) == KeysOf(firsts, Code)
    ensures forall t :: t in IcRows(dx, firsts, allPatients, information) ==> t.ic == information(PatientCount(dx, t.icd9), allPatients)
  {
    var r := IcRows(dx, firsts, allPatients, information);
    forall c | c in KeysOf(r, IcCode) ensures c in KeysOf(firsts, Code) {
      var t :| t in r && IcCode(t) == c;
      var i :| 0 <= i < |r| && r[i] == t;
      assert firsts[i] in firsts;
    }
    forall c | c in KeysOf(firsts, Code) ensures c in KeysOf(r, IcCode) {
      var y :| y in firsts && Code(y) == c;
      var i :| 0 <= i < |firsts| && firsts[i] == y;
      assert r[i] in r;
    }
  }

  /**
   * calc_ic: one row per distinct diagnosis code, in order of first
   * occurrence, carrying the IC of the code's distinct-patient count;
   * `information(count, allPatients)` stands for -log2(count / allPatients).
   */
  function CalcIc(dx: seq<DxRow>, allPatients: int, information: (nat, int) -> real): (r: seq<IcRow>)
    ensures forall i, j :: 0 <= i < j < |r| ==> r[i].icd9 != r[j].icd9
    ensures KeysOf(r, IcCode) == KeysOf(dx, Code)
    ensures forall t :: t in r ==> t.ic == information(PatientCount(dx, t.icd9), allPatients)
  {
    var firsts := DropDuplicatesBy(dx, Code);
    IcRowsCodes(dx, firsts, allPatients, information);
    IcRows(dx, firsts, allPatients, information)
  }

  /** The IC range, both ends included. */
  predicate IcInRange(t: IcRow) {
    4.0 <= t.ic <= 9.0
  }

  type IcJoinRow = (string, DxRow, IcRow)

  predicate IcJoinInRange(m: IcJoinRow) { IcInRange(m.2) }

  function DxOfJoin(kept: seq<IcJoinRow>): (r: seq<DxRow>)
    ensures |r| == |kept| && forall i :: 0 <= i < |kept| ==> r[i] == kept[i].1
  {
    seq(|kept|, i requires 0 <= i < |kept| => kept[i].1)
  }

  /** A diagnosis row with an in-range IC in the table. */
  predicate InRangeCode(icTable: seq<IcRow>, x: DxRow) {
    exists t :: t in icTable && t.icd9 == x.icd9 && 4.0 <= t.ic <= 9.0
  }

  function IcFiltered(dx: seq<DxRow>, icTable: seq<IcRow>): seq<IcJoinRow> {
    Where(InnerJoin(KeyBy(dx, Code), KeyBy(icTable, IcCode)), IcJoinInRange)
  }

  lemma FilterIcSound(dx: seq<DxRow>, icTable: seq<IcRow>, x: DxRow)
    requires x in DxOfJoin(IcFiltered(dx, icTable))
    ensures x in dx && InRangeCode(icTable, x)
  {
    var kept := IcFiltered(dx, icTable);
    var i :| 0 <= i < |kept| && DxOfJoin(kept)[i] == x;
    assert kept[i] in kept;
  }

  lemma FilterIcComplete(dx: seq<DxRow>, icTable: seq<IcRow>, x: DxRow)
    requires x in dx && InRangeCode(icTable, x)
    ensures x in DxOfJoin(IcFiltered(dx, icTable))
  {
    var kept := IcFiltered(dx, icTable);
    var t :| t in icTable && t.icd9 == x.icd9 && 4.0 <= t.ic <= 9.0;
    var m := (x.icd9, x, t);
    assert m in kept;
    var i :| 0 <= i < |kept| && kept[i] == m;
    assert DxOfJoin(kept)[i] == x;
  }

  /**
   * filter_ic: the diagnosis rows whose code has an IC in [4, 9], with the
   * input's columns (the IC column is dropped again).
   */
  function FilterIc(dx: seq<DxRow>, icTable: seq<IcRow>): (r: seq<DxRow>)
    ensures forall x :: x in r <==> x in dx && InRangeCode(icTable, x)
  {
    var r := DxOfJoin(IcFiltered(dx, icTable));
    forall x | x in r ensures x in dx && InRangeCode(icTable, x) {
      FilterIcSound(dx, icTable, x);
    }
    forall x | x in dx && InRangeCode(icTable, x) ensures x in r {
      FilterIcComplete(dx, icTable, x);
    }
    r
  }

  /** Filtering by the IC table of the same rows keeps exactly the codes whose patient count gives an IC in [4, 9]. */
  lemma FilterIcByCount(dx: seq<DxRow>, allPatients: int, information: (nat, int) -> real, x: DxRow)
    ensures x in FilterIc(dx, CalcIc(dx, allPatients, information)) <==>
      x in dx && 4.0 <= information(PatientCount(dx, x.icd9), allPatients) <= 9.0
  {
    var table := CalcIc(dx, allPatients, information);
    if x in dx {
      assert x.icd9 in KeysOf(table, IcCode);
      var t :| t in table && IcCode(t) == x.icd9;
    }
  }

  // ---------------------------------------------------------------- time bins

  /** 6 months of 30.44 days, in seconds: 182.64 days exactly. */
  const SixMonths: int := 15780096

  function RecentBin(x: DxRow): int { if x.indexTime - x.diagnosisTime <= SixMonths then 1 else 0 }

  function PriorBin(x: DxRow): int { if x.indexTime - x.diagnosisTime > SixMonths then 1 else 0 }

  /** A row carrying its two bins. */
  predicate Binned(x: DxRow) {
    x.recent == Some(RecentBin(x)) && x.prior == Some(PriorBin(x))
  }

  /**
   * The RECENT and PRIOR columns of get_diagnosis_features, added to the
   * caller's rows in place: exactly one of them is 1, and a gap of exactly six
   * months counts as RECENT.
   */
  method AddTimeBins(dx: array<DxRow>)
    modifies dx
    ensures forall i :: 0 <= i < dx.Length ==> dx[i] == old(dx[i]).(recent := Some(RecentBin(old(dx[i]))), prior := Some(PriorBin(old(dx[i]))))
  {
    forall i | 0 <= i < dx.Length {
      dx[i] := dx[i].(recent := Some(RecentBin(dx[i])), prior := Some(PriorBin(dx[i])));
    }
  }

  /** Exactly one bin is set on a binned row; the six-month boundary falls in RECENT. */
  lemma BinsComplementary(x: DxRow)
    requires Binned(x)
    ensures x.recent.value + x.prior.value == 1
    ensures x.recent.value == 1 <==> x.indexTime - x.diagnosisTime <= SixMonths
  {
  }

  function PairKey(x: DxRow): (int, string) { (x.subject, x.icd9) }

  /** The number of rows of (subject, code) pair `k`. */
  function PairRows(dx: seq<DxRow>, k: (int, string)): nat {
    if dx == [] then 0 else (if PairKey(dx[0]) == k then 1 else 0) + PairRows(dx[1..], k)
  }

  /** The number of rows of pair `k` within six months of the index time. */
  function PairRecentRows(dx: seq<DxRow>, k: (int, string)): nat {
    if dx == [] then 0
    else (if PairKey(dx[0]) == k && dx[0].indexTime - dx[0].diagnosisTime <= SixMonths then 1 else 0) + PairRecentRows(dx[1..], k)
  }

  /** groupby(...).sum() of one bin column over the rows of pair `k`; a missing cell adds nothing. */
  function SumRecent(dx: seq<DxRow>, k: (int, string)): int {
    if dx == [] then 0
    else (if PairKey(dx[0]) == k && dx[0].recent.Some? then dx[0].recent.value else 0) + SumRecent(dx[1..], k)
  }

  function SumPrior(dx: seq<DxRow>, k: (int, string)): int {
    if dx == [] then 0
    else (if PairKey(dx[0]) == k && dx[0].prior.Some? then dx[0].prior.value else 0) + SumPrior(dx[1..], k)
  }

  /**
   * On binned rows, the RECENT sum of a pair counts its rows within six
   * months, and RECENT + PRIOR counts all its rows.
   */
  lemma {:induction false} BinSums(dx: seq<DxRow>, k: (int, string))
    requires forall x :: x in dx ==> Binned(x)
    ensures SumRecent(dx, k) == PairRecentRows(dx, k)
    ensures SumRecent(dx, k) + SumPrior(dx, k) == PairRows(dx, k)
  {
    if dx != [] {
      assert dx[0] in dx;
      assert forall x :: x in dx[1..] ==> x in dx;
      BinSums(dx[1..], k);
    }
  }

  /** One row of the grouped table: a (subject, code) pair with its two bin sums. */
  datatype PairSums = PairSums(subject: int, icd9: string, recent: int, prior: int)

  function PairSumsOf(dx: seq<DxRow>, x: DxRow): PairSums {
    PairSums(x.subject, x.icd9, SumRecent(dx, PairKey(x)), SumPrior(dx, PairKey(x)))
  }

  function SumsKey(p: PairSums): (int, string) { (p.subject, p.icd9) }

  function PairSumsRows(dx: seq<DxRow>, firsts: seq<DxRow>): (r: seq<PairSums>)
    ensures |r| == |firsts| && forall i :: 0 <= i < |r| ==> r[i] == PairSumsOf(dx, firsts[i])
  {
    seq(|firsts|, i requires 0 <= i < |firsts| => PairSumsOf(dx, firsts[i]))
  }

  /** The grouped rows carry the pairs of the rows they were made from. */
  lemma PairSumsKeys(dx: seq<DxRow>, firsts: seq<DxRow>)
    ensures KeysOf(PairSumsRows(dx, firsts), SumsKey) == KeysOf(firsts, PairKey)
    ensures forall i, j :: 0 <= i < j < |firsts| && PairKey(firsts[i]) != PairKey(firsts[j]) ==>
      SumsKey(PairSumsRows(dx, firsts)[i]) != SumsKey(PairSumsRows(dx, firsts)[j])
  {
    var r := PairSumsRows(dx, firsts);
    forall k | k in KeysOf(r, SumsKey) ensures k in KeysOf(firsts, PairKey) {
      var p :| p in r && SumsKey(p) == k;
      var i :| 0 <= i < |r| && r[i] == p;
      assert firsts[i] in firsts;
    }
    forall k | k in KeysOf(firsts, PairKey) ensures k in KeysOf(r, SumsKey) {
      var y :| y in firsts && PairKey(y) == k;
      var i :| 0 <= i < |firsts| && firsts[i] == y;
      assert r[i] in r;
    }
  }

  /**
   * The groupby(['subject_id', 'icd9_code']).sum() step: one row per distinct
   * pair, with the sums of its bins.
   */
  function GroupSums(dx: seq<DxRow>): (r: seq<PairSums>)
    ensures forall i, j :: 0 <= i < j < |r| ==> SumsKey(r[i]) != SumsKey(r[j])
    ensures KeysOf(r, SumsKey) == KeysOf(dx, PairKey)
    ensures forall p :: p in r ==> p.recent == SumRecent(dx, SumsKey(p)) && p.prior == SumPrior(dx, SumsKey(p))
  {
    var firsts := DropDuplicatesBy(dx, PairKey);
    PairSumsKeys(dx, firsts);
    PairSumsRows(dx, firsts)
  }

  /**
   * After the bins are added, every grouped pair's RECENT + PRIOR is its
   * number of diagnosis rows, and RECENT its number within six months.
   */
  lemma GroupSumsCountRows(dx: seq<DxRow>, p: PairSums)
    requires forall x :: x in dx ==> Binned(x)
    requires p in GroupSums(dx)
    ensures p.recent + p.prior == PairRows(dx, SumsKey(p))
    ensures p.recent == PairRecentRows(dx, SumsKey(p))
  {
    BinSums(dx, SumsKey(p));
  }
}
