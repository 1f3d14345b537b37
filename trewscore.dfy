// The TREWScore stages of cohort building (trewscore.py): sepsis, severe
// sepsis and septic shock per charttime, and the forward-fill imputation the
// septic-shock stage relies on.
//
// A missing cell (NaN) is None. pandas compares NaN as false, adds NaN as
// NaN, and a missing flag under `&` counts as False.

module Trewscore {
  import opened Tables
  import opened ForwardFill
  import Cohort

  // ---------------------------------------------------------------- sepsis

  /** One row of the SIRS table: the four SIRS criteria (0 or 1) at one charttime. */
  datatype SirsRow = SirsRow(subject: int, hadm: int, icustay: int, charttime: Option<int>,
                             criteria1: Option<int>, criteria2: Option<int>,
                             criteria3: Option<int>, criteria4: Option<int>)

  /** A row of the sepsis summary: the SIRS columns, the infection columns of the outer join, and the status. */
  datatype SepsisRow = SepsisRow(subject: int, hadm: int, icustay: int, charttime: int,
                                 criteria1: Option<int>, criteria2: Option<int>,
                                 criteria3: Option<int>, criteria4: Option<int>,
                                 hasIcd9Infection: Option<int>, hasNoteInfection: Option<int>,
                                 sepsisStatus: Option<bool>)

  /** Addition of two possibly missing cells: missing when either is. */
  function AddCells(a: Option<int>, b: Option<int>): Option<int> {
    if a.Some? && b.Some? then Some(a.value + b.value) else None
  }

  /** `cell >= bound` with a missing cell comparing false. */
  function AtLeast(cell: Option<int>, bound: int): bool {
    cell.Some? && cell.value >= bound
  }

  /** `cell == 1` with a missing cell comparing false. */
  function IsOne(cell: Option<int>): bool {
    cell == Some(1)
  }

  /**
   * The TREWScore sepsis definition at one charttime: two or more SIRS
   * criteria met and an infection suspected from ICD-9 codes or notes.
   * The criteria sum is missing if any criterion is, so a row with a missing
   * criterion never has sepsis.
   */
  function SepsisRule(r: SepsisRow): (b: bool)
    ensures b <==>
      && r.criteria1.Some? && r.criteria2.Some? && r.criteria3.Some? && r.criteria4.Some?
      && r.criteria1.value + r.criteria2.value + r.criteria3.value + r.criteria4.value >= 2
      && (r.hasIcd9Infection == Some(1) || r.hasNoteInfection == Some(1))
  {
    var sum := AddCells(AddCells(AddCells(r.criteria1, r.criteria2), r.criteria3), r.criteria4);
    AtLeast(sum, 2) && (IsOne(r.hasIcd9Infection) || IsOne(r.hasNoteInfection))
  }

  /** A summary row with its `sepsis_status` cell set to the rule's verdict. */
  function WithSepsisStatus(r: SepsisRow): SepsisRow {
    r.(sepsisStatus := Some(SepsisRule(r)))
  }

  /** Every row of a summary with its `sepsis_status` cell set. */
  function WithSepsisStatuses(rows: seq<SepsisRow>): (r: seq<SepsisRow>)
    ensures |r| == |rows| && forall i :: 0 <= i < |rows| ==> r[i] == WithSepsisStatus(rows[i])
  {
    seq(|rows|, i requires 0 <= i < |rows| => WithSepsisStatus(rows[i]))
  }

  /** Adds the `sepsis_status` column to the summary in place. */
  method GetSepsisStatus(summary: array<SepsisRow>)
    modifies summary
    ensures summary[..] == WithSepsisStatuses(old(summary[..]))
  {
    forall i | 0 <= i < summary.Length {
      summary[i] := WithSepsisStatus(summary[i]);
    }
  }

  function SirsKey(s: SirsRow): (int, int) { (s.subject, s.hadm) }

  function InfectionKey(inf: Cohort.Infection): (int, int) { (inf.subject, inf.hadm) }

  /**
   * The infection row a SIRS row is paired with by the outer join on
   * (subject_id, hadm_id): one of the admission's infection rows, or none when
   * the admission has no infection row.
   */
  predicate InfectionFor(s: SirsRow, inf: Option<Cohort.Infection>, infections: seq<Cohort.Infection>) {
    match inf
    case Some(i) => i in infections && InfectionKey(i) == SirsKey(s)
    case None => forall i :: i in infections ==> InfectionKey(i) != SirsKey(s)
  }

  /** The summary row built from a timed SIRS row and its infection row, before the status is added. */
  function UnflaggedSepsisRow(s: SirsRow, inf: Option<Cohort.Infection>): SepsisRow
    requires s.charttime.Some?
  {
    SepsisRow(s.subject, s.hadm, s.icustay, s.charttime.value,
              s.criteria1, s.criteria2, s.criteria3, s.criteria4,
              if inf.Some? then Some(inf.value.hasIcd9Infection) else None,
              if inf.Some? then Some(inf.value.hasNoteInfection) else None,
              None)
  }

  /** The summary row with its status: the row the stage promises for a SIRS row and its infection row. */
  function SepsisRowOf(s: SirsRow, inf: Option<Cohort.Infection>): SepsisRow
    requires s.charttime.Some?
  {
    WithSepsisStatus(UnflaggedSepsisRow(s, inf))
  }

  /** The status a summary row carries is the sepsis rule's verdict on that row. */
  lemma SepsisRowOfStatus(s: SirsRow, inf: Option<Cohort.Infection>)
    requires s.charttime.Some?
    ensures SepsisRowOf(s, inf).sepsisStatus == Some(SepsisRule(SepsisRowOf(s, inf)))
  {
  }

  type SepsisJoinRow = ((int, int), Option<SirsRow>, Option<Cohort.Infection>)

  /** The outer-join rows that survive `dropna(subset='charttime')`. */
  predicate Timed(row: SepsisJoinRow) {
    row.1.Some? && row.1.value.charttime.Some?
  }

  /** An infection row matches in the keyed table exactly when it is an infection row of the admission. */
  lemma InfectionMatch(s: SirsRow, inf: Option<Cohort.Infection>, infections: seq<Cohort.Infection>)
    ensures MatchFor(SirsKey(s), inf, KeyBy(infections, InfectionKey)) <==> InfectionFor(s, inf, infections)
  {
    KeyByHasKey(infections, InfectionKey, SirsKey(s));
  }

  /** The sepsis-stage rows kept from the outer join. */
  function KeptSepsisRows(devSirs: seq<SirsRow>, infections: seq<Cohort.Infection>): seq<SepsisJoinRow> {
    Where(OuterJoin(KeyBy(devSirs, SirsKey), KeyBy(infections, InfectionKey)), Timed)
  }

  /** A kept join row is a timed SIRS row with an infection row it is paired with. */
  lemma KeptRowIsPaired(devSirs: seq<SirsRow>, infections: seq<Cohort.Infection>, row: SepsisJoinRow)
    requires row in KeptSepsisRows(devSirs, infections)
    ensures row.1.Some? && row.1.value in devSirs && row.1.value.charttime.Some?
    ensures row.0 == SirsKey(row.1.value) && InfectionFor(row.1.value, row.2, infections)
  {
    var left, right := KeyBy(devSirs, SirsKey), KeyBy(infections, InfectionKey);
    OuterJoinLeftRows(left, right);
    assert row == (row.0, Some(row.1.value), row.2);
    InfectionMatch(row.1.value, row.2, infections);
  }

  /** Every timed SIRS row, with each infection row it is paired with, is kept. */
  lemma PairedRowIsKept(devSirs: seq<SirsRow>, infections: seq<Cohort.Infection>, s: SirsRow, inf: Option<Cohort.Infection>)
    requires s in devSirs && s.charttime.Some? && InfectionFor(s, inf, infections)
    ensures (SirsKey(s), Some(s), inf) in KeptSepsisRows(devSirs, infections)
  {
    var left, right := KeyBy(devSirs, SirsKey), KeyBy(infections, InfectionKey);
    OuterJoinLeftRows(left, right);
    InfectionMatch(s, inf, infections);
  }

  /** Every summary row is built from a timed SIRS row and an infection row it is paired with. */
  lemma SepsisSummarySound(devSirs: seq<SirsRow>, infections: seq<Cohort.Infection>, kept: seq<SepsisJoinRow>, summary: seq<SepsisRow>)
    requires kept == KeptSepsisRows(devSirs, infections)
    requires |summary| == |kept|
    requires forall i :: 0 <= i < |kept| ==> Timed(kept[i]) && summary[i] == SepsisRowOf(kept[i].1.value, kept[i].2)
    ensures forall r :: r in summary ==>
      exists s, inf :: s in devSirs && s.charttime.Some? && InfectionFor(s, inf, infections) && r == SepsisRowOf(s, inf)
  {
    forall r | r in summary
      ensures exists s, inf :: s in devSirs && s.charttime.Some? && InfectionFor(s, inf, infections) && r == SepsisRowOf(s, inf)
    {
      var i :| 0 <= i < |summary| && summary[i] == r;
      KeptRowIsPaired(devSirs, infections, kept[i]);
      var s, inf := kept[i].1.value, kept[i].2;
      assert s in devSirs && s.charttime.Some? && InfectionFor(s, inf, infections) && r == SepsisRowOf(s, inf);
    }
  }

  /** Every timed SIRS row, with each infection row it is paired with, has its summary row. */
  lemma SepsisSummaryComplete(devSirs: seq<SirsRow>, infections: seq<Cohort.Infection>, kept: seq<SepsisJoinRow>, summary: seq<SepsisRow>)
    requires kept == KeptSepsisRows(devSirs, infections)
    requires |summary| == |kept|
    requires forall i :: 0 <= i < |kept| ==> Timed(kept[i]) && summary[i] == SepsisRowOf(kept[i].1.value, kept[i].2)
    ensures forall s, inf :: s in devSirs && s.charttime.Some? && InfectionFor(s, inf, infections) ==>
      SepsisRowOf(s, inf) in summary
  {
    forall s, inf | s in devSirs && s.charttime.Some? && InfectionFor(s, inf, infections)
      ensures SepsisRowOf(s, inf) in summary
    {
      PairedRowIsKept(devSirs, infections, s, inf);
      assert (SirsKey(s), Some(s), inf) in kept;
    }
  }

  /** Every kept join row has a SIRS row with a charttime. */
  lemma KeptRowsTimed(devSirs: seq<SirsRow>, infections: seq<Cohort.Infection>)
    ensures forall i :: 0 <= i < |KeptSepsisRows(devSirs, infections)| ==> Timed(KeptSepsisRows(devSirs, infections)[i])
  {
    var kept := KeptSepsisRows(devSirs, infections);
    forall i | 0 <= i < |kept| ensures Timed(kept[i]) { assert kept[i] in kept; }
  }

  /** The kept join rows as summary rows, before the status is added. */
  function UnflaggedRows(kept: seq<SepsisJoinRow>): (r: seq<SepsisRow>)
    requires forall i :: 0 <= i < |kept| ==> Timed(kept[i])
    ensures |r| == |kept| && forall i :: 0 <= i < |kept| ==> Timed(kept[i]) && r[i] == UnflaggedSepsisRow(kept[i].1.value, kept[i].2)
  {
    seq(|kept|, i requires 0 <= i < |kept| && Timed(kept[i]) => UnflaggedSepsisRow(kept[i].1.value, kept[i].2))
  }

  /** The membership promise of the stage, and the status of every row, once the status column is added. */
  lemma SepsisSummaryRows(devSirs: seq<SirsRow>, infections: seq<Cohort.Infection>, rows: seq<SepsisRow>, summary: seq<SepsisRow>)
    requires forall i :: 0 <= i < |KeptSepsisRows(devSirs, infections)| ==> Timed(KeptSepsisRows(devSirs, infections)[i])
    requires rows == UnflaggedRows(KeptSepsisRows(devSirs, infections))
    requires summary == WithSepsisStatuses(rows)
    ensures forall r :: r in summary <==>
      exists s, inf :: s in devSirs && s.charttime.Some? && InfectionFor(s, inf, infections) && r == SepsisRowOf(s, inf)
    ensures forall r :: r in summary ==> r.sepsisStatus == Some(SepsisRule(r))
  {
    var kept := KeptSepsisRows(devSirs, infections);
    assert forall i :: 0 <= i < |kept| ==> summary[i] == SepsisRowOf(kept[i].1.value, kept[i].2) by {
      forall i | 0 <= i < |kept| ensures summary[i] == SepsisRowOf(kept[i].1.value, kept[i].2) {
        assert summary[i] == WithSepsisStatus(rows[i]);
      }
    }
    SepsisSummarySound(devSirs, infections, kept, summary);
    SepsisSummaryComplete(devSirs, infections, kept, summary);
    forall r | r in summary ensures r.sepsisStatus == Some(SepsisRule(r)) {
      var i :| 0 <= i < |summary| && summary[i] == r;
      SepsisRowOfStatus(kept[i].1.value, kept[i].2);
    }
  }

  /** A fresh frame holding the given rows, the result of the merge that the status is then added to. */
  method NewSepsisFrame(rows: seq<SepsisRow>) returns (frame: array<SepsisRow>)
    ensures fresh(frame) && frame[..] == rows
  {
    frame := new SepsisRow[|rows|];
    forall i | 0 <= i < |rows| {
      frame[i] := rows[i];
    }
  }

  /**
   * summarize_sepsis: outer join of the SIRS and infection tables on
   * (subject_id, hadm_id), rows without a charttime dropped, then the status
   * added in place. The summary holds exactly one row per timed SIRS row and
   * infection row of its admission (or per timed SIRS row alone when its
   * admission has none), and every row carries the sepsis rule's verdict.
   */
  method SummarizeSepsis(devSirs: seq<SirsRow>, infections: seq<Cohort.Infection>) returns (summary: seq<SepsisRow>)
    ensures forall r :: r in summary <==>
      exists s, inf :: s in devSirs && s.charttime.Some? && InfectionFor(s, inf, infections) && r == SepsisRowOf(s, inf)
    ensures forall r :: r in summary ==> r.sepsisStatus == Some(SepsisRule(r))
  {
    KeptRowsTimed(devSirs, infections);
    var rows := UnflaggedRows(KeptSepsisRows(devSirs, infections));
    var frame := NewSepsisFrame(rows);
    GetSepsisStatus(frame);
    summary := frame[..];
    SepsisSummaryRows(devSirs, infections, rows, summary);
  }

  // --------------------------------------------------------- severe sepsis

  /** One row of the organ-dysfunction table, per admission. */
  datatype OrganRow = OrganRow(subject: int, hadm: int, hasOrganDysfunction: bool)

  /** A row of the severe-sepsis summary: the sepsis row, the organ-dysfunction cell of the outer join, and the status. */
  datatype SevereRow = SevereRow(sepsis: SepsisRow, hasOrganDysfunction: Option<bool>, severeSepsisStatus: bool)

  /**
   * The TREWScore severe-sepsis definition: organ dysfunction `&` sepsis,
   * where a missing flag counts as False.
   */
  function SevereFlag(sepsisStatus: Option<bool>, organ: Option<bool>): (b: bool)
    ensures b <==> sepsisStatus.Some? && sepsisStatus.value && organ.Some? && organ.value
  {
    organ == Some(true) && sepsisStatus == Some(true)
  }

  function SepsisKey(r: SepsisRow): (int, int) { (r.subject, r.hadm) }

  function OrganKey(o: OrganRow): (int, int) { (o.subject, o.hadm) }

  /** The organ-dysfunction cell of a joined row: missing when the admission has no organ row. */
  function OrganCell(o: Option<OrganRow>): Option<bool> {
    if o.Some? then Some(o.value.hasOrganDysfunction) else None
  }

  /** The organ row a sepsis row is paired with by the outer join on (subject_id, hadm_id). */
  predicate OrganFor(s: SepsisRow, o: Option<OrganRow>, organDys: seq<OrganRow>) {
    match o
    case Some(x) => x in organDys && OrganKey(x) == SepsisKey(s)
    case None => forall x :: x in organDys ==> OrganKey(x) != SepsisKey(s)
  }

  /** The summary row the stage promises for a sepsis row and its organ row. */
  function SevereRowOf(s: SepsisRow, o: Option<OrganRow>): SevereRow {
    SevereRow(s, OrganCell(o), SevereFlag(s.sepsisStatus, OrganCell(o)))
  }

  type SevereJoinRow = ((int, int), Option<SepsisRow>, Option<OrganRow>)

  /** The `severe_sepsis_status` of a joined row, a missing sepsis row giving a missing status. */
  function JoinedSevereFlag(row: SevereJoinRow): bool {
    SevereFlag(if row.1.Some? then row.1.value.sepsisStatus else None, OrganCell(row.2))
  }

  function SevereMerge(devSepsis: seq<SepsisRow>, organDys: seq<OrganRow>): seq<SevereJoinRow> {
    OuterJoin(KeyBy(devSepsis, SepsisKey), KeyBy(organDys, OrganKey))
  }

  /** The joined rows with the `severe_sepsis_status` column computed, before rows without a charttime are dropped. */
  function FlaggedSevereRows(merged: seq<SevereJoinRow>): (r: seq<(SevereJoinRow, bool)>)
    ensures forall x :: x in r <==> x.0 in merged && x.1 == JoinedSevereFlag(x.0)
  {
    var r := seq(|merged|, i requires 0 <= i < |merged| => (merged[i], JoinedSevereFlag(merged[i])));
    assert forall row :: row in merged ==> (row, JoinedSevereFlag(row)) in r by {
      forall row | row in merged ensures (row, JoinedSevereFlag(row)) in r {
        var i :| 0 <= i < |merged| && merged[i] == row;
        assert r[i] == (row, JoinedSevereFlag(row));
      }
    }
    r
  }

  /** A flagged row has a charttime exactly when it carries a sepsis row, every one of which is timed. */
  predicate HasCharttime(x: (SevereJoinRow, bool)) {
    x.0.1.Some?
  }

  /** A kept row of the severe stage is a sepsis row with an organ row it is paired with, flagged by the rule. */
  lemma KeptSevereRowIsPaired(devSepsis: seq<SepsisRow>, organDys: seq<OrganRow>, x: (SevereJoinRow, bool))
    requires x in Where(FlaggedSevereRows(SevereMerge(devSepsis, organDys)), HasCharttime)
    ensures x.0.1.Some? && x.0.1.value in devSepsis && OrganFor(x.0.1.value, x.0.2, organDys)
    ensures x.1 == SevereFlag(x.0.1.value.sepsisStatus, OrganCell(x.0.2))
  {
    var left, right := KeyBy(devSepsis, SepsisKey), KeyBy(organDys, OrganKey);
    OuterJoinLeftRows(left, right);
    var s := x.0.1.value;
    assert x.0 == (x.0.0, Some(s), x.0.2);
    KeyByHasKey(organDys, OrganKey, SepsisKey(s));
  }

  /** Every sepsis row, with each organ row it is paired with, is kept. */
  lemma PairedSevereRowIsKept(devSepsis: seq<SepsisRow>, organDys: seq<OrganRow>, s: SepsisRow, o: Option<OrganRow>)
    requires s in devSepsis && OrganFor(s, o, organDys)
    ensures ((SepsisKey(s), Some(s), o), SevereFlag(s.sepsisStatus, OrganCell(o))) in Where(FlaggedSevereRows(SevereMerge(devSepsis, organDys)), HasCharttime)
  {
    var left, right := KeyBy(devSepsis, SepsisKey), KeyBy(organDys, OrganKey);
    var row: SevereJoinRow := (SepsisKey(s), Some(s), o);
    assert row in SevereMerge(devSepsis, organDys) by {
      OuterJoinLeftRows(left, right);
      KeyByHasKey(organDys, OrganKey, SepsisKey(s));
    }
    assert JoinedSevereFlag(row) == SevereFlag(s.sepsisStatus, OrganCell(o));
  }

  /** Every severe summary row is built from a sepsis row and an organ row it is paired with. */
  lemma SevereSummarySound(devSepsis: seq<SepsisRow>, organDys: seq<OrganRow>, kept: seq<(SevereJoinRow, bool)>, summary: seq<SevereRow>)
    requires kept == Where(FlaggedSevereRows(SevereMerge(devSepsis, organDys)), HasCharttime)
    requires |summary| == |kept|
    requires forall i :: 0 <= i < |kept| ==> HasCharttime(kept[i]) && summary[i] == SevereRow(kept[i].0.1.value, OrganCell(kept[i].0.2), kept[i].1)
    ensures forall r :: r in summary ==> exists s, o :: s in devSepsis && OrganFor(s, o, organDys) && r == SevereRowOf(s, o)
  {
    forall r | r in summary ensures exists s, o :: s in devSepsis && OrganFor(s, o, organDys) && r == SevereRowOf(s, o) {
      var i :| 0 <= i < |summary| && summary[i] == r;
      KeptSevereRowIsPaired(devSepsis, organDys, kept[i]);
      var s, o := kept[i].0.1.value, kept[i].0.2;
      assert s in devSepsis && OrganFor(s, o, organDys) && r == SevereRowOf(s, o);
    }
  }

  /** Every sepsis row, with each organ row it is paired with, has its severe summary row. */
  lemma SevereSummaryComplete(devSepsis: seq<SepsisRow>, organDys: seq<OrganRow>, kept: seq<(SevereJoinRow, bool)>, summary: seq<SevereRow>)
    requires kept == Where(FlaggedSevereRows(SevereMerge(devSepsis, organDys)), HasCharttime)
    requires |summary| == |kept|
    requires forall i :: 0 <= i < |kept| ==> HasCharttime(kept[i]) && summary[i] == SevereRow(kept[i].0.1.value, OrganCell(kept[i].0.2), kept[i].1)
    ensures forall s, o :: s in devSepsis && OrganFor(s, o, organDys) ==> SevereRowOf(s, o) in summary
  {
    forall s, o | s in devSepsis && OrganFor(s, o, organDys) ensures SevereRowOf(s, o) in summary {
      PairedSevereRowIsKept(devSepsis, organDys, s, o);
      assert ((SepsisKey(s), Some(s), o), SevereFlag(s.sepsisStatus, OrganCell(o))) in kept;
    }
  }

  /** Every kept severe-stage row carries a sepsis row. */
  lemma KeptSevereRowsTimed(kept: seq<(SevereJoinRow, bool)>, flagged: seq<(SevereJoinRow, bool)>)
    requires kept == Where(flagged, HasCharttime)
    ensures forall i :: 0 <= i < |kept| ==> HasCharttime(kept[i])
  {
    forall i | 0 <= i < |kept| ensures HasCharttime(kept[i]) { assert kept[i] in kept; }
  }

  /** The kept rows as severe summary rows. */
  function SevereRows(kept: seq<(SevereJoinRow, bool)>): (r: seq<SevereRow>)
    requires forall i :: 0 <= i < |kept| ==> HasCharttime(kept[i])
    ensures |r| == |kept| && forall i :: 0 <= i < |kept| ==>
      HasCharttime(kept[i]) && r[i] == SevereRow(kept[i].0.1.value, OrganCell(kept[i].0.2), kept[i].1)
  {
    seq(|kept|, i requires 0 <= i < |kept| && HasCharttime(kept[i]) =>
      SevereRow(kept[i].0.1.value, OrganCell(kept[i].0.2), kept[i].1))
  }

  /** The promises of the severe stage, from the row-by-row correspondence with the kept rows. */
  lemma SevereSummaryRows(devSepsis: seq<SepsisRow>, organDys: seq<OrganRow>, kept: seq<(SevereJoinRow, bool)>, summary: seq<SevereRow>)
    requires kept == Where(FlaggedSevereRows(SevereMerge(devSepsis, organDys)), HasCharttime)
    requires forall i :: 0 <= i < |kept| ==> HasCharttime(kept[i])
    requires summary == SevereRows(kept)
    ensures forall r :: r in summary <==> exists s, o :: s in devSepsis && OrganFor(s, o, organDys) && r == SevereRowOf(s, o)
    ensures forall r :: r in summary ==>
      (r.severeSepsisStatus <==> r.sepsis.sepsisStatus == Some(true) && r.hasOrganDysfunction == Some(true))
  {
    SevereSummarySound(devSepsis, organDys, kept, summary);
    SevereSummaryComplete(devSepsis, organDys, kept, summary);
  }

  /**
   * summarize_severe_sepsis: outer join of the sepsis summary and the
   * organ-dysfunction table on (subject_id, hadm_id), the status computed on
   * every joined row, then the rows without a charttime (organ rows of
   * admissions without sepsis rows) dropped. The summary holds exactly one row
   * per sepsis row and organ row of its admission (or per sepsis row alone),
   * and dropping rows leaves the surviving statuses as the rule gives them.
   */
  method SummarizeSevereSepsis(devSepsis: seq<SepsisRow>, organDys: seq<OrganRow>) returns (summary: seq<SevereRow>)
    ensures forall r :: r in summary <==> exists s, o :: s in devSepsis && OrganFor(s, o, organDys) && r == SevereRowOf(s, o)
    ensures forall r :: r in summary ==>
      (r.severeSepsisStatus <==> r.sepsis.sepsisStatus == Some(true) && r.hasOrganDysfunction == Some(true))
  {
    var flagged := FlaggedSevereRows(SevereMerge(devSepsis, organDys));
    var kept := Where(flagged, HasCharttime);
    KeptSevereRowsTimed(kept, flagged);
    summary := SevereRows(kept);
    SevereSummaryRows(devSepsis, organDys, kept, summary);
  }

  // ---------------------------------------------------------- septic shock

  /** One row of the hypotension labels, per ICU stay and charttime. */
  datatype HypotensionRow = HypotensionRow(subject: int, hadm: int, icustay: int, charttime: int, hypotension: bool)

  /** One row of the fluid-resuscitation labels, per ICU stay and charttime. */
  datatype FluidRow = FluidRow(subject: int, hadm: int, icustay: int, charttime: int, adequateFluid: bool)

  /** (subject_id, hadm_id, icustay_id, charttime): the key of both septic-shock merges. */
  type StayTime = (int, int, int, int)

  /** (subject_id, hadm_id, icustay_id): the groups the forward fill stays within. */
  type Stay = (int, int, int)

  function SevereKey(r: SevereRow): StayTime { (r.sepsis.subject, r.sepsis.hadm, r.sepsis.icustay, r.sepsis.charttime) }

  function HypotensionKey(r: HypotensionRow): StayTime { (r.subject, r.hadm, r.icustay, r.charttime) }

  function FluidKey(r: FluidRow): StayTime { (r.subject, r.hadm, r.icustay, r.charttime) }

  /**
   * A row of the merged septic-shock table, reduced to its key and the three
   * flags the definition reads; a flag is missing where no source row had the
   * row's stay and charttime.
   */
  datatype ShockCells = ShockCells(subject: int, hadm: int, icustay: int, charttime: int,
                                   severeSepsisStatus: Option<bool>, hypotension: Option<bool>,
                                   adequateFluid: Option<bool>)

  function CellsKey(m: ShockCells): StayTime { (m.subject, m.hadm, m.icustay, m.charttime) }

  function StayOf(m: ShockCells): Stay { (m.subject, m.hadm, m.icustay) }

  type FirstMergeRow = (StayTime, Option<SevereRow>, Option<HypotensionRow>)

  type SecondMergeRow = (StayTime, Option<(Option<SevereRow>, Option<HypotensionRow>)>, Option<FluidRow>)

  /** The first outer merge: severe-sepsis rows with hypotension labels. */
  function FirstMerge(devSevere: seq<SevereRow>, hypotension: seq<HypotensionRow>): seq<FirstMergeRow> {
    OuterJoin(KeyBy(devSevere, SevereKey), KeyBy(hypotension, HypotensionKey))
  }

  /** The first merge as the left input of the second. */
  function Rekey(first: seq<FirstMergeRow>): (r: seq<(StayTime, (Option<SevereRow>, Option<HypotensionRow>))>)
    ensures |r| == |first| && forall i :: 0 <= i < |first| ==> r[i] == (first[i].0, (first[i].1, first[i].2))
  {
    seq(|first|, i requires 0 <= i < |first| => (first[i].0, (first[i].1, first[i].2)))
  }

  /** The second outer merge: the first merge with the fluid labels. */
  function SecondMerge(devSevere: seq<SevereRow>, hypotension: seq<HypotensionRow>, fluids: seq<FluidRow>): seq<SecondMergeRow> {
    OuterJoin(Rekey(FirstMerge(devSevere, hypotension)), KeyBy(fluids, FluidKey))
  }

  /** The key and the three flags of a merged row. */
  function MergedCells(row: SecondMergeRow): ShockCells {
    var k := row.0;
    ShockCells(k.0, k.1, k.2, k.3,
               if row.1.Some? && row.1.value.0.Some? then Some(row.1.value.0.value.severeSepsisStatus) else None,
               if row.1.Some? && row.1.value.1.Some? then Some(row.1.value.1.value.hypotension) else None,
               if row.2.Some? then Some(row.2.value.adequateFluid) else None)
  }

  /** The two outer merges on (subject_id, hadm_id, icustay_id, charttime). */
  function ShockMerge(devSevere: seq<SevereRow>, hypotension: seq<HypotensionRow>, fluids: seq<FluidRow>): (r: seq<ShockCells>)
    ensures |r| == |SecondMerge(devSevere, hypotension, fluids)|
    ensures forall i :: 0 <= i < |r| ==> r[i] == MergedCells(SecondMerge(devSevere, hypotension, fluids)[i])
  {
    var second := SecondMerge(devSevere, hypotension, fluids);
    seq(|second|, i requires 0 <= i < |second| => MergedCells(second[i]))
  }

  /** A row of the first merge is a row of its re-keyed form, and back. */
  lemma RekeyMembers(first: seq<FirstMergeRow>)
    ensures forall row :: row in first ==> (row.0, (row.1, row.2)) in Rekey(first)
    ensures forall p :: p in Rekey(first) ==> (p.0, p.1.0, p.1.1) in first
  {
    var r := Rekey(first);
    forall row | row in first ensures (row.0, (row.1, row.2)) in r {
      var j :| 0 <= j < |first| && first[j] == row;
      assert r[j] == (row.0, (row.1, row.2));
    }
    forall p | p in r ensures (p.0, p.1.0, p.1.1) in first {
      var j :| 0 <= j < |r| && r[j] == p;
      assert first[j] == (p.0, p.1.0, p.1.1);
    }
  }

  /** A key in the first merge comes from a severe-sepsis row or a hypotension row. */
  lemma FirstMergeKeySource(devSevere: seq<SevereRow>, hypotension: seq<HypotensionRow>, k: StayTime)
    requires HasKey(Rekey(FirstMerge(devSevere, hypotension)), k)
    ensures HasKey(KeyBy(devSevere, SevereKey), k) || HasKey(KeyBy(hypotension, HypotensionKey), k)
  {
    var first := FirstMerge(devSevere, hypotension);
    var p :| p in Rekey(first) && p.0 == k;
    RekeyMembers(first);
    OuterJoinRowSides(KeyBy(devSevere, SevereKey), KeyBy(hypotension, HypotensionKey), (p.0, p.1.0, p.1.1));
  }

  /** The key of every severe-sepsis row and every hypotension row is in the first merge. */
  lemma FirstMergeHasKey(devSevere: seq<SevereRow>, hypotension: seq<HypotensionRow>, k: StayTime)
    requires HasKey(KeyBy(devSevere, SevereKey), k) || HasKey(KeyBy(hypotension, HypotensionKey), k)
    ensures HasKey(Rekey(FirstMerge(devSevere, hypotension)), k)
  {
    var left, right := KeyBy(devSevere, SevereKey), KeyBy(hypotension, HypotensionKey);
    var first := FirstMerge(devSevere, hypotension);
    var row: FirstMergeRow;
    if HasKey(left, k) {
      var p :| p in left && p.0 == k;
      assert p == (k, p.1);
      var o := OuterJoinKeepsLeft(left, right, k, p.1);
      row := (k, Some(p.1), o);
    } else {
      var p :| p in right && p.0 == k;
      assert p == (k, p.1);
      var o := OuterJoinKeepsRight(left, right, k, p.1);
      row := (k, o, Some(p.1));
    }
    RekeyMembers(first);
    assert (k, (row.1, row.2)) in Rekey(first);
  }

  /** A merged row comes from a row of the second merge, and its halves from the inputs. */
  lemma MergedRowSides(devSevere: seq<SevereRow>, hypotension: seq<HypotensionRow>, fluids: seq<FluidRow>, m: ShockCells)
    requires m in ShockMerge(devSevere, hypotension, fluids)
    ensures exists row :: row in SecondMerge(devSevere, hypotension, fluids) && m == MergedCells(row)
  {
    var r := ShockMerge(devSevere, hypotension, fluids);
    var i :| 0 <= i < |r| && r[i] == m;
    assert SecondMerge(devSevere, hypotension, fluids)[i] in SecondMerge(devSevere, hypotension, fluids);
  }

  /** A row of the second merge with a first-merge half: that half is a row of the first merge. */
  lemma SecondMergeLeft(devSevere: seq<SevereRow>, hypotension: seq<HypotensionRow>, fluids: seq<FluidRow>, row: SecondMergeRow)
    requires row in SecondMerge(devSevere, hypotension, fluids)
    ensures row.1.Some? ==> (row.0, row.1.value.0, row.1.value.1) in FirstMerge(devSevere, hypotension)
    ensures row.1.None? ==> !HasKey(KeyBy(devSevere, SevereKey), row.0) && !HasKey(KeyBy(hypotension, HypotensionKey), row.0)
    ensures row.2.Some? ==> row.2.value in fluids && FluidKey(row.2.value) == row.0
    ensures row.2.None? ==> forall f :: f in fluids ==> FluidKey(f) != row.0
  {
    var first := FirstMerge(devSevere, hypotension);
    var rekeyed := Rekey(first);
    OuterJoinRowSides(rekeyed, KeyBy(fluids, FluidKey), row);
    KeyByHasKey(fluids, FluidKey, row.0);
    if row.1.Some? {
      RekeyMembers(first);
    } else if HasKey(KeyBy(devSevere, SevereKey), row.0) || HasKey(KeyBy(hypotension, HypotensionKey), row.0) {
      FirstMergeHasKey(devSevere, hypotension, row.0);
      assert false;
    }
  }

  /**
   * Where a merged row has a severe-sepsis or hypotension flag, a source row
   * with the same stay and charttime carries it; where the flag is missing, no
   * source row has that stay and charttime.
   */
  lemma MergedSevereAndHypotension(devSevere: seq<SevereRow>, hypotension: seq<HypotensionRow>, fluids: seq<FluidRow>, m: ShockCells)
    requires m in ShockMerge(devSevere, hypotension, fluids)
    ensures m.severeSepsisStatus.Some? ==>
      exists x :: x in devSevere && SevereKey(x) == CellsKey(m) && m.severeSepsisStatus == Some(x.severeSepsisStatus)
    ensures m.severeSepsisStatus.None? ==> forall x :: x in devSevere ==> SevereKey(x) != CellsKey(m)
    ensures m.hypotension.Some? ==>
      exists h :: h in hypotension && HypotensionKey(h) == CellsKey(m) && m.hypotension == Some(h.hypotension)
    ensures m.hypotension.None? ==> forall h :: h in hypotension ==> HypotensionKey(h) != CellsKey(m)
  {
    MergedRowSides(devSevere, hypotension, fluids, m);
    var row :| row in SecondMerge(devSevere, hypotension, fluids) && m == MergedCells(row);
    SecondMergeLeft(devSevere, hypotension, fluids, row);
    var k := row.0;
    assert CellsKey(m) == k;
    KeyByHasKey(devSevere, SevereKey, k);
    KeyByHasKey(hypotension, HypotensionKey, k);
    if row.1.Some? {
      OuterJoinRowSides(KeyBy(devSevere, SevereKey), KeyBy(hypotension, HypotensionKey), (k, row.1.value.0, row.1.value.1));
    }
  }

  /** Where a merged row has a fluid flag, a fluid row with the same stay and charttime carries it; otherwise there is none. */
  lemma MergedFluid(devSevere: seq<SevereRow>, hypotension: seq<HypotensionRow>, fluids: seq<FluidRow>, m: ShockCells)
    requires m in ShockMerge(devSevere, hypotension, fluids)
    ensures m.adequateFluid.Some? ==>
      exists f :: f in fluids && FluidKey(f) == CellsKey(m) && m.adequateFluid == Some(f.adequateFluid)
    ensures m.adequateFluid.None? ==> forall f :: f in fluids ==> FluidKey(f) != CellsKey(m)
  {
    MergedRowSides(devSevere, hypotension, fluids, m);
    var row :| row in SecondMerge(devSevere, hypotension, fluids) && m == MergedCells(row);
    SecondMergeLeft(devSevere, hypotension, fluids, row);
  }

  /** Every severe-sepsis row reaches the merged table with its flag. */
  lemma MergeKeepsSevere(devSevere: seq<SevereRow>, hypotension: seq<HypotensionRow>, fluids: seq<FluidRow>, x: SevereRow)
    returns (m: ShockCells)
    requires x in devSevere
    ensures m in ShockMerge(devSevere, hypotension, fluids)
    ensures CellsKey(m) == SevereKey(x) && m.severeSepsisStatus == Some(x.severeSepsisStatus)
  {
    var k := SevereKey(x);
    var first := FirstMerge(devSevere, hypotension);
    var o := OuterJoinKeepsLeft(KeyBy(devSevere, SevereKey), KeyBy(hypotension, HypotensionKey), k, x);
    RekeyMembers(first);
    var o2 := OuterJoinKeepsLeft(Rekey(first), KeyBy(fluids, FluidKey), k, (Some(x), o));
    m := MergedCells((k, Some((Some(x), o)), o2));
    ShockMergeHasRow(devSevere, hypotension, fluids, (k, Some((Some(x), o)), o2));
  }

  /** Every hypotension row reaches the merged table with its flag. */
  lemma MergeKeepsHypotension(devSevere: seq<SevereRow>, hypotension: seq<HypotensionRow>, fluids: seq<FluidRow>, h: HypotensionRow)
    returns (m: ShockCells)
    requires h in hypotension
    ensures m in ShockMerge(devSevere, hypotension, fluids)
    ensures CellsKey(m) == HypotensionKey(h) && m.hypotension == Some(h.hypotension)
  {
    var k := HypotensionKey(h);
    var first := FirstMerge(devSevere, hypotension);
    var o := OuterJoinKeepsRight(KeyBy(devSevere, SevereKey), KeyBy(hypotension, HypotensionKey), k, h);
    RekeyMembers(first);
    var o2 := OuterJoinKeepsLeft(Rekey(first), KeyBy(fluids, FluidKey), k, (o, Some(h)));
    m := MergedCells((k, Some((o, Some(h))), o2));
    ShockMergeHasRow(devSevere, hypotension, fluids, (k, Some((o, Some(h))), o2));
  }

  /** Every fluid row reaches the merged table with its flag. */
  lemma MergeKeepsFluid(devSevere: seq<SevereRow>, hypotension: seq<HypotensionRow>, fluids: seq<FluidRow>, f: FluidRow)
    returns (m: ShockCells)
    requires f in fluids
    ensures m in ShockMerge(devSevere, hypotension, fluids)
    ensures CellsKey(m) == FluidKey(f) && m.adequateFluid == Some(f.adequateFluid)
  {
    var k := FluidKey(f);
    var o := OuterJoinKeepsRight(Rekey(FirstMerge(devSevere, hypotension)), KeyBy(fluids, FluidKey), k, f);
    m := MergedCells((k, o, Some(f)));
    ShockMergeHasRow(devSevere, hypotension, fluids, (k, o, Some(f)));
  }

  lemma ShockMergeHasRow(devSevere: seq<SevereRow>, hypotension: seq<HypotensionRow>, fluids: seq<FluidRow>, row: SecondMergeRow)
    requires row in SecondMerge(devSevere, hypotension, fluids)
    ensures MergedCells(row) in ShockMerge(devSevere, hypotension, fluids)
  {
    var second := SecondMerge(devSevere, hypotension, fluids);
    var i :| 0 <= i < |second| && second[i] == row;
    assert ShockMerge(devSevere, hypotension, fluids)[i] == MergedCells(row);
  }

  // ------------------------------------------------------------ imputation

  /** The imputation's sort key: charttime alone. */
  function ByCharttime(m: ShockCells): (int, int) { (m.charttime, 0) }

  /** The three flag columns the forward fill carries. */
  datatype ShockFlag = SevereCol | HypotensionCol | FluidCol

  function Cell(m: ShockCells, f: ShockFlag): Option<bool> {
    match f
    case SevereCol => m.severeSepsisStatus
    case HypotensionCol => m.hypotension
    case FluidCol => m.adequateFluid
  }

  /** The fill groups of the rows, in order. */
  function Stays(rows: seq<ShockCells>): (r: seq<Stay>)
    ensures |r| == |rows| && forall i :: 0 <= i < |rows| ==> r[i] == StayOf(rows[i])
  {
    seq(|rows|, i requires 0 <= i < |rows| => StayOf(rows[i]))
  }

  /** One flag column of the rows, in order. */
  function Cells(rows: seq<ShockCells>, f: ShockFlag): (r: seq<Option<bool>>)
    ensures |r| == |rows| && forall i :: 0 <= i < |rows| ==> r[i] == Cell(rows[i], f)
  {
    seq(|rows|, i requires 0 <= i < |rows| => Cell(rows[i], f))
  }

  /** One flag column forward-filled within (subject_id, hadm_id, icustay_id). */
  function FilledCells(sorted: seq<ShockCells>, f: ShockFlag): (r: seq<Option<bool>>)
    ensures |r| == |sorted|
  {
    FillColumn(Stays(sorted), Cells(sorted, f))
  }

  /** Row i of a filled table: the key of row i of the input and its three filled flags. */
  predicate FilledRow(sorted: seq<ShockCells>, r: seq<ShockCells>, i: int)
    requires |r| == |sorted| && 0 <= i < |r|
  {
    && CellsKey(r[i]) == CellsKey(sorted[i])
    && Cell(r[i], SevereCol) == FilledCells(sorted, SevereCol)[i]
    && Cell(r[i], HypotensionCol) == FilledCells(sorted, HypotensionCol)[i]
    && Cell(r[i], FluidCol) == FilledCells(sorted, FluidCol)[i]
  }

  /** The groupby(...).fillna(method="ffill") step: rows stay where they are, each flag is carried forward within its ICU stay. */
  function FillStays(sorted: seq<ShockCells>): (r: seq<ShockCells>)
    ensures |r| == |sorted|
    ensures forall i :: 0 <= i < |r| ==> FilledRow(sorted, r, i)
  {
    var sev := FilledCells(sorted, SevereCol);
    var hyp := FilledCells(sorted, HypotensionCol);
    var flu := FilledCells(sorted, FluidCol);
    seq(|sorted|, i requires 0 <= i < |sorted| =>
          sorted[i].(severeSepsisStatus := sev[i], hypotension := hyp[i], adequateFluid := flu[i]))
  }

  /** An observed flag is never overwritten by the fill. */
  lemma FillStaysKeepsObserved(sorted: seq<ShockCells>, i: nat, f: ShockFlag)
    requires i < |sorted| && Cell(sorted[i], f).Some?
    ensures Cell(FillStays(sorted)[i], f) == Cell(sorted[i], f)
  {
    assert FilledRow(sorted, FillStays(sorted), i);
    FillKeepsObserved(Stays(sorted), Cells(sorted, f), i);
  }

  /**
   * A filled flag is the flag of the most recent row at or before it in the
   * same ICU stay that has one; a flag stays missing exactly when no row of the
   * stay up to it has one.
   */
  lemma FillStaysFromEarlier(sorted: seq<ShockCells>, i: nat, f: ShockFlag)
    requires i < |sorted|
    ensures StayOf(FillStays(sorted)[i]) == StayOf(sorted[i])
    ensures Cell(FillStays(sorted)[i], f).Some? ==>
      exists j :: 0 <= j <= i && StayOf(sorted[j]) == StayOf(sorted[i]) && Cell(sorted[j], f) == Cell(FillStays(sorted)[i], f)
    ensures Cell(FillStays(sorted)[i], f).None? <==>
      forall j :: 0 <= j <= i && StayOf(sorted[j]) == StayOf(sorted[i]) ==> Cell(sorted[j], f).None?
  {
    var r := FillStays(sorted);
    assert FilledRow(sorted, r, i);
    var keys, col := Stays(sorted), Cells(sorted, f);
    FillTakesMostRecent(keys, col, i);
    if Cell(r[i], f).Some? {
      var j :| 0 <= j <= i && keys[j] == keys[i] && col[j] == FillColumn(keys, col)[i];
      assert StayOf(sorted[j]) == StayOf(sorted[i]) && Cell(sorted[j], f) == Cell(r[i], f);
    }
    forall j | 0 <= j <= i && StayOf(sorted[j]) == StayOf(sorted[i]) ensures keys[j] == keys[i] && col[j] == Cell(sorted[j], f) {
    }
  }

  /** The fill keeps every row's ICU stay. */
  lemma FillStaysStays(sorted: seq<ShockCells>)
    ensures Stays(FillStays(sorted)) == Stays(sorted)
  {
    var r := FillStays(sorted);
    forall i | 0 <= i < |r| ensures Stays(r)[i] == Stays(sorted)[i] {
      assert FilledRow(sorted, r, i);
    }
  }

  /** A flag column of the filled table is the filled column. */
  lemma FillStaysCells(sorted: seq<ShockCells>, f: ShockFlag)
    ensures Cells(FillStays(sorted), f) == FilledCells(sorted, f)
  {
    var r := FillStays(sorted);
    forall i | 0 <= i < |r| ensures Cells(r, f)[i] == FilledCells(sorted, f)[i] {
      assert FilledRow(sorted, r, i);
    }
  }

  /** Filling a filled flag column changes nothing. */
  lemma FillStaysColumnIdempotent(sorted: seq<ShockCells>, f: ShockFlag)
    ensures FilledCells(FillStays(sorted), f) == FilledCells(sorted, f)
  {
    FillStaysStays(sorted);
    FillStaysCells(sorted, f);
    FillIdempotent(Stays(sorted), Cells(sorted, f));
  }

  /** Filling a filled table changes nothing. */
  lemma FillStaysIdempotent(sorted: seq<ShockCells>)
    ensures FillStays(FillStays(sorted)) == FillStays(sorted)
  {
    var r := FillStays(sorted);
    var rr := FillStays(r);
    FillStaysColumnIdempotent(sorted, SevereCol);
    FillStaysColumnIdempotent(sorted, HypotensionCol);
    FillStaysColumnIdempotent(sorted, FluidCol);
    forall i | 0 <= i < |r| ensures rr[i] == r[i] {
      assert FilledRow(r, rr, i);
      assert FilledRow(sorted, r, i);
    }
  }

  /**
   * impute_missing: sort by charttime, then carry the last observation of each
   * flag forward within each ICU stay. The result is in charttime order.
   */
  function ImputeMissing(rows: seq<ShockCells>): (r: seq<ShockCells>)
    ensures |r| == |rows|
    ensures SortedBy(r, ByCharttime)
  {
    var sorted := SortBy(rows, ByCharttime);
    var r := FillStays(sorted);
    assert forall i :: 0 <= i < |r| ==> ByCharttime(r[i]) == ByCharttime(sorted[i]) by {
      forall i | 0 <= i < |r| ensures ByCharttime(r[i]) == ByCharttime(sorted[i]) {
        assert FilledRow(sorted, r, i);
      }
    }
    r
  }

  /** Every merged row has an imputed row with its stay and charttime. */
  lemma ImputeKeepsRows(rows: seq<ShockCells>, m: ShockCells)
    requires m in rows
    ensures exists i :: 0 <= i < |rows| && CellsKey(ImputeMissing(rows)[i]) == CellsKey(m)
  {
    var sorted := SortBy(rows, ByCharttime);
    var r := ImputeMissing(rows);
    assert r == FillStays(sorted);
    assert m in multiset(sorted);
    var i :| 0 <= i < |sorted| && sorted[i] == m;
    assert FilledRow(sorted, r, i);
  }

  /** Every imputed row has the stay and charttime of a merged row. */
  lemma ImputeAddsNoRows(rows: seq<ShockCells>, i: nat)
    requires i < |rows|
    ensures exists m :: m in rows && CellsKey(m) == CellsKey(ImputeMissing(rows)[i])
  {
    var sorted := SortBy(rows, ByCharttime);
    var r := ImputeMissing(rows);
    assert r == FillStays(sorted);
    assert FilledRow(sorted, r, i);
    assert sorted[i] in multiset(rows);
    assert CellsKey(sorted[i]) == CellsKey(r[i]);
  }

  /**
   * A filled flag is the flag of a merged row of the same ICU stay at the same
   * or an earlier charttime.
   */
  lemma ImputeFromEarlier(rows: seq<ShockCells>, i: nat, f: ShockFlag) returns (m: ShockCells)
    requires i < |rows| && Cell(ImputeMissing(rows)[i], f).Some?
    ensures m in rows && StayOf(m) == StayOf(ImputeMissing(rows)[i])
    ensures m.charttime <= ImputeMissing(rows)[i].charttime && Cell(m, f) == Cell(ImputeMissing(rows)[i], f)
  {
    var sorted := SortBy(rows, ByCharttime);
    assert ImputeMissing(rows) == FillStays(sorted);
    FillStaysFromEarlier(sorted, i, f);
    var j :| 0 <= j <= i && StayOf(sorted[j]) == StayOf(sorted[i]) && Cell(sorted[j], f) == Cell(FillStays(sorted)[i], f);
    m := sorted[j];
    SortedByCharttimeEarlier(rows, j, i);
  }

  /** A row sorted before another comes from the input and has no later charttime. */
  lemma SortedByCharttimeEarlier(rows: seq<ShockCells>, j: nat, i: nat)
    requires j <= i < |rows|
    ensures SortBy(rows, ByCharttime)[j] in rows
    ensures SortBy(rows, ByCharttime)[j].charttime <= SortBy(rows, ByCharttime)[i].charttime
  {
    var sorted := SortBy(rows, ByCharttime);
    assert sorted[j] in multiset(sorted);
    if j < i {
      assert LexLe(ByCharttime(sorted[j]), ByCharttime(sorted[i]));
    }
  }

  /**
   * A flag stays missing only when no merged row of the same ICU stay at an
   * earlier charttime carries it.
   */
  lemma ImputeMissingOnlyIfUnobserved(rows: seq<ShockCells>, i: nat, f: ShockFlag)
    requires i < |rows| && Cell(ImputeMissing(rows)[i], f).None?
    ensures forall m :: (m in rows && StayOf(m) == StayOf(ImputeMissing(rows)[i]) &&
                         m.charttime < ImputeMissing(rows)[i].charttime) ==> Cell(m, f).None?
  {
    var sorted := SortBy(rows, ByCharttime);
    var r := ImputeMissing(rows);
    assert r == FillStays(sorted);
    assert FilledRow(sorted, r, i);
    FillStaysFromEarlier(sorted, i, f);
    forall m | m in rows && StayOf(m) == StayOf(r[i]) && m.charttime < r[i].charttime
      ensures Cell(m, f).None?
    {
      assert m in multiset(sorted);
      var j :| 0 <= j < |sorted| && sorted[j] == m;
      assert j <= i;
    }
  }

  /**
   * The imputation reorders the merged rows and fills flags, nothing more: the
   * (subject_id, hadm_id, icustay_id, charttime) keys of its output are those of
   * its input, each as often.
   */
  lemma ImputeKeepsKeys(rows: seq<ShockCells>)
    ensures multiset(ColumnOf(ImputeMissing(rows), CellsKey)) == multiset(ColumnOf(rows, CellsKey))
  {
    var sorted := SortBy(rows, ByCharttime);
    var r := ImputeMissing(rows);
    assert r == FillStays(sorted);
    assert ColumnOf(r, CellsKey) == ColumnOf(sorted, CellsKey) by {
      forall i | 0 <= i < |r| ensures CellsKey(r[i]) == CellsKey(sorted[i]) {
        assert FilledRow(sorted, r, i);
      }
    }
    PermutationColumn(sorted, rows, CellsKey);
  }

  /**
   * Row i of the output is row i of the merged rows in charttime order, with
   * its key, and every flag that row observed is kept as it is.
   */
  lemma ImputeKeepsObserved(rows: seq<ShockCells>, i: nat, f: ShockFlag)
    requires i < |rows|
    ensures CellsKey(ImputeMissing(rows)[i]) == CellsKey(SortBy(rows, ByCharttime)[i])
    ensures Cell(SortBy(rows, ByCharttime)[i], f).Some? ==>
      Cell(ImputeMissing(rows)[i], f) == Cell(SortBy(rows, ByCharttime)[i], f)
  {
    var sorted := SortBy(rows, ByCharttime);
    assert ImputeMissing(rows) == FillStays(sorted);
    assert FilledRow(sorted, FillStays(sorted), i);
    if Cell(sorted[i], f).Some? {
      FillStaysKeepsObserved(sorted, i, f);
    }
  }

  /**
   * Flag `f` of `r[i]` is the flag of the most recent row of `sorted` at or
   * before row i in the same ICU stay that has one, with no observation of
   * that flag in the stay between them; it is missing exactly when no row of
   * the stay up to row i has one.
   */
  predicate MostRecentFill(sorted: seq<ShockCells>, r: seq<ShockCells>, i: nat, f: ShockFlag)
    requires i < |sorted| && i < |r|
  {
    && (Cell(r[i], f).Some? ==>
          exists j :: 0 <= j <= i && StayOf(sorted[j]) == StayOf(sorted[i]) && Cell(sorted[j], f) == Cell(r[i], f) &&
                      forall m :: j < m <= i && StayOf(sorted[m]) == StayOf(sorted[i]) ==> Cell(sorted[m], f).None?)
    && (Cell(r[i], f).None? <==>
          forall j :: 0 <= j <= i && StayOf(sorted[j]) == StayOf(sorted[i]) ==> Cell(sorted[j], f).None?)
  }

  /** In charttime order, every imputed flag is the most recent observation of its ICU stay. */
  lemma ImputeTakesMostRecent(rows: seq<ShockCells>, i: nat, f: ShockFlag)
    requires i < |rows|
    ensures MostRecentFill(SortBy(rows, ByCharttime), ImputeMissing(rows), i, f)
  {
    var sorted := SortBy(rows, ByCharttime);
    assert ImputeMissing(rows) == FillStays(sorted);
    FillStaysMostRecent(sorted, i, f);
  }

  /** The fill takes the most recent observation of the stay, on rows already in charttime order. */
  lemma FillStaysMostRecent(sorted: seq<ShockCells>, i: nat, f: ShockFlag)
    requires i < |sorted|
    ensures MostRecentFill(sorted, FillStays(sorted), i, f)
  {
    var r := FillStays(sorted);
    assert FilledRow(sorted, r, i);
    var keys, col := Stays(sorted), Cells(sorted, f);
    FillTakesMostRecent(keys, col, i);
    if Cell(r[i], f).Some? {
      var j :| 0 <= j <= i && keys[j] == keys[i] && col[j] == FillColumn(keys, col)[i] &&
               forall m :: j < m <= i && keys[m] == keys[i] ==> col[m].None?;
      assert StayOf(sorted[j]) == StayOf(sorted[i]) && Cell(sorted[j], f) == Cell(r[i], f);
      forall m | j < m <= i && StayOf(sorted[m]) == StayOf(sorted[i]) ensures Cell(sorted[m], f).None? {
        assert keys[m] == keys[i];
      }
    }
    forall j | 0 <= j <= i && StayOf(sorted[j]) == StayOf(sorted[i]) ensures keys[j] == keys[i] && col[j] == Cell(sorted[j], f) {
    }
  }

  /** The imputation is idempotent: imputing an imputed table changes nothing. */
  lemma ImputeIdempotent(rows: seq<ShockCells>)
    ensures ImputeMissing(ImputeMissing(rows)) == ImputeMissing(rows)
  {
    var sorted := SortBy(rows, ByCharttime);
    var r := ImputeMissing(rows);
    assert r == FillStays(sorted);
    SortBySorted(r, ByCharttime);
    assert ImputeMissing(r) == FillStays(r);
    FillStaysIdempotent(sorted);
  }

  // ----------------------------------------------------- septic-shock flag

  /** A row of the septic-shock summary after fillna(False). */
  datatype ShockRow = ShockRow(subject: int, hadm: int, icustay: int, charttime: int,
                               severeSepsisStatus: bool, hypotension: bool, adequateFluid: bool,
                               septicShock: bool)

  function ShockRowKey(s: ShockRow): StayTime { (s.subject, s.hadm, s.icustay, s.charttime) }

  /** fillna(False) on a flag cell. */
  function FalseIfMissing(c: Option<bool>): bool {
    c.Some? && c.value
  }

  /** The summary row of an imputed row: missing flags become False, then the three flags are and-ed. */
  function ShockRowOf(m: ShockCells): (r: ShockRow)
    ensures r.septicShock <==> m.severeSepsisStatus == Some(true) && m.hypotension == Some(true) && m.adequateFluid == Some(true)
    ensures ShockRowKey(r) == CellsKey(m)
  {
    var sev, hyp, flu := FalseIfMissing(m.severeSepsisStatus), FalseIfMissing(m.hypotension), FalseIfMissing(m.adequateFluid);
    ShockRow(m.subject, m.hadm, m.icustay, m.charttime, sev, hyp, flu, sev && flu && hyp)
  }

  /**
   * summarize_septic_shock: the two outer merges, the imputation, fillna(False)
   * and the septic-shock flag.
   */
  function SummarizeSepticShock(devSevere: seq<SevereRow>, hypotension: seq<HypotensionRow>, fluids: seq<FluidRow>): (r: seq<ShockRow>)
    ensures |r| == |ShockMerge(devSevere, hypotension, fluids)|
    ensures forall i :: 0 <= i < |r| ==> r[i] == ShockRowOf(ImputeMissing(ShockMerge(devSevere, hypotension, fluids))[i])
  {
    var imputed := ImputeMissing(ShockMerge(devSevere, hypotension, fluids));
    seq(|imputed|, i requires 0 <= i < |imputed| => ShockRowOf(imputed[i]))
  }

  /** The stay of an imputed row whose flag was filled carries that flag on an earlier or equal merged row. */
  lemma ShockFlagSource(devSevere: seq<SevereRow>, hypotension: seq<HypotensionRow>, fluids: seq<FluidRow>, i: nat, f: ShockFlag)
    returns (m: ShockCells)
    requires i < |ShockMerge(devSevere, hypotension, fluids)|
    requires Cell(ImputeMissing(ShockMerge(devSevere, hypotension, fluids))[i], f) == Some(true)
    ensures m in ShockMerge(devSevere, hypotension, fluids) && Cell(m, f) == Some(true)
    ensures StayOf(m) == StayOf(ImputeMissing(ShockMerge(devSevere, hypotension, fluids))[i])
    ensures m.charttime <= ImputeMissing(ShockMerge(devSevere, hypotension, fluids))[i].charttime
  {
    var merged := ShockMerge(devSevere, hypotension, fluids);
    m := ImputeFromEarlier(merged, i, f);
  }

  /**
   * Septic shock is backed by the inputs: a severe-sepsis row, a hypotension
   * row and an adequate-fluid row, each true, of the same ICU stay, none later
   * than the flagged charttime.
   */
  lemma SepticShockEvidence(devSevere: seq<SevereRow>, hypotension: seq<HypotensionRow>, fluids: seq<FluidRow>, i: nat)
    requires i < |SummarizeSepticShock(devSevere, hypotension, fluids)|
    requires SummarizeSepticShock(devSevere, hypotension, fluids)[i].septicShock
    ensures var s := SummarizeSepticShock(devSevere, hypotension, fluids)[i];
      && (exists x :: x in devSevere && x.severeSepsisStatus && SevereKey(x).0 == s.subject && SevereKey(x).1 == s.hadm &&
                      SevereKey(x).2 == s.icustay && SevereKey(x).3 <= s.charttime)
      && (exists h :: h in hypotension && h.hypotension && h.subject == s.subject && h.hadm == s.hadm &&
                      h.icustay == s.icustay && h.charttime <= s.charttime)
      && (exists f :: f in fluids && f.adequateFluid && f.subject == s.subject && f.hadm == s.hadm &&
                      f.icustay == s.icustay && f.charttime <= s.charttime)
  {
    var merged := ShockMerge(devSevere, hypotension, fluids);
    var s := SummarizeSepticShock(devSevere, hypotension, fluids)[i];
    var ms := ShockFlagSource(devSevere, hypotension, fluids, i, SevereCol);
    var mh := ShockFlagSource(devSevere, hypotension, fluids, i, HypotensionCol);
    var mf := ShockFlagSource(devSevere, hypotension, fluids, i, FluidCol);
    MergedSevereAndHypotension(devSevere, hypotension, fluids, ms);
    MergedSevereAndHypotension(devSevere, hypotension, fluids, mh);
    MergedFluid(devSevere, hypotension, fluids, mf);
  }

  /** A merged row whose own three flags are true yields a septic-shock row with its stay and charttime. */
  lemma SepticShockWhenObserved(devSevere: seq<SevereRow>, hypotension: seq<HypotensionRow>, fluids: seq<FluidRow>, m: ShockCells)
    requires m in ShockMerge(devSevere, hypotension, fluids)
    requires m.severeSepsisStatus == Some(true) && m.hypotension == Some(true) && m.adequateFluid == Some(true)
    ensures exists i :: (0 <= i < |SummarizeSepticShock(devSevere, hypotension, fluids)| &&
                         SummarizeSepticShock(devSevere, hypotension, fluids)[i].septicShock &&
                         ShockRowKey(SummarizeSepticShock(devSevere, hypotension, fluids)[i]) == CellsKey(m))
  {
    var merged := ShockMerge(devSevere, hypotension, fluids);
    var sorted := SortBy(merged, ByCharttime);
    var r := ImputeMissing(merged);
    assert r == FillStays(sorted);
    assert m in multiset(sorted);
    var i :| 0 <= i < |sorted| && sorted[i] == m;
    FillStaysKeepsObserved(sorted, i, SevereCol);
    FillStaysKeepsObserved(sorted, i, HypotensionCol);
    FillStaysKeepsObserved(sorted, i, FluidCol);
    assert FilledRow(sorted, r, i);
    assert ShockRowKey(SummarizeSepticShock(devSevere, hypotension, fluids)[i]) == CellsKey(m);
  }
}
