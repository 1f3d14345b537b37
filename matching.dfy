// Greedy caliper matching (matching.py): the probability clamp of safe_logit
// and caliper_match, which pairs each treated record (oxy_drop == 1), in
// order, with the nearest remaining untreated record (oxy_drop == 0) when it
// lies within the caliper threshold, without replacement.
//
// Logits are given with each record (the logarithm of safe_logit is not
// modelled); the spread statistic behind the threshold (np.std) is an input.

module Matching {
  import opened Tables

  /** The probability clamp of safe_logit: p is moved into [0.025, 0.975]. */
  function Clamp(p: real): (r: real)
    ensures 0.025 <= r <= 0.975
    ensures p > 0.975 ==> r == 0.975
    ensures p < 0.025 ==> r == 0.025
    ensures 0.025 <= p <= 0.975 ==> r == p
  {
    if p > 0.975 then 0.975
    else if p < 0.025 then 0.025
    else p
  }

  /** One record of the propensity table: subject id, group, and the logit of its clamped propensity score. */
  datatype Score = Score(subject: int, oxyDrop: int, logit: real)

  function Abs(x: real): real { if x < 0.0 then -x else x }

  /** |logit(u) - logit(t)|: the distance the matcher minimises. */
  function Dist(t: Score, u: Score): real { Abs(u.logit - t.logit) }

  predicate IsTreated(s: Score) { s.oxyDrop == 1 }

  predicate IsUntreated(s: Score) { s.oxyDrop == 0 }

  /** The subject ids of a table are pairwise different (the table's index is subject_id). */
  predicate SubjectsDistinct(s: seq<Score>) {
    Distinct(Subjects(s))
  }

  function Subjects(s: seq<Score>): seq<int> {
    seq(|s|, i requires 0 <= i < |s| => s[i].subject)
  }

  /** Some record of the pool lies within the threshold of `t`. */
  predicate AnyWithin(pool: seq<Score>, t: Score, threshold: real) {
    exists v :: v in pool && Dist(t, v) <= threshold
  }

  /** The first record of the pool at the smallest distance from `t`. */
  function ArgMin(pool: seq<Score>, t: Score): (j: nat)
    requires |pool| > 0
    ensures j < |pool|
    ensures forall k :: 0 <= k < |pool| ==> Dist(t, pool[j]) <= Dist(t, pool[k])
    ensures forall k :: 0 <= k < j ==> Dist(t, pool[k]) > Dist(t, pool[j])
    decreases |pool|
  {
    if |pool| == 1 then 0
    else
      var j := ArgMin(pool[..|pool| - 1], t);
      assert forall k :: 0 <= k < |pool| - 1 ==> pool[..|pool| - 1][k] == pool[k];
      if Dist(t, pool[|pool| - 1]) < Dist(t, pool[j]) then |pool| - 1 else j
  }

  /** The outcome of one treated record: the record it is matched with, if any, and the pool afterwards. */
  datatype Step = Step(matched: Option<Score>, pool: seq<Score>)

  /** One iteration of the loop: skip the treated record, or match it with the nearest pool record. */
  function MatchStep(t: Score, pool: seq<Score>, threshold: real): Step {
    if !AnyWithin(pool, t, threshold) then Step(None, pool)
    else
      var j := ArgMin(pool, t);
      Step(Some(pool[j]), pool[..j] + pool[j + 1..])
  }

  /**
   * When no pool record is within the threshold the treated record is
   * skipped and the pool is unchanged; otherwise the pool record at the
   * smallest distance is matched, it is within the threshold, and it alone
   * leaves the pool.
   */
  lemma MatchStepMeaning(t: Score, pool: seq<Score>, threshold: real)
    ensures var s := MatchStep(t, pool, threshold);
      && (s.matched.None? <==> !AnyWithin(pool, t, threshold))
      && (s.matched.None? ==> s.pool == pool)
      && (s.matched.Some? ==>
        && Dist(t, s.matched.value) <= threshold
        && (forall v :: v in pool ==> Dist(t, s.matched.value) <= Dist(t, v))
        && exists j :: 0 <= j < |pool| && pool[j] == s.matched.value && s.pool == pool[..j] + pool[j + 1..])
  {
    if AnyWithin(pool, t, threshold) {
      var v :| v in pool && Dist(t, v) <= threshold;
      var k :| 0 <= k < |pool| && pool[k] == v;
      var j := ArgMin(pool, t);
      assert Dist(t, pool[j]) <= Dist(t, pool[k]);
    }
  }

  /** The matches made for the treated records, in order, starting from the given pool. */
  function GreedyMatch(treated: seq<Score>, pool: seq<Score>, threshold: real): seq<(int, int)>
    decreases |treated|
  {
    if treated == [] then []
    else
      var s := MatchStep(treated[0], pool, threshold);
      if s.matched.Some? then [(treated[0].subject, s.matched.value.subject)] + GreedyMatch(treated[1..], s.pool, threshold)
      else GreedyMatch(treated[1..], s.pool, threshold)
  }

  /** The pair a step contributes to the matches: none when the treated record was skipped. */
  function Emitted(t: Score, s: Step): seq<(int, int)> {
    if s.matched.Some? then [(t.subject, s.matched.value.subject)] else []
  }

  /**
   * Visiting the i-th treated record moves its pair, if any, from the
   * matches still to come to the matches made so far.
   */
  lemma GreedyMatchAdvance(treated: seq<Score>, i: nat, pool: seq<Score>, threshold: real, made: seq<(int, int)>)
    requires i < |treated|
    ensures var s := MatchStep(treated[i], pool, threshold);
      made + GreedyMatch(treated[i..], pool, threshold) == (made + Emitted(treated[i], s)) + GreedyMatch(treated[i + 1..], s.pool, threshold)
  {
    assert treated[i..][0] == treated[i] && treated[i..][1..] == treated[i + 1..];
  }

  /** The records of one group, in table order. */
  function TreatedOf(scores: seq<Score>): seq<Score> { Where(scores, IsTreated) }

  function UntreatedOf(scores: seq<Score>): seq<Score> { Where(scores, IsUntreated) }

  /**
   * caliper_match: the treated records are visited in order; each is matched
   * with the nearest record still in the untreated pool when that record is
   * within spread * caliper, and the matched record leaves the pool.
   */
  method CaliperMatch(scores: seq<Score>, spread: real, caliper: real) returns (matches: seq<(int, int)>)
    ensures matches == GreedyMatch(TreatedOf(scores), UntreatedOf(scores), spread * caliper)
  {
    var threshold := spread * caliper;
    matches := MatchInOrder(TreatedOf(scores), UntreatedOf(scores), threshold);
  }

  /** The loop of caliper_match: `pool` holds the untreated records not matched yet. */
  method MatchInOrder(treated: seq<Score>, untreated: seq<Score>, threshold: real) returns (matches: seq<(int, int)>)
    ensures matches == GreedyMatch(treated, untreated, threshold)
  {
    var pool := untreated;
    matches := [];
    var i := 0;
    while i < |treated|
      invariant 0 <= i <= |treated|
      invariant matches + GreedyMatch(treated[i..], pool, threshold) == GreedyMatch(treated, untreated, threshold)
    {
      var t := treated[i];
      var step := MatchStep(t, pool, threshold);
      GreedyMatchAdvance(treated, i, pool, threshold, matches);
      if step.matched.Some? {
        matches := matches + [(t.subject, step.matched.value.subject)];
      } else {
        assert matches + Emitted(t, step) == matches;
      }
      pool := step.pool;
      i := i + 1;
    }
  }

  // -------------------------------------------------------------- properties

  /** Every match pairs a treated record with a pool record within the threshold, in that order. */
  lemma {:induction false} GreedyMatchSound(treated: seq<Score>, pool: seq<Score>, threshold: real)
    ensures forall p :: p in GreedyMatch(treated, pool, threshold) ==>
      exists t, u :: t in treated && u in pool && p == (t.subject, u.subject) && Dist(t, u) <= threshold
    decreases |treated|
  {
    if treated != [] {
      var s := MatchStep(treated[0], pool, threshold);
      MatchStepMeaning(treated[0], pool, threshold);
      GreedyMatchSound(treated[1..], s.pool, threshold);
      assert forall u :: u in s.pool ==> u in pool;
      assert forall t :: t in treated[1..] ==> t in treated;
      if s.matched.Some? {
        var j :| 0 <= j < |pool| && pool[j] == s.matched.value && s.pool == pool[..j] + pool[j + 1..];
        assert s.matched.value in pool;
      }
    }
  }

  /** There are at most as many matches as treated records and as pool records. */
  lemma {:induction false} GreedyMatchSize(treated: seq<Score>, pool: seq<Score>, threshold: real)
    ensures |GreedyMatch(treated, pool, threshold)| <= |treated|
    ensures |GreedyMatch(treated, pool, threshold)| <= |pool|
    decreases |treated|
  {
    if treated != [] {
      var s := MatchStep(treated[0], pool, threshold);
      MatchStepMeaning(treated[0], pool, threshold);
      GreedyMatchSize(treated[1..], s.pool, threshold);
    }
  }

  function Untreated(m: seq<(int, int)>): seq<int> {
    seq(|m|, i requires 0 <= i < |m| => m[i].1)
  }

  function Treated(m: seq<(int, int)>): seq<int> {
    seq(|m|, i requires 0 <= i < |m| => m[i].0)
  }

  /** Removing one position from a sequence of distinct values removes exactly that value. */
  lemma DistinctRemove<T>(ids: seq<T>, j: nat)
    requires Distinct(ids) && j < |ids|
    ensures Distinct(ids[..j] + ids[j + 1..])
    ensures forall x :: x in ids[..j] + ids[j + 1..] ==> x in ids && x != ids[j]
  {
    var rest := ids[..j] + ids[j + 1..];
    assert forall k :: 0 <= k < |rest| ==> rest[k] == if k < j then ids[k] else ids[k + 1];
  }

  lemma DistinctCons<T>(x: T, s: seq<T>)
    requires Distinct(s) && x !in s
    ensures Distinct([x] + s)
    ensures forall y :: y in [x] + s ==> y == x || y in s
  {
  }

  /** The subjects of a pool with one record removed. */
  lemma SubjectsRemove(pool: seq<Score>, j: nat)
    requires j < |pool|
    ensures Subjects(pool[..j] + pool[j + 1..]) == Subjects(pool)[..j] + Subjects(pool)[j + 1..]
  {
  }

  /**
   * Matching is without replacement: no untreated subject appears in two
   * matches, and every matched subject comes from the pool.
   */
  lemma {:induction false} GreedyMatchNoReplacement(treated: seq<Score>, pool: seq<Score>, threshold: real)
    requires SubjectsDistinct(pool)
    ensures Distinct(Untreated(GreedyMatch(treated, pool, threshold)))
    ensures forall x :: x in Untreated(GreedyMatch(treated, pool, threshold)) ==> x in Subjects(pool)
    decreases |treated|
  {
    if treated != [] {
      var s := MatchStep(treated[0], pool, threshold);
      MatchStepMeaning(treated[0], pool, threshold);
      var m := GreedyMatch(treated, pool, threshold);
      var rest := GreedyMatch(treated[1..], s.pool, threshold);
      if s.matched.Some? {
        var j :| 0 <= j < |pool| && pool[j] == s.matched.value && s.pool == pool[..j] + pool[j + 1..];
        SubjectsRemove(pool, j);
        DistinctRemove(Subjects(pool), j);
        GreedyMatchNoReplacement(treated[1..], s.pool, threshold);
        var ids := Subjects(pool);
        var ur := Untreated(rest);
        assert Subjects(s.pool) == ids[..j] + ids[j + 1..];
        assert ids[j] !in ur;
        DistinctCons(ids[j], ur);
        assert Untreated(m) == [ids[j]] + ur;
      } else {
        GreedyMatchNoReplacement(treated[1..], s.pool, threshold);
        assert Untreated(m) == Untreated(rest);
      }
    }
  }

  /** Each treated subject appears in at most one match, and only treated subjects appear first in a match. */
  lemma {:induction false} GreedyMatchTreatedOnce(treated: seq<Score>, pool: seq<Score>, threshold: real)
    requires SubjectsDistinct(treated)
    ensures Distinct(Treated(GreedyMatch(treated, pool, threshold)))
    ensures forall x :: x in Treated(GreedyMatch(treated, pool, threshold)) ==> x in Subjects(treated)
    decreases |treated|
  {
    if treated != [] {
      var s := MatchStep(treated[0], pool, threshold);
      var m := GreedyMatch(treated, pool, threshold);
      var rest := GreedyMatch(treated[1..], s.pool, threshold);
      var ids := Subjects(treated);
      assert Subjects(treated[1..]) == ids[1..];
      DistinctRemove(ids, 0);
      assert ids[..0] + ids[1..] == ids[1..];
      GreedyMatchTreatedOnce(treated[1..], s.pool, threshold);
      if s.matched.Some? {
        assert ids[0] !in Treated(rest);
        DistinctCons(ids[0], Treated(rest));
        assert Treated(m) == [ids[0]] + Treated(rest);
      } else {
        assert Treated(m) == Treated(rest);
      }
    }
  }

  /** With one record per subject, a subject id identifies its record. */
  lemma SameSubjectSameRecord(s: seq<Score>, a: Score, b: Score)
    requires SubjectsDistinct(s) && a in s && b in s && a.subject == b.subject
    ensures a == b
  {
    var i :| 0 <= i < |s| && s[i] == a;
    var j :| 0 <= j < |s| && s[j] == b;
    assert Subjects(s)[i] == Subjects(s)[j];
  }

  /** Selecting records keeps their subject ids distinct. */
  lemma WhereSubjectsDistinct(s: seq<Score>, p: Score -> bool)
    requires SubjectsDistinct(s)
    ensures SubjectsDistinct(Where(s, p))
  {
    var r := Where(s, p);
    assert Distinct(s) by {
      forall i, j | 0 <= i < j < |s| ensures s[i] != s[j] {
        assert Subjects(s)[i] != Subjects(s)[j];
      }
    }
    DistinctMultiplicity(s);
    forall i, j | 0 <= i < j < |r| ensures r[i].subject != r[j].subject {
      if r[i].subject == r[j].subject {
        assert r[i] in r && r[j] in r;
        SameSubjectSameRecord(s, r[i], r[j]);
        RepeatedMultiplicity(r, i, j);
      }
    }
    assert forall i :: 0 <= i < |r| ==> Subjects(r)[i] == r[i].subject;
  }

  /** With one record per subject, no subject is both treated and untreated. */
  lemma GroupsDisjoint(scores: seq<Score>, x: int)
    requires SubjectsDistinct(scores)
    ensures !(x in Subjects(TreatedOf(scores)) && x in Subjects(UntreatedOf(scores)))
  {
    if x in Subjects(TreatedOf(scores)) && x in Subjects(UntreatedOf(scores)) {
      var ts, us := TreatedOf(scores), UntreatedOf(scores);
      var a :| 0 <= a < |ts| && ts[a].subject == x;
      var b :| 0 <= b < |us| && us[b].subject == x;
      assert ts[a] in ts && us[b] in us;
      SameSubjectSameRecord(scores, ts[a], us[b]);
    }
  }

  /**
   * With one record per subject in the propensity table, no subject id appears
   * twice among the matches: neither as two treated ids, nor as two untreated
   * ids, nor as a treated id of one match and the untreated id of another.
   */
  lemma CaliperMatchDisjoint(scores: seq<Score>, spread: real, caliper: real)
    requires SubjectsDistinct(scores)
    ensures var m := GreedyMatch(TreatedOf(scores), UntreatedOf(scores), spread * caliper);
      Distinct(Treated(m) + Untreated(m))
  {
    var ts, us := TreatedOf(scores), UntreatedOf(scores);
    var m := GreedyMatch(ts, us, spread * caliper);
    WhereSubjectsDistinct(scores, IsTreated);
    WhereSubjectsDistinct(scores, IsUntreated);
    GreedyMatchTreatedOnce(ts, us, spread * caliper);
    GreedyMatchNoReplacement(ts, us, spread * caliper);
    var a, b := Treated(m), Untreated(m);
    var all := a + b;
    forall i, j | 0 <= i < j < |all| ensures all[i] != all[j] {
      if i < |a| && j >= |a| {
        assert all[i] == a[i] && all[j] == b[j - |a|];
        GroupsDisjoint(scores, a[i]);
      } else if j < |a| {
        assert all[i] == a[i] && all[j] == a[j];
      } else {
        assert all[i] == b[i - |a|] && all[j] == b[j - |a|];
      }
    }
  }
}
