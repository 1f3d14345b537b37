// Row-sequence counterparts of the table operations the pipeline relies on:
// boolean-mask selection, sorting, first-occurrence de-duplication, and
// inner / full outer joins on a key.  A table is a `seq` of rows; a join key
// is the first component of a pair.

module Tables {

  /** A cell that may be missing (a NaN / NaT in the table). */
  datatype Option<+T> = None | Some(value: T)

  // ---------------------------------------------------------------------------
  // Selection by a boolean mask
  // ---------------------------------------------------------------------------

  /** The rows of `s` for which the mask `p` holds, in their original order. */
  function Where<T(==,!new)>(s: seq<T>, p: T -> bool): (r: seq<T>)
    ensures |r| <= |s|
    ensures forall x :: x in r <==> x in s && p(x)
    ensures forall x :: multiset(r)[x] == if p(x) then multiset(s)[x] else 0
  {
    if s == [] then []
    else
      assert s == [s[0]] + s[1..];
      (if p(s[0]) then [s[0]] else []) + Where(s[1..], p)
  }

  lemma ConcatAssociative<T>(a: seq<T>, b: seq<T>, c: seq<T>)
    ensures a + (b + c) == (a + b) + c
  {
  }

  /** Selection distributes over concatenation: it keeps the relative order of rows. */
  lemma {:induction false} WhereAppend<T(!new)>(a: seq<T>, b: seq<T>, p: T -> bool)
    ensures Where(a + b, p) == Where(a, p) + Where(b, p)
  {
    if a == [] {
      assert a + b == b;
    } else {
      var head := if p(a[0]) then [a[0]] else [];
      assert (a + b)[0] == a[0];
      assert (a + b)[1..] == a[1..] + b;
      assert Where(a + b, p) == head + Where(a[1..] + b, p);
      WhereAppend(a[1..], b, p);
      assert Where(a, p) == head + Where(a[1..], p);
      ConcatAssociative(head, Where(a[1..], p), Where(b, p));
    }
  }

  // ---------------------------------------------------------------------------
  // Sorting by a (major, minor) integer key
  // ---------------------------------------------------------------------------

  /** Lexicographic order on sort keys. */
  predicate LexLe(a: (int, int), b: (int, int)) {
    a.0 < b.0 || (a.0 == b.0 && a.1 <= b.1)
  }

  predicate SortedBy<T>(s: seq<T>, key: T -> (int, int)) {
    forall i, j :: 0 <= i < j < |s| ==> LexLe(key(s[i]), key(s[j]))
  }

  /** A lower bound of `x` and of every row of `u` bounds every row of a sequence holding exactly those rows. */
  lemma BoundedByMultiset<T>(y: T, x: T, t: seq<T>, u: seq<T>, key: T -> (int, int))
    requires multiset(t) == multiset(u) + multiset{x}
    requires LexLe(key(y), key(x))
    requires forall e :: e in u ==> LexLe(key(y), key(e))
    ensures forall k :: 0 <= k < |t| ==> LexLe(key(y), key(t[k]))
  {
    forall k | 0 <= k < |t| ensures LexLe(key(y), key(t[k])) {
      assert t[k] in multiset(t);
      if t[k] != x {
        assert t[k] in multiset(u);
      }
    }
  }

  /** A row no larger than every row of a sorted sequence can be put in front of it. */
  lemma SortedCons<T>(y: T, t: seq<T>, key: T -> (int, int))
    requires SortedBy(t, key)
    requires forall k :: 0 <= k < |t| ==> LexLe(key(y), key(t[k]))
    ensures SortedBy([y] + t, key)
  {
    var r := [y] + t;
    forall i, j | 0 <= i < j < |r| ensures LexLe(key(r[i]), key(r[j])) {
      assert r[j] == t[j - 1];
      if i > 0 {
        assert r[i] == t[i - 1];
      }
    }
  }

  /** Inserts `x` in front of the first row whose key is not smaller. */
  function InsertBy<T>(x: T, s: seq<T>, key: T -> (int, int)): (r: seq<T>)
    requires SortedBy(s, key)
    ensures SortedBy(r, key)
    ensures multiset(r) == multiset(s) + multiset{x}
    ensures |r| == |s| + 1
  {
    if s == [] then [x]
    else if LexLe(key(x), key(s[0])) then [x] + s
    else
      var t := InsertBy(x, s[1..], key);
      assert s == [s[0]] + s[1..];
      assert forall e :: e in s[1..] ==> LexLe(key(s[0]), key(e)) by {
        forall e | e in s[1..] ensures LexLe(key(s[0]), key(e)) {
          var k :| 0 <= k < |s[1..]| && s[1..][k] == e;
          assert s[k + 1] == e;
        }
      }
      BoundedByMultiset(s[0], x, t, s[1..], key);
      SortedCons(s[0], t, key);
      [s[0]] + t
  }

  /** A stable insertion sort of the rows by `key`. */
  function SortBy<T>(s: seq<T>, key: T -> (int, int)): (r: seq<T>)
    ensures SortedBy(r, key)
    ensures multiset(r) == multiset(s)
    ensures |r| == |s|
  {
    if s == [] then []
    else
      assert s == [s[0]] + s[1..];
      InsertBy(s[0], SortBy(s[1..], key), key)
  }

  /** Sorting rows that are already in key order leaves them where they are. */
  lemma {:induction false} SortBySorted<T>(s: seq<T>, key: T -> (int, int))
    requires SortedBy(s, key)
    ensures SortBy(s, key) == s
  {
    if s != [] {
      SortBySorted(s[1..], key);
      assert SortBy(s[1..], key) == s[1..];
      if |s| > 1 {
        assert LexLe(key(s[0]), key(s[1]));
      }
      assert s == [s[0]] + s[1..];
    }
  }

  // ---------------------------------------------------------------------------
  // Distinct rows
  // ---------------------------------------------------------------------------

  predicate Distinct<T(==)>(s: seq<T>) {
    forall i, j :: 0 <= i < j < |s| ==> s[i] != s[j]
  }

  /** Two positions holding the same row make that row's multiplicity at least two. */
  lemma RepeatedMultiplicity<T>(s: seq<T>, i: nat, j: nat)
    requires i < j < |s| && s[i] == s[j]
    ensures multiset(s)[s[i]] >= 2
  {
    assert s == s[..j] + s[j..];
    assert s[i] in s[..j];
    assert s[j] == s[j..][0];
    assert multiset(s) == multiset(s[..j]) + multiset(s[j..]);
  }

  lemma {:induction false} DistinctMultiplicity<T>(s: seq<T>)
    requires Distinct(s)
    ensures forall x :: multiset(s)[x] <= 1
  {
    if s != [] {
      assert s == [s[0]] + s[1..];
      DistinctMultiplicity(s[1..]);
      assert s[0] !in s[1..];
    }
  }

  /** A rearrangement of distinct rows is distinct. */
  lemma PermutationDistinct<T>(a: seq<T>, b: seq<T>)
    requires Distinct(a) && multiset(a) == multiset(b)
    ensures Distinct(b)
  {
    DistinctMultiplicity(a);
    forall i, j | 0 <= i < j < |b| ensures b[i] != b[j] {
      if b[i] == b[j] {
        RepeatedMultiplicity(b, i, j);
        assert false;
      }
    }
  }

  /** One column of a table, in row order. */
  function ColumnOf<T, K>(s: seq<T>, key: T -> K): (r: seq<K>)
    ensures |r| == |s| && forall i :: 0 <= i < |s| ==> r[i] == key(s[i])
  {
    seq(|s|, i requires 0 <= i < |s| => key(s[i]))
  }

  lemma ColumnOfAppend<T, K>(a: seq<T>, b: seq<T>, key: T -> K)
    ensures ColumnOf(a + b, key) == ColumnOf(a, key) + ColumnOf(b, key)
  {
  }

  /** Removing position j removes one copy of its value. */
  lemma MultisetRemoveAt<T>(b: seq<T>, j: nat)
    requires j < |b|
    ensures multiset(b) == multiset{b[j]} + multiset(b[..j] + b[j + 1..])
  {
    assert b == (b[..j] + [b[j]]) + b[j + 1..];
    assert multiset(b) == multiset(b[..j] + [b[j]]) + multiset(b[j + 1..]);
  }

  lemma ColumnOfRemoveAt<T, K>(b: seq<T>, j: nat, key: T -> K)
    requires j < |b|
    ensures multiset(ColumnOf(b, key)) == multiset{key(b[j])} + multiset(ColumnOf(b[..j] + b[j + 1..], key))
  {
    var c := ColumnOf(b, key);
    assert ColumnOf(b[..j] + b[j + 1..], key) == c[..j] + c[j + 1..];
    MultisetRemoveAt(c, j);
  }

  lemma MultisetCancel<T>(x: T, m: multiset<T>, n: multiset<T>)
    requires multiset{x} + m == multiset{x} + n
    ensures m == n
  {
    forall y ensures m[y] == n[y] {
      assert (multiset{x} + m)[y] == (multiset{x} + n)[y];
    }
  }

  lemma PermutationColumnStep<T, K>(a: seq<T>, b: seq<T>, j: nat, key: T -> K)
    requires 0 < |a| && j < |b| && b[j] == a[0]
    requires multiset(ColumnOf(a[..0] + a[1..], key)) == multiset(ColumnOf(b[..j] + b[j + 1..], key))
    ensures multiset(ColumnOf(a, key)) == multiset(ColumnOf(b, key))
  {
    ColumnOfRemoveAt(b, j, key);
    ColumnOfRemoveAt(a, 0, key);
  }

  /** Rearranging the rows rearranges every column the same way. */
  lemma {:induction false} PermutationColumn<T, K>(a: seq<T>, b: seq<T>, key: T -> K)
    requires multiset(a) == multiset(b)
    ensures multiset(ColumnOf(a, key)) == multiset(ColumnOf(b, key))
    decreases |a|
  {
    if a == [] {
      assert |b| == |multiset(b)|;
    } else {
      assert a[0] in multiset(b);
      var j :| 0 <= j < |b| && b[j] == a[0];
      var rest, tail := b[..j] + b[j + 1..], a[..0] + a[1..];
      MultisetRemoveAt(b, j);
      MultisetRemoveAt(a, 0);
      MultisetCancel(a[0], multiset(rest), multiset(tail));
      PermutationColumn(tail, rest, key);
      PermutationColumnStep(a, b, j, key);
    }
  }

  /** A sequence of distinct rows has as many rows as it has different values. */
  lemma {:induction false} DistinctCardinality<T>(s: seq<T>)
    requires Distinct(s)
    ensures |set x | x in s| == |s|
  {
    if s != [] {
      DistinctCardinality(s[1..]);
      assert s == [s[0]] + s[1..];
      assert (set x | x in s) == {s[0]} + (set x | x in s[1..]);
      assert s[0] !in (set x | x in s[1..]);
    }
  }

  // ---------------------------------------------------------------------------
  // First-occurrence de-duplication on a key
  // ---------------------------------------------------------------------------

  function KeysOf<T(==), K>(s: seq<T>, key: T -> K): set<K> {
    set x | x in s :: key(x)
  }

  /** The index of the first row of `s` whose key is `k`. */
  function FirstIndexOf<T(==), K(==)>(s: seq<T>, key: T -> K, k: K): (i: nat)
    requires k in KeysOf(s, key)
    ensures i < |s| && key(s[i]) == k
    ensures forall j :: 0 <= j < i ==> key(s[j]) != k
  {
    if key(s[0]) == k then 0
    else
      assert k in KeysOf(s[1..], key) by {
        var x :| x in s && key(x) == k;
        assert x != s[0];
        assert x in s[1..];
      }
      1 + FirstIndexOf(s[1..], key, k)
  }

  /** The rows of `s`, in order, whose key is not in `seen` and not carried by an earlier row. */
  function DedupFrom<T(==,!new), K(==)>(s: seq<T>, key: T -> K, seen: set<K>): seq<T> {
    if s == [] then []
    else if key(s[0]) in seen then DedupFrom(s[1..], key, seen)
    else [s[0]] + DedupFrom(s[1..], key, seen + {key(s[0])})
  }

  lemma KeysOfCons<T, K>(x: T, t: seq<T>, key: T -> K)
    ensures KeysOf([x] + t, key) == {key(x)} + KeysOf(t, key)
  {
    assert forall y :: y in [x] + t <==> y == x || y in t;
  }

  lemma FirstIndexOfTail<T, K>(s: seq<T>, key: T -> K, k: K)
    requires |s| > 0 && key(s[0]) != k && k in KeysOf(s[1..], key)
    ensures k in KeysOf(s, key) && FirstIndexOf(s, key, k) == 1 + FirstIndexOf(s[1..], key, k)
  {
    assert s == [s[0]] + s[1..];
    KeysOfCons(s[0], s[1..], key);
  }

  /** The de-duplicated rows are rows of the input whose keys were not yet seen. */
  lemma {:induction false} DedupFromMembers<T(!new), K>(s: seq<T>, key: T -> K, seen: set<K>)
    ensures forall x :: x in DedupFrom(s, key, seen) ==> x in s && key(x) !in seen
  {
    if s != [] {
      if key(s[0]) in seen {
        DedupFromMembers(s[1..], key, seen);
      } else {
        DedupFromMembers(s[1..], key, seen + {key(s[0])});
      }
    }
  }

  /** De-duplication keeps every key not yet seen. */
  lemma {:induction false} DedupFromKeys<T(!new), K>(s: seq<T>, key: T -> K, seen: set<K>)
    ensures KeysOf(DedupFrom(s, key, seen), key) == KeysOf(s, key) - seen
  {
    if s != [] {
      assert s == [s[0]] + s[1..];
      KeysOfCons(s[0], s[1..], key);
      if key(s[0]) in seen {
        DedupFromKeys(s[1..], key, seen);
      } else {
        DedupFromKeys(s[1..], key, seen + {key(s[0])});
        KeysOfCons(s[0], DedupFrom(s[1..], key, seen + {key(s[0])}), key);
      }
    }
  }

  /** No two rows of `r` carry the same key. */
  predicate KeysDistinct<T, K(==)>(r: seq<T>, key: T -> K) {
    forall i, j :: 0 <= i < j < |r| ==> key(r[i]) != key(r[j])
  }

  /** Every row of `r` is the first row of `s` with its key. */
  predicate FirstOccurrences<T(==), K(==)>(r: seq<T>, s: seq<T>, key: T -> K) {
    forall i :: 0 <= i < |r| ==> key(r[i]) in KeysOf(s, key) && r[i] == s[FirstIndexOf(s, key, key(r[i]))]
  }

  /** The de-duplicated rows carry pairwise different keys. */
  lemma {:induction false} DedupFromDistinct<T(!new), K>(s: seq<T>, key: T -> K, seen: set<K>)
    ensures KeysDistinct(DedupFrom(s, key, seen), key)
  {
    if s != [] {
      var k0 := key(s[0]);
      if k0 in seen {
        DedupFromDistinct(s[1..], key, seen);
        assert DedupFrom(s, key, seen) == DedupFrom(s[1..], key, seen);
      } else {
        var t := DedupFrom(s[1..], key, seen + {k0});
        DedupFromDistinct(s[1..], key, seen + {k0});
        DedupFromMembers(s[1..], key, seen + {k0});
        var r := [s[0]] + t;
        assert DedupFrom(s, key, seen) == r;
        forall i, j | 0 <= i < j < |r| ensures key(r[i]) != key(r[j]) {
          assert r[j] == t[j - 1] && t[j - 1] in t;
          if i > 0 {
            assert r[i] == t[i - 1];
            assert key(t[i - 1]) != key(t[j - 1]);
          }
        }
      }
    }
  }

  /** Each kept row is the first row of the input with its key. */
  lemma {:induction false} DedupFromFirst<T(!new), K>(s: seq<T>, key: T -> K, seen: set<K>)
    ensures FirstOccurrences(DedupFrom(s, key, seen), s, key)
  {
    if s != [] {
      var k0 := key(s[0]);
      var seen' := if k0 in seen then seen else seen + {k0};
      var t := DedupFrom(s[1..], key, seen');
      DedupFromFirst(s[1..], key, seen');
      DedupFromMembers(s[1..], key, seen');
      var r := DedupFrom(s, key, seen);
      var off := if k0 in seen then 0 else 1;
      assert r == if k0 in seen then t else [s[0]] + t;
      forall i | 0 <= i < |r| ensures key(r[i]) in KeysOf(s, key) && r[i] == s[FirstIndexOf(s, key, key(r[i]))] {
        if i < off {
          assert r[0] == s[0] && s[0] in s;
        } else {
          var x := t[i - off];
          assert r[i] == x && x in t;
          assert key(x) in KeysOf(s[1..], key) && x == s[1..][FirstIndexOf(s[1..], key, key(x))];
          FirstIndexOfTail(s, key, key(x));
        }
      }
    }
  }

  /**
   * Keeps, for every key, only the first row carrying it (drop_duplicates with
   * keep='first', and unique()).
   */
  function DropDuplicatesBy<T(==,!new), K(==)>(s: seq<T>, key: T -> K): (r: seq<T>)
    ensures forall x :: x in r ==> x in s
    ensures KeysOf(r, key) == KeysOf(s, key)
    ensures forall i, j :: 0 <= i < j < |r| ==> key(r[i]) != key(r[j])
    ensures forall i :: 0 <= i < |r| ==> key(r[i]) in KeysOf(s, key) && r[i] == s[FirstIndexOf(s, key, key(r[i]))]
  {
    DedupFromMembers(s, key, {});
    DedupFromKeys(s, key, {});
    DedupFromDistinct(s, key, {});
    DedupFromFirst(s, key, {});
    DedupFrom(s, key, {})
  }

  // ---------------------------------------------------------------------------
  // Joins on a key (the first component of each row)
  // ---------------------------------------------------------------------------

  predicate HasKey<K(==), V(==)>(s: seq<(K, V)>, k: K) {
    exists p :: p in s && p.0 == k
  }

  predicate KeysUnique<K(==), V>(s: seq<(K, V)>) {
    forall i, j :: 0 <= i < j < |s| ==> s[i].0 != s[j].0
  }

  /** One joined row per row of `right` whose key is `k`, each paired with `l`. */
  function MatchRight<K(==,!new), L(==,!new), R(==,!new)>(k: K, l: L, right: seq<(K, R)>): (r: seq<(K, Option<L>, Option<R>)>)
    ensures forall row :: row in r <==>
      row.0 == k && row.1 == Some(l) && row.2.Some? && (k, row.2.value) in right
    ensures r == [] <==> !HasKey(right, k)
    ensures KeysUnique(right) ==> |r| <= 1
  {
    if right == [] then []
    else
      assert right == [right[0]] + right[1..];
      var rest := MatchRight(k, l, right[1..]);
      assert KeysUnique(right) ==> KeysUnique(right[1..]);
      assert KeysUnique(right) && right[0].0 == k ==> !HasKey(right[1..], k) by {
        if KeysUnique(right) && right[0].0 == k {
          forall p | p in right[1..] ensures p.0 != k {
            var j :| 0 <= j < |right[1..]| && right[1..][j] == p;
            assert p == right[j + 1];
          }
        }
      }
      assert HasKey(right, k) <==> right[0].0 == k || HasKey(right[1..], k);
      (if right[0].0 == k then [(k, Some(l), Some(right[0].1))] else []) + rest
  }

  /** The rows every left row contributes to a left or outer join. */
  function LeftPart<K(==,!new), L(==,!new), R(==,!new)>(left: seq<(K, L)>, right: seq<(K, R)>): (r: seq<(K, Option<L>, Option<R>)>)
    ensures forall row :: row in r <==>
      row.1.Some? && (row.0, row.1.value) in left &&
      ((row.2.Some? && (row.0, row.2.value) in right) || (row.2.None? && !HasKey(right, row.0)))
    ensures KeysUnique(left) && KeysUnique(right) ==>
      |r| == |left| && forall i :: 0 <= i < |r| ==> r[i].0 == left[i].0
  {
    if left == [] then []
    else
      assert left == [left[0]] + left[1..];
      var m := MatchRight(left[0].0, left[0].1, right);
      var head := if m == [] then [(left[0].0, Some(left[0].1), None)] else m;
      assert KeysUnique(left) ==> KeysUnique(left[1..]);
      assert KeysUnique(right) ==> |head| == 1 && head[0].0 == left[0].0;
      head + LeftPart(left[1..], right)
  }

  /** The rows of `right` whose key no row of `left` carries. */
  function RightOnly<K(==,!new), L(==,!new), R(==,!new)>(left: seq<(K, L)>, right: seq<(K, R)>): (r: seq<(K, Option<L>, Option<R>)>)
    ensures forall row :: row in r <==>
      row.1.None? && row.2.Some? && (row.0, row.2.value) in right && !HasKey(left, row.0)
  {
    if right == [] then []
    else
      assert right == [right[0]] + right[1..];
      (if HasKey(left, right[0].0) then [] else [(right[0].0, None, Some(right[0].1))]) + RightOnly(left, right[1..])
  }

  /** No two joined rows carry the same key. */
  predicate JoinKeysDistinct<K(==), A, B>(r: seq<(K, A, B)>) {
    forall i, j :: 0 <= i < j < |r| ==> r[i].0 != r[j].0
  }

  /** With unique keys on the right, the right-only rows carry pairwise different keys. */
  lemma {:induction false} RightOnlyKeysDistinct<K(!new), L(!new), R(!new)>(left: seq<(K, L)>, right: seq<(K, R)>)
    requires KeysUnique(right)
    ensures JoinKeysDistinct(RightOnly(left, right))
  {
    if right != [] {
      var rest := RightOnly(left, right[1..]);
      assert KeysUnique(right[1..]);
      RightOnlyKeysDistinct(left, right[1..]);
      var head: seq<(K, Option<L>, Option<R>)> := if HasKey(left, right[0].0) then [] else [(right[0].0, None, Some(right[0].1))];
      assert RightOnly(left, right) == head + rest;
      forall row | row in rest ensures row.0 != right[0].0 {
        var j :| 0 <= j < |right[1..]| && right[1..][j] == (row.0, row.2.value);
        assert right[j + 1].0 == row.0;
      }
      var r := head + rest;
      forall i, j | 0 <= i < j < |r| ensures r[i].0 != r[j].0 {
        if i < |head| {
          assert r[j] == rest[j - |head|] && rest[j - |head|] in rest;
        } else {
          assert r[i] == rest[i - |head|] && r[j] == rest[j - |head|];
          assert rest[i - |head|].0 != rest[j - |head|].0;
        }
      }
    }
  }

  /**
   * Full outer join on the key: every pair of rows that agree on the key, every
   * left row without a partner (right side missing), and every right row
   * without a partner (left side missing).
   */
  function OuterJoin<K(==,!new), L(==,!new), R(==,!new)>(left: seq<(K, L)>, right: seq<(K, R)>): (r: seq<(K, Option<L>, Option<R>)>)
    ensures forall row :: row in r <==>
      || (row.1.Some? && row.2.Some? && (row.0, row.1.value) in left && (row.0, row.2.value) in right)
      || (row.1.Some? && row.2.None? && (row.0, row.1.value) in left && !HasKey(right, row.0))
      || (row.1.None? && row.2.Some? && (row.0, row.2.value) in right && !HasKey(left, row.0))
  {
    LeftPart(left, right) + RightOnly(left, right)
  }

  /** With unique keys on both sides, the outer join has one row per key of either side. */
  lemma OuterJoinOneRowPerKey<K(!new), L(!new), R(!new)>(left: seq<(K, L)>, right: seq<(K, R)>)
    requires KeysUnique(left) && KeysUnique(right)
    ensures forall i, j :: 0 <= i < j < |OuterJoin(left, right)| ==>
      OuterJoin(left, right)[i].0 != OuterJoin(left, right)[j].0
    ensures forall k :: (exists row :: row in OuterJoin(left, right) && row.0 == k) <==> HasKey(left, k) || HasKey(right, k)
  {
    var a, b := LeftPart(left, right), RightOnly(left, right);
    var r := OuterJoin(left, right);
    assert r == a + b;
    RightOnlyKeysDistinct(left, right);
    forall i, j | 0 <= i < j < |r| ensures r[i].0 != r[j].0 {
      if j < |a| {
        assert r[i].0 == left[i].0 && r[j].0 == left[j].0;
      } else if i >= |a| {
        assert r[i] == b[i - |a|] && r[j] == b[j - |a|];
        assert b[i - |a|].0 != b[j - |a|].0;
      } else {
        assert r[i].0 == left[i].0;
        assert left[i] in left;
        assert r[j] in b;
        assert !HasKey(left, r[j].0);
      }
    }
    forall k ensures (exists row :: row in r && row.0 == k) <==> HasKey(left, k) || HasKey(right, k) {
      if HasKey(left, k) {
        var p :| p in left && p.0 == k;
        var i :| 0 <= i < |left| && left[i] == p;
        assert a[i] in r;
      } else if HasKey(right, k) {
        var p :| p in right && p.0 == k;
        assert (k, None, Some(p.1)) in b;
        assert (k, None, Some(p.1)) in r;
      }
      if exists row :: row in r && row.0 == k {
        var row :| row in r && row.0 == k;
        if row.1.Some? {
          assert (k, row.1.value) in left;
        } else {
          assert (k, row.2.value) in right;
        }
      }
    }
  }

  /** The rows of `right` whose key is `k`, each paired with `l`. */
  function InnerMatch<K(==,!new), L(==,!new), R(==,!new)>(k: K, l: L, right: seq<(K, R)>): (r: seq<(K, L, R)>)
    ensures forall row :: row in r <==> row.0 == k && row.1 == l && (k, row.2) in right
  {
    if right == [] then []
    else
      assert right == [right[0]] + right[1..];
      (if right[0].0 == k then [(k, l, right[0].1)] else []) + InnerMatch(k, l, right[1..])
  }

  /** Inner join on the key: every pair of rows that agree on the key, in left order. */
  function InnerJoin<K(==,!new), L(==,!new), R(==,!new)>(left: seq<(K, L)>, right: seq<(K, R)>): (r: seq<(K, L, R)>)
    ensures forall row :: row in r <==> (row.0, row.1) in left && (row.0, row.2) in right
  {
    if left == [] then []
    else
      assert left == [left[0]] + left[1..];
      InnerMatch(left[0].0, left[0].1, right) + InnerJoin(left[1..], right)
  }

  /** Pairs every row with its join key, keeping the rows' order. */
  function KeyBy<T(!new), K(!new)>(s: seq<T>, key: T -> K): (r: seq<(K, T)>)
    ensures |r| == |s| && forall i :: 0 <= i < |s| ==> r[i] == (key(s[i]), s[i])
    ensures forall k, x :: (k, x) in r <==> x in s && k == key(x)
  {
    seq(|s|, i requires 0 <= i < |s| => (key(s[i]), s[i]))
  }

  /** A key occurs in a keyed table exactly when one of the rows has that key. */
  lemma KeyByHasKey<T(!new), K(!new)>(s: seq<T>, key: T -> K, k: K)
    ensures HasKey(KeyBy(s, key), k) <==> exists x :: x in s && key(x) == k
  {
    if exists x :: x in s && key(x) == k {
      var x :| x in s && key(x) == k;
      assert (k, x) in KeyBy(s, key);
    }
  }

  /** What an outer join pairs a left row with: a right row of the same key, or nothing when there is none. */
  predicate MatchFor<K(==), R(==)>(k: K, o: Option<R>, right: seq<(K, R)>) {
    match o
    case Some(v) => (k, v) in right
    case None => !HasKey(right, k)
  }

  /** The rows of an outer join that carry a left row: each left row with each of its matches. */
  lemma OuterJoinLeftRows<K(!new), L(!new), R(!new)>(left: seq<(K, L)>, right: seq<(K, R)>)
    ensures forall k, l, o :: (k, Some(l), o) in OuterJoin(left, right) <==> (k, l) in left && MatchFor(k, o, right)
  {
    forall k, l, o
      ensures (k, Some(l), o) in OuterJoin(left, right) <==> (k, l) in left && MatchFor(k, o, right)
    {
      var row := (k, Some(l), o);
      assert row.1.value == l;
    }
  }

  /** What each side of an outer-join row says about its key: the input row it came from, or that the input has no row with that key. */
  lemma OuterJoinRowSides<K(!new), L(!new), R(!new)>(left: seq<(K, L)>, right: seq<(K, R)>, row: (K, Option<L>, Option<R>))
    requires row in OuterJoin(left, right)
    ensures row.1.Some? || row.2.Some?
    ensures row.1.Some? ==> (row.0, row.1.value) in left
    ensures row.1.None? ==> !HasKey(left, row.0)
    ensures row.2.Some? ==> (row.0, row.2.value) in right
    ensures row.2.None? ==> !HasKey(right, row.0)
  {
  }

  /** Every left row appears in the outer join, with a match or with nothing. */
  lemma OuterJoinKeepsLeft<K(!new), L(!new), R(!new)>(left: seq<(K, L)>, right: seq<(K, R)>, k: K, l: L) returns (o: Option<R>)
    requires (k, l) in left
    ensures (k, Some(l), o) in OuterJoin(left, right)
  {
    if HasKey(right, k) {
      var p :| p in right && p.0 == k;
      assert (k, p.1) == p;
      o := Some(p.1);
    } else {
      o := None;
    }
  }

  /** Every right row appears in the outer join, with a match or with nothing. */
  lemma OuterJoinKeepsRight<K(!new), L(!new), R(!new)>(left: seq<(K, L)>, right: seq<(K, R)>, k: K, v: R) returns (o: Option<L>)
    requires (k, v) in right
    ensures (k, o, Some(v)) in OuterJoin(left, right)
  {
    if HasKey(left, k) {
      var p :| p in left && p.0 == k;
      assert (k, p.1) == p;
      o := Some(p.1);
    } else {
      o := None;
    }
  }
}
