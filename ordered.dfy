/**
 * Clustering order of a wide-column partition.
 *
 * Every clustering key is written as a sequence of integers compared
 * lexicographically; a column declared DESC is stored negated, so that the
 * single ascending order below is the partition's scan order.  A partition is
 * a sequence of rows strictly sorted by its key (so no two rows share a
 * primary key), and every INSERT or UPDATE is an upsert by that key.
 */
module Ordered {

  /** Strict lexicographic order; a proper prefix sorts first. */
  predicate LexLess(a: seq<int>, b: seq<int>)
    decreases |a|
  {
    if |a| == 0 then |b| > 0
    else if |b| == 0 then false
    else a[0] < b[0] || (a[0] == b[0] && LexLess(a[1..], b[1..]))
  }

  lemma {:induction false} LexLessIrreflexive(a: seq<int>)
    ensures !LexLess(a, a)
    decreases |a|
  {
    if |a| > 0 {
      LexLessIrreflexive(a[1..]);
    }
  }

  lemma {:induction false} LexLessTransitive(a: seq<int>, b: seq<int>, c: seq<int>)
    requires LexLess(a, b) && LexLess(b, c)
    ensures LexLess(a, c)
    decreases |a|
  {
    if |a| > 0 && a[0] == b[0] && b[0] == c[0] {
      LexLessTransitive(a[1..], b[1..], c[1..]);
    }
  }

  /** Any two distinct keys are ordered one way or the other. */
  lemma {:induction false} LexLessTotal(a: seq<int>, b: seq<int>)
    ensures a == b || LexLess(a, b) || LexLess(b, a)
    decreases |a|
  {
    if |a| > 0 && |b| > 0 && a[0] == b[0] {
      LexLessTotal(a[1..], b[1..]);
      assert a == [a[0]] + a[1..] && b == [b[0]] + b[1..];
    }
  }

  lemma LexLessAsymmetric(a: seq<int>, b: seq<int>)
    requires LexLess(a, b)
    ensures !LexLess(b, a) && a != b
  {
    LexLessIrreflexive(a);
    if LexLess(b, a) {
      LexLessTransitive(a, b, a);
    }
  }

  /** The rows of a partition appear in strictly increasing key order. */
  ghost predicate SortedBy<R>(rows: seq<R>, key: R -> seq<int>)
  {
    forall i, j :: 0 <= i < j < |rows| ==> LexLess(key(rows[i]), key(rows[j]))
  }

  /**
   * Writes row `r` into a partition: a row with the same key is replaced in
   * place, otherwise `r` is inserted at its position in clustering order.
   */
  function Upsert<R>(rows: seq<R>, r: R, key: R -> seq<int>): (res: seq<R>)
    ensures r in res
    ensures |rows| <= |res| <= |rows| + 1
    decreases |rows|
  {
    if rows == [] then [r]
    else if key(rows[0]) == key(r) then [r] + rows[1..]
    else if LexLess(key(r), key(rows[0])) then [r] + rows
    else [rows[0]] + Upsert(rows[1..], r, key)
  }

  /** After an upsert the partition holds `r` and exactly the old rows whose key differs from it. */
  lemma {:induction false} UpsertMembers<R>(rows: seq<R>, r: R, key: R -> seq<int>, x: R)
    requires SortedBy(rows, key)
    ensures x in Upsert(rows, r, key) <==> x == r || (x in rows && key(x) != key(r))
    decreases |rows|
  {
    if rows == [] {
    } else if key(rows[0]) == key(r) {
      if x in rows[1..] {
        var j :| 1 <= j < |rows| && rows[j] == x;
        LexLessAsymmetric(key(rows[0]), key(rows[j]));
      }
      assert rows == [rows[0]] + rows[1..];
    } else if LexLess(key(r), key(rows[0])) {
      if x in rows {
        var j :| 0 <= j < |rows| && rows[j] == x;
        if j > 0 {
          LexLessTransitive(key(r), key(rows[0]), key(rows[j]));
        }
        LexLessAsymmetric(key(r), key(rows[j]));
      }
    } else {
      UpsertMembers(rows[1..], r, key, x);
      assert rows == [rows[0]] + rows[1..];
    }
  }

  /** An upsert keeps the partition in clustering order. */
  lemma {:induction false} UpsertSorted<R>(rows: seq<R>, r: R, key: R -> seq<int>)
    requires SortedBy(rows, key)
    ensures SortedBy(Upsert(rows, r, key), key)
    decreases |rows|
  {
    var res := Upsert(rows, r, key);
    if rows == [] {
    } else if key(rows[0]) == key(r) {
      forall i, j | 0 <= i < j < |res|
        ensures LexLess(key(res[i]), key(res[j]))
      {
        assert res[j] == rows[j];
        if i > 0 {
          assert res[i] == rows[i];
        }
      }
    } else if LexLess(key(r), key(rows[0])) {
      forall i, j | 0 <= i < j < |res|
        ensures LexLess(key(res[i]), key(res[j]))
      {
        assert res[j] == rows[j - 1];
        if i == 0 && j > 1 {
          LexLessTransitive(key(r), key(rows[0]), key(rows[j - 1]));
        } else if i > 0 {
          assert res[i] == rows[i - 1];
        }
      }
    } else {
      LexLessTotal(key(r), key(rows[0]));
      var tail := Upsert(rows[1..], r, key);
      UpsertSorted(rows[1..], r, key);
      forall i, j | 0 <= i < j < |res|
        ensures LexLess(key(res[i]), key(res[j]))
      {
        if i == 0 {
          var x := tail[j - 1];
          UpsertMembers(rows[1..], r, key, x);
          if x != r {
            var k :| 0 <= k < |rows[1..]| && rows[1..][k] == x;
            assert rows[k + 1] == x;
          }
        } else {
          assert res[i] == tail[i - 1] && res[j] == tail[j - 1];
        }
      }
    }
  }

  /** A row under a key the partition does not hold yet adds exactly that row. */
  lemma {:induction false} UpsertFresh<R>(rows: seq<R>, r: R, key: R -> seq<int>)
    requires forall x :: x in rows ==> key(x) != key(r)
    ensures multiset(Upsert(rows, r, key)) == multiset(rows) + multiset{r}
    ensures |Upsert(rows, r, key)| == |rows| + 1
    decreases |rows|
  {
    if rows == [] {
    } else if LexLess(key(r), key(rows[0])) {
    } else {
      UpsertFresh(rows[1..], r, key);
      assert rows == [rows[0]] + rows[1..];
    }
  }

  /** Splicing `r` in at position `i` keeps the length and every other position. */
  lemma SpliceAt<R>(rows: seq<R>, r: R, i: nat)
    requires i < |rows|
    ensures |rows[..i] + [r] + rows[i + 1..]| == |rows|
    ensures (rows[..i] + [r] + rows[i + 1..])[i] == r
    ensures forall k :: 0 <= k < |rows| && k != i ==> (rows[..i] + [r] + rows[i + 1..])[k] == rows[k]
  {
  }

  /** A row under a key the partition already holds replaces that row in place. */
  lemma {:induction false} UpsertReplaces<R>(rows: seq<R>, r: R, key: R -> seq<int>, i: nat)
    requires SortedBy(rows, key)
    requires i < |rows| && key(rows[i]) == key(r)
    ensures Upsert(rows, r, key) == rows[..i] + [r] + rows[i + 1..]
    decreases |rows|
  {
    if key(rows[0]) == key(r) {
      if i > 0 {
        LexLessAsymmetric(key(rows[0]), key(rows[i]));
      }
    } else if LexLess(key(r), key(rows[0])) {
      LexLessAsymmetric(key(rows[0]), key(rows[i]));
    } else {
      UpsertReplaces(rows[1..], r, key, i - 1);
      assert rows[1..][..i - 1] == rows[1..i];
      assert rows[1..][i..] == rows[i + 1..];
      assert [rows[0]] + rows[1..i] == rows[..i];
    }
  }

  // -----------------------------------------------------------------------
  // Tables: a map from partition key to the partition's rows
  // -----------------------------------------------------------------------

  /** A partition's rows; a partition never written is empty. */
  function Partition<R>(t: map<int, seq<R>>, k: int): seq<R>
  {
    if k in t then t[k] else []
  }

  /** Every partition is in clustering order and holds only rows whose partition-key column names it. */
  ghost predicate TableValid<R>(t: map<int, seq<R>>, key: R -> seq<int>, part: R -> int)
  {
    forall k :: k in t ==> SortedBy(t[k], key) && (forall r :: r in t[k] ==> part(r) == k)
  }

  /** An INSERT of row `r`: an upsert into the partition its partition-key column names. */
  function Put<R>(t: map<int, seq<R>>, r: R, key: R -> seq<int>, part: R -> int): (t': map<int, seq<R>>)
    ensures r in Partition(t', part(r))
    ensures forall k :: k != part(r) ==> Partition(t', k) == Partition(t, k)
  {
    t[part(r) := Upsert(Partition(t, part(r)), r, key)]
  }

  /** A written partition holds the new row and the old rows under other keys; other partitions are unchanged. */
  lemma PutMembers<R>(t: map<int, seq<R>>, r: R, key: R -> seq<int>, part: R -> int, k: int, x: R)
    requires TableValid(t, key, part)
    ensures x in Partition(Put(t, r, key, part), k)
        <==> if k == part(r) then x == r || (x in Partition(t, k) && key(x) != key(r))
             else x in Partition(t, k)
  {
    if k == part(r) {
      UpsertMembers(Partition(t, k), r, key, x);
    }
  }

  lemma PutValid<R>(t: map<int, seq<R>>, r: R, key: R -> seq<int>, part: R -> int)
    requires TableValid(t, key, part)
    ensures TableValid(Put(t, r, key, part), key, part)
  {
    var k := part(r);
    UpsertSorted(Partition(t, k), r, key);
    forall x | x in Upsert(Partition(t, k), r, key)
      ensures part(x) == k
    {
      UpsertMembers(Partition(t, k), r, key, x);
    }
  }
}
