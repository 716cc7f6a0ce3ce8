/**
 * Generic operations on an in-memory table (a map from primary key to row)
 * that the repositories' queries need: scanning the keys in order and
 * ordering rows by a column.
 */
module Tables {
  import opened Common

  /** No element occurs twice. */
  predicate Distinct<T(==)>(s: seq<T>)
  {
    forall i, j :: 0 <= i < j < |s| ==> s[i] != s[j]
  }

  /** The keys in `[0, n)` whose row satisfies `p`, in increasing order, each once. */
  function SelectKeys<V>(m: map<int, V>, n: nat, p: V -> bool): (r: seq<int>)
    ensures forall k :: k in r <==> 0 <= k < n && k in m && p(m[k])
    ensures Distinct(r)
  {
    if n == 0 then []
    else
      var prefix := SelectKeys(m, n - 1, p);
      if n - 1 in m && p(m[n - 1]) then prefix + [n - 1] else prefix
  }

  /**
   * A key in `[0, n)` whose row satisfies `p`, if there is one: the row a
   * lookup on a column finds. When the column is unique there is only one.
   */
  function FindFirst<V>(m: map<int, V>, n: nat, p: V -> bool): (r: Option<int>)
    ensures r.Some? ==> 0 <= r.value < n && r.value in m && p(m[r.value])
    ensures r.None? <==> forall k :: 0 <= k < n && k in m ==> !p(m[k])
  {
    var keys := SelectKeys(m, n, p);
    if keys == [] then None else assert keys[0] in keys; Some(keys[0])
  }

  /** The rows are in non-increasing order of `rank`. */
  predicate SortedDesc<V>(s: seq<V>, rank: V -> int)
  {
    forall i, j :: 0 <= i < j < |s| ==> rank(s[i]) >= rank(s[j])
  }

  /** Inserts `x` before the first row that does not outrank it. */
  function Insert<V(==)>(x: V, s: seq<V>, rank: V -> int): (r: seq<V>)
    ensures multiset(r) == multiset(s) + multiset{x}
  {
    if s == [] || rank(x) >= rank(s[0]) then [x] + s
    else
      assert s == [s[0]] + s[1..];
      [s[0]] + Insert(x, s[1..], rank)
  }

  /** Inserting into a sorted sequence keeps it sorted. */
  lemma {:induction false} InsertSorted<V>(x: V, s: seq<V>, rank: V -> int)
    requires SortedDesc(s, rank)
    ensures SortedDesc(Insert(x, s, rank), rank)
  {
    if s != [] && rank(x) < rank(s[0]) {
      var tail := Insert(x, s[1..], rank);
      InsertSorted(x, s[1..], rank);
      forall i | 0 <= i < |tail|
        ensures rank(tail[i]) <= rank(s[0])
      {
        assert tail[i] in multiset(tail);
        if tail[i] != x {
          assert tail[i] in multiset(s[1..]);
          var j :| 0 <= j < |s[1..]| && s[1..][j] == tail[i];
          assert s[j + 1] == tail[i];
        }
      }
      var r := [s[0]] + tail;
      forall i, j | 0 <= i < j < |r|
        ensures rank(r[i]) >= rank(r[j])
      {
        if i > 0 {
          assert r[i] == tail[i - 1] && r[j] == tail[j - 1];
        } else {
          assert r[j] == tail[j - 1];
        }
      }
    }
  }

  /** Inserting a row that is not there yet into a sequence without repeats gives one without repeats. */
  lemma {:induction false} InsertDistinct<V>(x: V, s: seq<V>, rank: V -> int)
    requires Distinct(s) && x !in s
    ensures Distinct(Insert(x, s, rank))
  {
    if s != [] && rank(x) < rank(s[0]) {
      var tail := Insert(x, s[1..], rank);
      InsertDistinct(x, s[1..], rank);
      var r := [s[0]] + tail;
      forall i, j | 0 <= i < j < |r|
        ensures r[i] != r[j]
      {
        assert r[j] == tail[j - 1];
        if i > 0 {
          assert r[i] == tail[i - 1];
        } else {
          assert tail[j - 1] in multiset(tail);
          assert s[0] !in s[1..];
        }
      }
    }
  }

  /** Orders rows by descending `rank` (insertion sort). */
  function SortDesc<V(==)>(s: seq<V>, rank: V -> int): (r: seq<V>)
    ensures multiset(r) == multiset(s)
  {
    if s == [] then []
    else
      assert s == [s[0]] + s[1..];
      Insert(s[0], SortDesc(s[1..], rank), rank)
  }

  /** The result of sorting is sorted, and has no repeats when the input has none. */
  lemma {:induction false} SortDescProperties<V>(s: seq<V>, rank: V -> int)
    ensures SortedDesc(SortDesc(s, rank), rank)
    ensures Distinct(s) ==> Distinct(SortDesc(s, rank))
  {
    if s != [] {
      var rest := SortDesc(s[1..], rank);
      SortDescProperties(s[1..], rank);
      InsertSorted(s[0], rest, rank);
      if Distinct(s) {
        assert Distinct(s[1..]);
        forall k | 0 <= k < |s[1..]|
          ensures s[1..][k] != s[0]
        {
          assert s[1..][k] == s[k + 1];
        }
        assert s[0] !in multiset(s[1..]);
        InsertDistinct(s[0], rest, rank);
      }
    }
  }
}
