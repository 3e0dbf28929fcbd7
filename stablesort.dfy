/** `sort.SliceStable(data, func(i, j int) bool { return data[i][0] < data[j][0] })`
    as both summaries call it: table rows ordered by their first cell, rows
    with equal first cells kept in their original order. The library's own
    algorithm is not modelled; an insertion sort with the same contract is. */
module StableSort {
  import Ordering

  /** A table row: its cells, the period key first. */
  type Row = r: seq<string> | |r| >= 1 witness [""]

  /** No row's key is greater than the key of a row after it. */
  predicate SortedByKey(rows: seq<Row>)
  {
    forall i, j | 0 <= i < j < |rows| :: !Ordering.Less(rows[j][0], rows[i][0])
  }

  /** Every row's key is less than the key of every row after it. */
  predicate StrictlySortedByKey(rows: seq<Row>)
  {
    forall i, j | 0 <= i < j < |rows| :: Ordering.Less(rows[i][0], rows[j][0])
  }

  /** No two rows share a key. */
  predicate DistinctKeys(rows: seq<Row>)
  {
    forall i, j | 0 <= i < j < |rows| :: rows[i][0] != rows[j][0]
  }

  /** The rows whose key is `key`, in their order. */
  function WithKey(rows: seq<Row>, key: string): seq<Row>
  {
    if rows == [] then []
    else WithKey(rows[..|rows| - 1], key) + (if rows[|rows| - 1][0] == key then [rows[|rows| - 1]] else [])
  }

  /** Inserts `x` after the last row whose key is not greater than its own. */
  function Insert(sorted: seq<Row>, x: Row): (r: seq<Row>)
    ensures multiset(r) == multiset(sorted) + multiset{x}
  {
    if sorted == [] then [x]
    else
      var init, last := sorted[..|sorted| - 1], sorted[|sorted| - 1];
      assert sorted == init + [last];
      if Ordering.Less(x[0], last[0]) then Insert(init, x) + [last] else sorted + [x]
  }

  /** Insertion keeps the rows sorted. */
  lemma {:induction false} InsertSorted(sorted: seq<Row>, x: Row)
    requires SortedByKey(sorted)
    ensures SortedByKey(Insert(sorted, x))
  {
    if sorted != [] {
      var init, last := sorted[..|sorted| - 1], sorted[|sorted| - 1];
      if Ordering.Less(x[0], last[0]) {
        InsertSorted(init, x);
        InsertBefore(init, last, x);
      } else {
        AppendAfter(sorted, x);
      }
    }
  }

  /** A row whose key is not less than the last one's can go at the end. */
  lemma AppendAfter(sorted: seq<Row>, x: Row)
    requires SortedByKey(sorted) && sorted != []
    requires !Ordering.Less(x[0], sorted[|sorted| - 1][0])
    ensures SortedByKey(sorted + [x])
  {
    var last := sorted[|sorted| - 1];
    forall i | 0 <= i < |sorted|
      ensures !Ordering.Less(x[0], sorted[i][0])
    {
      if i < |sorted| - 1 {
        Ordering.NotLessTransitive(sorted[i][0], last[0], x[0]);
      }
    }
  }

  /** The rows before `last`, with `x` inserted, stay before it when `x`'s key
      is less than `last`'s. */
  lemma InsertBefore(init: seq<Row>, last: Row, x: Row)
    requires SortedByKey(init + [last])
    requires Ordering.Less(x[0], last[0])
    requires SortedByKey(Insert(init, x))
    ensures SortedByKey(Insert(init, x) + [last])
  {
    var front := Insert(init, x);
    forall i | 0 <= i < |front|
      ensures !Ordering.Less(last[0], front[i][0])
    {
      assert front[i] in multiset(front);
      if front[i] == x {
        Ordering.Asymmetric(x[0], last[0]);
      } else {
        assert front[i] in init;
        var k :| 0 <= k < |init| && init[k] == front[i];
        assert (init + [last])[k] == front[i] && (init + [last])[|init|] == last;
      }
    }
  }

  /** Insertion places `x` after every row with the same key: for each key,
      the rows with that key keep their order. */
  lemma {:induction false} InsertStable(sorted: seq<Row>, x: Row, key: string)
    ensures WithKey(Insert(sorted, x), key) == WithKey(sorted, key) + (if x[0] == key then [x] else [])
  {
    if sorted == [] {
      assert [x][..0] == [];
    } else {
      var init, last := sorted[..|sorted| - 1], sorted[|sorted| - 1];
      if Ordering.Less(x[0], last[0]) {
        InsertStable(init, x, key);
        var front := Insert(init, x);
        assert (front + [last])[..|front|] == front;
        Ordering.Irreflexive(x[0]);
      } else {
        assert (sorted + [x])[..|sorted|] == sorted;
      }
    }
  }

  /** `sort.SliceStable` by key: the result is sorted, and for every key the rows
      with that key are those of `data` in their original order, so the sort
      only reorders. */
  method SortByKey(data: seq<Row>) returns (sorted: seq<Row>)
    ensures SortedByKey(sorted)
    ensures forall key :: WithKey(sorted, key) == WithKey(data, key)
    ensures multiset(sorted) == multiset(data)
  {
    sorted := [];
    var i := 0;
    while i < |data|
      invariant 0 <= i <= |data|
      invariant SortedByKey(sorted)
      invariant forall key :: WithKey(sorted, key) == WithKey(data[..i], key)
      invariant multiset(sorted) == multiset(data[..i])
    {
      var x := data[i];
      InsertSorted(sorted, x);
      forall key
        ensures WithKey(Insert(sorted, x), key) == WithKey(data[..i + 1], key)
      {
        InsertStable(sorted, x, key);
        assert data[..i + 1][..i] == data[..i];
      }
      assert data[..i + 1] == data[..i] + [x];
      sorted := Insert(sorted, x);
      i := i + 1;
    }
    assert data[..i] == data;
  }

  /** A row with key `key` at index `i` shows up among the rows with that key. */
  lemma {:induction false} FoundWithKey(rows: seq<Row>, i: nat)
    requires i < |rows|
    ensures |WithKey(rows, rows[i][0])| >= 1
  {
    if i < |rows| - 1 {
      FoundWithKey(rows[..|rows| - 1], i);
    }
  }

  /** Two rows with the same key make two entries with that key. */
  lemma {:induction false} TwoWithKey(rows: seq<Row>, i: nat, j: nat)
    requires i < j < |rows| && rows[i][0] == rows[j][0]
    ensures |WithKey(rows, rows[i][0])| >= 2
  {
    var init := rows[..|rows| - 1];
    if j < |rows| - 1 {
      TwoWithKey(init, i, j);
    } else {
      FoundWithKey(init, i);
    }
  }

  /** When no two rows share a key, each key has at most one row. */
  lemma {:induction false} DistinctKeysAtMostOne(rows: seq<Row>, key: string)
    requires DistinctKeys(rows)
    ensures |WithKey(rows, key)| <= 1
  {
    if rows != [] {
      var init := rows[..|rows| - 1];
      assert DistinctKeys(init);
      DistinctKeysAtMostOne(init, key);
      if rows[|rows| - 1][0] == key && |WithKey(init, key)| == 1 {
        var r := WithKey(init, key)[0];
        InWithKey(init, key, r);
      }
    }
  }

  /** The rows with a key come from the rows and carry that key. */
  lemma {:induction false} InWithKey(rows: seq<Row>, key: string, r: Row)
    requires r in WithKey(rows, key)
    ensures r in rows && r[0] == key
  {
    if rows != [] {
      var init := rows[..|rows| - 1];
      if r in WithKey(init, key) {
        InWithKey(init, key, r);
      }
    }
  }

  /** Sorting rows whose keys are all different orders them strictly. */
  lemma SortedDistinctIsStrict(data: seq<Row>, sorted: seq<Row>)
    requires DistinctKeys(data)
    requires SortedByKey(sorted)
    requires forall key :: WithKey(sorted, key) == WithKey(data, key)
    ensures StrictlySortedByKey(sorted)
  {
    forall i, j | 0 <= i < j < |sorted|
      ensures Ordering.Less(sorted[i][0], sorted[j][0])
    {
      if sorted[i][0] == sorted[j][0] {
        TwoWithKey(sorted, i, j);
        DistinctKeysAtMostOne(data, sorted[i][0]);
        assert false;
      } else {
        Ordering.Connected(sorted[i][0], sorted[j][0]);
      }
    }
  }
}
