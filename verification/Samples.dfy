/** The raw sample table: rows keyed by (node, metric, timestamp), where the first writer of a key wins. */
module Samples {
  datatype SampleKey = SampleKey(node: string, metric: nat, ts: int)
  datatype SampleCells = SampleCells(mono: int, recv: int, value: real, producer: string)
  datatype SampleRow = SampleRow(key: SampleKey, cells: SampleCells)
  type SampleTable = map<SampleKey, SampleCells>

  /** INSERT OR IGNORE of one row. */
  function InsertRow(t: SampleTable, row: SampleRow): SampleTable {
    if row.key in t then t else t[row.key := row.cells]
  }

  function InsertRows(t: SampleTable, rows: seq<SampleRow>): SampleTable {
    if rows == [] then t
    else InsertRow(InsertRows(t, rows[..|rows| - 1]), rows[|rows| - 1])
  }

  function InsertBatches(t: SampleTable, batches: seq<seq<SampleRow>>): SampleTable {
    if batches == [] then t
    else InsertRows(InsertBatches(t, batches[..|batches| - 1]), batches[|batches| - 1])
  }

  /** Every row of `t` is in `u`, unaltered. */
  ghost predicate Within(t: SampleTable, u: SampleTable) {
    forall k <- t :: k in u && u[k] == t[k]
  }

  ghost predicate HasKey(rows: seq<SampleRow>, k: SampleKey) {
    exists i :: 0 <= i < |rows| && rows[i].key == k
  }

  /** `i` is the first row of `rows` with key `k`. */
  ghost predicate FirstWith(rows: seq<SampleRow>, i: nat, k: SampleKey) {
    i < |rows| && rows[i].key == k && forall j :: 0 <= j < i ==> rows[j].key != k
  }

  /** The table after an insert: the old rows unaltered, plus, for each new key, the first row that carried it. */
  lemma {:induction false} InsertRowsExactly(t: SampleTable, rows: seq<SampleRow>)
    ensures Within(t, InsertRows(t, rows))
    ensures forall k :: k in InsertRows(t, rows) <==> k in t || HasKey(rows, k)
    ensures forall i: nat, k :: FirstWith(rows, i, k) && k !in t ==>
              k in InsertRows(t, rows) && InsertRows(t, rows)[k] == rows[i].cells
  {
    if rows != [] {
      var n := |rows| - 1;
      var before := rows[..n];
      InsertRowsExactly(t, before);
      forall k
        ensures HasKey(rows, k) <==> HasKey(before, k) || k == rows[n].key
      {
        if HasKey(before, k) {
          var i :| 0 <= i < n && before[i].key == k;
          assert rows[i].key == k;
        }
      }
      forall i: nat, k | FirstWith(rows, i, k) && k !in t
        ensures k in InsertRows(t, rows) && InsertRows(t, rows)[k] == rows[i].cells
      {
        if i < n {
          assert FirstWith(before, i, k);
          assert HasKey(before, k);
        } else {
          assert !HasKey(before, k);
        }
      }
    }
  }

  lemma {:induction false} InsertRowsAppend(t: SampleTable, a: seq<SampleRow>, b: seq<SampleRow>)
    ensures InsertRows(t, a + b) == InsertRows(InsertRows(t, a), b)
  {
    if b == [] {
      assert a + b == a;
    } else {
      var n := |b| - 1;
      InsertRowsAppend(t, a, b[..n]);
      assert (a + b)[..|a| + n] == a + b[..n];
    }
  }

  lemma {:induction false} InsertKnownRows(t: SampleTable, rows: seq<SampleRow>)
    requires forall r <- rows :: r.key in t
    ensures InsertRows(t, rows) == t
  {
    if rows != [] {
      InsertKnownRows(t, rows[..|rows| - 1]);
    }
  }

  lemma {:induction false} InsertBatchesContains(t: SampleTable, batches: seq<seq<SampleRow>>)
    ensures Within(t, InsertBatches(t, batches))
    ensures forall b <- batches, r <- b :: r.key in InsertBatches(t, batches)
  {
    if batches != [] {
      var n := |batches| - 1;
      var before := InsertBatches(t, batches[..n]);
      InsertBatchesContains(t, batches[..n]);
      InsertRowsExactly(before, batches[n]);
      forall b, r | b in batches && r in b
        ensures r.key in InsertBatches(t, batches)
      {
        if b == batches[n] {
          var i :| 0 <= i < |b| && b[i] == r;
          assert HasKey(b, r.key);
        } else {
          assert b in batches[..n];
        }
      }
    }
  }

  /** Replaying batches that were inserted before, any number of times and in any order, changes nothing. */
  lemma {:induction false} ReplayChangesNothing(
    t: SampleTable, batches: seq<seq<SampleRow>>, replay: seq<seq<SampleRow>>)
    requires forall b <- replay :: b in batches
    ensures InsertBatches(InsertBatches(t, batches), replay) == InsertBatches(t, batches)
  {
    if replay != [] {
      var n := |replay| - 1;
      ReplayChangesNothing(t, batches, replay[..n]);
      InsertBatchesContains(t, batches);
      assert replay[n] in batches;
      InsertKnownRows(InsertBatches(t, batches), replay[n]);
    }
  }
}
