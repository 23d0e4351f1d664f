/**
 * What the merge loop of `UpdateCsvFile` guarantees once every incoming
 * row has been processed: properties of `Merge.Merged`, which
 * `Merge.MergeRows` is proved to compute.
 */
module MergeProperties {
  import opened Wrappers
  import opened Records
  import opened Merge

  /** With no incoming rows the result is the copy of the base rows. */
  lemma NoIncomingKeepsBase(base: seq<CsvRow>)
    ensures Merged(base, []) == base
  {
  }

  /** One step rewrites at most the first row carrying the incoming key. */
  lemma StepTouchesOnlyFirstMatch(rows: seq<CsvRow>, latest: CsvRow, j: int)
    requires 0 <= j < |rows| && !IsFirstMatch(rows, latest.customerId, j)
    ensures Step(rows, latest)[j] == rows[j]
  {
  }

  /** Growing a list of rows without rewriting its keys keeps the first
      match of every key it already holds. */
  lemma FirstMatchPreserved(rows: seq<CsvRow>, grown: seq<CsvRow>, id: Cell)
    requires |rows| <= |grown|
    requires forall j :: 0 <= j < |rows| ==> grown[j].customerId == rows[j].customerId
    requires FirstMatch(rows, id).Some?
    ensures FirstMatch(grown, id) == FirstMatch(rows, id)
  {
  }

  /** Last writer wins: if `incoming[i]` is the last incoming row with its
      key, the first merged row with that key carries its non-key fields. */
  lemma {:induction false} LastWriterWins(base: seq<CsvRow>, incoming: seq<CsvRow>, i: int)
    requires 0 <= i < |incoming|
    requires forall j :: i < j < |incoming| ==> incoming[j].customerId != incoming[i].customerId
    ensures FirstMatch(Merged(base, incoming), incoming[i].customerId).Some?
    ensures Payload(Merged(base, incoming)[FirstMatch(Merged(base, incoming), incoming[i].customerId).value])
         == Payload(incoming[i])
    decreases |incoming|
  {
    var n := |incoming| - 1;
    var before := Merged(base, incoming[..n]);
    var latest := incoming[n];
    var r := Merged(base, incoming);
    var id := incoming[i].customerId;
    assert r == Step(before, latest);
    if i == n {
      match FirstMatch(before, id)
      case Some(p) =>
        FirstMatchPreserved(before, r, id);
      case None =>
        assert r == before + [latest];
        assert IsFirstMatch(r, id, |before|);
        assert FirstMatch(r, id) == Some(|before|);
    } else {
      LastWriterWins(base, incoming[..n], i);
      var p := FirstMatch(before, id).value;
      assert !IsFirstMatch(before, latest.customerId, p);
      StepTouchesOnlyFirstMatch(before, latest, p);
      FirstMatchPreserved(before, r, id);
    }
  }

  /** A base row whose key no incoming row carries comes out unchanged. */
  lemma {:induction false} BaseOnlyRowsUnchanged(base: seq<CsvRow>, incoming: seq<CsvRow>, j: int)
    requires 0 <= j < |base|
    requires base[j].customerId !in Ids(incoming)
    ensures Merged(base, incoming)[j] == base[j]
    decreases |incoming|
  {
    if incoming != [] {
      var n := |incoming| - 1;
      var before := Merged(base, incoming[..n]);
      assert incoming == incoming[..n] + [incoming[n]];
      IdsSnoc(incoming[..n], incoming[n]);
      BaseOnlyRowsUnchanged(base, incoming[..n], j);
      StepTouchesOnlyFirstMatch(before, incoming[n], j);
    }
  }

  /** A base row whose key already occurs at an earlier base position is
      never matched, so it comes out unchanged. */
  lemma {:induction false} LaterDuplicatesUntouched(base: seq<CsvRow>, incoming: seq<CsvRow>, i: int, j: int)
    requires 0 <= i < j < |base|
    requires base[i].customerId == base[j].customerId
    ensures Merged(base, incoming)[j] == base[j]
    decreases |incoming|
  {
    if incoming != [] {
      var n := |incoming| - 1;
      var before := Merged(base, incoming[..n]);
      LaterDuplicatesUntouched(base, incoming[..n], i, j);
      assert !IsFirstMatch(before, incoming[n].customerId, j);
      StepTouchesOnlyFirstMatch(before, incoming[n], j);
    }
  }

  /** One step keeps the rows from position `m` on pairwise distinct in
      key and outside `known`, a set of keys the rows already hold. */
  lemma StepKeepsTailNew(rows: seq<CsvRow>, latest: CsvRow, m: nat, known: set<Cell>)
    requires m <= |rows| && known <= Ids(rows)
    requires forall p, q :: m <= p < q < |rows| ==> rows[p].customerId != rows[q].customerId
    requires forall p :: m <= p < |rows| ==> rows[p].customerId !in known
    ensures forall p, q :: m <= p < q < |Step(rows, latest)| ==>
      Step(rows, latest)[p].customerId != Step(rows, latest)[q].customerId
    ensures forall p :: m <= p < |Step(rows, latest)| ==> Step(rows, latest)[p].customerId !in known
  {
  }

  /** The rows appended after the base rows have pairwise distinct keys,
      none of which occurs in the base rows. */
  lemma {:induction false} AppendedRowsAreNew(base: seq<CsvRow>, incoming: seq<CsvRow>)
    ensures forall p, q :: |base| <= p < q < |Merged(base, incoming)| ==>
      Merged(base, incoming)[p].customerId != Merged(base, incoming)[q].customerId
    ensures forall p :: |base| <= p < |Merged(base, incoming)| ==>
      Merged(base, incoming)[p].customerId !in Ids(base)
    decreases |incoming|
  {
    if incoming != [] {
      var n := |incoming| - 1;
      var before := Merged(base, incoming[..n]);
      AppendedRowsAreNew(base, incoming[..n]);
      MergedIds(base, incoming[..n]);
      StepKeepsTailNew(before, incoming[n], |base|, Ids(base));
    }
  }

  /** A key held by at most one base row is held by at most one merged
      row: the merge never duplicates a key. */
  lemma {:induction false} KeyNeverDuplicated(base: seq<CsvRow>, incoming: seq<CsvRow>, k: Cell, p: int, q: int)
    requires forall i, j ::
      0 <= i < |base| && 0 <= j < |base| && base[i].customerId == k && base[j].customerId == k ==> i == j
    requires 0 <= p < q < |Merged(base, incoming)|
    requires Merged(base, incoming)[p].customerId == k
    ensures Merged(base, incoming)[q].customerId != k
  {
    var r := Merged(base, incoming);
    AppendedRowsAreNew(base, incoming);
    if p < |base| {
      assert base[p].customerId == k;
      if q >= |base| {
        assert k in Ids(base);
      }
    }
  }

  /** A list of rows with pairwise distinct keys has as many keys as rows. */
  lemma {:induction false} DistinctIdsCount(rows: seq<CsvRow>)
    requires DistinctIds(rows)
    ensures |Ids(rows)| == |rows|
    decreases |rows|
  {
    if rows != [] {
      var n := |rows| - 1;
      assert rows == rows[..n] + [rows[n]];
      IdsSnoc(rows[..n], rows[n]);
      DistinctIdsCount(rows[..n]);
      assert rows[n].customerId !in Ids(rows[..n]);
    }
  }

  /** Keys of a concatenation. */
  lemma IdsConcat(front: seq<CsvRow>, back: seq<CsvRow>)
    ensures Ids(front + back) == Ids(front) + Ids(back)
  {
    var all := front + back;
    forall k | k in Ids(all) ensures k in Ids(front) + Ids(back) {
      var j :| 0 <= j < |all| && all[j].customerId == k;
      if j < |front| { assert front[j] == all[j]; } else { assert back[j - |front|] == all[j]; }
    }
    forall k | k in Ids(front) + Ids(back) ensures k in Ids(all) {
      if k in Ids(front) {
        var j :| 0 <= j < |front| && front[j].customerId == k;
        assert all[j] == front[j];
      } else {
        var j :| 0 <= j < |back| && back[j].customerId == k;
        assert all[|front| + j] == back[j];
      }
    }
  }

  /** Rows with the same keys position by position have the same key set. */
  lemma SameKeysSameIds(a: seq<CsvRow>, b: seq<CsvRow>)
    requires |a| == |b|
    requires forall j :: 0 <= j < |a| ==> a[j].customerId == b[j].customerId
    ensures Ids(a) == Ids(b)
  {
  }

  /** Keys and distinctness of the rows of `r` from position `m` on. */
  lemma TailKeys(r: seq<CsvRow>, m: nat, known: set<Cell>)
    requires m <= |r|
    requires forall p, q :: m <= p < q < |r| ==> r[p].customerId != r[q].customerId
    requires forall p :: m <= p < |r| ==> r[p].customerId !in known
    ensures DistinctIds(r[m..])
    ensures Ids(r[m..]) !! known
  {
  }

  /** Counting argument behind `MergedLength`, stated for any list of rows
      that extends `base` without rewriting its keys. */
  lemma CountAppended(base: seq<CsvRow>, r: seq<CsvRow>, added: set<Cell>)
    requires |base| <= |r|
    requires forall j :: 0 <= j < |base| ==> r[j].customerId == base[j].customerId
    requires Ids(r) == Ids(base) + added
    requires forall p, q :: |base| <= p < q < |r| ==> r[p].customerId != r[q].customerId
    requires forall p :: |base| <= p < |r| ==> r[p].customerId !in Ids(base)
    ensures Ids(r[|base|..]) == added - Ids(base)
    ensures |r| == |base| + |added - Ids(base)|
  {
    var front, tail := r[..|base|], r[|base|..];
    assert r == front + tail;
    IdsConcat(front, tail);
    SameKeysSameIds(front, base);
    TailKeys(r, |base|, Ids(base));
    DistinctIdsCount(tail);
  }

  /** The appended rows carry exactly the incoming keys that the base rows
      lack, so the result has |base| + |ids(incoming) - ids(base)| rows. */
  lemma {:induction false} MergedLength(base: seq<CsvRow>, incoming: seq<CsvRow>)
    ensures Ids(Merged(base, incoming)[|base|..]) == Ids(incoming) - Ids(base)
    ensures |Merged(base, incoming)| == |base| + |Ids(incoming) - Ids(base)|
  {
    AppendedRowsAreNew(base, incoming);
    MergedIds(base, incoming);
    CountAppended(base, Merged(base, incoming), Ids(incoming));
  }

  /** The keys of `rows`, in order. */
  function Keys(rows: seq<CsvRow>): seq<Cell>
  {
    seq(|rows|, j requires 0 <= j < |rows| => rows[j].customerId)
  }

  /** The keys of `incoming` that are not in `known`, each taken once, in
      the order of their first occurrence. */
  function NewKeys(known: set<Cell>, incoming: seq<CsvRow>): seq<Cell>
    decreases |incoming|
  {
    if incoming == [] then []
    else
      var n := |incoming| - 1;
      var earlier := NewKeys(known, incoming[..n]);
      var id := incoming[n].customerId;
      if id in known || id in earlier then earlier else earlier + [id]
  }

  /** One step extends the keys from position `m` on by the incoming key
      exactly when neither the rows before `m` nor those from `m` on hold it. */
  lemma StepAppendedKeys(rows: seq<CsvRow>, latest: CsvRow, m: nat)
    requires m <= |rows|
    ensures Keys(Step(rows, latest)[m..]) ==
      if latest.customerId in Ids(rows[..m]) || latest.customerId in Keys(rows[m..])
      then Keys(rows[m..])
      else Keys(rows[m..]) + [latest.customerId]
  {
    var id := latest.customerId;
    var r := Step(rows, latest);
    if id in Ids(rows[..m]) || id in Keys(rows[m..]) {
      var j: int;
      if id in Ids(rows[..m]) {
        j :| 0 <= j < m && rows[..m][j].customerId == id;
      } else {
        var p :| 0 <= p < |rows| - m && Keys(rows[m..])[p] == id;
        j := m + p;
      }
      assert rows[j].customerId == id;
      var k := FirstMatch(rows, id).value;
      assert IsFirstMatch(rows, id, k);
      assert Keys(r[m..]) == Keys(rows[m..]);
    } else {
      forall j | 0 <= j < |rows| ensures rows[j].customerId != id {
        if j < m {
          assert rows[..m][j] == rows[j];
        } else {
          assert Keys(rows[m..])[j - m] == rows[j].customerId;
        }
      }
      assert r[m..] == rows[m..] + [latest];
      assert Keys(r[m..]) == Keys(rows[m..]) + [id];
    }
  }

  /** Order of the result: after the base rows come the rows whose keys the
      base lacks, one per key, in the order those keys first arrive. */
  lemma {:induction false} AppendedKeysInOrder(base: seq<CsvRow>, incoming: seq<CsvRow>)
    ensures Keys(Merged(base, incoming)[|base|..]) == NewKeys(Ids(base), incoming)
    decreases |incoming|
  {
    if incoming == [] {
      assert Merged(base, incoming)[|base|..] == [];
    } else {
      var n := |incoming| - 1;
      var before := Merged(base, incoming[..n]);
      AppendedKeysInOrder(base, incoming[..n]);
      SameKeysSameIds(before[..|base|], base);
      StepAppendedKeys(before, incoming[n], |base|);
    }
  }

  /** Merging distinct-keyed rows into an empty base reproduces them. */
  lemma {:induction false} MergeIntoEmpty(incoming: seq<CsvRow>)
    requires DistinctIds(incoming)
    ensures Merged([], incoming) == incoming
    decreases |incoming|
  {
    if incoming != [] {
      var n := |incoming| - 1;
      var before := incoming[..n];
      MergeIntoEmpty(before);
      assert forall j :: 0 <= j < n ==> before[j].customerId != incoming[n].customerId;
      assert incoming == before + [incoming[n]];
    }
  }

  /** Merging into an empty base gives back the incoming rows exactly when
      no two of them share a key. */
  lemma {:induction false} MergeIntoEmptyExactly(incoming: seq<CsvRow>)
    ensures Merged([], incoming) == incoming <==> DistinctIds(incoming)
  {
    if DistinctIds(incoming) {
      MergeIntoEmpty(incoming);
    }
    if Merged([], incoming) == incoming {
      AppendedRowsAreNew([], incoming);
      assert Merged([], incoming)[0..] == incoming;
    }
  }

  /** Two incoming rows with the same key collapse into one row holding the
      second one's fields, even when the base is empty. */
  lemma {:induction false} DuplicateIncomingCollapses(first: CsvRow, second: CsvRow)
    requires first.customerId == second.customerId
    ensures Merged([], [first, second]) == [second]
  {
    assert [first, second][..1] == [first];
    assert [first][..0] == [];
    assert Merged([], [first]) == [first];
    UpdateFromSameKey(first, second);
  }

  /** A row with only a key and a first name set. */
  function NamedRow(id: string, first: string): CsvRow
  {
    CsvRow(Some(id), Some(first), None, None, None, None, None, None, None, None, None)
  }

  /** The worked example: an existing customer is renamed and a new one is
      appended after it. */
  lemma RenameAndAppendExample()
    ensures Merged([NamedRow("1", "Ann")], [NamedRow("1", "Anna"), NamedRow("2", "Bob")])
         == [NamedRow("1", "Anna"), NamedRow("2", "Bob")]
  {
  }
}
