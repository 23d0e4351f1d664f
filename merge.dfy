/**
 * The merge-by-customer-id loop of `UpdateCsvFile` (Program.cs): starting
 * from a copy of the base rows, each incoming row either overwrites the
 * non-key fields of the first row with the same key, or is appended.
 */
module Merge {
  import opened Wrappers
  import opened Records

  /** The set of keys occurring in `rows`. */
  function Ids(rows: seq<CsvRow>): set<Cell>
  {
    set j | 0 <= j < |rows| :: rows[j].customerId
  }

  /** `k` is the lowest index of a row whose key is `id`. */
  predicate IsFirstMatch(rows: seq<CsvRow>, id: Cell, k: int)
  {
    && 0 <= k < |rows|
    && rows[k].customerId == id
    && forall j :: 0 <= j < k ==> rows[j].customerId != id
  }

  /** No two rows of `rows` share a key. */
  predicate DistinctIds(rows: seq<CsvRow>)
  {
    forall p, q :: 0 <= p < q < |rows| ==> rows[p].customerId != rows[q].customerId
  }

  /** The index `FirstOrDefault(row => row.CustomerId == id)` lands on, if
      any. Two `null` keys compare equal, as C# `==` on `string?` does. */
  function FirstMatch(rows: seq<CsvRow>, id: Cell): (r: Option<nat>)
    ensures r.None? ==> forall j :: 0 <= j < |rows| ==> rows[j].customerId != id
    ensures r.Some? ==> IsFirstMatch(rows, id, r.value)
  {
    if rows == [] then None
    else if rows[0].customerId == id then Some(0)
    else
      match FirstMatch(rows[1..], id)
      case None => None
      case Some(k) => Some(k + 1)
  }

  /** One iteration of the merge loop, for the incoming row `latest`. */
  function Step(rows: seq<CsvRow>, latest: CsvRow): (r: seq<CsvRow>)
    // a hit rewrites the non-key fields of the first match and nothing else
    ensures forall k :: IsFirstMatch(rows, latest.customerId, k) ==>
      && |r| == |rows|
      && r[k].customerId == rows[k].customerId
      && Payload(r[k]) == Payload(latest)
      && forall j :: 0 <= j < |rows| && j != k ==> r[j] == rows[j]
    // a miss appends the incoming row and changes nothing before it
    ensures (forall j :: 0 <= j < |rows| ==> rows[j].customerId != latest.customerId) ==>
      r == rows + [latest]
    // at most one row is added, and no key is rewritten
    ensures |r| == |rows| || |r| == |rows| + 1
    ensures forall j :: 0 <= j < |rows| ==> r[j].customerId == rows[j].customerId
  {
    match FirstMatch(rows, latest.customerId)
    case Some(k) => rows[k := UpdateFields(rows[k], latest)]
    case None => rows + [latest]
  }

  /** The rows after the loop has processed every row of `incoming`, in
      order, starting from `base`. */
  function Merged(base: seq<CsvRow>, incoming: seq<CsvRow>): (r: seq<CsvRow>)
    decreases |incoming|
    // the base rows stay a prefix: same positions, same keys
    ensures |base| <= |r|
    ensures forall j :: 0 <= j < |base| ==> r[j].customerId == base[j].customerId
  {
    if incoming == [] then base
    else
      var n := |incoming| - 1;
      Step(Merged(base, incoming[..n]), incoming[n])
  }

  /** Keys of a list grown by one row. */
  lemma IdsSnoc(rows: seq<CsvRow>, row: CsvRow)
    ensures Ids(rows + [row]) == Ids(rows) + {row.customerId}
  {
    var grown := rows + [row];
    forall k | k in Ids(grown) ensures k in Ids(rows) + {row.customerId} {
      var j :| 0 <= j < |grown| && grown[j].customerId == k;
      if j < |rows| { assert rows[j] == grown[j]; }
    }
    forall k | k in Ids(rows) ensures k in Ids(grown) {
      var j :| 0 <= j < |rows| && rows[j].customerId == k;
      assert grown[j] == rows[j];
    }
    assert grown[|rows|] == row;
  }

  /** One step adds the incoming key to the key set and removes none. */
  lemma StepIds(rows: seq<CsvRow>, latest: CsvRow)
    ensures Ids(Step(rows, latest)) == Ids(rows) + {latest.customerId}
  {
    var r := Step(rows, latest);
    match FirstMatch(rows, latest.customerId)
    case None =>
      IdsSnoc(rows, latest);
    case Some(k) =>
      assert IsFirstMatch(rows, latest.customerId, k);
      forall id | id in Ids(r) ensures id in Ids(rows) + {latest.customerId} {
        var j :| 0 <= j < |r| && r[j].customerId == id;
        assert rows[j].customerId == id;
      }
      forall id | id in Ids(rows) ensures id in Ids(r) {
        var j :| 0 <= j < |rows| && rows[j].customerId == id;
        assert r[j].customerId == id;
      }
      assert latest.customerId in Ids(rows);
  }

  /** After the loop every key of either side is present, and no other. */
  lemma {:induction false} MergedIds(base: seq<CsvRow>, incoming: seq<CsvRow>)
    ensures Ids(Merged(base, incoming)) == Ids(base) + Ids(incoming)
    decreases |incoming|
  {
    if incoming == [] {
      assert Ids(incoming) == {};
    } else {
      var n := |incoming| - 1;
      var front, latest := incoming[..n], incoming[n];
      var before := Merged(base, front);
      assert incoming == front + [latest];
      calc {
        Ids(Merged(base, incoming));
        Ids(Step(before, latest));
        { StepIds(before, latest); }
        Ids(before) + {latest.customerId};
        { MergedIds(base, front); }
        Ids(base) + Ids(front) + {latest.customerId};
        { IdsSnoc(front, latest); }
        Ids(base) + Ids(incoming);
      }
    }
  }

  /** The linear scan of `FirstOrDefault` (Program.cs:67). */
  method FindFirst(rows: seq<CsvRow>, id: Cell) returns (found: Option<nat>)
    ensures found.None? ==> forall j :: 0 <= j < |rows| ==> rows[j].customerId != id
    ensures found.Some? ==> IsFirstMatch(rows, id, found.value)
    ensures found == FirstMatch(rows, id)
  {
    var i := 0;
    while i < |rows|
      invariant 0 <= i <= |rows|
      invariant forall j :: 0 <= j < i ==> rows[j].customerId != id
    {
      if rows[i].customerId == id {
        return Some(i);
      }
      i := i + 1;
    }
    return None;
  }

  /** The merge loop of `UpdateCsvFile`: `updated` starts as a copy of
      `base` and is grown or updated once per incoming row. */
  method MergeRows(base: seq<CsvRow>, incoming: seq<CsvRow>) returns (updated: seq<CsvRow>)
    ensures updated == Merged(base, incoming)
  {
    updated := base;
    var i := 0;
    while i < |incoming|
      invariant 0 <= i <= |incoming|
      invariant updated == Merged(base, incoming[..i])
    {
      assert incoming[..i + 1][..i] == incoming[..i];
      var latest := incoming[i];
      var matching := FindFirst(updated, latest.customerId);
      if matching.Some? {
        var k := matching.value;
        updated := updated[k := UpdateFields(updated[k], latest)];
      } else {
        updated := updated + [latest];
      }
      i := i + 1;
    }
    assert incoming[..|incoming|] == incoming;
  }
}
