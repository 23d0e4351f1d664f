/**
 * One customer record (`CsvRow` in Program.cs) and the field-copying
 * operation `CsvRow.UpdateFields` that the merge applies to a matched row.
 */
module Records {
  import opened Wrappers

  /** A nullable text cell: every `CsvRow` property is a `string?`, so
      `None` stands for C# `null`. */
  type Cell = Option<string>

  /** The eleven properties of `CsvRow`; `customerId` is the merge key. */
  datatype CsvRow = CsvRow(
    customerId: Cell,
    firstName: Cell,
    lastName: Cell,
    company: Cell,
    city: Cell,
    country: Cell,
    phone1: Cell,
    phone2: Cell,
    email: Cell,
    subscriptionDate: Cell,
    website: Cell)

  /** The fixed column names, in the order the output header is written
      and the class map binds them to properties. */
  const Header: seq<string> := [
    "Customer Id", "First Name", "Last Name", "Company", "City", "Country",
    "Phone 1", "Phone 2", "Email", "Subscription Date", "Website"]

  /** The cells of a row in `Header` order. */
  function Cells(row: CsvRow): (cells: seq<Cell>)
    ensures |cells| == |Header|
  {
    [row.customerId, row.firstName, row.lastName, row.company, row.city,
     row.country, row.phone1, row.phone2, row.email, row.subscriptionDate,
     row.website]
  }

  /** The ten non-key cells of a row, in `Header` order. */
  function Payload(row: CsvRow): seq<Cell>
  {
    Cells(row)[1..]
  }

  /** A row is determined by its key and its payload: every property of
      `CsvRow` has a column. */
  lemma KeyAndPayloadDetermineRow(a: CsvRow, b: CsvRow)
    requires a.customerId == b.customerId && Payload(a) == Payload(b)
    ensures a == b
  {
  }

  /** `row.UpdateFields(other)`: every property except the key is set to
      `other`'s value; the key is left as it was. */
  function UpdateFields(row: CsvRow, other: CsvRow): (r: CsvRow)
    ensures r.customerId == row.customerId
    ensures Payload(r) == Payload(other)
    ensures Cells(r) == [row.customerId] + Payload(other)
  {
    row.(firstName := other.firstName,
         lastName := other.lastName,
         company := other.company,
         city := other.city,
         country := other.country,
         phone1 := other.phone1,
         phone2 := other.phone2,
         email := other.email,
         subscriptionDate := other.subscriptionDate,
         website := other.website)
  }

  /** The two facts `UpdateFields` promises, the kept key and the copied
      payload, fix its result: no other row satisfies both. */
  lemma UpdateFieldsDetermined(row: CsvRow, other: CsvRow, r: CsvRow)
    requires r.customerId == row.customerId && Payload(r) == Payload(other)
    ensures r == UpdateFields(row, other)
  {
    KeyAndPayloadDetermineRow(r, UpdateFields(row, other));
  }

  /** Updating a row from a row with the same key yields that row. */
  lemma UpdateFromSameKey(row: CsvRow, other: CsvRow)
    requires row.customerId == other.customerId
    ensures UpdateFields(row, other) == other
  {
    UpdateFieldsDetermined(row, other, other);
  }

  /** Of two successive updates only the second is visible. */
  lemma UpdateFieldsLastWins(row: CsvRow, first: CsvRow, second: CsvRow)
    ensures UpdateFields(UpdateFields(row, first), second) == UpdateFields(row, second)
  {
  }
}
