/**
  The tabular record source the control reads, and the resolved field keys.
  A row is identified by its record id and answers `getValue(column)`.
 */
module Dataset {
  import opened Options

  /** A lookup (entity reference) value: the referenced record's id, display name and table. */
  datatype EntityRef = EntityRef(id: string, name: string, etn: string)

  /** A cell as `getValue` returns it: nothing, text, a point in time (milliseconds),
      or a lookup. */
  datatype Value = Null | Text(text: string) | Instant(millis: int) | Lookup(ref: EntityRef)

  datatype Row = Row(recordId: string, cells: map<string, Value>)

  /** `record.getValue(column)`; a column the row does not carry reads as null. */
  function GetValue(row: Row, column: string): Value
  {
    if column in row.cells then row.cells[column] else Null
  }

  /** `getValue(...) as string || ""`: the text of a text cell, "" for anything else. */
  function AsText(v: Value): string
  {
    if v.Text? then v.text else ""
  }

  /** The cell is truthy in JavaScript: anything but null and the empty text. A time cell
      is a `Date` object, so even instant 0 is present. */
  predicate Present(v: Value)
  {
    !v.Null? && v != Text("")
  }

  /** `getValue(...) as EntityReference`, None where the cell is empty. */
  function AsLookup(v: Value): Option<EntityRef>
  {
    if v.Lookup? then Some(v.ref) else None
  }

  /** The resolved field keys: column names per role ("" where not configured), whether
      every resource is to be fetched in a model app, and the column holding a fetched
      resource's id. */
  datatype FieldKeys = FieldKeys(
    id: string,
    name: string,
    start: string,
    end: string,
    eventColor: string,
    resource: string,
    resourceName: string,
    resourceId: string,
    resourceGetAllInModel: bool,
    resourceEtn: string)
}
