/** Log records as the scripts see them: a row of a CSV file read with
    `csv.DictReader`, i.e. a mapping from column name to string value. */
module Records {

  datatype Option<+T> = None | Some(value: T)

  type LogRecord = map<string, string>

  /** Python's `record.get(field)`: `None` when the column is absent. */
  function Get(r: LogRecord, field: string): Option<string> {
    if field in r then Some(r[field]) else None
  }

  /** Python's `record.get(field, default)`. */
  function GetOr(r: LogRecord, field: string, default: string): string {
    if field in r then r[field] else default
  }

  /** Python's `record.get(field) == value`: false when the field is absent. */
  predicate FieldIs(r: LogRecord, field: string, value: string) {
    Get(r, field) == Some(value)
  }

  /** Python's `record.get(field) in values` for a set of strings: `None`
      is never a member, so a record without the field never qualifies. */
  predicate FieldIn(r: LogRecord, field: string, values: set<string>) {
    field in r && r[field] in values
  }

  /** Python's `Counter[key]` / `defaultdict(int)[key]` read: 0 when absent. */
  function Count(m: map<string, nat>, key: string): nat {
    if key in m then m[key] else 0
  }
}
