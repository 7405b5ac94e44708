/**
 * Records as the slug resolver sees them: an identity, a type name (the
 * discriminator of single-table inheritance) and a map from column names to
 * column values. Storage itself is modelled by the Store class.
 */
module Records {
  import opened Decimal

  datatype Option<T> = None | Some(value: T)

  /** A column value: SQL NULL (Ruby nil), text, or an integer. */
  datatype Value = Nil | Text(s: string) | Num(n: int)

  type Fields = map<string, Value>

  datatype Record = Record(id: nat, kind: string, fields: Fields)

  /** No two records share an identity. */
  predicate DistinctIds(records: seq<Record>)
  {
    forall i, j :: 0 <= i < j < |records| ==> records[i].id != records[j].id
  }

  /** The value of a column; a column that is not set reads as nil. */
  function Get(fs: Fields, column: string): Value
  {
    if column in fs then fs[column] else Nil
  }

  /** The text of a value as Ruby's `to_s` gives it: nil becomes the empty string. */
  function ValueText(v: Value): string
  {
    match v
    case Nil => ""
    case Text(s) => s
    case Num(n) => IntText(n)
  }
}
