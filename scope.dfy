/**
 * Per-type slug configuration and the scope evaluator: which other records a
 * record's slug must differ from.
 */
module Scope {
  import opened Records

  /** Where the subject text comes from: a column, or a function of the record's columns. */
  datatype SubjectSource =
    | SubjectField(field: string)
    | SubjectFn(text: Fields -> string)

  /**
   * The uniqueness scope: all records of the root type, those with an equal
   * value in one column, or those a filter over the columns admits (for
   * instance "deleted_at is nil").
   */
  datatype ScopeSpec =
    | NoScope
    | FieldScope(field: string)
    | PredicateScope(admits: Fields -> bool)

  datatype SlugConfig = SlugConfig(column: string, subject: SubjectSource, scope: ScopeSpec)

  /** The configuration a bare declaration gets: slug column `slug`, subject column `title`, no scope. */
  const DefaultConfig := SlugConfig("slug", SubjectField("title"), NoScope)

  /**
   * The registry of configured types. `baseOf` maps a subtype to the root type
   * of its inheritance hierarchy; a type it does not list is its own root.
   * `configs` holds the configuration declared on each root type.
   */
  datatype Schema = Schema(baseOf: map<string, string>, configs: map<string, SlugConfig>)

  function RootOf(schema: Schema, kind: string): string
  {
    if kind in schema.baseOf then schema.baseOf[kind] else kind
  }

  function ConfigOf(schema: Schema, kind: string): SlugConfig
  {
    var root := RootOf(schema, kind);
    if root in schema.configs then schema.configs[root] else DefaultConfig
  }

  function SubjectText(cfg: SlugConfig, fs: Fields): string
  {
    match cfg.subject
    case SubjectField(f) => ValueText(Get(fs, f))
    case SubjectFn(text) => text(fs)
  }

  /** The value of a record's slug column. */
  function SlugOf(schema: Schema, r: Record): Value
  {
    Get(r.fields, ConfigOf(schema, r.kind).column)
  }

  /**
   * `o` lies in the scope of `r`: same root type, and the scope of that
   * type's configuration, evaluated for `r`, admits `o`.
   */
  predicate SameScope(schema: Schema, r: Record, o: Record)
  {
    && RootOf(schema, r.kind) == RootOf(schema, o.kind)
    && match ConfigOf(schema, r.kind).scope
       case NoScope => true
       case FieldScope(f) => Get(o.fields, f) == Get(r.fields, f)
       case PredicateScope(admits) => admits(o.fields)
  }

  /** `o` is another record in the scope of `r`: the one whose slug `r` must not take. */
  predicate Scoped(schema: Schema, r: Record, o: Record)
  {
    r.id != o.id && SameScope(schema, r, o)
  }

  /** Changing `r` into `r2` leaves unchanged which records it is scoped with, in both directions. */
  predicate ScopeStable(schema: Schema, r: Record, r2: Record)
  {
    && r.kind == r2.kind
    && match ConfigOf(schema, r.kind).scope
       case NoScope => true
       case FieldScope(f) => Get(r.fields, f) == Get(r2.fields, f)
       case PredicateScope(admits) => admits(r.fields) == admits(r2.fields)
  }

  function WithColumn(fs: Fields, column: string, v: Value): Fields
  {
    fs[column := v]
  }

  /** A scope never looks at the slug column itself. */
  ghost predicate ColumnIndependent(cfg: SlugConfig)
  {
    match cfg.scope
    case NoScope => true
    case FieldScope(f) => f != cfg.column
    case PredicateScope(admits) =>
      forall fs: Fields, v: Value :: admits(WithColumn(fs, cfg.column, v)) == admits(fs)
  }

  ghost predicate WellFormed(schema: Schema)
  {
    forall root :: root in schema.configs ==> ColumnIndependent(schema.configs[root])
  }

  /** No two records that lie in each other's scope hold the same slug. */
  ghost predicate UniqueSlugs(schema: Schema, records: seq<Record>)
  {
    forall i, j ::
      0 <= i < |records| && 0 <= j < |records| && i != j &&
      Scoped(schema, records[i], records[j]) && Scoped(schema, records[j], records[i])
      ==> SlugOf(schema, records[i]) != SlugOf(schema, records[j])
  }

  /** Writing the slug column of `r` does not move it into or out of any scope. */
  lemma SlugWriteKeepsScope(schema: Schema, r: Record, v: Value, o: Record)
    requires WellFormed(schema)
    ensures var r2 := r.(fields := r.fields[ConfigOf(schema, r.kind).column := v]);
      && (SameScope(schema, r2, o) <==> SameScope(schema, r, o))
      && (SameScope(schema, o, r2) <==> SameScope(schema, o, r))
  {
    var cfg := ConfigOf(schema, r.kind);
    var r2 := r.(fields := r.fields[cfg.column := v]);
    assert ColumnIndependent(cfg);
    match cfg.scope {
      case NoScope =>
      case FieldScope(f) =>
        assert Get(r2.fields, f) == Get(r.fields, f);
      case PredicateScope(admits) =>
        assert admits(WithColumn(r.fields, cfg.column, v)) == admits(r.fields);
    }
  }

  /** A stable change leaves the record's scope relations with every other record as they were. */
  lemma StableKeepsScope(schema: Schema, r: Record, r2: Record, o: Record)
    requires ScopeStable(schema, r, r2)
    ensures SameScope(schema, r2, o) <==> SameScope(schema, r, o)
    ensures SameScope(schema, o, r2) <==> SameScope(schema, o, r)
  {
  }
}
