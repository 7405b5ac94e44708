/**
 * The record store: the persisted records of every configured type, with
 * `create!` and `save` running the slug hook before they write.
 */
module RecordStore {
  import opened Records
  import opened Scope
  import opened Resolver

  class Store {
    const schema: Schema
    var records: seq<Record>
    var nextId: nat

    /** Identities are distinct and below the next one handed out; every stored record has a slug. */
    ghost predicate Valid()
      reads this
    {
      && WellFormed(schema)
      && DistinctIds(records)
      && (forall i :: 0 <= i < |records| ==> records[i].id < nextId && SlugOf(schema, records[i]).Text?)
    }

    /** No two stored records in each other's scope share a slug. */
    ghost predicate Unique()
      reads this
    {
      UniqueSlugs(schema, records)
    }

    constructor (schema: Schema)
      requires WellFormed(schema)
      ensures Valid() && Unique()
      ensures this.schema == schema && records == [] && nextId == 0
    {
      this.schema := schema;
      records := [];
      nextId := 0;
    }

    /** `create!`: a new record with the given columns, its slug resolved before it is stored. */
    method Create(kind: string, fields: Fields) returns (rec: Record)
      requires Valid()
      modifies this
      ensures Valid()
      ensures nextId == old(nextId) + 1 && records == old(records) + [rec]
      ensures SavedAs(schema, old(records), None, Record(old(nextId), kind, fields), rec)
      ensures old(Unique()) ==> Unique()
    {
      var initial := Record(nextId, kind, fields);
      rec := BeforeSave(schema, records, None, initial);
      if old(Unique()) {
        CreatePreservesUniqueness(schema, records, initial, rec);
      }
      records := records + [rec];
      nextId := nextId + 1;
    }

    /** The position of the stored record with identity `id`, or -1. */
    method IndexOf(id: nat) returns (i: int)
      ensures -1 <= i < |records|
      ensures 0 <= i ==> records[i].id == id
      ensures i < 0 ==> forall j :: 0 <= j < |records| ==> records[j].id != id
    {
      i := 0;
      while i < |records|
        invariant 0 <= i <= |records|
        invariant forall j :: 0 <= j < i ==> records[j].id != id
      {
        if records[i].id == id {
          return;
        }
        i := i + 1;
      }
      i := -1;
    }

    /**
     * `save` of a record read from the store and changed by the caller: the
     * stored record with the same identity is replaced by `cur` (its type
     * kept), after the slug hook. Nothing changes when no stored record has
     * that identity, and then the result is false.
     */
    method Save(cur: Record) returns (saved: bool)
      requires Valid()
      modifies this
      ensures Valid()
      ensures nextId == old(nextId) && |records| == |old(records)|
      ensures saved <==> exists i :: 0 <= i < |old(records)| && old(records)[i].id == cur.id
      ensures forall i :: 0 <= i < |records| ==>
        if old(records)[i].id == cur.id
        then SavedAs(schema, old(records), Some(old(records)[i]), cur.(kind := old(records)[i].kind), records[i])
        else records[i] == old(records)[i]
      ensures old(Unique()) &&
        (forall i :: 0 <= i < |old(records)| && old(records)[i].id == cur.id ==> KeepsScope(schema, old(records)[i], cur))
        ==> Unique()
    {
      var i := IndexOf(cur.id);
      if i < 0 {
        return false;
      }
      var prev := records[i];
      var rebased := cur.(kind := prev.kind);
      var out := BeforeSave(schema, records, Some(prev), rebased);
      if old(Unique()) && KeepsScope(schema, prev, cur) {
        SavePreservesUniqueness(schema, records, i, rebased, out);
      }
      records := records[i := out];
      saved := true;
    }
  }

  /**
   * What a series of creations with the same columns sees: the earlier
   * records of the series hold exactly the first k slugs of the series, and
   * nothing stored before it is in scope.
   */
  lemma SeriesStep(schema: Schema, before: seq<Record>, made: seq<Record>, kind: string, fields: Fields, t: Record)
    requires WellFormed(schema)
    requires t.kind == kind && t.fields == fields
    requires SameScope(schema, t, t)
    requires forall o :: o in before ==> !SameScope(schema, t, o)
    requires forall j :: 0 <= j < |made| ==>
      && made[j].id != t.id && made[j].kind == kind
      && made[j].fields == fields[ConfigOf(schema, kind).column := Text(Nth(Candidate(ConfigOf(schema, kind), None, t), j))]
    ensures var taken := TakenSlugs(schema, before + made, t);
      var base := Candidate(ConfigOf(schema, kind), None, t);
      && (forall j :: 0 <= j < |made| ==> Nth(base, j) in taken)
      && (forall s :: s in taken ==> exists j :: 0 <= j < |made| && s == Nth(base, j))
  {
    var all := before + made;
    var cfg := ConfigOf(schema, kind);
    var base := Candidate(cfg, None, t);
    var taken := TakenSlugs(schema, all, t);
    forall j | 0 <= j < |made|
      ensures Nth(base, j) in taken
    {
      var plain := Record(made[j].id, kind, fields);
      SlugWriteKeepsScope(schema, plain, Text(Nth(base, j)), t);
      assert made[j] == plain.(fields := plain.fields[cfg.column := Text(Nth(base, j))]);
      assert SameScope(schema, t, plain);
      assert all[|before| + j] == made[j];
      assert SlugOf(schema, made[j]) == Text(Nth(base, j));
    }
    forall s | s in taken
      ensures exists j :: 0 <= j < |made| && s == Nth(base, j)
    {
      var x :| 0 <= x < |all| && Scoped(schema, t, all[x]) && SlugOf(schema, all[x]).Text? && SlugOf(schema, all[x]).s == s;
      if x >= |before| {
        assert all[x] == made[x - |before|];
      }
    }
  }

  /** The next record of a series gets the next slug of the series. */
  lemma SeriesNext(schema: Schema, before: seq<Record>, made: seq<Record>, kind: string, fields: Fields, t: Record, rec: Record)
    requires WellFormed(schema)
    requires t.kind == kind && t.fields == fields
    requires SameScope(schema, Record(0, kind, fields), Record(0, kind, fields))
    requires forall o :: o in before ==> !SameScope(schema, Record(0, kind, fields), o)
    requires forall j :: 0 <= j < |made| ==>
      && made[j].id != t.id && made[j].kind == kind
      && made[j].fields == fields[ConfigOf(schema, kind).column := Text(Nth(Candidate(ConfigOf(schema, kind), None, t), j))]
    requires SavedAs(schema, before + made, None, t, rec)
    ensures rec.id == t.id && rec.kind == kind
    ensures rec.fields == fields[ConfigOf(schema, kind).column := Text(Nth(Candidate(ConfigOf(schema, kind), None, t), |made|))]
  {
    var cfg := ConfigOf(schema, kind);
    var base := Candidate(cfg, None, t);
    var taken := TakenSlugs(schema, before + made, t);
    assert SameScope(schema, t, t);
    SeriesStep(schema, before, made, kind, fields, t);
    SeriesResolution(base, taken, |made|);
    ResolutionIsUnique(base, taken, SlugOf(schema, rec).s, Nth(base, |made|));
  }

  /**
   * Creating `count` records with the same columns in a scope where nothing
   * else is stored gives them, in creation order, the slugs `base`,
   * `base-2`, ..., `base-count`, where base is the candidate of those columns.
   */
  method CreateSeries(store: Store, kind: string, fields: Fields, count: nat) returns (made: seq<Record>)
    requires store.Valid()
    requires SameScope(store.schema, Record(0, kind, fields), Record(0, kind, fields))
    requires forall o :: o in store.records ==> !SameScope(store.schema, Record(0, kind, fields), o)
    modifies store
    ensures store.Valid()
    ensures |made| == count && store.records == old(store.records) + made
    ensures forall j :: 0 <= j < count ==>
      && made[j].kind == kind
      && SlugOf(store.schema, made[j]) == Text(Nth(Candidate(ConfigOf(store.schema, kind), None, Record(0, kind, fields)), j))
  {
    ghost var before := store.records;
    ghost var cfg := ConfigOf(store.schema, kind);
    ghost var base := Candidate(cfg, None, Record(0, kind, fields));
    made := [];
    while |made| < count
      invariant store.Valid()
      invariant |made| <= count && store.records == before + made
      invariant forall j :: 0 <= j < |made| ==>
        && made[j].id < store.nextId && made[j].kind == kind
        && made[j].fields == fields[cfg.column := Text(Nth(base, j))]
    {
      ghost var t := Record(store.nextId, kind, fields);
      assert Candidate(cfg, None, t) == base;
      var rec := store.Create(kind, fields);
      SeriesNext(store.schema, before, made, kind, fields, t, rec);
      made := made + [rec];
    }
  }

  /** Saving a stored record again without changing it succeeds and leaves the store as it was. */
  method ResaveUnchanged(store: Store, i: nat) returns (saved: bool)
    requires store.Valid() && i < |store.records|
    modifies store
    ensures store.Valid()
    ensures saved && store.records == old(store.records) && store.nextId == old(store.nextId)
  {
    ghost var was := store.records;
    var r := store.records[i];
    saved := store.Save(r);
    forall j | 0 <= j < |was|
      ensures store.records[j] == was[j]
    {
      if was[j].id == r.id {
        assert j == i;
        ResaveIsIdempotent(store.schema, was, r, store.records[j]);
      }
    }
  }
}
