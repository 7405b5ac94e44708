/**
 * The record types of the suite and what creating and saving them gives.
 * Each method starts from an empty store, as every example does after the
 * tables are cleared, and returns the slugs the example observes.
 */
module Scenarios {
  import opened Decimal
  import opened Normalizer
  import opened Records
  import opened Scope
  import opened Resolver
  import opened RecordStore

  /** `has_unique_slug :scope => :some_scope` */
  const StandardWithScopeConfig := SlugConfig("slug", SubjectField("title"), FieldScope("some_scope"))

  /** `has_unique_slug :column => :permalink, :subject => :name` */
  const CustomConfig := SlugConfig("permalink", SubjectField("name"), NoScope)

  /** The computed subject "zcvf <name> zxvf". */
  function Custom2Subject(fs: Fields): string
  {
    "zcvf " + ValueText(Get(fs, "name")) + " zxvf"
  }

  /** `has_unique_slug :column => :permalink, :subject => Proc.new { ... }` */
  const Custom2Config := SlugConfig("permalink", SubjectFn(Custom2Subject), NoScope)

  /** `has_unique_slug :scope => Proc.new { where(:deleted_at => nil) }`: soft-deleted records are out of scope. */
  const DeletedScopeConfig := SlugConfig("slug", SubjectField("title"), PredicateScope(fs => Get(fs, "deleted_at") == Nil))

  /**
   * Standard and Vehicle use the bare declaration; Car and Truck are
   * subtypes of Vehicle and share its population.
   */
  const Suite := Schema(
    map["Car" := "Vehicle", "Truck" := "Vehicle"],
    map[
      "Standard" := DefaultConfig,
      "StandardWithScope" := StandardWithScopeConfig,
      "Custom" := CustomConfig,
      "Custom2" := Custom2Config,
      "Vehicle" := DefaultConfig,
      "DeletedScopeProc" := DeletedScopeConfig])

  /**
   * Each type of the suite gets the declaration of its class: Car and Truck
   * that of Vehicle, whose population they share.
   */
  lemma SuiteDeclarations()
    ensures RootOf(Suite, "Car") == RootOf(Suite, "Truck") == RootOf(Suite, "Vehicle") == "Vehicle"
    ensures ConfigOf(Suite, "Car") == ConfigOf(Suite, "Truck") == ConfigOf(Suite, "Vehicle") == DefaultConfig
    ensures ConfigOf(Suite, "Standard") == DefaultConfig
    ensures ConfigOf(Suite, "StandardWithScope").column == "slug"
    ensures ConfigOf(Suite, "StandardWithScope").scope == FieldScope("some_scope")
    ensures ConfigOf(Suite, "Custom").column == ConfigOf(Suite, "Custom2").column == "permalink"
    ensures ConfigOf(Suite, "Custom").subject == SubjectField("name")
    ensures ConfigOf(Suite, "Custom2").subject == SubjectFn(Custom2Subject)
    ensures ConfigOf(Suite, "DeletedScopeProc").scope.PredicateScope?
  {
  }

  lemma SuiteWellFormed()
    ensures WellFormed(Suite)
  {
    forall fs: Fields, v: Value
      ensures Get(WithColumn(fs, "slug", v), "deleted_at") == Get(fs, "deleted_at")
    {
    }
  }

  function SampleSeries(base: string): seq<Value>
  {
    [Text(base), Text(base + "-2"), Text(base + "-3"), Text(base + "-4"), Text(base + "-5")]
  }

  lemma NthExamples(base: string)
    ensures Nth(base, 0) == base
    ensures Nth(base, 1) == base + "-2" && Nth(base, 2) == base + "-3"
    ensures Nth(base, 3) == base + "-4" && Nth(base, 4) == base + "-5"
  {
    assert Digits(2) == "2" && Digits(3) == "3" && Digits(4) == "4" && Digits(5) == "5";
  }

  /** Five slugs that follow the series of `base` are its first five. */
  lemma SeriesValues(slugs: seq<Value>, base: string)
    requires |slugs| == 5
    requires forall j :: 0 <= j < 5 ==> slugs[j] == Text(Nth(base, j))
    ensures slugs == SampleSeries(base)
  {
    NthExamples(base);
  }

  /**
   * An empty store of `schema`; `count` records of `kind` created with the
   * same columns, then the last of them saved again unchanged. The slugs are
   * the series of the candidate; the second save succeeds and keeps the slug.
   */
  method FreshSeries(schema: Schema, kind: string, fields: Fields, count: nat) returns (slugs: seq<Value>, saved: bool, after: Value)
    requires WellFormed(schema) && count > 0
    requires SameScope(schema, Record(0, kind, fields), Record(0, kind, fields))
    ensures |slugs| == count
    ensures forall j :: 0 <= j < count ==> slugs[j] == Text(Nth(Candidate(ConfigOf(schema, kind), None, Record(0, kind, fields)), j))
    ensures saved && after == slugs[count - 1]
  {
    var store := new Store(schema);
    var made := CreateSeries(store, kind, fields, count);
    slugs := seq(count, j requires 0 <= j < count => SlugOf(schema, made[j]));
    saved := ResaveUnchanged(store, count - 1);
    after := SlugOf(schema, store.records[count - 1]);
  }

  /** The candidate slug of a new record whose subject column holds "Sample Record". */
  lemma SampleCandidate(cfg: SlugConfig, r: Record)
    requires cfg.subject.SubjectField? && Get(r.fields, cfg.subject.field) == Text("Sample Record")
    requires Get(r.fields, cfg.column) == Nil
    ensures Candidate(cfg, None, r) == "sample-record"
  {
    NormalizeSample(ValueText(Get(r.fields, cfg.subject.field)));
  }

  /**
   * Five records of one type with the subject "Sample Record" in one store,
   * then the last one saved again unchanged.
   */
  method FiveSamples(kind: string, subjectColumn: string) returns (slugs: seq<Value>, saved: bool, after: Value)
    requires kind in Suite.configs && kind !in Suite.baseOf
    requires Suite.configs[kind].scope == NoScope
    requires Suite.configs[kind].subject == SubjectField(subjectColumn)
    requires Suite.configs[kind].column != subjectColumn
    ensures slugs == SampleSeries("sample-record")
    ensures saved && after == slugs[4]
  {
    SuiteWellFormed();
    var fields := map[subjectColumn := Text("Sample Record")];
    slugs, saved, after := FreshSeries(Suite, kind, fields, 5);
    ghost var cfg := Suite.configs[kind];
    SeriesValues(slugs, Candidate(cfg, None, Record(0, kind, fields)));
    SampleCandidate(cfg, Record(0, kind, fields));
  }

  /** Standard: "sample-record", then "sample-record-2" up to "-5". */
  method IncrementalSuffixes() returns (slugs: seq<Value>)
    ensures slugs == SampleSeries("sample-record")
  {
    var saved, after;
    slugs, saved, after := FiveSamples("Standard", "title");
  }

  /** Custom: the same series in the permalink column, from the name column; saving the last again keeps its slug. */
  method CustomColumnSuffixes() returns (slugs: seq<Value>, saved: bool, after: Value)
    ensures slugs == SampleSeries("sample-record")
    ensures saved && after == Text("sample-record-5")
  {
    slugs, saved, after := FiveSamples("Custom", "name");
  }

  /** The candidate slug of a Custom2 record named "Sample Record". */
  lemma Custom2Base(fields: Fields)
    requires fields == map["name" := Text("Sample Record")]
    ensures Candidate(Custom2Config, None, Record(0, "Custom2", fields)) == "zcvf-sample-record-zxvf"
  {
    assert !ManualSlug(Custom2Config, None, Record(0, "Custom2", fields));
    assert Custom2Subject(fields) == "zcvf Sample Record zxvf";
    NormalizeFramedExample(Custom2Subject(fields));
  }

  /** Custom2: the computed subject gives "zcvf-sample-record-zxvf" and its series; saving the last again keeps its slug. */
  method ComputedSubjectSuffixes() returns (slugs: seq<Value>, saved: bool, after: Value)
    ensures slugs == SampleSeries("zcvf-sample-record-zxvf")
    ensures saved && after == Text("zcvf-sample-record-zxvf-5")
  {
    SuiteWellFormed();
    var fields := map["name" := Text("Sample Record")];
    slugs, saved, after := FreshSeries(Suite, "Custom2", fields, 5);
    ghost var base := Candidate(Custom2Config, None, Record(0, "Custom2", fields));
    SeriesValues(slugs, base);
    Custom2Base(fields);
  }

  /** A record created alone gets the bare normalised subject; saving it again succeeds and keeps it. */
  method ResaveKeepsSlug() returns (slug: Value, saved: bool, after: Value)
    ensures slug == Text("sample-record")
    ensures saved && after == slug
  {
    SuiteWellFormed();
    var fields := map["title" := Text("Sample Record")];
    var slugs;
    slugs, saved, after := FreshSeries(Suite, "Standard", fields, 1);
    slug := slugs[0];
    SampleCandidate(DefaultConfig, Record(0, "Standard", fields));
  }

  /**
   * Retitling a record from "Sample Record" to "sample record" recomputes its
   * slug; the candidate is the slug the record already holds, and the record
   * keeps it because its own slug does not count as taken.
   */
  method RetitledKeepsSlug() returns (saved: bool, before: Value, after: Value)
    ensures saved && before == Text("sample-record") && after == before
  {
    var store, r := CreateSampleRecord();
    before := SlugOf(Suite, r);
    var title := "sample record";
    RetitleTexts(ValueText(Get(r.fields, "title")), title);
    saved := store.Save(r.(fields := r.fields["title" := Text(title)]));
    after := SlugOf(Suite, store.records[0]);
    RetitledSaved(Suite, r, title, store.records[0]);
  }

  /** A fresh store holding one `Standard` record titled "Sample Record". */
  method CreateSampleRecord() returns (store: Store, r: Record)
    ensures fresh(store) && store.Valid() && store.schema == Suite && store.records == [r]
    ensures r.kind == "Standard" && ConfigOf(Suite, r.kind) == DefaultConfig
    ensures Get(r.fields, "title") == Text("Sample Record") && SlugOf(Suite, r) == Text("sample-record")
  {
    SuiteWellFormed();
    store := new Store(Suite);
    var fields := map["title" := Text("Sample Record")];
    r := store.Create("Standard", fields);
    assert store.records == [r];
    assert ConfigOf(Suite, "Standard") == DefaultConfig;
    RetitledCreated(Suite, fields, r);
  }

  /** The record created in the retitling example, for any schema that gives Standard the bare declaration. */
  lemma RetitledCreated(schema: Schema, fields: Fields, r: Record)
    requires ConfigOf(schema, "Standard") == DefaultConfig
    requires fields == map["title" := Text("Sample Record")]
    requires SavedAs(schema, [], None, Record(0, "Standard", fields), r)
    ensures r.id == 0 && r.kind == "Standard"
    ensures Get(r.fields, "title") == Text("Sample Record")
    ensures SlugOf(schema, r) == Text("sample-record")
  {
    assert TakenSlugs(schema, [], Record(0, "Standard", fields)) == {};
    SampleCandidate(DefaultConfig, Record(0, "Standard", fields));
  }

  /**
   * A retitled record whose new title normalises to the slug it already
   * holds keeps that slug when it is the only record in the store.
   */
  lemma RetitledSaved(schema: Schema, r: Record, title: string, out: Record)
    requires ConfigOf(schema, r.kind) == DefaultConfig && SlugOf(schema, r).Text?
    requires ValueText(Get(r.fields, "title")) != title
    requires Normalize(title) == SlugOf(schema, r).s
    requires SavedAs(schema, [r], Some(r), r.(fields := r.fields["title" := Text(title)]), out)
    ensures SlugOf(schema, out) == SlugOf(schema, r)
  {
    var edited := r.(fields := r.fields["title" := Text(title)]);
    assert SubjectText(DefaultConfig, edited.fields) == title;
    assert Get(edited.fields, "slug") == Get(r.fields, "slug");
    OwnSlugIsNoCollision(schema, [r], 0, edited, out);
  }

  lemma RetitleTexts(stored: string, title: string)
    requires stored == "Sample Record" && title == "sample record"
    ensures stored != title && Normalize(title) == "sample-record"
  {
    assert stored[0] != title[0];
    NormalizeLowerSample(title);
  }

  /** A nil subject gives the empty slug, without failing. */
  method BlankSubject() returns (slug: Value)
    ensures slug == Text("")
  {
    SuiteWellFormed();
    var fields := map["title" := Nil];
    var slugs, saved, after := FreshSeries(Suite, "Standard", fields, 1);
    slug := slugs[0];
    assert ValueText(Get(fields, "title")) == "";
    NormalizeEmpty(ValueText(Get(fields, "title")));
  }

  /** Slugs set by hand on creation: the first is kept as given, the second becomes "another-slug-2". */
  method ManualSlugsOnCreate() returns (first: Value, second: Value)
    ensures first == Text("another-slug") && second == Text("another-slug-2")
  {
    SuiteWellFormed();
    var fields := map["title" := Text("Sample Record"), "slug" := Text("another-slug")];
    var slugs, saved, after := FreshSeries(Suite, "Standard", fields, 2);
    first, second := slugs[0], slugs[1];
    assert ManualSlug(DefaultConfig, None, Record(0, "Standard", fields));
    NthExamples("another-slug");
  }

  /** Equal subjects under different scope values both get the bare slug. */
  method DifferentScopeValues() returns (first: Value, second: Value)
    ensures first == Text("sample-record") && second == Text("sample-record")
  {
    SuiteWellFormed();
    var store := new Store(Suite);
    var oneFields := map["title" := Text("Sample Record"), "some_scope" := Num(1)];
    var one := store.Create("StandardWithScope", oneFields);
    var twoFields := map["title" := Text("Sample Record"), "some_scope" := Num(2)];
    var two := store.Create("StandardWithScope", twoFields);
    first, second := SlugOf(Suite, one), SlugOf(Suite, two);
    ghost var cfg := ConfigOf(Suite, "StandardWithScope");
    assert cfg == StandardWithScopeConfig;
    SampleCandidate(cfg, Record(0, "StandardWithScope", oneFields));
    SampleCandidate(cfg, Record(1, "StandardWithScope", twoFields));
    assert TakenSlugs(Suite, [], Record(0, "StandardWithScope", oneFields)) == {};
    OtherScopeValue(one, Record(1, "StandardWithScope", twoFields));
  }

  /** A StandardWithScope record with scope value 1 is not in the scope of one with value 2. */
  lemma OtherScopeValue(one: Record, r: Record)
    requires Get(one.fields, "some_scope") == Num(1) && Get(r.fields, "some_scope") == Num(2)
    requires r.kind == "StandardWithScope"
    ensures TakenSlugs(Suite, [one], r) == {}
  {
    assert ConfigOf(Suite, r.kind) == StandardWithScopeConfig;
    assert !SameScope(Suite, r, [one][0]);
  }

  /** The first two slugs of a StandardWithScope series for "Sample Record". */
  lemma ScopedPair(fields: Fields, slugs: seq<Value>)
    requires fields == map["title" := Text("Sample Record"), "some_scope" := Num(1)]
    requires |slugs| == 2
    requires forall j :: 0 <= j < 2 ==> slugs[j] == Text(Nth(Candidate(ConfigOf(Suite, "StandardWithScope"), None, Record(0, "StandardWithScope", fields)), j))
    ensures slugs[0] == Text("sample-record") && slugs[1] == Text("sample-record-2")
  {
    var cfg := ConfigOf(Suite, "StandardWithScope");
    assert cfg == StandardWithScopeConfig;
    var base := Candidate(cfg, None, Record(0, "StandardWithScope", fields));
    SampleCandidate(cfg, Record(0, "StandardWithScope", fields));
    PairValues(slugs, base);
    SecondSample(base);
  }

  /** Kept apart so that the literal comparison is proved without the facts above in scope. */
  lemma SecondSample(base: string)
    requires base == "sample-record"
    ensures base + "-2" == "sample-record-2"
  {
  }

  /** Two slugs that follow the series of `base` are `base` and `base-2`. */
  lemma PairValues(slugs: seq<Value>, base: string)
    requires |slugs| == 2
    requires forall j :: 0 <= j < 2 ==> slugs[j] == Text(Nth(base, j))
    ensures slugs[0] == Text(base) && slugs[1] == Text(base + "-2")
  {
    NthExamples(base);
  }

  /** Equal subjects under the same scope value: the second gets "-2". */
  method SameScopeValue() returns (first: Value, second: Value)
    ensures first == Text("sample-record") && second == Text("sample-record-2")
  {
    SuiteWellFormed();
    var fields := map["title" := Text("Sample Record"), "some_scope" := Num(1)];
    var slugs, saved, after := FreshSeries(Suite, "StandardWithScope", fields, 2);
    first, second := slugs[0], slugs[1];
    ScopedPair(fields, slugs);
  }

  /** The records in scope of `cur` are `a`, with slug `v`, and `b`, which is `cur` itself. */
  lemma TakenByOther(schema: Schema, a: Record, b: Record, cur: Record, v: string)
    requires cur.id == b.id && Scoped(schema, cur, a) && SlugOf(schema, a) == Text(v)
    ensures TakenSlugs(schema, [a, b], cur) == {v}
  {
    var taken := TakenSlugs(schema, [a, b], cur);
    assert [a, b][0] == a;
    assert v in taken;
  }

  /** A slug set by hand on a stored record is kept. */
  method ManualSlugOnUpdate() returns (saved: bool, slug: Value)
    ensures saved && slug == Text("another-slug")
  {
    SuiteWellFormed();
    var store := new Store(Suite);
    var r := store.Create("Standard", map["title" := Text("Sample Record")]);
    var edited := r.(fields := r.fields["slug" := Text("another-slug")]);
    assert store.records == [r];
    saved := store.Save(edited);
    slug := SlugOf(Suite, store.records[0]);
    OnlyRecordKept(r, edited, store.records[0]);
  }

  /** A slug set by hand on the only stored Standard record is kept. */
  lemma OnlyRecordKept(r: Record, edited: Record, out: Record)
    requires r.kind == "Standard"
    requires edited == r.(fields := r.fields["slug" := Text("another-slug")])
    requires SavedAs(Suite, [r], Some(r), edited, out)
    ensures out.id == r.id && out.kind == "Standard"
    ensures SlugOf(Suite, out) == Text("another-slug")
  {
    assert TakenSlugs(Suite, [r], edited) == {};
    ManualSlugKept(Suite, [r], Some(r), edited, out);
  }

  /**
   * A slug set by hand on a stored record is kept when free; set to the same
   * text on a second record, it becomes "another-slug-2".
   */
  method ManualSlugsOnUpdate() returns (first: Value, second: Value)
    ensures first == Text("another-slug") && second == Text("another-slug-2")
  {
    SuiteWellFormed();
    var store := new Store(Suite);
    var fields := map["title" := Text("Sample Record")];
    var r1 := store.Create("Standard", fields);
    var edited1 := r1.(fields := r1.fields["slug" := Text("another-slug")]);
    assert store.records == [r1];
    var saved1 := store.Save(edited1);
    var kept := store.records[0];
    OnlyRecordKept(r1, edited1, kept);
    first := SlugOf(Suite, kept);
    assert store.records == [kept] && store.nextId == 1;

    var r2 := store.Create("Standard", fields);
    SecondCreatedFree(kept, r2, fields);
    var edited2 := r2.(fields := r2.fields["slug" := Text("another-slug")]);
    assert store.records == [kept, r2] && [kept, r2][1] == r2;
    assert edited2.(kind := r2.kind) == edited2;
    var saved2 := store.Save(edited2);
    assert store.records[1].id == edited2.id;
    SecondManualTaken(kept, r2, edited2, store.records[1]);
    second := SlugOf(Suite, store.records[1]);
  }

  /** A Standard record created beside one holding "another-slug" does not get that slug. */
  lemma SecondCreatedFree(kept: Record, r2: Record, fields: Fields)
    requires kept.id == 0 && kept.kind == "Standard" && SlugOf(Suite, kept) == Text("another-slug")
    requires SavedAs(Suite, [kept], None, Record(1, "Standard", fields), r2)
    ensures r2.id == 1 && r2.kind == "Standard"
    ensures SlugOf(Suite, r2) != Text("another-slug")
  {
    var initial := Record(1, "Standard", fields);
    var taken := TakenSlugs(Suite, [kept], initial);
    assert "another-slug" in taken by {
      assert [kept][0] == kept;
    }
    if ShouldRecompute(DefaultConfig, None, initial) {
      ResolutionIsFree(Candidate(DefaultConfig, None, initial), taken, SlugOf(Suite, r2).s);
    }
  }

  /** Setting "another-slug" by hand on that second record, while the first holds it, gives "another-slug-2". */
  lemma SecondManualTaken(kept: Record, r2: Record, edited2: Record, out: Record)
    requires kept.id == 0 && kept.kind == "Standard" && SlugOf(Suite, kept) == Text("another-slug")
    requires r2.id == 1 && r2.kind == "Standard" && SlugOf(Suite, r2) != Text("another-slug")
    requires edited2 == r2.(fields := r2.fields["slug" := Text("another-slug")])
    requires SavedAs(Suite, [kept, r2], Some(r2), edited2, out)
    ensures SlugOf(Suite, out) == Text("another-slug-2")
  {
    assert ManualSlug(DefaultConfig, Some(r2), edited2);
    TakenByOther(Suite, kept, r2, edited2, "another-slug");
    assert Suffixed("another-slug", 2) == "another-slug-2" by {
      assert Digits(2) == "2";
    }
    SecondResolution("another-slug", {"another-slug"}, SlugOf(Suite, out).s);
  }

  /** Car and Truck share the population of Vehicle: the same title gives two different slugs. */
  method InheritedScope() returns (car: Value, truck: Value)
    ensures car != truck
  {
    SuiteWellFormed();
    var store := new Store(Suite);
    var fields := map["title" := Text("El Camino")];
    var c := store.Create("Car", fields);
    assert store.records == [c] && store.nextId == 1;
    var t := store.Create("Truck", fields);
    car, truck := SlugOf(Suite, c), SlugOf(Suite, t);
    ghost var initial := Record(1, "Truck", fields);
    ghost var cfg := ConfigOf(Suite, "Truck");
    assert car.s in TakenSlugs(Suite, [c], initial) by {
      assert [c][0] == c;
    }
    ResolutionIsFree(Candidate(cfg, None, initial), TakenSlugs(Suite, [c], initial), truck.s);
  }

  /**
   * A filter scope that leaves out soft-deleted records: a record created
   * after a deleted one with the same title gets the same slug. `deletedAt`
   * stands for the time of deletion.
   */
  method SoftDeletedOutOfScope(deletedAt: int) returns (deleted: Value, live: Value)
    ensures deleted == live
  {
    SuiteWellFormed();
    var store := new Store(Suite);
    var a := store.Create("DeletedScopeProc", map["title" := Text("My Title"), "deleted_at" := Num(deletedAt)]);
    var bFields := map["title" := Text("My Title")];
    var b := store.Create("DeletedScopeProc", bFields);
    deleted, live := SlugOf(Suite, a), SlugOf(Suite, b);
    assert Get(a.fields, "deleted_at") == Num(deletedAt);
    assert TakenSlugs(Suite, [a], Record(1, "DeletedScopeProc", bFields)) == {};
  }

  /**
   * Moving a record to another scope value, with its subject and slug left
   * as they are, does not recompute the slug, so it can duplicate a slug of
   * the new scope: `b` moves from some_scope 2 to some_scope 1, where `a`
   * already holds the same slug.
   */
  lemma ScopeMoveKeepsDuplicate(schema: Schema, a: Record, b: Record, moved: Record, out: Record)
    requires ConfigOf(schema, "StandardWithScope") == StandardWithScopeConfig
    requires a == Record(0, "StandardWithScope", map["title" := Text("t"), "some_scope" := Num(1), "slug" := Text("t")])
    requires b == Record(1, "StandardWithScope", map["title" := Text("t"), "some_scope" := Num(2), "slug" := Text("t")])
    requires moved == b.(fields := b.fields["some_scope" := Num(1)])
    requires SavedAs(schema, [a, b], Some(b), moved, out)
    ensures UniqueSlugs(schema, [a, b])
    ensures !KeepsScope(schema, b, moved)
    ensures !UniqueSlugs(schema, [a, out])
  {
    assert !ShouldRecompute(StandardWithScopeConfig, Some(b), moved);
    assert out == moved;
    var after := [a, out];
    assert Scoped(schema, after[0], after[1]) && Scoped(schema, after[1], after[0]);
    assert SlugOf(schema, after[0]) == SlugOf(schema, after[1]);
  }
}
