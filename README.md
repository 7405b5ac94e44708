# has_unique_slug, modelled in Dafny

`has_unique_slug` is a Ruby on Rails extension that gives each record a URL
slug and keeps that slug unique within a scope. The slug comes from the
record's subject: a column, or a function of the record. It is written just
before the record is saved.

The model has four parts.

- **Normaliser** (`normalizer.dfy`). Letters are lower-cased. Every run of
  characters that are not ASCII letters or digits becomes one `-`. No `-` is
  left at either end. A blank or nil subject gives the empty slug, and
  normalising never fails.
- **Scope evaluator** (`scope.dfy`). A record type is configured with a slug
  column, a subject and a scope. The scope is `NoScope`, `FieldScope(column)`
  or `PredicateScope(filter)`. Subtypes share the population of their root
  type, as `Car` and `Truck` share that of `Vehicle`.
- **Collision resolver** (`resolver.dfy`). It is the save hook. The slug is
  recomputed when:
  - it is nil;
  - the record is new;
  - the subject text changed;
  - or the caller wrote a different slug by hand.

  The candidate is the hand-written slug, taken as it is, or else the
  normalised subject. A probing loop keeps the candidate when no other
  record in scope holds it. Otherwise it takes `candidate-n` for the
  smallest free `n >= 2`.
- **Record store** (`store.dfy`). A class holding the stored records, with
  `Create` (`create!`) and `Save` (`save`). Both run the hook. `Create` keeps
  slugs unique; `Save` does so when the slug is recomputed or the record's
  scope is unchanged.

`scenarios.dfy` declares the record types of the example suite: `Standard`,
`StandardWithScope`, `Custom`, `Custom2`, `Vehicle`/`Car`/`Truck` and
`DeletedScopeProc`. It proves the slug each example expects, starting from an
empty store. `decimal.dfy` renders the numeric suffix, and `records.dfy`
holds the record and column-value types.

The implementation file of the library is not part of this model. The model
follows the behaviour that `spec/has_unique_slug_spec.rb` pins down.

## Model

| member | source | states |
|---|---|---|
| Normalizer.Normalize | spec/has_unique_slug_spec.rb:69-72 | every slug it produces is lower-case letters and digits in words joined by single `-`, with no `-` at either end |
| Normalizer.NormalizeIdempotent | spec/has_unique_slug_spec.rb:69-72 | normalising a slug again leaves it unchanged |
| Normalizer.NormalizeKeepsAlnums | spec/has_unique_slug_spec.rb:69-72 | with its hyphens deleted, the slug is exactly the subject's letters and digits, lower-cased and in order (checked against `Alnums`, defined character by character) |
| Normalizer.NormalizeStep | spec/has_unique_slug_spec.rb:133-135 | a run of letters and digits followed by a run of other characters gives the run lower-cased, then one `-` and the slug of the rest when letters or digits follow, and nothing more when none do |
| Normalizer.NormalizeSkip | spec/has_unique_slug_spec.rb:133-135 | characters other than letters and digits at the front of the subject leave no trace in the slug |
| Normalizer.NormalizeRun | spec/has_unique_slug_spec.rb:69-72 | a subject made only of letters and digits gives itself, lower-cased |
| Normalizer.WordsOfJoin | spec/has_unique_slug_spec.rb:69-72 | splitting words joined with `-` gives the same words back, which is the round trip behind idempotence |
| Normalizer.NormalizeBlank | spec/has_unique_slug_spec.rb:162-165 | the slug is empty exactly when the subject has no letter or digit; it is never an error |
| Normalizer.NormalizeSample | spec/has_unique_slug_spec.rb:69-72 | "Sample Record" normalises to "sample-record" |
| Normalizer.NormalizeLowerSample | spec/has_unique_slug_spec.rb:69-72 | "sample record" normalises to "sample-record" as well: case does not matter |
| Normalizer.NormalizeEmpty | spec/has_unique_slug_spec.rb:162-165 | the empty subject (what nil reads as) normalises to the empty slug |
| Normalizer.NormalizeFramedExample | spec/has_unique_slug_spec.rb:133-135 | "zcvf Sample Record zxvf" normalises to "zcvf-sample-record-zxvf" |
| Decimal.Digits | spec/has_unique_slug_spec.rb:74-80 | the suffix number is written as a non-empty string of decimal digits |
| Decimal.DigitsRoundTrip | spec/has_unique_slug_spec.rb:74-80 | reading the suffix text back as a decimal number, most significant digit first, gives the number; a rendering of more than one digit does not start with `0` |
| Decimal.DigitsLength | spec/has_unique_slug_spec.rb:74-80 | a number at least 10^k has more than k digits, which bounds the probing loop |
| Decimal.DigitsInjective | spec/has_unique_slug_spec.rb:74-80 | different suffix numbers are written differently |
| Scope.RootOf | spec/has_unique_slug_spec.rb:41-51 | a subtype's population is that of its base type (`Car` and `Truck` are `Vehicle`); any other type is its own root |
| Scope.ConfigOf | spec/has_unique_slug_spec.rb:41-51 | a type uses the declaration of its root type, and the bare declaration (column `slug`, subject `title`, no scope) when there is none |
| Scope.SubjectText | spec/has_unique_slug_spec.rb:25-34 | the subject text is the subject column's text (`to_s`, empty for nil), or the value of the computed subject over the record's columns |
| Scope.SameScope | spec/has_unique_slug_spec.rb:11-18 | another record is in scope when it has the same root type and: always for no scope, with an equal value for a field scope, when the filter admits it for a filter scope |
| Scope.Scoped | spec/has_unique_slug_spec.rb:11-18 | a record must avoid the slugs of the in-scope records other than itself (a different identity) |
| Scope.SlugWriteKeepsScope | spec/has_unique_slug_spec.rb:17-18 | writing the slug column never moves a record into or out of any scope when the configuration is well formed |
| Scope.StableKeepsScope | spec/has_unique_slug_spec.rb:146-160 | a change that keeps the type and the scope value, or the filter's verdict, keeps every scope relation |
| Resolver.IsTaken | spec/has_unique_slug_spec.rb:113-118 | the existence query answers true exactly when another record in scope holds the value; the record itself never counts |
| Resolver.ResolveSlug | spec/has_unique_slug_spec.rb:74-80 | the probing loop ends, and returns the candidate when it is free, else `candidate-n` for the smallest free n >= 2 |
| Resolver.ResolutionIsFree | spec/has_unique_slug_spec.rb:74-80 | a resolved slug is never held by another record in scope |
| Resolver.ResolutionIsUnique | spec/has_unique_slug_spec.rb:74-80 | the resolution of a candidate against a set of taken slugs is determined |
| Resolver.SecondResolution | spec/has_unique_slug_spec.rb:94-96 | a taken candidate whose `-2` form is free resolves to `candidate-2` |
| Resolver.NthInjective | spec/has_unique_slug_spec.rb:74-80 | the slugs of a series `base`, `base-2`, `base-3`, ... are pairwise distinct |
| Resolver.SeriesResolution | spec/has_unique_slug_spec.rb:74-80 | when exactly the first k slugs of a series are taken, the resolution is the (k+1)-th |
| Resolver.ManualSlug | spec/has_unique_slug_spec.rb:82-111 | the caller set the slug by hand when the slug column holds a value that differs from the stored one (on creation, any value) |
| Resolver.ShouldRecompute | spec/has_unique_slug_spec.rb:82-111 | the slug is recomputed when it is nil, the record is new, the subject text changed, or the slug was set by hand |
| Resolver.Candidate | spec/has_unique_slug_spec.rb:82-111 | the candidate is the hand-set slug, not normalised again, or else the normalised subject |
| Resolver.BeforeSave | spec/has_unique_slug_spec.rb:82-111 | the hook recomputes and resolves the slug exactly when it is due, and otherwise leaves the record unchanged |
| Resolver.ManualSlugKept | spec/has_unique_slug_spec.rb:82-92 | a slug written by hand over an unchanged subject is kept as written when it is free in scope |
| Resolver.OwnSlugIsNoCollision | spec/has_unique_slug_spec.rb:113-118 | when a recomputed candidate equals the slug the record already holds and no other record in scope holds it, the record keeps it without a suffix: its own slug is never a collision |
| Resolver.UnrelatedChangeKeepsSlug | spec/has_unique_slug_spec.rb:113-118 | a save that changes neither the subject nor the slug of a record with a slug leaves the record unchanged |
| Resolver.ResaveIsIdempotent | spec/has_unique_slug_spec.rb:113-118 | saving a stored record again, unchanged, leaves it exactly as it was |
| Resolver.SavedSlugDiffers | spec/has_unique_slug_spec.rb:74-80 | a recomputed slug differs from the slug of every other stored record in scope |
| Resolver.SavePreservesUniqueness | spec/has_unique_slug_spec.rb:99-111 | saving a stored record keeps slugs unique among records in each other's scope, when the slug is recomputed or the record's scope is unchanged |
| Resolver.CreatePreservesUniqueness | spec/has_unique_slug_spec.rb:74-80 | creating a record keeps slugs unique among records in each other's scope |
| RecordStore.Store.constructor | spec/has_unique_slug_spec.rb:63-67 | a store starts empty, valid and unique |
| RecordStore.Store.Create | spec/has_unique_slug_spec.rb:69-72 | the new record is appended with a fresh id and the slug the hook assigns; validity and uniqueness are kept |
| RecordStore.Store.IndexOf | spec/has_unique_slug_spec.rb:82-87 | returns the position of the stored record with the given id, or -1 when there is none |
| RecordStore.Store.Save | spec/has_unique_slug_spec.rb:82-87 | the stored record with the same id is replaced by the hook's result, its type kept; every other record is unchanged; the result says whether the id was stored |
| RecordStore.CreateSeries | spec/has_unique_slug_spec.rb:74-80 | when the columns lie in their own scope and no stored record is in that scope, creating them n times gives `base`, `base-2`, ..., `base-n`, in creation order |
| RecordStore.ResaveUnchanged | spec/has_unique_slug_spec.rb:113-118 | saving a stored record unchanged succeeds and leaves the whole store as it was |
| Scenarios.Suite | spec/has_unique_slug_spec.rb:3-51 | the suite's declarations: `Standard` and `Vehicle` bare; `StandardWithScope` scoped by `some_scope`; `Custom` with column `permalink` and subject `name`; `Custom2` with column `permalink` and the computed subject; `DeletedScopeProc` scoped to records whose `deleted_at` is nil; `Car` and `Truck` mapped to `Vehicle` |
| Scenarios.SuiteDeclarations | spec/has_unique_slug_spec.rb:3-51 | each type resolves to the declaration of its class: `Car` and `Truck` to `Vehicle`'s bare one, `StandardWithScope` to the `some_scope` field scope, `Custom` and `Custom2` to the `permalink` column with the `name` column and the computed subject, `DeletedScopeProc` to a filter scope |
| Scenarios.Custom2Subject | spec/has_unique_slug_spec.rb:33-34 | the computed subject of `Custom2`: "zcvf ", the text of `name`, then " zxvf" |
| Scenarios.SuiteWellFormed | spec/has_unique_slug_spec.rb:11-15 | no scope of the suite reads the slug column, including the soft-delete filter |
| Scenarios.SampleCandidate | spec/has_unique_slug_spec.rb:69-72 | a new record whose subject column holds "Sample Record" has the candidate "sample-record" |
| Scenarios.Custom2Base | spec/has_unique_slug_spec.rb:33-34 | the computed subject of a `Custom2` record named "Sample Record" gives the candidate "zcvf-sample-record-zxvf" |
| Scenarios.FreshSeries | spec/has_unique_slug_spec.rb:120-131 | in an empty store, n creations give the series of the candidate, and saving the last record again succeeds and keeps its slug |
| Scenarios.FiveSamples | spec/has_unique_slug_spec.rb:74-80 | five records of an unscoped type with the subject "Sample Record" get "sample-record", then "sample-record-2" to "-5" |
| Scenarios.IncrementalSuffixes | spec/has_unique_slug_spec.rb:74-80 | `Standard` gives "sample-record", then "sample-record-2" to "-5" |
| Scenarios.CustomColumnSuffixes | spec/has_unique_slug_spec.rb:120-131 | `Custom` gives the same series in `permalink`, from `name`; re-saving the last keeps "sample-record-5" |
| Scenarios.ComputedSubjectSuffixes | spec/has_unique_slug_spec.rb:133-144 | `Custom2` gives "zcvf-sample-record-zxvf", then `-2` to `-5`; re-saving the last keeps its slug |
| Scenarios.ResaveKeepsSlug | spec/has_unique_slug_spec.rb:113-118 | saving a record again unchanged succeeds and keeps "sample-record"; the slug is not recomputed, so no collision check takes place |
| Scenarios.RetitledKeepsSlug | spec/has_unique_slug_spec.rb:113-118 | retitling "Sample Record" to "sample record" recomputes the slug, and the record keeps "sample-record" because its own slug does not count as taken |
| Scenarios.RetitledSaved | spec/has_unique_slug_spec.rb:113-118 | the only record of a store, retitled so that the new title normalises to the slug it holds, keeps that slug |
| Scenarios.BlankSubject | spec/has_unique_slug_spec.rb:162-165 | a nil title gives the empty slug, without failing |
| Scenarios.ManualSlugsOnCreate | spec/has_unique_slug_spec.rb:89-97 | a slug given on creation is kept, and the same slug given again becomes "another-slug-2" |
| Scenarios.ManualSlugOnUpdate | spec/has_unique_slug_spec.rb:82-87 | a slug set by hand on a stored record is kept after the save |
| Scenarios.ManualSlugsOnUpdate | spec/has_unique_slug_spec.rb:99-111 | set by hand on a second record while the first holds it, "another-slug" becomes "another-slug-2" |
| Scenarios.DifferentScopeValues | spec/has_unique_slug_spec.rb:146-152 | equal subjects under different `some_scope` values both get "sample-record" |
| Scenarios.SameScopeValue | spec/has_unique_slug_spec.rb:154-160 | equal subjects under the same `some_scope` value get "sample-record", then "sample-record-2" |
| Scenarios.InheritedScope | spec/has_unique_slug_spec.rb:167-172 | a `Car` and a `Truck` with the same title get different slugs |
| Scenarios.SoftDeletedOutOfScope | spec/has_unique_slug_spec.rb:174-180 | a record created after a soft-deleted one with the same title gets the same slug |
| Scenarios.ScopeMoveKeepsDuplicate | spec/has_unique_slug_spec.rb:146-160 | two records with unique slugs under some_scope 1 and 2; moving the second to some_scope 1 without changing its subject or slug is not recomputed, falls outside the uniqueness guarantee of a save, and leaves a duplicate |

## Left out

- Persistence: table creation and teardown, `destroy_all`, `reload`, and the exceptions of `create!`. Each scenario starts from an empty in-memory store, and the store's sequence is what `reload` would read.
- Shared tables: `Standard` and `StandardWithScope` share the table `standard`, and `Custom` and `Custom2` share `custom`. The model scopes by root type instead. The examples clear the tables between cases, so the difference is not observable there.
- The "maximum existing suffix" query optimisation. Only the exact smallest-free-suffix result is modelled. Probing upward from the largest existing suffix agrees with it only while the taken suffixes run without gaps, as they do in every example: with `base`, `base-2` and `base-5` taken, the shortcut gives `base-6` where the exact rule gives `base-3`.
- Unicode transliteration, underscores and accented letters. The normaliser treats only ASCII letters and digits as word characters; any other character separates words.
- Ruby `Proc` objects and database queries. A computed subject is a function of the record's columns. A filter scope is a predicate over the columns of the other record, so it cannot depend on the record being saved.
- `Time.now`: the deletion time is the parameter `deletedAt` of `Scenarios.SoftDeletedOutOfScope`.
- Concurrency and database uniqueness constraints. The model is a single-threaded, best-effort check.
- Saves that fail validation, and records of types other than the configured ones. An unknown type gets the default configuration: column `slug`, subject `title`, no scope.
- A slug column holding the empty string counts as present; only nil makes the slug absent. A record with a blank subject gets the empty slug, and treating that slug as present keeps such a record unchanged when it is saved again, as `Resolver.UnrelatedChangeKeepsSlug` states.
- Normalizer.Normalize: its own contract states only the shape of a slug. What the slug contains, and where its hyphens go, is stated by `NormalizeKeepsAlnums`, `NormalizeStep`, `NormalizeSkip` and `NormalizeRun`, because carrying the character-level reference in the function's contract makes every proof about a literal subject unfold it.
- RecordStore.Store.Save: guarantees unique slugs only when the slug is recomputed or the record's scope is unchanged. A save that moves a record to another scope value, without changing its subject or slug, keeps a slug that may be taken in the new scope. That follows from the recompute rule, which looks at the slug and the subject but not at the scope; `Scenarios.ScopeMoveKeepsDuplicate` exhibits such a save. No example covers it.
- Resolver.SavePreservesUniqueness: states the same condition as `Store.Save`, for the same reason.
