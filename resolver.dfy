/**
 * The collision resolver, run on every save: decides whether the slug is
 * recomputed, picks the candidate (the slug set by hand, or the normalised
 * subject), and makes it unique in scope by appending the smallest free
 * numeric suffix `-n`, n >= 2.
 */
module Resolver {
  import opened Decimal
  import opened Normalizer
  import opened Records
  import opened Scope

  function Suffixed(base: string, n: nat): string
  {
    base + "-" + Digits(n)
  }

  /** The slugs held by the other records in the scope of `rec`; `rec`'s own stored slug is not among them. */
  function TakenSlugs(schema: Schema, records: seq<Record>, rec: Record): set<string>
  {
    set j | 0 <= j < |records| && Scoped(schema, rec, records[j]) && SlugOf(schema, records[j]).Text?
      :: SlugOf(schema, records[j]).s
  }

  /**
   * `slug` is what resolving `base` against `taken` must give: `base` itself
   * when it is free, otherwise `base-n` for the smallest n >= 2 that is free.
   */
  ghost predicate IsResolution(base: string, taken: set<string>, slug: string)
  {
    if base !in taken then slug == base
    else exists n: nat ::
      && 2 <= n
      && slug == Suffixed(base, n)
      && slug !in taken
      && forall k: nat :: 2 <= k < n ==> Suffixed(base, k) in taken
  }

  /** The caller has written a slug by hand: the column holds a value that differs from the stored one. */
  predicate ManualSlug(cfg: SlugConfig, prev: Option<Record>, cur: Record)
  {
    var now := Get(cur.fields, cfg.column);
    var before := if prev.Some? then Get(prev.value.fields, cfg.column) else Nil;
    now != Nil && now != before
  }

  /**
   * The slug is recomputed when it is absent, when the subject text differs
   * from the stored record's (a new record always differs), or when the
   * caller set it by hand.
   */
  predicate ShouldRecompute(cfg: SlugConfig, prev: Option<Record>, cur: Record)
  {
    || Get(cur.fields, cfg.column) == Nil
    || prev.None?
    || SubjectText(cfg, prev.value.fields) != SubjectText(cfg, cur.fields)
    || ManualSlug(cfg, prev, cur)
  }

  /** The slug set by hand, taken as it is, or else the normalised subject. */
  function Candidate(cfg: SlugConfig, prev: Option<Record>, cur: Record): string
  {
    if ManualSlug(cfg, prev, cur) then ValueText(Get(cur.fields, cfg.column))
    else Normalize(SubjectText(cfg, cur.fields))
  }

  /**
   * `out` is `cur` as the save hook leaves it: with a recomputed slug written
   * into the slug column when the slug is due for recomputation, untouched otherwise.
   */
  ghost predicate SavedAs(schema: Schema, records: seq<Record>, prev: Option<Record>, cur: Record, out: Record)
  {
    var cfg := ConfigOf(schema, cur.kind);
    if ShouldRecompute(cfg, prev, cur) then
      && out.id == cur.id && out.kind == cur.kind
      && SlugOf(schema, out).Text?
      && out.fields == cur.fields[cfg.column := SlugOf(schema, out)]
      && IsResolution(Candidate(cfg, prev, cur), TakenSlugs(schema, records, cur), SlugOf(schema, out).s)
    else
      out == cur
  }

  /**
   * A slug written by hand over an unchanged subject ends up as written
   * whenever it is free in scope.
   */
  lemma ManualSlugKept(schema: Schema, records: seq<Record>, prev: Option<Record>, cur: Record, out: Record)
    requires SavedAs(schema, records, prev, cur, out)
    requires var cfg := ConfigOf(schema, cur.kind);
      && Get(cur.fields, cfg.column).Text?
      && Get(cur.fields, cfg.column).s !in TakenSlugs(schema, records, cur)
      && (prev.Some? ==> SubjectText(cfg, prev.value.fields) == SubjectText(cfg, cur.fields))
    ensures SlugOf(schema, out) == SlugOf(schema, cur)
  {
  }

  /**
   * The record's own stored slug is never a collision: when a recomputed
   * candidate equals the slug the record already holds, and no other record
   * in scope holds it, the record keeps it without a suffix.
   */
  lemma OwnSlugIsNoCollision(schema: Schema, records: seq<Record>, i: nat, cur: Record, out: Record)
    requires i < |records| && cur.id == records[i].id
    requires var cfg := ConfigOf(schema, cur.kind);
      && ShouldRecompute(cfg, Some(records[i]), cur)
      && SlugOf(schema, records[i]) == Text(Candidate(cfg, Some(records[i]), cur))
    requires forall j :: 0 <= j < |records| && j != i && Scoped(schema, cur, records[j]) ==>
      SlugOf(schema, records[j]) != SlugOf(schema, records[i])
    requires SavedAs(schema, records, Some(records[i]), cur, out)
    ensures SlugOf(schema, out) == SlugOf(schema, records[i])
  {
  }

  /** The resolved slug is free in scope. */
  lemma ResolutionIsFree(base: string, taken: set<string>, slug: string)
    requires IsResolution(base, taken, slug)
    ensures slug !in taken
  {
  }

  /** A taken candidate whose `-2` form is free resolves to that form. */
  lemma SecondResolution(base: string, taken: set<string>, slug: string)
    requires base in taken && Suffixed(base, 2) !in taken
    requires IsResolution(base, taken, slug)
    ensures slug == Suffixed(base, 2)
  {
  }

  /** Resolution is deterministic: the free-and-minimal conditions leave one possible slug. */
  lemma ResolutionIsUnique(base: string, taken: set<string>, s1: string, s2: string)
    requires IsResolution(base, taken, s1) && IsResolution(base, taken, s2)
    ensures s1 == s2
  {
    if base in taken {
      var n1: nat :| 2 <= n1 && s1 == Suffixed(base, n1) && s1 !in taken && forall k: nat :: 2 <= k < n1 ==> Suffixed(base, k) in taken;
      var n2: nat :| 2 <= n2 && s2 == Suffixed(base, n2) && s2 !in taken && forall k: nat :: 2 <= k < n2 ==> Suffixed(base, k) in taken;
    }
  }

  /** The k-th slug of a series of equal candidates: `base`, then `base-2`, `base-3`, ... */
  function Nth(base: string, k: nat): string
  {
    if k == 0 then base else Suffixed(base, k + 1)
  }

  lemma NthInjective(base: string, a: nat, b: nat)
    requires Nth(base, a) == Nth(base, b)
    ensures a == b
  {
    if a > 0 && b > 0 {
      var p := |base| + 1;
      assert Digits(a + 1) == Nth(base, a)[p..] == Nth(base, b)[p..] == Digits(b + 1);
      DigitsInjective(a + 1, b + 1);
    }
    // If exactly one of a, b is 0, one side is `base` and the other is longer.
  }

  /**
   * When the slugs held in scope are exactly the first k of the series for
   * `base`, resolving `base` gives the next one: the (k+1)-th record created
   * with the same candidate gets `base` (k = 0) or `base-(k+1)`.
   */
  lemma SeriesResolution(base: string, taken: set<string>, k: nat)
    requires forall j :: 0 <= j < k ==> Nth(base, j) in taken
    requires forall t :: t in taken ==> exists j :: 0 <= j < k && t == Nth(base, j)
    ensures IsResolution(base, taken, Nth(base, k))
  {
    if k > 0 {
      assert Nth(base, 0) == base;
      if Nth(base, k) in taken {
        var j :| 0 <= j < k && Nth(base, k) == Nth(base, j);
        NthInjective(base, j, k);
      }
      forall m: nat | 2 <= m < k + 1
        ensures Suffixed(base, m) in taken
      {
        assert Suffixed(base, m) == Nth(base, m - 1);
      }
      assert Nth(base, k) == Suffixed(base, k + 1);
    }
  }

  /**
   * A save of `cur` over the stored `prev` that cannot leave a duplicate
   * behind: the slug is recomputed, or the record stays in the same scope.
   * (A kept slug is not checked again when only the scope changes.)
   */
  predicate KeepsScope(schema: Schema, prev: Record, cur: Record)
  {
    var c := cur.(kind := prev.kind);
    ShouldRecompute(ConfigOf(schema, prev.kind), Some(prev), c) || ScopeStable(schema, prev, c)
  }

  /** The existence query: does another record in the scope of `rec` hold `value`? */
  method IsTaken(schema: Schema, records: seq<Record>, rec: Record, value: string) returns (hit: bool)
    ensures hit <==> value in TakenSlugs(schema, records, rec)
  {
    hit := false;
    var i := 0;
    while i < |records| && !hit
      invariant 0 <= i <= |records|
      invariant hit <==> exists j :: 0 <= j < i && Scoped(schema, rec, records[j]) && SlugOf(schema, records[j]) == Text(value)
    {
      hit := Scoped(schema, rec, records[i]) && SlugOf(schema, records[i]) == Text(value);
      i := i + 1;
    }
    if hit {
      var j :| 0 <= j < i && Scoped(schema, rec, records[j]) && SlugOf(schema, records[j]) == Text(value);
      assert SlugOf(schema, records[j]).s == value;
    }
  }

  /** The sum of the lengths of all slugs held in `records`: no slug there is longer. */
  ghost function SlugLengths(schema: Schema, records: seq<Record>): nat
  {
    if records == [] then 0
    else |ValueText(SlugOf(schema, records[0]))| + SlugLengths(schema, records[1..])
  }

  lemma {:induction false} TakenIsBounded(schema: Schema, records: seq<Record>, rec: Record, value: string)
    requires value in TakenSlugs(schema, records, rec)
    ensures |value| <= SlugLengths(schema, records)
  {
    var j :| 0 <= j < |records| && Scoped(schema, rec, records[j]) && SlugOf(schema, records[j]) == Text(value);
    if j > 0 {
      assert records[1..][j - 1] == records[j];
      TakenIsBounded(schema, records[1..], rec, value);
    }
  }

  /**
   * The probing loop: keeps `base` when no other record in scope holds it,
   * otherwise tries `base-2`, `base-3`, ... and stops at the first that is free.
   */
  method ResolveSlug(schema: Schema, records: seq<Record>, rec: Record, base: string) returns (slug: string)
    ensures IsResolution(base, TakenSlugs(schema, records, rec), slug)
  {
    ghost var taken := TakenSlugs(schema, records, rec);
    var hit := IsTaken(schema, records, rec, base);
    if !hit {
      return base;
    }
    // Once n has as many digits as all held slugs have characters, base-n is free.
    ghost var limit := SlugLengths(schema, records);
    ghost var bound := Pow10(limit) + 2;
    var n := 2;
    hit := IsTaken(schema, records, rec, Suffixed(base, n));
    while hit
      invariant 2 <= n <= bound
      invariant hit <==> Suffixed(base, n) in taken
      invariant forall k: nat :: 2 <= k < n ==> Suffixed(base, k) in taken
      decreases bound - n
    {
      TakenIsBounded(schema, records, rec, Suffixed(base, n));
      if Pow10(limit) <= n {
        DigitsLength(n, limit);
      }
      n := n + 1;
      hit := IsTaken(schema, records, rec, Suffixed(base, n));
    }
    slug := Suffixed(base, n);
  }

  /**
   * The save hook: recomputes the slug when it is due and writes it into the
   * slug column. `prev` is the stored state of the record, None for a new one;
   * `records` are the stored records.
   */
  method BeforeSave(schema: Schema, records: seq<Record>, prev: Option<Record>, cur: Record) returns (out: Record)
    ensures SavedAs(schema, records, prev, cur, out)
  {
    var cfg := ConfigOf(schema, cur.kind);
    if ShouldRecompute(cfg, prev, cur) {
      var slug := ResolveSlug(schema, records, cur, Candidate(cfg, prev, cur));
      out := cur.(fields := cur.fields[cfg.column := Text(slug)]);
    } else {
      out := cur;
    }
  }

  /**
   * A save that changes neither the subject text nor the slug column of a
   * record that has a slug writes nothing: the slug is sticky.
   */
  lemma UnrelatedChangeKeepsSlug(schema: Schema, records: seq<Record>, prev: Record, cur: Record, out: Record)
    requires cur.kind == prev.kind
    requires var cfg := ConfigOf(schema, prev.kind);
      && Get(prev.fields, cfg.column) != Nil
      && Get(cur.fields, cfg.column) == Get(prev.fields, cfg.column)
      && SubjectText(cfg, cur.fields) == SubjectText(cfg, prev.fields)
    requires SavedAs(schema, records, Some(prev), cur, out)
    ensures out == cur
  {
  }

  /** Re-saving a record that has a slug, with nothing changed, leaves it exactly as it was. */
  lemma ResaveIsIdempotent(schema: Schema, records: seq<Record>, prev: Record, out: Record)
    requires SlugOf(schema, prev) != Nil
    requires SavedAs(schema, records, Some(prev), prev, out)
    ensures out == prev
  {
    UnrelatedChangeKeepsSlug(schema, records, prev, prev, out);
  }

  /** The recomputed slug differs from the slug of every other stored record in mutual scope. */
  lemma SavedSlugDiffers(schema: Schema, records: seq<Record>, prev: Option<Record>, cur: Record, out: Record, o: Record)
    requires WellFormed(schema)
    requires ShouldRecompute(ConfigOf(schema, cur.kind), prev, cur)
    requires SavedAs(schema, records, prev, cur, out)
    requires o in records && Scoped(schema, out, o)
    ensures SlugOf(schema, out) != SlugOf(schema, o)
  {
    var cfg := ConfigOf(schema, cur.kind);
    SlugWriteKeepsScope(schema, cur, SlugOf(schema, out), o);
    assert out == cur.(fields := cur.fields[cfg.column := SlugOf(schema, out)]);
    assert Scoped(schema, cur, o);
    var taken := TakenSlugs(schema, records, cur);
    var s := SlugOf(schema, out).s;
    assert s !in taken by {
      if Candidate(cfg, prev, cur) in taken {
        var n: nat :| 2 <= n && s == Suffixed(Candidate(cfg, prev, cur), n) && s !in taken;
      }
    }
  }

  /** Saving a stored record keeps slugs unique, provided the slug is recomputed or the record stays in its scope. */
  lemma {:induction false} SavePreservesUniqueness(schema: Schema, records: seq<Record>, i: nat, cur: Record, out: Record)
    requires WellFormed(schema) && DistinctIds(records) && UniqueSlugs(schema, records)
    requires i < |records| && cur.id == records[i].id && cur.kind == records[i].kind
    requires SavedAs(schema, records, Some(records[i]), cur, out)
    requires ShouldRecompute(ConfigOf(schema, cur.kind), Some(records[i]), cur) || ScopeStable(schema, records[i], cur)
    ensures UniqueSlugs(schema, records[i := out])
  {
    var updated := records[i := out];
    var cfg := ConfigOf(schema, cur.kind);
    forall a, b | 0 <= a < |updated| && 0 <= b < |updated| && a != b &&
        Scoped(schema, updated[a], updated[b]) && Scoped(schema, updated[b], updated[a])
      ensures SlugOf(schema, updated[a]) != SlugOf(schema, updated[b])
    {
      if a == i || b == i {
        var other := if a == i then b else a;
        var o := records[other];
        assert updated[other] == o;
        if ShouldRecompute(cfg, Some(records[i]), cur) {
          SavedSlugDiffers(schema, records, Some(records[i]), cur, out, o);
        } else {
          assert out == cur;
          StableKeepsScope(schema, records[i], cur, o);
          assert SlugOf(schema, cur) == SlugOf(schema, records[i]);
          assert o.id != out.id;
        }
      }
    }
  }

  /** Creating a record keeps slugs unique. */
  lemma CreatePreservesUniqueness(schema: Schema, records: seq<Record>, cur: Record, out: Record)
    requires WellFormed(schema) && UniqueSlugs(schema, records)
    requires forall j :: 0 <= j < |records| ==> records[j].id != cur.id
    requires SavedAs(schema, records, None, cur, out)
    ensures UniqueSlugs(schema, records + [out])
  {
    var extended := records + [out];
    forall a, b | 0 <= a < |extended| && 0 <= b < |extended| && a != b &&
        Scoped(schema, extended[a], extended[b]) && Scoped(schema, extended[b], extended[a])
      ensures SlugOf(schema, extended[a]) != SlugOf(schema, extended[b])
    {
      if a == |records| {
        SavedSlugDiffers(schema, records, None, cur, out, extended[b]);
      } else if b == |records| {
        SavedSlugDiffers(schema, records, None, cur, out, extended[a]);
      }
    }
  }
}
