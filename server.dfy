/** The ingestion service and the tag store (backend/server.js): the `tags` table
    with its unique-name constraint, `POST /api/genres` (validate, keep only the
    names not stored yet, classify them in one call, insert each with
    `ON CONFLICT(name) DO NOTHING`, count the real inserts) and the ordered
    listing served by `GET /api/genres`. */
module Server {
  import opened Strings
  import opened Sorting
  import opened JsValues
  import opened TagOrder
  import opened Categorize

  /** The `genres` field of the POST body. */
  datatype GenresField = Missing | NotAnArray | TagArray(tags: seq<string>)

  /** The handler's three answers: 400 (bad body), 200 (nothing new), 201 (count). */
  datatype IngestOutcome = Rejected | AllExist | Added(insertedCount: nat)

  /** The body check: `genres` must be a non-empty array. */
  predicate Acceptable(genres: GenresField)
  {
    genres.TagArray? && |genres.tags| > 0
  }

  function Names(rows: seq<TagRecord>): set<string>
  {
    set r | r in rows :: r.name
  }

  /** The `UNIQUE` constraint on `name`. */
  predicate UniqueNames(rows: seq<TagRecord>)
  {
    forall i, j :: 0 <= i < j < |rows| ==> rows[i].name != rows[j].name
  }

  /** `incomingTags.filter((t) => !existingTagNames.has(t))`. */
  function NewTags(incoming: seq<string>, existing: set<string>): seq<string>
  {
    if incoming == [] then []
    else (if incoming[0] in existing then [] else [incoming[0]]) + NewTags(incoming[1..], existing)
  }

  /** The kept tags are exactly the incoming ones that are not stored. */
  lemma {:induction false} NewTagsMembers(incoming: seq<string>, existing: set<string>)
    ensures forall t :: t in NewTags(incoming, existing) <==> t in incoming && t !in existing
  {
    if incoming != [] {
      NewTagsMembers(incoming[1..], existing);
      assert incoming == [incoming[0]] + incoming[1..];
    }
  }

  /** Filtering distributes over concatenation, so the kept tags stay in input order. */
  lemma {:induction false} NewTagsKeepOrder(a: seq<string>, b: seq<string>, existing: set<string>)
    ensures NewTags(a + b, existing) == NewTags(a, existing) + NewTags(b, existing)
  {
    if a != [] {
      var head := if a[0] in existing then [] else [a[0]];
      assert (a + b)[0] == a[0];
      assert (a + b)[1..] == a[1..] + b;
      assert NewTags(a + b, existing) == head + NewTags(a[1..] + b, existing);
      NewTagsKeepOrder(a[1..], b, existing);
      assert NewTags(a, existing) == head + NewTags(a[1..], existing);
    } else {
      assert a + b == b;
    }
  }

  /** `categorizedTags[tagName] || "Miscellaneous / Meta"`, reading only the
      properties the classifier adapter assigned (see `StoredCategoryAsWritten`
      for what the plain object lookup also finds). */
  function CategoryFor(mapping: map<string, string>, tag: string): string
  {
    if tag in mapping && mapping[tag] != "" then mapping[tag] else Fallback
  }

  /** The categories the classifier's parsed reply assigns, as a mapping read
      through `CategoryFor`. */
  function ClassifiedMapping(parsed: Option<map<string, JsValue>>): (m: map<string, string>)
    ensures forall t :: CategoryFor(m, t) == ClassifiedCategory(t, parsed)
  {
    TaxonomyShape();
    match parsed
    case Some(obj) => map t | t in obj :: NormalizeCategory(obj[t])
    case None => map[]
  }

  /** The properties every plain object `{}` inherits from `Object.prototype`. */
  const ObjectPrototypeMembers: set<string> := {
    "constructor", "hasOwnProperty", "isPrototypeOf", "propertyIsEnumerable",
    "toLocaleString", "toString", "valueOf", "__proto__",
    "__defineGetter__", "__defineSetter__", "__lookupGetter__", "__lookupSetter__"
  }

  /** What `categorizedTags[tagName] || "Miscellaneous / Meta"` yields: a string,
      or an inherited member of `Object.prototype` (a function, or the prototype
      itself), which is truthy and therefore passed on as the category. */
  datatype LookedUp = Category(name: string) | InheritedMember(member: string)

  /** The lookup as written, on the object `categorizeTags` built by assignment
      from `mapping`. Assigning a string to `__proto__` is ignored, so that key
      always yields the prototype; any other assigned key is an own property and
      shadows an inherited member of the same name. */
  function StoredCategoryAsWritten(mapping: map<string, string>, tag: string): LookedUp
  {
    if tag == "__proto__" then InheritedMember(tag)
    else if tag in mapping && mapping[tag] != "" then Category(mapping[tag])
    else if tag !in mapping && tag in ObjectPrototypeMembers then InheritedMember(tag)
    else Category(Fallback)
  }

  /** For every name that is not a member of `Object.prototype` the lookup as
      written and the own-property lookup agree. */
  lemma StoredCategoryAsWrittenAgrees(mapping: map<string, string>, tag: string)
    requires tag !in ObjectPrototypeMembers
    ensures StoredCategoryAsWritten(mapping, tag) == Category(CategoryFor(mapping, tag))
  {
  }

  /** A tag "toString" that the classifier's reply `{}` leaves out gets the
      inherited method instead of the fallback, and a tag "__proto__" gets the
      prototype even from the all-fallback object; the own-property lookup gives
      both the fallback. */
  lemma InheritedNameGetsNoCategory()
    ensures StoredCategoryAsWritten(ClassifiedMapping(Some(map[])), "toString") == InheritedMember("toString")
    ensures CategoryFor(ClassifiedMapping(Some(map[])), "toString") == Fallback
    ensures StoredCategoryAsWritten(map["__proto__" := Fallback], "__proto__") == InheritedMember("__proto__")
    ensures CategoryFor(map["__proto__" := Fallback], "__proto__") == Fallback
    ensures AfterIngest([], 1, ["toString"], Some(map[])) == [TagRecord(1, "toString", Fallback)]
  {
    assert ClassifiedMapping(Some(map[])) == map[];
    assert "toString" in ObjectPrototypeMembers;
    assert NewTags(["toString"], Names([])) == ["toString"];
    assert Dedup(["toString"]) == ["toString"] by {
      assert ["toString"][..0] == [];
    }
  }

  /** The rows a batch appends: one per distinct new name, in first-occurrence
      order, with consecutive ids and the classified category. */
  function NewRecords(names: seq<string>, firstId: nat, chosen: map<string, string>)
    : (r: seq<TagRecord>)
    ensures |r| == |names|
    decreases |names|
  {
    if names == [] then []
    else
      var last := |names| - 1;
      NewRecords(names[..last], firstId, chosen) +
      [TagRecord(firstId + last, names[last], CategoryFor(chosen, names[last]))]
  }

  /** The `k`-th appended row carries the `k`-th name, the `k`-th id from `firstId`
      on, and the category chosen for that name. */
  lemma {:induction false} NewRecordsShape(names: seq<string>, firstId: nat, chosen: map<string, string>)
    ensures forall k :: 0 <= k < |names| ==>
              var r := NewRecords(names, firstId, chosen)[k];
              r.name == names[k] && r.id == firstId + k && r.category == CategoryFor(chosen, names[k])
  {
    if names != [] {
      NewRecordsShape(names[..|names| - 1], firstId, chosen);
    }
  }

  lemma NewRecordsSnoc(names: seq<string>, t: string, firstId: nat, chosen: map<string, string>)
    ensures NewRecords(names + [t], firstId, chosen) ==
            NewRecords(names, firstId, chosen) +
            [TagRecord(firstId + |names|, t, CategoryFor(chosen, t))]
  {
    assert (names + [t])[..|names|] == names;
  }

  lemma NamesAppend(rows: seq<TagRecord>, names: seq<string>, firstId: nat, chosen: map<string, string>)
    ensures Names(rows + NewRecords(names, firstId, chosen)) ==
            Names(rows) + set t | t in names
  {
    var added := NewRecords(names, firstId, chosen);
    NewRecordsShape(names, firstId, chosen);
    forall t | t in names ensures t in Names(rows + added) {
      var k :| 0 <= k < |names| && names[k] == t;
      assert (rows + added)[|rows| + k] == added[k];
    }
  }

  /** The rows a store holds after ingesting `incoming` into `rows` once new tags exist. */
  function AfterIngest(rows: seq<TagRecord>, firstId: nat, incoming: seq<string>,
                       parsed: Option<map<string, JsValue>>)
    : seq<TagRecord>
  {
    rows + NewRecords(Dedup(NewTags(incoming, Names(rows))), firstId, ClassifiedMapping(parsed))
  }

  /** After an ingest every incoming name is stored. */
  lemma IngestStoresEveryTag(rows: seq<TagRecord>, firstId: nat, incoming: seq<string>,
                             parsed: Option<map<string, JsValue>>)
    ensures forall t :: t in incoming ==> t in Names(AfterIngest(rows, firstId, incoming, parsed))
  {
    NewTagsMembers(incoming, Names(rows));
    DedupSpec(NewTags(incoming, Names(rows)));
    NamesAppend(rows, Dedup(NewTags(incoming, Names(rows))), firstId, ClassifiedMapping(parsed));
  }

  /** Ingesting keeps names unique: the appended names are distinct and were absent. */
  lemma IngestKeepsNamesUnique(rows: seq<TagRecord>, firstId: nat, incoming: seq<string>,
                               parsed: Option<map<string, JsValue>>)
    requires UniqueNames(rows)
    ensures UniqueNames(AfterIngest(rows, firstId, incoming, parsed))
  {
    var newNames := Dedup(NewTags(incoming, Names(rows)));
    NewTagsMembers(incoming, Names(rows));
    DedupSpec(NewTags(incoming, Names(rows)));
    var added := NewRecords(newNames, firstId, ClassifiedMapping(parsed));
    NewRecordsShape(newNames, firstId, ClassifiedMapping(parsed));
    var after := rows + added;
    forall i, j | 0 <= i < j < |after| ensures after[i].name != after[j].name {
      if j >= |rows| {
        assert after[j] == added[j - |rows|];
        if i >= |rows| {
          assert after[i] == added[i - |rows|];
        } else {
          assert after[i].name in Names(rows);
          assert after[j].name in newNames;
        }
      }
    }
  }

  /** Every category the ingestion stores is a taxonomy entry. */
  lemma IngestStoresTaxonomyCategories(rows: seq<TagRecord>, firstId: nat, incoming: seq<string>,
                                       parsed: Option<map<string, JsValue>>)
    requires forall r :: r in rows ==> r.category in Categories
    ensures forall r :: r in AfterIngest(rows, firstId, incoming, parsed) ==> r.category in Categories
  {
    var added := NewRecords(Dedup(NewTags(incoming, Names(rows))), firstId, ClassifiedMapping(parsed));
    NewRecordsShape(Dedup(NewTags(incoming, Names(rows))), firstId, ClassifiedMapping(parsed));
    forall r | r in added ensures r.category in Categories {
      var k :| 0 <= k < |added| && added[k] == r;
    }
  }

  /** Ingesting leaves the stored rows as they were and appends, for the `k`-th
      distinct new name, a row with that name, the `k`-th id from `firstId` on
      and the category the classifier's reply gives it. */
  lemma IngestAppendsClassifiedRows(rows: seq<TagRecord>, firstId: nat, incoming: seq<string>,
                                    parsed: Option<map<string, JsValue>>)
    ensures var after := AfterIngest(rows, firstId, incoming, parsed);
            var newNames := Dedup(NewTags(incoming, Names(rows)));
            && |after| == |rows| + |newNames|
            && after[..|rows|] == rows
            && forall k :: 0 <= k < |newNames| ==>
                 after[|rows| + k] == TagRecord(firstId + k, newNames[k], ClassifiedCategory(newNames[k], parsed))
  {
    var newNames := Dedup(NewTags(incoming, Names(rows)));
    var added := NewRecords(newNames, firstId, ClassifiedMapping(parsed));
    NewRecordsShape(newNames, firstId, ClassifiedMapping(parsed));
    var after := rows + added;
    assert after[..|rows|] == rows;
    forall k | 0 <= k < |newNames|
      ensures after[|rows| + k] == TagRecord(firstId + k, newNames[k], ClassifiedCategory(newNames[k], parsed))
    {
      assert after[|rows| + k] == added[k];
    }
  }

  /** Ingesting the same batch again finds nothing new (so it neither calls the
      classifier nor changes the store). */
  lemma ReingestFindsNothingNew(rows: seq<TagRecord>, firstId: nat, incoming: seq<string>,
                                parsed: Option<map<string, JsValue>>)
    ensures NewTags(incoming, Names(AfterIngest(rows, firstId, incoming, parsed))) == []
  {
    IngestStoresEveryTag(rows, firstId, incoming, parsed);
    NewTagsAllStored(incoming, Names(AfterIngest(rows, firstId, incoming, parsed)));
  }

  lemma {:induction false} NewTagsAllStored(incoming: seq<string>, existing: set<string>)
    requires forall t :: t in incoming ==> t in existing
    ensures NewTags(incoming, existing) == []
  {
    if incoming != [] {
      assert incoming[0] in incoming;
      NewTagsAllStored(incoming[1..], existing);
    }
  }

  /** The number of inserted rows is the number of distinct incoming names that
      were not stored before. */
  lemma InsertedCountIsDistinctNewNames(rows: seq<TagRecord>, incoming: seq<string>)
    ensures |Dedup(NewTags(incoming, Names(rows)))| == |(set t | t in incoming) - Names(rows)|
  {
    var newNames := NewTags(incoming, Names(rows));
    NewTagsMembers(incoming, Names(rows));
    DedupCard(newNames);
    assert (set t | t in newNames) == (set t | t in incoming) - Names(rows);
  }

  /** `["x", "x"]` on an empty store inserts exactly one row. */
  lemma DuplicateInBatchInsertsOnce(firstId: nat, parsed: Option<map<string, JsValue>>)
    ensures NewTags(["x", "x"], Names([])) == ["x", "x"]
    ensures AfterIngest([], firstId, ["x", "x"], parsed) ==
            [TagRecord(firstId, "x", ClassifiedCategory("x", parsed))]
  {
    assert Names([]) == {};
    assert Dedup(["x", "x"]) == ["x"] by {
      assert ["x", "x"][..1] == ["x"];
      assert Dedup(["x"]) == ["x"] by {
        assert ["x"][..0] == [];
      }
    }
  }

  /** A permutation of rows with unique names has unique names. */
  lemma PermutationKeepsNamesUnique(rows: seq<TagRecord>, r: seq<TagRecord>)
    requires UniqueNames(rows)
    requires multiset(r) == multiset(rows)
    ensures UniqueNames(r)
  {
    forall i, j | 0 <= i < j < |r| ensures r[i].name != r[j].name {
      if r[i].name == r[j].name {
        SameMembers(r, rows, r[i]);
        SameMembers(r, rows, r[j]);
        var p :| 0 <= p < |rows| && rows[p] == r[i];
        var q :| 0 <= q < |rows| && rows[q] == r[j];
        assert p == q;
        TwiceCounted(r, i, j);
        OnceCounted(rows, p);
        assert false;
      }
    }
  }

  /** A store holding `{ id, name, category }` rows. */
  class TagStore {
    var rows: seq<TagRecord>
    var nextId: nat

    /** Names are unique, ids increase in insertion order and stay below the
        next id to hand out. */
    ghost predicate Valid()
      reads this
    {
      && UniqueNames(rows)
      && (forall i, j :: 0 <= i < j < |rows| ==> rows[i].id < rows[j].id)
      && (forall i :: 0 <= i < |rows| ==> 1 <= rows[i].id < nextId)
      && nextId >= 1
    }

    /** `CREATE TABLE IF NOT EXISTS tags (...)` on a new database. */
    constructor ()
      ensures Valid() && rows == [] && nextId == 1
    {
      rows := [];
      nextId := 1;
    }

    /** `SELECT name FROM tags WHERE name IN (...)`. */
    function ExistingNames(candidates: seq<string>): set<string>
      reads this
    {
      set t | t in candidates && t in Names(rows)
    }

    /** `SELECT id, name, category FROM tags ORDER BY category, name ASC`: the rows,
        strictly ordered by category and then name. */
    function Listing(): (r: seq<TagRecord>)
      reads this
      requires Valid()
      ensures multiset(r) == multiset(rows)
      ensures forall i, j :: 0 <= i < j < |r| ==>
                CategoryThenName(r[i], r[j]) && !CategoryThenName(r[j], r[i])
    {
      var sorted := InsertionSort(CategoryThenName, rows);
      SortPermutes(CategoryThenName, rows);
      CategoryThenNameIsPreorder();
      SortSorts(CategoryThenName, rows);
      PermutationKeepsNamesUnique(rows, sorted);
      assert forall i, j :: 0 <= i < j < |sorted| ==> !CategoryThenName(sorted[j], sorted[i]) by {
        forall i, j | 0 <= i < j < |sorted| ensures !CategoryThenName(sorted[j], sorted[i]) {
          CategoryThenNameStrict(sorted[i], sorted[j]);
        }
      }
      sorted
    }

    /** One run of `INSERT ... ON CONFLICT(name) DO NOTHING`: `changes` is 1 when a
        row was created, 0 when the name was already there. */
    method InsertIfAbsent(name: string, category: string) returns (changes: nat)
      requires Valid()
      modifies this
      ensures Valid()
      ensures changes == if name in Names(old(rows)) then 0 else 1
      ensures rows == old(rows) + if changes == 1 then [TagRecord(old(nextId), name, category)] else []
      ensures nextId == old(nextId) + changes
    {
      if name in Names(rows) {
        return 0;
      }
      rows := rows + [TagRecord(nextId, name, category)];
      nextId := nextId + 1;
      changes := 1;
    }

    /** The `POST /api/genres` handler. `reply` is what the classification service
        answers if it is called and `parse` is `JSON.parse`. `classifierCalled`
        records whether `categorizeTags` went to the service. */
    method Ingest(genres: GenresField, reply: ServiceReply,
                  parse: string -> Option<map<string, JsValue>>)
      returns (outcome: IngestOutcome, ghost classifierCalled: bool)
      requires Valid()
      modifies this
      ensures Valid()
      ensures classifierCalled <==> outcome.Added?
      ensures !Acceptable(genres) ==>
                outcome == Rejected && rows == old(rows) && nextId == old(nextId)
      ensures Acceptable(genres) && NewTags(genres.tags, Names(old(rows))) == [] ==>
                outcome == AllExist && rows == old(rows) && nextId == old(nextId)
      ensures Acceptable(genres) && NewTags(genres.tags, Names(old(rows))) != [] ==>
                var added := Dedup(NewTags(genres.tags, Names(old(rows))));
                && outcome == Added(|added|)
                && rows == AfterIngest(old(rows), old(nextId), genres.tags, ParsedReply(reply, parse))
                && nextId == old(nextId) + |added|
    {
      if !genres.TagArray? || |genres.tags| == 0 {
        return Rejected, false;
      }
      var incoming := genres.tags;
      var existing := ExistingNames(incoming);
      var newTags := NewTags(incoming, existing);
      assert newTags == NewTags(incoming, Names(rows)) by {
        NewTagsOnlyNeedCandidates(incoming, existing, Names(rows));
      }
      NewTagsMembers(incoming, Names(rows));
      if |newTags| == 0 {
        return AllExist, false;
      }

      var categorized := CategorizeTags(newTags, reply, parse);
      classifierCalled := !categorized.NotRequested?;
      var mapping := categorized.Mapping();
      ghost var parsed := ParsedReply(reply, parse);
      MappingAgrees(newTags, mapping, parsed);

      var insertedCount := InsertBatch(newTags, mapping);
      NewRecordsAgree(Dedup(newTags), old(nextId), mapping, ClassifiedMapping(parsed));
      outcome := Added(insertedCount);
    }

    /** The handler's insert loop: one `INSERT ... ON CONFLICT(name) DO NOTHING` per
        new tag, in batch order, summing the `changes` each reports. */
    method InsertBatch(newTags: seq<string>, mapping: map<string, string>)
      returns (insertedCount: nat)
      requires Valid()
      requires forall t :: t in newTags ==> t !in Names(rows)
      modifies this
      ensures Valid()
      ensures rows == old(rows) + NewRecords(Dedup(newTags), old(nextId), mapping)
      ensures nextId == old(nextId) + |Dedup(newTags)|
      ensures insertedCount == |Dedup(newTags)|
    {
      ghost var before := rows;
      ghost var firstId := nextId;
      ghost var done: seq<string> := [];
      insertedCount := 0;
      var i := 0;
      while i < |newTags|
        invariant 0 <= i <= |newTags|
        invariant Valid()
        invariant done == Dedup(newTags[..i])
        invariant rows == before + NewRecords(done, firstId, mapping)
        invariant nextId == firstId + |done|
        invariant insertedCount == |done|
      {
        var tag := newTags[i];
        var category := CategoryFor(mapping, tag);
        StoredBeforeTurn(before, firstId, mapping, done, tag);
        DedupPrefixStep(newTags, i);
        assert tag in Names(rows) <==> tag in done;
        ghost var record := TagRecord(nextId, tag, category);
        ghost var rowsBefore := rows;
        var changes := InsertIfAbsent(tag, category);
        if changes == 1 {
          assert rows == rowsBefore + [record];
          assert record == TagRecord(firstId + |done|, tag, CategoryFor(mapping, tag));
          AppendTurn(before, done, tag, firstId, mapping);
          done := done + [tag];
          assert rows == before + NewRecords(done, firstId, mapping);
        } else {
          assert rows == rowsBefore;
        }
        ghost var prefix := newTags[..i + 1];
        assert done == Dedup(prefix);
        insertedCount := insertedCount + changes;
        i := i + 1;
        assert newTags[..i] == prefix;
      }
      assert newTags[..i] == newTags;
    }
  }

  /** The category the handler stores for a tag (`categorizedTags[tag] || fallback`)
      is the one the classifier's parsed reply gives it. */
  lemma MappingAgrees(tags: seq<string>, mapping: map<string, string>,
                      parsed: Option<map<string, JsValue>>)
    requires parsed.Some? ==>
               && mapping.Keys == parsed.value.Keys
               && forall tag :: tag in mapping ==> mapping[tag] == NormalizeCategory(parsed.value[tag])
    requires parsed.None? ==> forall tag :: tag in mapping ==> mapping[tag] == Fallback
    ensures forall t :: CategoryFor(mapping, t) == ClassifiedCategory(t, parsed)
  {
    TaxonomyShape();
  }

  /** In the insert loop, a new tag is stored already exactly when an earlier
      copy of it in the batch was inserted. */
  lemma StoredBeforeTurn(before: seq<TagRecord>, firstId: nat, chosen: map<string, string>,
                         done: seq<string>, tag: string)
    requires tag !in Names(before)
    ensures tag in Names(before + NewRecords(done, firstId, chosen)) <==> tag in done
  {
    NamesAppend(before, done, firstId, chosen);
  }

  /** The appended rows depend only on the category each name receives. */
  lemma {:induction false} NewRecordsAgree(names: seq<string>, firstId: nat,
                                           f: map<string, string>, g: map<string, string>)
    requires forall t :: CategoryFor(f, t) == CategoryFor(g, t)
    ensures NewRecords(names, firstId, f) == NewRecords(names, firstId, g)
  {
    if names != [] {
      NewRecordsAgree(names[..|names| - 1], firstId, f, g);
    }
  }

  /** Appending the row of a newly inserted tag extends the batch's rows by it. */
  lemma AppendTurn(before: seq<TagRecord>, done: seq<string>, tag: string, firstId: nat,
                   chosen: map<string, string>)
    ensures before + NewRecords(done + [tag], firstId, chosen) ==
            before + NewRecords(done, firstId, chosen) +
            [TagRecord(firstId + |done|, tag, CategoryFor(chosen, tag))]
  {
    NewRecordsSnoc(done, tag, firstId, chosen);
  }

  /** De-duplicating one more element of the batch. */
  lemma DedupPrefixStep(s: seq<string>, i: nat)
    requires i < |s|
    ensures Dedup(s[..i + 1]) == if s[i] in Dedup(s[..i]) then Dedup(s[..i]) else Dedup(s[..i]) + [s[i]]
  {
    DedupSpec(s[..i]);
    assert s[..i + 1] == s[..i] + [s[i]];
    DedupSnoc(s[..i], s[i]);
  }

  /** Filtering by the names found among the candidates is filtering by all stored names. */
  lemma {:induction false} NewTagsOnlyNeedCandidates(incoming: seq<string>, existing: set<string>,
                                                     stored: set<string>)
    requires forall t :: t in existing <==> t in incoming && t in stored
    ensures NewTags(incoming, existing) == NewTags(incoming, stored)
  {
    var k := 0;
    while k < |incoming|
      invariant 0 <= k <= |incoming|
      invariant NewTags(incoming[..k], existing) == NewTags(incoming[..k], stored)
    {
      assert incoming[..k + 1] == incoming[..k] + [incoming[k]];
      NewTagsKeepOrder(incoming[..k], [incoming[k]], existing);
      NewTagsKeepOrder(incoming[..k], [incoming[k]], stored);
      k := k + 1;
    }
    assert incoming[..k] == incoming;
  }
}
