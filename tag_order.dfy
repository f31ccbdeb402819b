/** The tag record served by `GET /api/genres` and shown by the viewer, and the
    orders in which the two list it. */
module TagOrder {
  import opened Strings
  import opened Sorting

  /** One row of the `tags` table: `{ id, name, category }`. */
  datatype TagRecord = TagRecord(id: nat, name: string, category: string)

  /** Name ascending (`a.name.localeCompare(b.name)`). */
  predicate NameAscending(a: TagRecord, b: TagRecord)
  {
    LexLe(a.name, b.name)
  }

  /** Name descending (`b.name.localeCompare(a.name)`). */
  predicate NameDescending(a: TagRecord, b: TagRecord)
  {
    LexLe(b.name, a.name)
  }

  /** Category first, then name within one category (`ORDER BY category, name` in
      the listing query; the viewer's "category" comparator). */
  predicate CategoryThenName(a: TagRecord, b: TagRecord)
  {
    LexLt(a.category, b.category) || (a.category == b.category && LexLe(a.name, b.name))
  }

  lemma StringOrderIsPreorder()
    ensures TotalPreorder(LexLe)
  {
    forall a, b ensures LexLe(a, b) || LexLe(b, a) {
      LexLeTotal(a, b);
    }
    forall a, b, c | LexLe(a, b) && LexLe(b, c) ensures LexLe(a, c) {
      LexLeTransitive(a, b, c);
    }
  }

  lemma NameAscendingIsPreorder()
    ensures TotalPreorder(NameAscending)
  {
    StringOrderIsPreorder();
  }

  lemma NameDescendingIsPreorder()
    ensures TotalPreorder(NameDescending)
  {
    StringOrderIsPreorder();
  }

  lemma CategoryThenNameIsPreorder()
    ensures TotalPreorder(CategoryThenName)
  {
    StringOrderIsPreorder();
    forall a, b, c | CategoryThenName(a, b) && CategoryThenName(b, c)
      ensures CategoryThenName(a, c)
    {
      if LexLt(a.category, b.category) && LexLt(b.category, c.category) {
        if a.category == c.category {
          LexLeAntisymmetric(a.category, b.category);
        }
      } else if LexLt(a.category, b.category) || LexLt(b.category, c.category) {
      }
    }
  }

  /** Of two records with different names, the one ordered first by category and
      name is strictly before the other. */
  lemma CategoryThenNameStrict(a: TagRecord, b: TagRecord)
    requires CategoryThenName(a, b) && a.name != b.name
    ensures !CategoryThenName(b, a)
  {
    if CategoryThenName(b, a) {
      if a.category == b.category {
        LexLeAntisymmetric(a.name, b.name);
      } else {
        LexLeAntisymmetric(a.category, b.category);
      }
    }
  }
}
