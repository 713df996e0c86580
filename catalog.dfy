/**
 * The glossary catalog and the order every listing of it uses:
 * `orderBy: [{ priority: 'asc' }, { slug: 'asc' }]`.
 * The database sorts; the model sorts with insertion sort and proves the
 * result ordered and a permutation of its input.
 */
module Catalog {
  import opened Common

  datatype Visibility = Public | RoleRestricted
  datatype ItemStatus = Active | Inactive

  /** A row of the glossary table. Read-only for every handler modelled here. */
  datatype GlossaryItem = GlossaryItem(
    id: int,
    slug: string,
    category: string,
    priority: int,
    visibility: Visibility,
    allowedRoles: seq<string>,
    status: ItemStatus)

  // ---------------------------------------------------------------------
  // Slug order: code point by code point, a proper prefix first

  predicate LexLe(a: string, b: string)
    decreases |a|
  {
    a == [] || (b != [] && (a[0] < b[0] || (a[0] == b[0] && LexLe(a[1..], b[1..]))))
  }

  lemma {:induction false} LexLeReflexive(a: string)
    ensures LexLe(a, a)
    decreases |a|
  {
    if a != [] { LexLeReflexive(a[1..]); }
  }

  lemma {:induction false} LexLeTotal(a: string, b: string)
    ensures LexLe(a, b) || LexLe(b, a)
    decreases |a|
  {
    if a != [] && b != [] && a[0] == b[0] { LexLeTotal(a[1..], b[1..]); }
  }

  lemma {:induction false} LexLeTransitive(a: string, b: string, c: string)
    requires LexLe(a, b) && LexLe(b, c)
    ensures LexLe(a, c)
    decreases |a|
  {
    if a != [] && a[0] == b[0] && b[0] == c[0] { LexLeTransitive(a[1..], b[1..], c[1..]); }
  }

  lemma {:induction false} LexLeAntisymmetric(a: string, b: string)
    requires LexLe(a, b) && LexLe(b, a)
    ensures a == b
    decreases |a|
  {
    if a != [] {
      LexLeAntisymmetric(a[1..], b[1..]);
      assert a == [a[0]] + a[1..] && b == [b[0]] + b[1..];
    }
  }

  // ---------------------------------------------------------------------
  // Item order: priority ascending (1 is the most urgent), then slug

  predicate ItemLe(x: GlossaryItem, y: GlossaryItem)
  {
    x.priority < y.priority || (x.priority == y.priority && LexLe(x.slug, y.slug))
  }

  lemma ItemLeReflexive(x: GlossaryItem)
    ensures ItemLe(x, x)
  {
    LexLeReflexive(x.slug);
  }

  lemma ItemLeTotal(x: GlossaryItem, y: GlossaryItem)
    ensures ItemLe(x, y) || ItemLe(y, x)
  {
    LexLeTotal(x.slug, y.slug);
  }

  lemma ItemLeTransitive(x: GlossaryItem, y: GlossaryItem, z: GlossaryItem)
    requires ItemLe(x, y) && ItemLe(y, z)
    ensures ItemLe(x, z)
  {
    if x.priority == y.priority == z.priority { LexLeTransitive(x.slug, y.slug, z.slug); }
  }

  /** A smaller priority number always comes first, whatever the slugs. */
  lemma PriorityDominates(x: GlossaryItem, y: GlossaryItem)
    requires x.priority < y.priority
    ensures ItemLe(x, y) && !ItemLe(y, x)
  {
  }

  predicate Sorted(s: seq<GlossaryItem>)
  {
    forall i, j :: 0 <= i < j < |s| ==> ItemLe(s[i], s[j])
  }

  // ---------------------------------------------------------------------
  // Sorting

  function Insert(x: GlossaryItem, s: seq<GlossaryItem>): seq<GlossaryItem>
  {
    if s == [] then [x]
    else if ItemLe(x, s[0]) then [x] + s
    else [s[0]] + Insert(x, s[1..])
  }

  /** Prepending an item no greater than any element keeps a sequence sorted. */
  lemma ConsSorted(h: GlossaryItem, t: seq<GlossaryItem>)
    requires Sorted(t)
    requires forall k :: 0 <= k < |t| ==> ItemLe(h, t[k])
    ensures Sorted([h] + t)
  {
    var r := [h] + t;
    forall i, j | 0 <= i < j < |r| ensures ItemLe(r[i], r[j]) {
      if i == 0 { assert r[j] == t[j - 1]; } else { assert r[i] == t[i - 1] && r[j] == t[j - 1]; }
    }
  }

  lemma {:induction false} InsertPermutes(x: GlossaryItem, s: seq<GlossaryItem>)
    ensures multiset(Insert(x, s)) == multiset(s) + multiset{x}
  {
    if s == [] {
    } else if ItemLe(x, s[0]) {
      assert Insert(x, s) == [x] + s;
    } else {
      var t := Insert(x, s[1..]);
      assert Insert(x, s) == [s[0]] + t;
      InsertPermutes(x, s[1..]);
      assert s == [s[0]] + s[1..];
    }
  }

  lemma {:induction false} InsertSorted(x: GlossaryItem, s: seq<GlossaryItem>)
    requires Sorted(s)
    ensures Sorted(Insert(x, s))
  {
    if s == [] {
    } else if ItemLe(x, s[0]) {
      forall k | 0 <= k < |s| ensures ItemLe(x, s[k]) {
        if k > 0 { ItemLeTransitive(x, s[0], s[k]); }
      }
      ConsSorted(x, s);
    } else {
      var tail := s[1..];
      InsertSorted(x, tail);
      InsertPermutes(x, tail);
      var t := Insert(x, tail);
      ItemLeTotal(x, s[0]);
      forall j | 0 <= j < |t| ensures ItemLe(s[0], t[j]) {
        assert t[j] in multiset(t);
        if t[j] != x {
          assert t[j] in multiset(tail);
          var k :| 0 <= k < |tail| && tail[k] == t[j];
          assert s[k + 1] == t[j];
        }
      }
      ConsSorted(s[0], t);
    }
  }

  function SortItems(s: seq<GlossaryItem>): seq<GlossaryItem>
  {
    if s == [] then [] else Insert(s[0], SortItems(s[1..]))
  }

  /** The catalog query's order: the result is sorted by (priority, slug)
      and holds exactly the items it was given, each as often. */
  lemma {:induction false} SortItemsCorrect(s: seq<GlossaryItem>)
    ensures Sorted(SortItems(s))
    ensures multiset(SortItems(s)) == multiset(s)
  {
    if s != [] {
      SortItemsCorrect(s[1..]);
      InsertSorted(s[0], SortItems(s[1..]));
      InsertPermutes(s[0], SortItems(s[1..]));
      assert s == [s[0]] + s[1..];
    }
  }

  /** The first item of the sorted listing precedes every item given. */
  lemma SortedHeadIsLeast(s: seq<GlossaryItem>, x: GlossaryItem)
    requires x in s
    ensures |SortItems(s)| > 0
    ensures ItemLe(SortItems(s)[0], x)
  {
    SortItemsCorrect(s);
    var r := SortItems(s);
    assert x in multiset(s);
    assert x in r;
    var k :| 0 <= k < |r| && r[k] == x;
    if k == 0 { ItemLeReflexive(x); }
  }

  // ---------------------------------------------------------------------
  // Lookup by primary key

  /** `prisma.glossary.findUnique({ where: { id } })` over a listing of the table. */
  function FindById(catalog: seq<GlossaryItem>, id: int): (r: Option<GlossaryItem>)
    ensures r.Some? ==> r.value in catalog && r.value.id == id
    ensures r.None? <==> forall x :: x in catalog ==> x.id != id
  {
    if catalog == [] then None
    else if catalog[0].id == id then Some(catalog[0])
    else FindById(catalog[1..], id)
  }
}
