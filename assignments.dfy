/**
 * The assignments controller: the glossary items a role may see, in
 * (priority, slug) order, each tagged with the caller's progress on it.
 */
module Assignments {
  import opened Common
  import opened Catalog

  const AdminRole: string := "ADMIN"

  /** The role filter: an administrator sees every item; anyone else sees the
      ACTIVE items that are PUBLIC or list the role among `allowed_roles`. */
  predicate Visible(item: GlossaryItem, role: string)
  {
    role == AdminRole || (item.status == Active && (item.visibility == Public || role in item.allowedRoles))
  }

  /** The items `role` may see, in catalog order. */
  function VisibleItems(catalog: seq<GlossaryItem>, role: string): (r: seq<GlossaryItem>)
    ensures forall x :: x in r <==> x in catalog && Visible(x, role)
    ensures multiset(r) <= multiset(catalog)
    ensures role == AdminRole ==> r == catalog
  {
    if catalog == [] then []
    else
      assert catalog == [catalog[0]] + catalog[1..];
      if Visible(catalog[0], role) then [catalog[0]] + VisibleItems(catalog[1..], role)
      else VisibleItems(catalog[1..], role)
  }

  /** `findMany({ where, orderBy: [priority, slug] })`: the visible items,
      sorted, each exactly as often as in the table. */
  function ListedItems(catalog: seq<GlossaryItem>, role: string): (items: seq<GlossaryItem>)
    ensures Sorted(items)
    ensures multiset(items) == multiset(VisibleItems(catalog, role))
    ensures forall x :: x in items <==> x in catalog && Visible(x, role)
  {
    var items := SortItems(VisibleItems(catalog, role));
    SortItemsCorrect(VisibleItems(catalog, role));
    assert forall x :: x in items <==> x in multiset(items);
    assert forall x :: x in VisibleItems(catalog, role) <==> x in multiset(VisibleItems(catalog, role));
    items
  }

  // ---------------------------------------------------------------------
  // Progress tag

  /** The tab an item is listed under, named `completed`, `pending` or
      `available` in the response. */
  datatype Tab = Available | Completed | InReview

  function TabName(t: Tab): string
  {
    match t
    case Available => "available"
    case Completed => "completed"
    case InReview => "pending"
  }

  /** The statuses of the caller's recordings of one item. */
  function OwnStatuses(rows: seq<Recording>, userId: string, glossaryId: int): (own: seq<Status>)
    ensures forall s :: s in own <==> exists r :: r in rows && r.userId == userId && r.glossaryId == glossaryId && r.status == s
  {
    if rows == [] then []
    else
      var rest := OwnStatuses(rows[1..], userId, glossaryId);
      assert forall r :: r in rows[1..] ==> r in rows;
      assert forall r :: r in rows ==> r == rows[0] || r in rows[1..];
      if rows[0].userId == userId && rows[0].glossaryId == glossaryId then [rows[0].status] + rest else rest
  }

  /** The tab for the caller's recordings of one item: an APPROVED take wins,
      then one in review; otherwise (none, or only UPLOADING or REJECTED
      takes) the item is still available. */
  function TabFor(own: seq<Status>): (t: Tab)
    ensures t == Completed <==> Approved in own
    ensures t == InReview <==> Approved !in own && (Pending in own || Processing in own)
    ensures t == Available <==> forall s :: s in own ==> s == Uploading || s == Rejected
  {
    if own == [] then Available
    else if Approved in own then Completed
    else if Pending in own || Processing in own then InReview
    else
      assert forall s :: s in own ==> s != Approved && s != Pending && s != Processing;
      Available
  }

  // ---------------------------------------------------------------------
  // The response

  datatype Assignment = Assignment(id: int, slug: string, category: string, status: string)

  function AssignmentOf(item: GlossaryItem, rows: seq<Recording>, userId: string): Assignment
  {
    Assignment(item.id, item.slug, item.category, TabName(TabFor(OwnStatuses(rows, userId, item.id))))
  }

  /** `getAssignments` for a caller with `userId` and `role`. */
  function GetAssignments(catalog: seq<GlossaryItem>, rows: seq<Recording>, userId: string, role: string)
    : (r: seq<Assignment>)
    ensures var items := ListedItems(catalog, role);
      && |r| == |items|
      && forall k :: 0 <= k < |r| ==>
           r[k].id == items[k].id && r[k].slug == items[k].slug && r[k].category == items[k].category
           && r[k].status == TabName(TabFor(OwnStatuses(rows, userId, items[k].id)))
  {
    var items := ListedItems(catalog, role);
    seq(|items|, k requires 0 <= k < |items| => AssignmentOf(items[k], rows, userId))
  }

  /** Every visible item is listed, and nothing else. */
  lemma ListsExactlyVisibleItems(catalog: seq<GlossaryItem>, rows: seq<Recording>, userId: string, role: string,
                                 x: GlossaryItem)
    ensures x in catalog && Visible(x, role) <==>
            exists k :: 0 <= k < |ListedItems(catalog, role)| && ListedItems(catalog, role)[k] == x
  {
    var items := ListedItems(catalog, role);
    if x in catalog && Visible(x, role) {
      assert x in items;
    }
  }

  /** An administrator gets one entry per glossary row, inactive and
      restricted ones included. */
  lemma AdminSeesEverything(catalog: seq<GlossaryItem>, rows: seq<Recording>, userId: string)
    ensures |GetAssignments(catalog, rows, userId, AdminRole)| == |catalog|
  {
    var items := ListedItems(catalog, AdminRole);
    assert |multiset(items)| == |multiset(catalog)|;
  }

  /** Another user's recordings never change the caller's tags. */
  lemma OnlyOwnRecordingsMatter(catalog: seq<GlossaryItem>, rows: seq<Recording>, extra: Recording,
                                userId: string, role: string)
    requires extra.userId != userId
    ensures GetAssignments(catalog, rows + [extra], userId, role) == GetAssignments(catalog, rows, userId, role)
  {
    var items := ListedItems(catalog, role);
    forall g ensures OwnStatuses(rows + [extra], userId, g) == OwnStatuses(rows, userId, g) {
      OwnStatusesIgnoresOthers(rows, extra, userId, g);
    }
  }

  lemma {:induction false} OwnStatusesIgnoresOthers(rows: seq<Recording>, extra: Recording, userId: string, g: int)
    requires extra.userId != userId
    ensures OwnStatuses(rows + [extra], userId, g) == OwnStatuses(rows, userId, g)
  {
    if rows == [] {
      assert [extra][1..] == [];
    } else {
      assert (rows + [extra])[0] == rows[0];
      assert (rows + [extra])[1..] == rows[1..] + [extra];
      OwnStatusesIgnoresOthers(rows[1..], extra, userId, g);
    }
  }
}
