/**
 * The dashboard controller: the contributor's level, progress over the
 * glossary, the next mission and the top three assignments still to do,
 * and the number of submissions waiting for review. The handler only
 * reads, so it is a function of a snapshot of the users table, the
 * recordings table and the glossary.
 */
module Dashboard {
  import opened Common
  import opened Catalog

  // ---------------------------------------------------------------------
  // Level

  datatype Level = Iniciado | Explorador | Maestro

  /** `calculateLevel`: Maestro from 50 points, Explorador from 10. */
  function CalculateLevel(reputationScore: int): (level: Level)
    ensures level == Maestro <==> reputationScore >= 50
    ensures level == Explorador <==> 10 <= reputationScore < 50
    ensures level == Iniciado <==> reputationScore < 10
  {
    if reputationScore >= 50 then Maestro
    else if reputationScore >= 10 then Explorador
    else Iniciado
  }

  function Rank(level: Level): nat
  {
    match level
    case Iniciado => 0
    case Explorador => 1
    case Maestro => 2
  }

  /** Reputation only grows, and so the level never goes down. */
  lemma LevelMonotone(a: int, b: int)
    requires a <= b
    ensures Rank(CalculateLevel(a)) <= Rank(CalculateLevel(b))
  {
  }

  // ---------------------------------------------------------------------
  // Contributions

  /** A recording counts as a contribution once it was submitted: PENDING,
      PROCESSING or APPROVED (not UPLOADING, not REJECTED). */
  predicate Submitted(s: Status)
  {
    s == Pending || s == Processing || s == Approved
  }

  /** The glossary ids the rows contributed to (`new Set(...)` of their ids). */
  function Contributed(rows: seq<Recording>): (ids: set<int>)
    ensures forall g :: g in ids <==> exists r :: r in rows && Submitted(r.status) && r.glossaryId == g
  {
    if rows == [] then {}
    else
      var rest := Contributed(rows[1..]);
      assert forall r :: r in rows[1..] ==> r in rows;
      assert forall r :: r in rows ==> r == rows[0] || r in rows[1..];
      if Submitted(rows[0].status) then rest + {rows[0].glossaryId} else rest
  }

  /** A row still in review: PENDING or PROCESSING. */
  predicate InReview(s: Status)
  {
    s == Pending || s == Processing
  }

  /** Rows still in review. Every row counts, even several for one glossary
      item. */
  function PendingCount(rows: seq<Recording>): (n: nat)
    ensures n <= |rows|
  {
    if rows == [] then 0
    else (if InReview(rows[0].status) then 1 else 0) + PendingCount(rows[1..])
  }

  /** The positions of the rows in review. */
  ghost function InReviewPositions(rows: seq<Recording>): set<int>
  {
    set k | 0 <= k < |rows| && InReview(rows[k].status)
  }

  lemma {:induction false} PendingCountAppend(a: seq<Recording>, b: seq<Recording>)
    ensures PendingCount(a + b) == PendingCount(a) + PendingCount(b)
  {
    if a == [] {
      assert a + b == b;
    } else {
      assert (a + b)[0] == a[0];
      assert (a + b)[1..] == a[1..] + b;
      PendingCountAppend(a[1..], b);
    }
  }

  /** The length of the user's recordings filtered on PENDING or PROCESSING:
      the number of positions holding a row in review. */
  lemma {:induction false} PendingCountCountsRows(rows: seq<Recording>)
    ensures PendingCount(rows) == |InReviewPositions(rows)|
    decreases |rows|
  {
    if rows != [] {
      var n := |rows| - 1;
      var init := rows[..n];
      assert rows == init + [rows[n]];
      PendingCountCountsRows(init);
      PendingCountSnoc(init, rows[n]);
      InReviewPositionsSnoc(init, rows[n]);
    }
  }

  lemma PendingCountSnoc(init: seq<Recording>, x: Recording)
    ensures PendingCount(init + [x]) == PendingCount(init) + (if InReview(x.status) then 1 else 0)
  {
    PendingCountAppend(init, [x]);
    assert [x][1..] == [];
  }

  /** One more row adds its own position, when it is in review, to those of
      the rows before it. */
  lemma InReviewPositionsSnoc(init: seq<Recording>, x: Recording)
    ensures |init| !in InReviewPositions(init)
    ensures InReviewPositions(init + [x])
            == InReviewPositions(init) + (if InReview(x.status) then {|init|} else {})
  {
    var rows := init + [x];
    var extra: set<int> := if InReview(x.status) then {|init|} else {};
    forall k ensures k in InReviewPositions(rows) <==> k in InReviewPositions(init) + extra {
      if 0 <= k < |init| { assert rows[k] == init[k]; }
    }
  }

  /** The count is of rows, not of items: any number of takes of one word,
      all in review, count once each, while the word counts once as
      contributed. */
  lemma {:induction false} PendingCountsRowsNotItems(rows: seq<Recording>, g: int)
    requires rows != []
    requires forall k :: 0 <= k < |rows| ==> InReview(rows[k].status) && rows[k].glossaryId == g
    ensures PendingCount(rows) == |rows|
    ensures Contributed(rows) == {g}
  {
    if |rows| > 1 {
      PendingCountsRowsNotItems(rows[1..], g);
    }
    assert rows[0] in rows;
  }

  // ---------------------------------------------------------------------
  // Progress

  /** `Math.round((contributed / total) * 100)`, 0 for an empty glossary;
      rounding is half up, taken on exact rationals. */
  function Progress(contributed: nat, total: nat): (p: nat)
    ensures total == 0 ==> p == 0
    ensures total > 0 ==> 2 * total * p <= 200 * contributed + total < 2 * total * (p + 1)
  {
    if total > 0 then (200 * contributed + total) / (2 * total) else 0
  }

  /** Progress is a percentage as long as no more items are contributed than exist. */
  lemma ProgressBounded(contributed: nat, total: nat)
    requires contributed <= total
    ensures Progress(contributed, total) <= 100
    ensures contributed == total && total > 0 ==> Progress(contributed, total) == 100
    ensures contributed == 0 ==> Progress(contributed, total) == 0
  {
    if total > 0 {
      var p := Progress(contributed, total);
      var t2 := 2 * total;
      assert t2 * p <= 200 * contributed + total <= t2 * 100 + total < t2 * 101;
      ScaleCancel(t2, p, 101);
      if contributed == total {
        assert t2 * 100 <= 200 * contributed + total < t2 * (p + 1);
        ScaleCancel(t2, 100, p + 1);
      }
      if contributed == 0 {
        assert t2 * p < t2 * 1;
        ScaleCancel(t2, p, 1);
      }
    }
  }

  /** Cancelling a positive factor on both sides of `<`. */
  lemma ScaleCancel(k: int, a: int, b: int)
    requires k > 0 && k * a < k * b
    ensures a < b
  {
  }

  /** The ids of the glossary table; a primary key, so at most one per row. */
  function CatalogIds(catalog: seq<GlossaryItem>): (ids: set<int>)
    ensures |ids| <= |catalog|
    ensures forall g :: g in ids <==> exists x :: x in catalog && x.id == g
  {
    if catalog == [] then {}
    else
      var rest := CatalogIds(catalog[1..]);
      assert forall x :: x in catalog[1..] ==> x in catalog;
      assert forall x :: x in catalog ==> x == catalog[0] || x in catalog[1..];
      rest + {catalog[0].id}
  }

  /** With every contribution referring to an existing item (the foreign
      key), the dashboard never shows more than 100%. */
  lemma ContributedNoMoreThanGlossary(rows: seq<Recording>, catalog: seq<GlossaryItem>)
    requires forall r :: r in rows ==> exists x :: x in catalog && x.id == r.glossaryId
    ensures |Contributed(rows)| <= |catalog|
    ensures Progress(|Contributed(rows)|, |catalog|) <= 100
  {
    var c := Contributed(rows);
    var ids := CatalogIds(catalog);
    forall g | g in c ensures g in ids {
      var r :| r in rows && Submitted(r.status) && r.glossaryId == g;
    }
    SubsetCardinality(c, ids);
    ProgressBounded(|c|, |catalog|);
  }

  // ---------------------------------------------------------------------
  // Next mission and top-3

  /** The `notIn` list: the contributed ids, or `[-1]` when there are none
      (the query cannot take an empty list). */
  function Excluded(contributed: set<int>): set<int>
  {
    if contributed == {} then {-1} else contributed
  }

  /** With the usual positive ids, the `[-1]` placeholder excludes nothing. */
  lemma PlaceholderExcludesNothing(catalog: seq<GlossaryItem>, contributed: set<int>, x: GlossaryItem)
    requires x in catalog && x.id > 0
    ensures x.id !in Excluded(contributed) <==> x.id !in contributed
  {
  }

  /** The items whose id is not excluded, in catalog order. */
  function Remaining(catalog: seq<GlossaryItem>, excluded: set<int>): (r: seq<GlossaryItem>)
    ensures |r| <= |catalog|
    ensures forall x :: x in r <==> x in catalog && x.id !in excluded
  {
    if catalog == [] then []
    else if catalog[0].id in excluded then Remaining(catalog[1..], excluded)
    else [catalog[0]] + Remaining(catalog[1..], excluded)
  }

  datatype Mission = Mission(id: int, slug: string, category: string, priority: int)

  function MissionOf(x: GlossaryItem): Mission
  {
    Mission(x.id, x.slug, x.category, x.priority)
  }

  /** `findFirst` over the not-yet-contributed items in (priority, slug) order. */
  function NextMission(catalog: seq<GlossaryItem>, contributed: set<int>): (m: Option<GlossaryItem>)
    ensures m.None? <==> forall x :: x in catalog ==> x.id in Excluded(contributed)
    ensures m.Some? ==> m.value in catalog && m.value.id !in Excluded(contributed)
    ensures m.Some? ==> forall x :: x in catalog && x.id !in Excluded(contributed) ==> ItemLe(m.value, x)
  {
    var sorted := SortItems(Remaining(catalog, Excluded(contributed)));
    SortItemsCorrect(Remaining(catalog, Excluded(contributed)));
    if sorted == [] then
      assert multiset(Remaining(catalog, Excluded(contributed))) == multiset{};
      None
    else
      assert sorted[0] in multiset(Remaining(catalog, Excluded(contributed)));
      assert forall x :: x in catalog && x.id !in Excluded(contributed) ==> ItemLe(sorted[0], x) by {
        forall x | x in catalog && x.id !in Excluded(contributed) ensures ItemLe(sorted[0], x) {
          SortedHeadIsLeast(Remaining(catalog, Excluded(contributed)), x);
        }
      }
      Some(sorted[0])
  }

  /** `findMany({ ..., take: 3 })` with the same filter and order. */
  function PriorityAssignments(catalog: seq<GlossaryItem>, contributed: set<int>): (top: seq<GlossaryItem>)
    ensures |top| <= 3
    ensures forall x :: x in top ==> x in catalog && x.id !in Excluded(contributed)
    ensures Sorted(top)
    ensures |top| == 0 <==> NextMission(catalog, contributed).None?
    ensures |top| > 0 ==> NextMission(catalog, contributed) == Some(top[0])
    ensures |top| < 3 ==> multiset(top) == multiset(Remaining(catalog, Excluded(contributed)))
    ensures |top| == if |Remaining(catalog, Excluded(contributed))| < 3 then |Remaining(catalog, Excluded(contributed))| else 3
    ensures multiset(top) <= multiset(Remaining(catalog, Excluded(contributed)))
    ensures forall x, y :: x in top && y in multiset(Remaining(catalog, Excluded(contributed))) - multiset(top) ==> ItemLe(x, y)
  {
    var remaining := Remaining(catalog, Excluded(contributed));
    var k := if |remaining| <= 3 then |remaining| else 3;
    LeastOfSorted(remaining, k);
    SortItems(remaining)[..k]
  }

  /** The first `k` items of the sorted listing of `s`: sorted, drawn from
      `s`, and each preceding every item of `s` left out. */
  lemma LeastOfSorted(s: seq<GlossaryItem>, k: nat)
    requires k <= |s|
    ensures |SortItems(s)| == |s|
    ensures Sorted(SortItems(s)[..k])
    ensures multiset(SortItems(s)[..k]) <= multiset(s)
    ensures forall x :: x in SortItems(s)[..k] ==> x in s
    ensures k == |s| ==> multiset(SortItems(s)[..k]) == multiset(s)
    ensures forall x, y :: x in SortItems(s)[..k] && y in multiset(s) - multiset(SortItems(s)[..k]) ==> ItemLe(x, y)
  {
    var sorted := SortItems(s);
    SortItemsCorrect(s);
    assert |sorted| == |s| by {
      assert |multiset(sorted)| == |multiset(s)|;
    }
    PrefixLeast(sorted, k);
    assert k == |s| ==> sorted[..k] == sorted;
    forall x | x in sorted[..k] ensures x in s {
      assert x in multiset(sorted[..k]);
      assert x in multiset(s);
    }
  }

  /** A prefix of a sorted sequence is part of it, and every element it
      keeps precedes every element it leaves out. */
  lemma PrefixLeast(s: seq<GlossaryItem>, k: nat)
    requires Sorted(s) && k <= |s|
    ensures Sorted(s[..k])
    ensures multiset(s[..k]) <= multiset(s)
    ensures forall x, y :: x in s[..k] && y in multiset(s) - multiset(s[..k]) ==> ItemLe(x, y)
  {
    assert s == s[..k] + s[k..];
    assert multiset(s) == multiset(s[..k]) + multiset(s[k..]);
    forall x, y | x in s[..k] && y in multiset(s) - multiset(s[..k]) ensures ItemLe(x, y) {
      var i :| 0 <= i < k && s[..k][i] == x;
      assert y in multiset(s[k..]);
      var j :| 0 <= j < |s| - k && s[k..][j] == y;
      assert s[i] == x && s[k + j] == y;
    }
  }

  // ---------------------------------------------------------------------
  // The response

  datatype UserCard = UserCard(name: string, streak: nat, level: Level, score: nat)
  datatype Stats = Stats(progress: nat, totalCompleted: nat, totalGlossary: nat, pending: nat,
                         nextMission: Option<Mission>)
  datatype DashboardData = DashboardData(user: UserCard, stats: Stats, priorityAssignments: seq<Mission>)

  /** `user.name || 'Usuario'`: a missing or empty name shows as "Usuario". */
  function DisplayName(name: Option<string>): (shown: string)
    ensures name.Some? && name.value != "" ==> shown == name.value
    ensures name.None? || name.value == "" ==> shown == "Usuario"
  {
    if name.Some? && name.value != "" then name.value else "Usuario"
  }

  function MissionsOf(items: seq<GlossaryItem>): (ms: seq<Mission>)
    ensures |ms| == |items|
    ensures forall k :: 0 <= k < |items| ==> ms[k] == MissionOf(items[k])
  {
    if items == [] then [] else [MissionOf(items[0])] + MissionsOf(items[1..])
  }

  /** The rows of one user, each as often as the table holds it. */
  function RowsOf(rows: seq<Recording>, userId: string): (mine: seq<Recording>)
    ensures forall r :: r in mine <==> r in rows && r.userId == userId
    ensures forall r :: multiset(mine)[r] == if r.userId == userId then multiset(rows)[r] else 0
  {
    if rows == [] then []
    else
      assert rows == [rows[0]] + rows[1..];
      if rows[0].userId == userId then [rows[0]] + RowsOf(rows[1..], userId)
      else RowsOf(rows[1..], userId)
  }

  /** `getDashboardData` for `userId`, over the users table, the recordings
      table and the glossary. */
  function GetDashboardData(users: map<string, User>, rows: seq<Recording>, catalog: seq<GlossaryItem>,
                            userId: string): (r: Result<DashboardData>)
    ensures userId !in users <==> r == Err(NotFound)
    ensures r.Ok? ==>
      var u := users[userId];
      var mine := RowsOf(rows, userId);
      var d := r.value;
      && d.user == UserCard(DisplayName(u.name), u.currentStreak, CalculateLevel(u.reputationScore), u.reputationScore)
      && d.stats.totalGlossary == |catalog|
      && d.stats.totalCompleted == |Contributed(mine)|
      && d.stats.progress == Progress(|Contributed(mine)|, |catalog|)
      && d.stats.pending == PendingCount(mine)
      && (d.stats.nextMission.None? <==> forall x :: x in catalog ==> x.id in Excluded(Contributed(mine)))
      && (d.stats.nextMission.Some? ==> d.priorityAssignments != [] && d.stats.nextMission.value == d.priorityAssignments[0])
      && |d.priorityAssignments| <= 3
      && d.priorityAssignments == MissionsOf(PriorityAssignments(catalog, Contributed(mine)))
      && d.stats.nextMission == (var n := NextMission(catalog, Contributed(mine));
                                 if n.Some? then Some(MissionOf(n.value)) else None)
  {
    if userId !in users then Err(NotFound)
    else
      var u := users[userId];
      var mine := RowsOf(rows, userId);
      var contributed := Contributed(mine);
      var next := NextMission(catalog, contributed);
      var top := PriorityAssignments(catalog, contributed);
      Ok(DashboardData(
        UserCard(DisplayName(u.name), u.currentStreak, CalculateLevel(u.reputationScore), u.reputationScore),
        Stats(Progress(|contributed|, |catalog|), |contributed|, |catalog|, PendingCount(mine),
              if next.Some? then Some(MissionOf(next.value)) else None),
        MissionsOf(top)))
  }

  /** Recordings still UPLOADING or REJECTED do not mark a word as done: the
      word stays available as the next mission. */
  lemma UnsubmittedWordStaysOpen(catalog: seq<GlossaryItem>, rows: seq<Recording>, x: GlossaryItem)
    requires x in catalog && x.id != -1
    requires forall r :: r in rows && r.glossaryId == x.id ==> r.status == Uploading || r.status == Rejected
    ensures NextMission(catalog, Contributed(rows)).Some?
    ensures ItemLe(NextMission(catalog, Contributed(rows)).value, x)
  {
    assert x.id !in Contributed(rows);
  }
}
