/**
 * The database as in-memory tables: recordings (by id, with the order in
 * which the rows were created), users (by id) and the read-only glossary,
 * together with the storage collaborators the handlers call.
 */
module Store {
  import opened Common
  import opened Storage
  import opened Catalog

  /** The rows named by `ids`, the last id first: newest-first when `ids` is in
      creation order (`orderBy: { createdAt: 'desc' }`). */
  function NewestFirst(ids: seq<string>, recs: map<string, Recording>): (rows: seq<Recording>)
    requires forall k :: 0 <= k < |ids| ==> ids[k] in recs
    ensures |rows| == |ids|
    ensures forall k :: 0 <= k < |rows| ==> rows[k] == recs[ids[|ids| - 1 - k]]
  {
    if ids == [] then [] else [recs[ids[|ids| - 1]]] + NewestFirst(ids[..|ids| - 1], recs)
  }

  /** `ids` without `id`, the others kept in order. */
  function RemoveId(ids: seq<string>, id: string): (r: seq<string>)
    ensures forall x :: x in r <==> x in ids && x != id
    ensures |r| <= |ids|
  {
    if ids == [] then []
    else if ids[0] == id then RemoveId(ids[1..], id)
    else [ids[0]] + RemoveId(ids[1..], id)
  }

  /** Removal works piecewise, so the ids that stay keep their relative
      order: an id before another in `a + b` is still before it. */
  lemma {:induction false} RemoveIdAppend(a: seq<string>, b: seq<string>, id: string)
    ensures RemoveId(a + b, id) == RemoveId(a, id) + RemoveId(b, id)
    ensures RemoveId([id], id) == []
    ensures forall x :: x != id ==> RemoveId([x], id) == [x]
  {
    if a == [] {
      assert a + b == b;
    } else {
      assert (a + b)[0] == a[0];
      assert (a + b)[1..] == a[1..] + b;
      RemoveIdAppend(a[1..], b, id);
    }
  }

  /** `ids` without the ids in `gone`, the others kept in order. */
  function Without(ids: seq<string>, gone: set<string>): (r: seq<string>)
    ensures forall x :: x in r <==> x in ids && x !in gone
    ensures |r| <= |ids|
  {
    if ids == [] then []
    else if ids[0] in gone then Without(ids[1..], gone)
    else [ids[0]] + Without(ids[1..], gone)
  }

  lemma {:induction false} WithoutNothing(ids: seq<string>)
    ensures Without(ids, {}) == ids
  {
    if ids != [] {
      WithoutNothing(ids[1..]);
      assert ids == [ids[0]] + ids[1..];
    }
  }

  /** Removing the ids of `gone` and then `id` is removing `gone + {id}`. */
  lemma {:induction false} RemoveIdAfterWithout(ids: seq<string>, gone: set<string>, id: string)
    ensures RemoveId(Without(ids, gone), id) == Without(ids, gone + {id})
  {
    if ids != [] {
      RemoveIdAfterWithout(ids[1..], gone, id);
    }
  }

  predicate Distinct(ids: seq<string>)
  {
    forall i, j :: 0 <= i < j < |ids| ==> ids[i] != ids[j]
  }

  lemma {:induction false} RemoveIdKeepsDistinct(ids: seq<string>, id: string)
    requires Distinct(ids)
    ensures Distinct(RemoveId(ids, id))
  {
    if ids != [] {
      assert Distinct(ids[1..]);
      RemoveIdKeepsDistinct(ids[1..], id);
      if ids[0] != id {
        var rest := RemoveId(ids[1..], id);
        assert ids[0] !in rest;
        var r := [ids[0]] + rest;
        forall i, j | 0 <= i < j < |r| ensures r[i] != r[j] {
          if i == 0 { assert r[j] in rest; }
          else { assert r[i] == rest[i - 1] && r[j] == rest[j - 1]; }
        }
      }
    }
  }

  /** The table after setting `status` on the rows of `userId` listed in
      `ids`; every other row, and every other column, is unchanged. */
  function WithStatus(recs: map<string, Recording>, ids: seq<string>, userId: string, status: Status)
    : (r: map<string, Recording>)
    ensures r.Keys == recs.Keys
    ensures forall id :: id in recs && id in ids && recs[id].userId == userId ==> r[id] == recs[id].(status := status)
    ensures forall id :: id in recs && !(id in ids && recs[id].userId == userId) ==> r[id] == recs[id]
  {
    map id | id in recs :: if id in ids && recs[id].userId == userId then recs[id].(status := status) else recs[id]
  }

  class Database {
    var recordings: map<string, Recording>
    /** Recording ids in the order their rows were created. */
    var order: seq<string>
    var users: map<string, User>
    const catalog: seq<GlossaryItem>
    const uuids: UuidSource
    const bucket: ObjectStore

    /** Every row is listed once in `order` and stored under its own id; no id
        looks like a client's temporary id; every owner is a user (the foreign
        key); and every storage key was minted from an issued uuid and
        belongs to one row only. */
    ghost predicate Valid()
      reads this, uuids
    {
      && (forall id :: id in recordings <==> id in order)
      && Distinct(order)
      && (forall id :: id in recordings ==> recordings[id].id == id && !StartsWith(id, "temp-"))
      && (forall id :: id in recordings ==> recordings[id].userId in users)
      && (forall id :: id in recordings ==> KeyTag(recordings[id].s3Key) in uuids.issued)
      && (forall a, b :: a in recordings && b in recordings && a != b ==>
            recordings[a].s3Key != recordings[b].s3Key)
    }

    constructor (users: map<string, User>, catalog: seq<GlossaryItem>, uuids: UuidSource, bucket: ObjectStore)
      ensures Valid()
      ensures recordings == map[] && order == []
      ensures this.users == users && this.catalog == catalog
      ensures this.uuids == uuids && this.bucket == bucket
    {
      recordings := map[];
      order := [];
      this.users := users;
      this.catalog := catalog;
      this.uuids := uuids;
      this.bucket := bucket;
    }

    /** The recordings table, newest row first. */
    function Rows(): (rows: seq<Recording>)
      reads this, uuids
      requires Valid()
      ensures |rows| == |recordings|
      ensures forall r :: r in rows <==> exists id :: id in recordings && recordings[id] == r
      ensures rows == NewestFirst(order, recordings)
    {
      assert |recordings| == |order| by {
        assert recordings.Keys == set id | id in order;
        DistinctCardinality(order);
      }
      var rows := NewestFirst(order, recordings);
      assert forall id :: id in recordings ==> recordings[id] in rows by {
        forall id | id in recordings ensures recordings[id] in rows {
          var k :| 0 <= k < |order| && order[k] == id;
          assert rows[|order| - 1 - k] == recordings[id];
        }
      }
      rows
    }

    /** The id the database's default gives a new row. */
    method NewRecordingId() returns (id: string)
      ensures id !in recordings && PlainName(id)
    {
      FreshNameExists(recordings.Keys);
      id :| id !in recordings.Keys && PlainName(id);
    }

    /** `prisma.recording.create` */
    method AddRecording(rec: Recording)
      requires Valid()
      requires rec.id !in recordings && !StartsWith(rec.id, "temp-")
      requires rec.userId in users && KeyTag(rec.s3Key) in uuids.issued
      requires forall id :: id in recordings ==> recordings[id].s3Key != rec.s3Key
      modifies this
      ensures Valid()
      ensures recordings == old(recordings)[rec.id := rec]
      ensures order == old(order) + [rec.id]
      ensures users == old(users)
    {
      recordings := recordings[rec.id := rec];
      order := order + [rec.id];
    }

    /** `prisma.recording.updateMany({ where: { id: { in: ids }, userId }, data: { status } })` */
    method UpdateStatuses(ids: seq<string>, userId: string, status: Status)
      requires Valid()
      modifies this
      ensures Valid()
      ensures recordings == WithStatus(old(recordings), ids, userId, status)
      ensures order == old(order) && users == old(users)
    {
      recordings := WithStatus(recordings, ids, userId, status);
    }

    /** `prisma.user.update` of an existing user. */
    method UpdateUser(userId: string, u: User)
      requires Valid() && userId in users
      modifies this
      ensures Valid()
      ensures users == old(users)[userId := u]
      ensures recordings == old(recordings) && order == old(order)
    {
      users := users[userId := u];
    }

    /** `prisma.recording.delete` */
    method RemoveRecording(id: string)
      requires Valid() && id in recordings
      modifies this
      ensures Valid()
      ensures recordings == old(recordings) - {id}
      ensures order == RemoveId(old(order), id)
      ensures users == old(users)
    {
      RemoveIdKeepsDistinct(order, id);
      recordings := recordings - {id};
      order := RemoveId(order, id);
    }
  }

  /** A sequence without repetitions has as many elements as its set. */
  lemma {:induction false} DistinctCardinality(ids: seq<string>)
    requires Distinct(ids)
    ensures |set x | x in ids| == |ids|
  {
    if ids != [] {
      assert Distinct(ids[1..]);
      DistinctCardinality(ids[1..]);
      assert (set x | x in ids) == (set x | x in ids[1..]) + {ids[0]};
      assert ids[0] !in ids[1..];
    }
  }
}
