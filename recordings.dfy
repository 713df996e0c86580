/**
 * The recordings controller: starting uploads (batch and single),
 * confirming them, deleting one recording or a whole session, and listing
 * the caller's recordings. Every handler is one sequential method over the
 * `Database`; its outcome is a `Result` in place of an HTTP response.
 * The caller is already authenticated as `userId`.
 */
module Recordings {
  import opened Common
  import opened Catalog
  import opened Storage
  import opened Store
  import opened Gamification

  /** Most recordings one `init-upload` request may start. */
  const MaxBatch: nat := 20

  /** `recording_${n}.webm` */
  function Filename(n: int): string
  {
    "recording_" + IntToString(n) + ".webm"
  }

  // =====================================================================
  // POST /recordings/init-upload

  datatype InitEntry = InitEntry(recordingId: string, uploadUrl: SignedUrl, key: string)
  datatype InitResponse = InitResponse(recordings: seq<InitEntry>, expiresIn: nat)

  /** The body passes both 400 checks: an assignment id and a count, neither
      0 (JavaScript falsy), and a count between 1 and 20. */
  predicate InitBodyValid(assignmentId: Option<int>, count: Option<int>)
  {
    assignmentId.Some? && assignmentId.value != 0 && count.Some? && 1 <= count.value <= MaxBatch
  }

  predicate InCatalog(catalog: seq<GlossaryItem>, id: int)
  {
    exists x :: x in catalog && x.id == id
  }

  /** The recording ids of `es`, in order. */
  function EntryIds(es: seq<InitEntry>): (ids: seq<string>)
    ensures |ids| == |es|
    ensures forall k :: 0 <= k < |es| ==> ids[k] == es[k].recordingId
  {
    if es == [] then [] else EntryIds(es[..|es| - 1]) + [es[|es| - 1].recordingId]
  }

  /** The slug of the item `id`, which the caller knows is in the catalog. */
  function SlugOf(catalog: seq<GlossaryItem>, id: int): string
    requires InCatalog(catalog, id)
  {
    FindById(catalog, id).value.slug
  }

  /** The row `initializeUpload` creates for its `i`-th entry: an UPLOADING
      row of the caller for the item, named `recording_{i+1}.webm`, under a
      fresh key of the caller and the item's slug, with a 15-minute PUT URL. */
  predicate CreatedFor(db: map<string, Recording>, e: InitEntry, i: int, userId: string,
                       assignmentId: int, slug: string, contentType: string)
  {
    && e.recordingId in db
    && db[e.recordingId] == Recording(e.recordingId, userId, assignmentId, e.key, Filename(i + 1), contentType, Uploading)
    && KeyFor(e.key, userId, slug)
    && e.uploadUrl == SignedUrl(Put, e.key, Some(contentType), UploadExpiration)
  }

  method InitializeUpload(db: Database, userId: string, assignmentId: Option<int>, count: Option<int>,
                          contentType: string := "video/webm")
    returns (r: Result<InitResponse>)
    requires db.Valid() && userId in db.users
    modifies db, db.uuids
    ensures db.Valid()
    ensures db.users == old(db.users)
    ensures !InitBodyValid(assignmentId, count) ==> r == Err(BadRequest)
    ensures InitBodyValid(assignmentId, count) && !InCatalog(db.catalog, assignmentId.value) ==> r == Err(NotFound)
    ensures InitBodyValid(assignmentId, count) && InCatalog(db.catalog, assignmentId.value) ==> r.Ok?
    ensures r.Err? ==> db.recordings == old(db.recordings) && db.order == old(db.order)
    ensures r.Ok? ==>
      && |r.value.recordings| == count.value
      && r.value.expiresIn == UploadExpiration
      && InCatalog(db.catalog, assignmentId.value)
      && InitOutcome(old(db.recordings), db.recordings, old(db.order), db.order, r.value.recordings,
                     userId, assignmentId.value, SlugOf(db.catalog, assignmentId.value), contentType)
  {
    if assignmentId.None? || assignmentId.value == 0 || count.None? || count.value == 0 {
      return Err(BadRequest);
    }
    var n := count.value;
    if n < 1 || n > MaxBatch {
      return Err(BadRequest);
    }
    var gid := assignmentId.value;
    var found := FindById(db.catalog, gid);
    if found.None? {
      return Err(NotFound);
    }
    var assignment := found.value;

    ghost var oldIssued := db.uuids.issued;
    var uploadData := GenerateBatchUploadUrls(db.uuids, userId, assignment.slug, n, contentType);
    forall id, k | id in db.recordings && 0 <= k < |uploadData|
      ensures db.recordings[id].s3Key != uploadData[k].key
    {
      assert KeyTag(db.recordings[id].s3Key) in oldIssued;
    }
    assert forall k :: 0 <= k < |uploadData| ==> KeyTag(uploadData[k].key) in TagsOf(uploadData);
    ghost var recs0, order0 := db.recordings, db.order;
    var entries := CreateRows(db, userId, gid, uploadData, BatchFilenames(n), contentType);
    CreatedGivesOutcome(recs0, db.recordings, order0, db.order, entries, uploadData, BatchFilenames(n),
                        userId, gid, assignment.slug, contentType);
    r := Ok(InitResponse(entries, 15 * 60));
  }

  /** What `initializeUpload` leaves behind: the table grew from `recs0` by
      exactly one new row per entry (the others untouched), the new ids were
      appended to the creation order, and each entry describes its row. */
  ghost predicate InitOutcome(recs0: map<string, Recording>, recs: map<string, Recording>,
                              order0: seq<string>, order: seq<string>, es: seq<InitEntry>,
                              userId: string, gid: int, slug: string, contentType: string)
  {
    && |recs| == |recs0| + |es|
    && order == order0 + EntryIds(es)
    && (forall id :: id in recs0 ==> id in recs && recs[id] == recs0[id])
    && (forall id :: id in recs && id !in recs0 ==> id in EntryIds(es))
    && (forall i :: 0 <= i < |es| ==> es[i].recordingId !in recs0)
    && (forall i :: 0 <= i < |es| ==> CreatedFor(recs, es[i], i, userId, gid, slug, contentType))
  }

  lemma CreatedGivesOutcome(recs0: map<string, Recording>, recs: map<string, Recording>,
                            order0: seq<string>, order: seq<string>, es: seq<InitEntry>,
                            targets: seq<UploadTarget>, names: seq<string>,
                            userId: string, gid: int, slug: string, contentType: string)
    requires Created(recs0, recs, es, targets, names, userId, gid, contentType)
    requires order == order0 + EntryIds(es)
    requires forall id :: id in recs <==> id in order
    requires forall id :: id in recs0 <==> id in order0
    requires |es| == |targets|
    requires forall k :: 0 <= k < |names| ==> names[k] == Filename(k + 1)
    requires forall k :: 0 <= k < |targets| ==>
               KeyFor(targets[k].key, userId, slug)
               && targets[k].uploadUrl == SignedUrl(Put, targets[k].key, Some(contentType), UploadExpiration)
    ensures InitOutcome(recs0, recs, order0, order, es, userId, gid, slug, contentType)
  {
    forall id | id in recs && id !in recs0 ensures id in EntryIds(es) {
      assert id in order0 + EntryIds(es);
    }
    forall i | 0 <= i < |es| ensures CreatedFor(recs, es[i], i, userId, gid, slug, contentType) {
      assert RowCreated(recs, es[i], targets[i], names[i], userId, gid, contentType);
    }
  }

  /** The file names of a batch of `n`: `recording_1.webm`, `recording_2.webm`, ... */
  function BatchFilenames(n: nat): (names: seq<string>)
    ensures |names| == n
    ensures forall k :: 0 <= k < n ==> names[k] == Filename(k + 1)
  {
    seq(n, k => Filename(k + 1))
  }

  /** Entry `e` stands for the row created from upload target `t` under file name `name`. */
  predicate RowCreated(recs: map<string, Recording>, e: InitEntry, t: UploadTarget, name: string,
                       userId: string, gid: int, contentType: string)
  {
    && e.key == t.key && e.uploadUrl == t.uploadUrl
    && e.recordingId in recs
    && recs[e.recordingId] == Recording(e.recordingId, userId, gid, t.key, name, contentType, Uploading)
  }

  /** After creating rows for `entries`, the first targets: the table has
      grown from `recs0` by exactly those rows, appended to the creation order. */
  ghost predicate Created(recs0: map<string, Recording>, recs: map<string, Recording>, entries: seq<InitEntry>,
                          targets: seq<UploadTarget>, names: seq<string>, userId: string, gid: int, contentType: string)
  {
    && |entries| <= |targets| == |names|
    && |recs| == |recs0| + |entries|
    && (forall id :: id in recs0 ==> id in recs && recs[id] == recs0[id])
    && (forall k :: 0 <= k < |entries| ==> entries[k].recordingId !in recs0)
    && (forall k :: 0 <= k < |entries| ==> RowCreated(recs, entries[k], targets[k], names[k], userId, gid, contentType))
  }

  lemma CreatedStep(recs0: map<string, Recording>, recs: map<string, Recording>, entries: seq<InitEntry>,
                    targets: seq<UploadTarget>, names: seq<string>, userId: string, gid: int, contentType: string,
                    id: string)
    requires Created(recs0, recs, entries, targets, names, userId, gid, contentType)
    requires |entries| < |targets| && id !in recs
    ensures var i := |entries|;
            Created(recs0, recs[id := Recording(id, userId, gid, targets[i].key, names[i], contentType, Uploading)],
                    entries + [InitEntry(id, targets[i].uploadUrl, targets[i].key)],
                    targets, names, userId, gid, contentType)
  {
    var i := |entries|;
    var e := InitEntry(id, targets[i].uploadUrl, targets[i].key);
    var entries' := entries + [e];
    var recs' := recs[id := Recording(id, userId, gid, targets[i].key, names[i], contentType, Uploading)];
    forall x | x in recs0 ensures x in recs' && recs'[x] == recs0[x] {
      assert x in recs;
    }
    forall k | 0 <= k < |entries'| ensures entries'[k].recordingId !in recs0 {
      if k < i { assert entries'[k] == entries[k]; }
    }
    forall k | 0 <= k < |entries'| ensures RowCreated(recs', entries'[k], targets[k], names[k], userId, gid, contentType) {
      if k < i {
        var x := entries[k];
        assert entries'[k] == x;
        assert RowCreated(recs, x, targets[k], names[k], userId, gid, contentType);
        assert x.recordingId != id;
        assert recs'[x.recordingId] == recs[x.recordingId];
      } else {
        assert entries'[k] == e;
        assert recs'[id] == Recording(id, userId, gid, targets[i].key, names[i], contentType, Uploading);
      }
    }
  }

  lemma OrderSnoc(order0: seq<string>, entries: seq<InitEntry>, e: InitEntry)
    ensures order0 + EntryIds(entries + [e]) == (order0 + EntryIds(entries)) + [e.recordingId]
  {
    assert (entries + [e])[..|entries|] == entries;
  }

  /** The keys of targets `i` and later are not yet used by any row. */
  predicate KeysAvailable(recs: map<string, Recording>, targets: seq<UploadTarget>, i: nat)
  {
    forall id, k :: id in recs && i <= k < |targets| ==> recs[id].s3Key != targets[k].key
  }

  lemma KeysAvailableStep(recs: map<string, Recording>, targets: seq<UploadTarget>, i: nat, rec: Recording)
    requires KeysAvailable(recs, targets, i) && i < |targets| && rec.s3Key == targets[i].key
    requires forall k, j :: 0 <= k < j < |targets| ==> targets[k].key != targets[j].key
    ensures KeysAvailable(recs[rec.id := rec], targets, i + 1)
  {
  }

  /** The `prisma.recording.create` calls of `initializeUpload`: one UPLOADING
      row per target, numbered from 1, each with a fresh id. */
  method CreateRows(db: Database, userId: string, gid: int, targets: seq<UploadTarget>, names: seq<string>,
                    contentType: string)
    returns (entries: seq<InitEntry>)
    requires db.Valid() && userId in db.users && |names| == |targets|
    requires forall k :: 0 <= k < |targets| ==> KeyTag(targets[k].key) in db.uuids.issued
    requires forall k, j :: 0 <= k < j < |targets| ==> targets[k].key != targets[j].key
    requires forall id, k :: id in db.recordings && 0 <= k < |targets| ==> db.recordings[id].s3Key != targets[k].key
    modifies db
    ensures db.Valid() && db.users == old(db.users)
    ensures |entries| == |targets|
    ensures Created(old(db.recordings), db.recordings, entries, targets, names, userId, gid, contentType)
    ensures db.order == old(db.order) + EntryIds(entries)
  {
    ghost var recs0 := db.recordings;
    ghost var order0 := db.order;
    entries := [];
    var i := 0;
    while i < |targets|
      invariant 0 <= i <= |targets| && |entries| == i
      invariant db.Valid() && db.users == old(db.users)
      invariant KeysAvailable(db.recordings, targets, i)
      invariant Created(recs0, db.recordings, entries, targets, names, userId, gid, contentType)
      invariant db.order == order0 + EntryIds(entries)
    {
      var id := db.NewRecordingId();
      var rec := Recording(id, userId, gid, targets[i].key, names[i], contentType, Uploading);
      ghost var recs := db.recordings;
      KeysAvailableStep(recs, targets, i, rec);
      db.AddRecording(rec);
      CreatedStep(recs0, recs, entries, targets, names, userId, gid, contentType, id);
      var e := InitEntry(id, targets[i].uploadUrl, targets[i].key);
      OrderSnoc(order0, entries, e);
      entries := entries + [e];
      i := i + 1;
    }
  }

  // =====================================================================
  // POST /recordings/upload-single

  datatype SingleResponse = SingleResponse(recordingId: string, uploadUrl: SignedUrl,
                                           downloadUrl: SignedUrl, key: string)

  method UploadSingle(db: Database, userId: string, assignmentId: Option<int>,
                      contentType: string := "video/webm", index: int := 0)
    returns (r: Result<SingleResponse>)
    requires db.Valid() && userId in db.users
    modifies db, db.uuids
    ensures db.Valid()
    ensures db.users == old(db.users)
    ensures (assignmentId.None? || assignmentId.value == 0) ==> r == Err(BadRequest)
    ensures assignmentId.Some? && assignmentId.value != 0 && !InCatalog(db.catalog, assignmentId.value) ==> r == Err(NotFound)
    ensures assignmentId.Some? && assignmentId.value != 0 && InCatalog(db.catalog, assignmentId.value) ==> r.Ok?
    ensures r.Err? ==> db.recordings == old(db.recordings) && db.order == old(db.order)
    ensures r.Ok? ==>
      var s := r.value;
      && s.recordingId !in old(db.recordings)
      && db.recordings == old(db.recordings)[s.recordingId :=
           Recording(s.recordingId, userId, assignmentId.value, s.key, Filename(index + 1), contentType, Uploading)]
      && db.order == old(db.order) + [s.recordingId]
      && (exists item :: item in db.catalog && item.id == assignmentId.value && KeyFor(s.key, userId, item.slug))
      && s.uploadUrl == SignedUrl(Put, s.key, Some(contentType), UploadExpiration)
      && s.downloadUrl == SignedUrl(Get, s.key, None, DownloadExpiration)
  {
    if assignmentId.None? || assignmentId.value == 0 {
      return Err(BadRequest);
    }
    var gid := assignmentId.value;
    var found := FindById(db.catalog, gid);
    if found.None? {
      return Err(NotFound);
    }
    var assignment := found.value;
    ghost var oldIssued := db.uuids.issued;
    assert forall id :: id in db.recordings ==> KeyTag(db.recordings[id].s3Key) in oldIssued;
    var t := GenerateSingleUploadUrls(db.uuids, userId, assignment.slug, contentType);
    var id := db.NewRecordingId();
    db.AddRecording(Recording(id, userId, gid, t.key, Filename(index + 1), contentType, Uploading));
    r := Ok(SingleResponse(id, t.uploadUrl, t.downloadUrl, t.key));
  }

  // =====================================================================
  // POST /recordings/confirm-upload

  datatype ConfirmResponse = ConfirmResponse(confirmedCount: nat, newStreak: nat, pointsEarned: nat)

  /** A row the confirmation query finds: it exists, belongs to the caller and
      is still UPLOADING. */
  predicate Confirmable(recs: map<string, Recording>, userId: string, id: string)
  {
    id in recs && recs[id].userId == userId && recs[id].status == Uploading
  }

  /** The rows `findMany({ where: { id: { in: ids }, userId, status: 'UPLOADING' } })` returns. */
  function MatchingRows(recs: map<string, Recording>, userId: string, ids: seq<string>): set<string>
  {
    set id | id in ids && Confirmable(recs, userId, id)
  }

  /** What the all-or-nothing check means: no id listed twice, and every
      listed id confirmable. */
  predicate AllConfirmable(recs: map<string, Recording>, userId: string, ids: seq<string>)
  {
    Distinct(ids) && forall k :: 0 <= k < |ids| ==> Confirmable(recs, userId, ids[k])
  }

  lemma {:induction false} SetOfSeqCardinality(ids: seq<string>)
    ensures |set x | x in ids| <= |ids|
    ensures |set x | x in ids| == |ids| ==> Distinct(ids)
  {
    if ids != [] {
      var tail := ids[1..];
      SetOfSeqCardinality(tail);
      assert (set x | x in ids) == (set x | x in tail) + {ids[0]};
      if |set x | x in ids| == |ids| {
        assert ids[0] !in tail;
        forall i, j | 0 <= i < j < |ids| ensures ids[i] != ids[j] {
          if i == 0 { assert ids[j] in tail; } else { assert ids[i] == tail[i - 1] && ids[j] == tail[j - 1]; }
        }
      }
    }
  }

  /** The handler compares the number of rows found with the number of ids
      sent; the two agree exactly when the batch is all confirmable. */
  lemma MatchCountMeansAllConfirmable(recs: map<string, Recording>, userId: string, ids: seq<string>)
    ensures |MatchingRows(recs, userId, ids)| == |ids| <==> AllConfirmable(recs, userId, ids)
  {
    var m := MatchingRows(recs, userId, ids);
    var s := set x | x in ids;
    SubsetCardinality(m, s);
    SetOfSeqCardinality(ids);
    if |m| == |ids| {
      assert m == s;
      forall k | 0 <= k < |ids| ensures Confirmable(recs, userId, ids[k]) {
        assert ids[k] in s;
      }
    }
    if AllConfirmable(recs, userId, ids) {
      assert m == s;
      DistinctCardinality(ids);
    }
  }

  method ConfirmUpload(db: Database, userId: string, recordingIds: Option<seq<string>>, today: int)
    returns (r: Result<ConfirmResponse>)
    requires db.Valid()
    modifies db
    ensures db.Valid()
    ensures db.order == old(db.order)
    ensures recordingIds.None? || recordingIds.value == [] ==> r == Err(BadRequest)
    ensures recordingIds.Some? && recordingIds.value != [] ==>
              (r.Ok? <==> AllConfirmable(old(db.recordings), userId, recordingIds.value))
    ensures recordingIds.Some? && recordingIds.value != [] && r.Err? ==> r.error == Forbidden
    ensures r.Err? ==> db.recordings == old(db.recordings) && db.users == old(db.users)
    ensures r.Ok? ==>
      var ids := recordingIds.value;
      && userId in old(db.users)
      && db.recordings.Keys == old(db.recordings).Keys
      && (forall id :: id in ids ==> db.recordings[id] == old(db.recordings)[id].(status := Pending))
      && (forall id :: id in old(db.recordings) && id !in ids ==> db.recordings[id] == old(db.recordings)[id])
      && db.users == old(db.users)[userId := Credit(old(db.users)[userId], |ids|, today)]
      && r.value.confirmedCount == |ids|
      && r.value.newStreak == db.users[userId].currentStreak
      && r.value.pointsEarned == 10 * |ids|
  {
    if recordingIds.None? || recordingIds.value == [] {
      return Err(BadRequest);
    }
    var ids := recordingIds.value;

    var found := MatchingRows(db.recordings, userId, ids);
    MatchCountMeansAllConfirmable(db.recordings, userId, ids);
    if |found| != |ids| {
      return Err(Forbidden);
    }

    ghost var before := db.recordings;
    db.UpdateStatuses(ids, userId, Pending);
    // `updateResult.count`: the update matches exactly the rows found above,
    // since every listed id was among them.
    var confirmedCount := |found|;

    assert Confirmable(before, userId, ids[0]);
    var user := db.users[userId];
    var newStreak := NewStreak(user.currentStreak, user.lastContributionDay, today);
    db.UpdateUser(userId, Credit(user, |ids|, today));

    r := Ok(ConfirmResponse(confirmedCount, newStreak, |ids| * 10));
  }

  /** Confirming the same recordings again is refused and awards nothing:
      after a confirmation they are PENDING, no longer UPLOADING. */
  lemma SecondConfirmationRefused(before: map<string, Recording>, after: map<string, Recording>,
                                  userId: string, ids: seq<string>)
    requires ids != []
    requires forall id :: id in ids ==> id in before && id in after && after[id] == before[id].(status := Pending)
    ensures !AllConfirmable(after, userId, ids)
  {
    assert ids[0] in ids;
  }

  // =====================================================================
  // DELETE /recordings/:id

  method DeleteRecording(db: Database, userId: string, id: string, failing: set<string>)
    returns (r: Result<string>)
    requires db.Valid()
    modifies db, db.bucket
    ensures db.Valid()
    ensures db.users == old(db.users)
    ensures id !in old(db.recordings) ==> r == Err(NotFound)
    ensures id in old(db.recordings) && old(db.recordings)[id].userId != userId ==> r == Err(Forbidden)
    ensures r.Err? ==>
      && db.recordings == old(db.recordings) && db.order == old(db.order)
      && db.bucket.objects == old(db.bucket.objects)
    ensures id in old(db.recordings) && old(db.recordings)[id].userId == userId ==>
      var key := old(db.recordings)[id].s3Key;
      && r == Ok(id)
      && db.recordings == old(db.recordings) - {id}
      && db.order == RemoveId(old(db.order), id)
      && db.bucket.objects == (if key in failing then old(db.bucket.objects) else old(db.bucket.objects) - {key})
  {
    if id !in db.recordings {
      return Err(NotFound);
    }
    var recording := db.recordings[id];
    if recording.userId != userId {
      return Err(Forbidden);
    }
    // A storage failure is logged and does not stop the row's deletion.
    var _ := db.bucket.DeleteObject(recording.s3Key, failing);
    db.RemoveRecording(id);
    r := Ok(id);
  }

  // =====================================================================
  // POST /recordings/delete-session

  /** An id the session cleanup removes: not a client placeholder, an existing
      row of the caller, and either keyless or with a key the storage
      backend deletes without error. */
  predicate SessionRemovable(recs: map<string, Recording>, userId: string, id: string, failing: set<string>)
  {
    && !StartsWith(id, "temp-")
    && id in recs
    && recs[id].userId == userId
    && (recs[id].s3Key == "" || recs[id].s3Key !in failing)
  }

  function SessionRemoved(recs: map<string, Recording>, userId: string, ids: seq<string>, failing: set<string>): set<string>
  {
    set id | id in ids && SessionRemovable(recs, userId, id, failing)
  }

  /** The storage keys of the removed rows that had one. */
  function KeysOf(recs: map<string, Recording>, gone: set<string>): set<string>
  {
    set id | id in gone && id in recs && recs[id].s3Key != "" :: recs[id].s3Key
  }

  lemma SessionRemovedStep(recs: map<string, Recording>, userId: string, ids: seq<string>, i: nat,
                           failing: set<string>)
    requires i < |ids|
    ensures SessionRemoved(recs, userId, ids[..i + 1], failing)
            == SessionRemoved(recs, userId, ids[..i], failing)
               + (if SessionRemovable(recs, userId, ids[i], failing) then {ids[i]} else {})
  {
    assert ids[..i + 1] == ids[..i] + [ids[i]];
  }

  /** Removing one more row: the remaining table and the remaining objects
      after `gone + {id}`, from those after `gone`. */
  lemma RemovalStep(recs0: map<string, Recording>, objects0: set<string>, gone: set<string>, id: string)
    requires id in recs0
    ensures (recs0 - gone) - {id} == recs0 - (gone + {id})
    ensures objects0 - KeysOf(recs0, gone + {id})
            == (objects0 - KeysOf(recs0, gone)) - (if recs0[id].s3Key != "" then {recs0[id].s3Key} else {})
  {
  }

  /** Deletes an existing row of the caller and its object: the object first
      (when the row has a key), the row only if that succeeded. */
  method RemoveOwned(db: Database, id: string, failing: set<string>) returns (deleted: bool)
    requires db.Valid() && id in db.recordings
    modifies db, db.bucket
    ensures db.Valid() && db.users == old(db.users)
    ensures var key := old(db.recordings)[id].s3Key;
      deleted <==> key == "" || key !in failing
    ensures var key := old(db.recordings)[id].s3Key;
      deleted ==>
        && db.recordings == old(db.recordings) - {id}
        && db.bucket.objects == old(db.bucket.objects) - (if key != "" then {key} else {})
        && db.order == RemoveId(old(db.order), id)
    ensures !deleted ==>
      && db.recordings == old(db.recordings) && db.bucket.objects == old(db.bucket.objects)
      && db.order == old(db.order)
  {
    var key := db.recordings[id].s3Key;
    deleted := true;
    if key != "" {
      deleted := db.bucket.DeleteObject(key, failing);
    }
    if deleted {
      db.RemoveRecording(id);
    }
  }

  /** One turn of the cleanup loop: skips a placeholder id, an unknown id or
      another user's row; otherwise deletes the stored object (when the row
      has a key) and, if that succeeded, the row. */
  method DeleteSessionEntry(db: Database, userId: string, id: string, failing: set<string>,
                            ghost recs0: map<string, Recording>, ghost objects0: set<string>,
                            ghost order0: seq<string>, ghost gone: set<string>)
    returns (deleted: bool)
    requires db.Valid()
    requires CleanedUp(db.recordings, db.bucket.objects, db.order, recs0, objects0, order0, gone)
    modifies db, db.bucket
    ensures db.Valid() && db.users == old(db.users)
    ensures deleted ==>
      && id !in gone && SessionRemovable(recs0, userId, id, failing)
      && CleanedUp(db.recordings, db.bucket.objects, db.order, recs0, objects0, order0, gone + {id})
    ensures !deleted ==>
      && (id in gone || !SessionRemovable(recs0, userId, id, failing))
      && db.recordings == old(db.recordings) && db.bucket.objects == old(db.bucket.objects)
      && db.order == old(db.order)
  {
    deleted := false;
    if StartsWith(id, "temp-") {
      return;
    }
    if id in db.recordings && db.recordings[id].userId == userId {
      deleted := RemoveOwned(db, id, failing);
      if deleted {
        RemovalStep(recs0, objects0, gone, id);
        RemoveIdAfterWithout(order0, gone, id);
      }
    }
  }

  /** The tables after removing the rows of `gone`, and their objects, from
      the tables `recs0`, `objects0` and `order0`. */
  ghost predicate CleanedUp(recs: map<string, Recording>, objects: set<string>, order: seq<string>,
                            recs0: map<string, Recording>, objects0: set<string>, order0: seq<string>,
                            gone: set<string>)
  {
    && recs == recs0 - gone
    && objects == objects0 - KeysOf(recs0, gone)
    && order == Without(order0, gone)
  }

  /** Turn `i` of the cleanup loop, with the count of rows deleted so far:
      the tables and the count go from the first `i` ids to the first
      `i + 1`. */
  method CleanupTurn(db: Database, userId: string, ids: seq<string>, i: nat, failing: set<string>,
                     ghost recs0: map<string, Recording>, ghost objects0: set<string>,
                     ghost order0: seq<string>, count: nat)
    returns (count': nat)
    requires i < |ids| && db.Valid()
    requires CleanedUp(db.recordings, db.bucket.objects, db.order, recs0, objects0, order0,
                       SessionRemoved(recs0, userId, ids[..i], failing))
    requires count == |SessionRemoved(recs0, userId, ids[..i], failing)|
    modifies db, db.bucket
    ensures db.Valid() && db.users == old(db.users)
    ensures CleanedUp(db.recordings, db.bucket.objects, db.order, recs0, objects0, order0,
                      SessionRemoved(recs0, userId, ids[..i + 1], failing))
    ensures count' == |SessionRemoved(recs0, userId, ids[..i + 1], failing)|
  {
    ghost var gone := SessionRemoved(recs0, userId, ids[..i], failing);
    var deleted := DeleteSessionEntry(db, userId, ids[i], failing, recs0, objects0, order0, gone);
    SessionRemovedStep(recs0, userId, ids, i, failing);
    if deleted {
      count' := count + 1;
    } else {
      AbsorbStep(gone, ids[i], SessionRemovable(recs0, userId, ids[i], failing));
      count' := count;
    }
  }

  method DeleteSession(db: Database, userId: string, recordingIds: Option<seq<string>>, failing: set<string>)
    returns (r: Result<nat>)
    requires db.Valid()
    modifies db, db.bucket
    ensures db.Valid()
    ensures db.users == old(db.users)
    ensures recordingIds.None? ==> r == Err(BadRequest) && db.recordings == old(db.recordings)
                                   && db.bucket.objects == old(db.bucket.objects) && db.order == old(db.order)
    ensures recordingIds.Some? ==>
      var gone := SessionRemoved(old(db.recordings), userId, recordingIds.value, failing);
      && r == Ok(|gone|)
      && db.recordings == old(db.recordings) - gone
      && db.bucket.objects == old(db.bucket.objects) - KeysOf(old(db.recordings), gone)
      && db.order == Without(old(db.order), gone)
  {
    if recordingIds.None? {
      return Err(BadRequest);
    }
    var ids := recordingIds.value;
    ghost var recs0 := db.recordings;
    ghost var objects0 := db.bucket.objects;
    ghost var order0 := db.order;
    assert SessionRemoved(recs0, userId, ids[..0], failing) == {};
    WithoutNothing(order0);
    var deletedCount := 0;
    var i := 0;
    while i < |ids|
      modifies db, db.bucket
      invariant 0 <= i <= |ids|
      invariant db.Valid() && db.users == old(db.users)
      invariant CleanedUp(db.recordings, db.bucket.objects, db.order, recs0, objects0, order0,
                          SessionRemoved(recs0, userId, ids[..i], failing))
      invariant deletedCount == |SessionRemoved(recs0, userId, ids[..i], failing)|
    {
      deletedCount := CleanupTurn(db, userId, ids, i, failing, recs0, objects0, order0, deletedCount);
      i := i + 1;
    }
    assert ids[..|ids|] == ids;
    r := Ok(deletedCount);
  }

  /** Adding an element already present, or nothing, leaves a set as it is. */
  lemma AbsorbStep(gone: set<string>, x: string, add: bool)
    requires x in gone || !add
    ensures gone + (if add then {x} else {}) == gone
  {
  }

  /** The cleanup never removes another user's recording. */
  lemma SessionCleanupSparesOthers(recs: map<string, Recording>, userId: string, ids: seq<string>,
                                   failing: set<string>, id: string)
    requires id in recs && recs[id].userId != userId
    ensures id in recs - SessionRemoved(recs, userId, ids, failing)
  {
  }

  // =====================================================================
  // GET /recordings/my-recordings

  /** The query string, already read as numbers where the handler calls
      `parseInt` (`None` for an absent or unparsable value). `ids` is the raw
      comma-separated string, `""` when absent; `status` is `None` when
      absent or empty. */
  datatype ListParams = ListParams(page: Option<int>, limit: Option<int>, status: Option<Status>,
                                   ids: string, glossaryId: Option<int>)

  /** The `where` object handed to the database. */
  datatype Where = Where(userId: string, ids: Option<seq<string>>, glossaryId: Option<int>, status: Option<Status>)

  datatype ListQuery = ListQuery(where: Where, skip: Option<int>, take: Option<int>, page: int, limit: int)

  /** `parseInt(x) || d`: NaN and 0 fall back to the default. */
  function OrDefault(x: Option<int>, d: int): (r: int)
    ensures r != 0 || d == 0
    ensures x.Some? && x.value != 0 ==> r == x.value
    ensures (x.None? || x.value == 0) ==> r == d
  {
    if x.None? || x.value == 0 then d else x.value
  }

  /** The glossary filter is on when `glossaryId` parses to a non-zero number. */
  predicate GlossaryGiven(p: ListParams)
  {
    p.glossaryId.Some? && p.glossaryId.value != 0
  }

  /** The query the handler builds: always restricted to the caller; page 1
      and 20 per page by default, at most 100 per page; an explicit status
      always wins; a glossary filter with neither status nor ids restores the
      session's UPLOADING recordings; ids turn pagination off. */
  function ListQueryFor(userId: string, p: ListParams): (q: ListQuery)
    ensures q.where.userId == userId
    ensures q.page == OrDefault(p.page, 1)
    ensures q.limit <= 100
    ensures q.limit == 100 || q.limit == OrDefault(p.limit, 20)
    ensures q.limit == if OrDefault(p.limit, 20) < 100 then OrDefault(p.limit, 20) else 100
    ensures q.limit != 0 && q.page != 0
    ensures (q.skip.Some? && q.take.Some? && (q.skip.value < 0 || q.take.value < 0))
            <==> p.ids == "" && (q.limit < 0 || q.page < 0)
    ensures p.ids == "" ==> q.skip == Some((q.page - 1) * q.limit) && q.take == Some(q.limit)
    ensures p.ids != "" ==> q.skip.None? && q.take.None?
    ensures q.where.ids.Some? ==> p.ids != "" && q.where.ids.value == DropBlank(Split(p.ids, ','))
    ensures q.where.ids.None? ==> DropBlank(Split(p.ids, ',')) == []
    ensures GlossaryGiven(p) <==> q.where.glossaryId.Some?
    ensures GlossaryGiven(p) ==> q.where.glossaryId == p.glossaryId
    ensures p.status.Some? ==> q.where.status == p.status
    ensures p.status.None? && GlossaryGiven(p) && p.ids == "" ==> q.where.status == Some(Uploading)
    ensures p.status.None? && !(GlossaryGiven(p) && p.ids == "") ==> q.where.status.None?
  {
    var page := OrDefault(p.page, 1);
    var parsedLimit := OrDefault(p.limit, 20);
    var limit := if parsedLimit < 100 then parsedLimit else 100;
    var skip := (page - 1) * limit;
    SkipSign(page, limit);
    var idList := DropBlank(Split(p.ids, ','));
    var whereIds := if p.ids != "" && idList != [] then Some(idList) else None;
    var whereGlossary := if GlossaryGiven(p) then p.glossaryId else None;
    var whereStatus :=
      if p.status.Some? then p.status
      else if GlossaryGiven(p) && p.ids == "" then Some(Uploading)
      else None;
    ListQuery(Where(userId, whereIds, whereGlossary, whereStatus),
              if p.ids != "" then None else Some(skip),
              if p.ids != "" then None else Some(limit),
              page, limit)
  }

  lemma ListQueryDropsNothingButBlanks(userId: string, p: ListParams)
    requires p.ids != ""
    requires exists k :: 0 <= k < |Split(p.ids, ',')| && NotBlank(Split(p.ids, ',')[k])
    ensures ListQueryFor(userId, p).where.ids.Some?
  {
    var parts := Split(p.ids, ',');
    var k :| 0 <= k < |parts| && NotBlank(parts[k]);
    assert parts[k] in parts;
    var list := DropBlank(parts);
    assert parts[k] in list;
  }

  predicate Matches(w: Where, rec: Recording)
  {
    && rec.userId == w.userId
    && (w.ids.None? || rec.id in w.ids.value)
    && (w.glossaryId.None? || rec.glossaryId == w.glossaryId.value)
    && (w.status.None? || rec.status == w.status.value)
  }

  /** The rows matching `w`, in the order given. */
  function Select(rows: seq<Recording>, w: Where): (hits: seq<Recording>)
    ensures |hits| <= |rows|
    ensures forall rec :: rec in hits <==> rec in rows && Matches(w, rec)
  {
    if rows == [] then []
    else if Matches(w, rows[0]) then [rows[0]] + Select(rows[1..], w)
    else Select(rows[1..], w)
  }

  /** Each matching row is selected as often as it occurs, the others never. */
  lemma {:induction false} SelectCounts(rows: seq<Recording>, w: Where, rec: Recording)
    ensures multiset(Select(rows, w))[rec] == if Matches(w, rec) then multiset(rows)[rec] else 0
  {
    if rows != [] {
      assert rows == [rows[0]] + rows[1..];
      SelectCounts(rows[1..], w, rec);
    }
  }

  /** Selecting is a filter that keeps its input's order: it works piecewise,
      and one row is kept iff it matches. */
  lemma {:induction false} SelectAppend(a: seq<Recording>, b: seq<Recording>, w: Where)
    ensures Select(a + b, w) == Select(a, w) + Select(b, w)
  {
    if a == [] {
      assert a + b == b;
    } else {
      var t := a[1..];
      assert (a + b)[0] == a[0];
      assert (a + b)[1..] == t + b;
      SelectAppend(t, b, w);
      if Matches(w, a[0]) {
        assert Select(a + b, w) == [a[0]] + Select(t + b, w);
        assert Select(a, w) == [a[0]] + Select(t, w);
        assert [a[0]] + (Select(t, w) + Select(b, w)) == ([a[0]] + Select(t, w)) + Select(b, w);
      } else {
        assert Select(a + b, w) == Select(t + b, w);
        assert Select(a, w) == Select(t, w);
      }
    }
  }

  lemma SelectOne(rec: Recording, w: Where)
    ensures Select([rec], w) == if Matches(w, rec) then [rec] else []
  {
    assert [rec][1..] == [];
  }

  /** The page `skip`, `take` of `hits`: what is left after skipping `skip`
      rows, cut to at most `take` rows. */
  function Page(hits: seq<Recording>, skip: nat, take: nat): (page: seq<Recording>)
    ensures |page| <= take
    ensures skip + take <= |hits| ==> page == hits[skip..skip + take]
    ensures skip >= |hits| ==> page == []
  {
    var from := if skip < |hits| then skip else |hits|;
    var to := if from + take < |hits| then from + take else |hits|;
    hits[from..to]
  }

  /** Consecutive pages fit together with nothing lost or repeated, and one
      page as large as the hits is all of them. */
  lemma PagesTile(hits: seq<Recording>, skip: nat, t1: nat, t2: nat)
    ensures Page(hits, skip, t1) + Page(hits, skip + t1, t2) == Page(hits, skip, t1 + t2)
    ensures Page(hits, 0, |hits|) == hits
  {
    var n := |hits|;
    var a := if skip < n then skip else n;
    var b := if skip + t1 < n then skip + t1 else n;
    var c := if skip + t1 + t2 < n then skip + t1 + t2 else n;
    assert Page(hits, skip, t1) == hits[a..b];
    assert Page(hits, skip + t1, t2) == hits[b..c];
    assert hits[a..b] + hits[b..c] == hits[a..c];
    assert hits[0..n] == hits;
  }

  /** `findMany({ where, skip, take })` over rows in newest-first order. A
      negative skip or take is reported as a database error. */
  function RunQuery(rows: seq<Recording>, q: ListQuery): (r: Result<seq<Recording>>)
    ensures r.Ok? ==> forall rec :: rec in r.value ==> rec in rows && Matches(q.where, rec)
    ensures r.Ok? ==> forall k :: 0 <= k < |r.value| ==> r.value[k] in rows && Matches(q.where, r.value[k])
    ensures r.Ok? && q.skip.Some? && q.take.Some? ==> |r.value| <= q.take.value
    ensures q.skip.None? && q.take.None? ==> r == Ok(Select(rows, q.where))
    ensures r.Err? <==> q.skip.Some? && q.take.Some? && (q.skip.value < 0 || q.take.value < 0)
    ensures r.Err? ==> r.error == ServerError
    ensures r.Ok? && q.skip.Some? && q.take.Some? ==>
              r.value == Page(Select(rows, q.where), q.skip.value, q.take.value)
  {
    var hits := Select(rows, q.where);
    if q.skip.None? || q.take.None? then Ok(hits)
    else if q.skip.value < 0 || q.take.value < 0 then Err(ServerError)
    else Ok(Page(hits, q.skip.value, q.take.value))
  }

  /** Every listed row is the caller's. */
  lemma ListingIsOwnRecordingsOnly(rows: seq<Recording>, userId: string, p: ListParams)
    ensures var r := RunQuery(rows, ListQueryFor(userId, p));
            r.Ok? ==> forall rec :: rec in r.value ==> rec.userId == userId
  {
  }

  /** Session restore: a glossary filter alone lists only that item's
      recordings that are still UPLOADING, and all of them up to the page size. */
  lemma SessionRestoreListsUploading(rows: seq<Recording>, userId: string, p: ListParams)
    requires GlossaryGiven(p) && p.status.None? && p.ids == ""
    ensures var r := RunQuery(rows, ListQueryFor(userId, p));
            r.Ok? ==> forall rec :: rec in r.value ==>
              rec.userId == userId && rec.glossaryId == p.glossaryId.value && rec.status == Uploading
  {
  }

  /** With an id list, pagination is ignored: exactly the caller's rows among
      the listed ids (and the other filters) come back. */
  lemma IdListIgnoresPagination(rows: seq<Recording>, userId: string, p: ListParams)
    requires p.ids != ""
    ensures var q := ListQueryFor(userId, p);
            RunQuery(rows, q) == Ok(Select(rows, q.where))
  {
  }

  /** With a non-zero limit, the offset `(page - 1) * limit` is negative
      exactly when the limit is positive and the page is below 1. */
  lemma SkipSign(page: int, limit: int)
    requires limit != 0
    ensures (page - 1) * limit < 0 <==> (limit > 0 && page < 1) || (limit < 0 && page > 1)
  {
    if limit > 0 {
      if page < 1 { assert (page - 1) * limit <= -1 * limit; }
      else { assert (page - 1) * limit >= 0; }
    } else {
      if page > 1 { assert (page - 1) * limit <= limit; }
      else { assert (page - 1) * limit >= 0; }
    }
  }

  datatype Listed = Listed(row: Recording, previewUrl: Option<SignedUrl>)

  /** Attaches preview URLs when `enabled`; a key whose signing fails (one in
      `failing`) is listed without one, the others are unaffected. */
  function WithPreviews(rows: seq<Recording>, enabled: bool, failing: set<string>): (r: seq<Listed>)
    ensures |r| == |rows|
    ensures forall k :: 0 <= k < |r| ==> r[k].row == rows[k]
    ensures forall k :: 0 <= k < |r| ==>
              (r[k].previewUrl.Some? <==> enabled && rows[k].s3Key !in failing)
    ensures forall k :: 0 <= k < |r| && r[k].previewUrl.Some? ==>
              r[k].previewUrl.value == SignedUrl(Get, rows[k].s3Key, None, 3600)
  {
    if rows == [] then []
    else
      var url := if enabled && rows[0].s3Key !in failing then Some(DownloadUrl(rows[0].s3Key)) else None;
      [Listed(rows[0], url)] + WithPreviews(rows[1..], enabled, failing)
  }

  /** `Math.ceil(total / limit)` for a positive limit. */
  function PageCount(total: nat, limit: int): (pages: nat)
    requires limit > 0
    ensures total == 0 ==> pages == 0
    ensures total > 0 ==> (pages - 1) * limit < total <= pages * limit
  {
    (total + limit - 1) / limit
  }

  datatype Pagination = Pagination(page: int, limit: int, total: nat, totalPages: int)
  datatype ListResponse = ListResponse(recordings: seq<Listed>, pagination: Pagination)

  /** The response to the query `q` over `rows`: its rows with previews when
      `previews` is on, and the pagination block (one page of all the rows
      found when `q` is not paginated). */
  function Respond(rows: seq<Recording>, q: ListQuery, previews: bool, previewFailing: set<string>)
    : (r: Result<ListResponse>)
    requires q.skip.Some? <==> q.take.Some?
    requires q.take.Some? ==> q.take.value == q.limit
    requires q.limit != 0
    ensures r.Err? <==> RunQuery(rows, q).Err?
    ensures r.Err? ==> r.error == ServerError
    ensures r.Ok? ==> r.value.recordings == WithPreviews(RunQuery(rows, q).value, previews, previewFailing)
    ensures r.Ok? ==> forall k :: 0 <= k < |r.value.recordings| ==>
              r.value.recordings[k].row.userId == q.where.userId && r.value.recordings[k].row in rows
    ensures r.Ok? ==> forall k :: 0 <= k < |r.value.recordings| ==>
              (r.value.recordings[k].previewUrl.Some? <==>
                 previews && r.value.recordings[k].row.s3Key !in previewFailing)
    ensures r.Ok? ==> r.value.pagination.page == q.page
    ensures r.Ok? ==> r.value.pagination.total == |Select(rows, q.where)|
    ensures r.Ok? && q.take.None? ==>
              r.value.pagination.totalPages == 1 && r.value.pagination.limit == |r.value.recordings|
    ensures r.Ok? && q.take.Some? ==>
              && r.value.pagination.limit == q.limit
              && |r.value.recordings| <= q.limit
              && r.value.pagination.totalPages == PageCount(r.value.pagination.total, q.limit)
  {
    var found := RunQuery(rows, q);
    if found.Err? then Err(ServerError)
    else
      var recordings := found.value;
      var total := |Select(rows, q.where)|;
      var withUrls := WithPreviews(recordings, previews, previewFailing);
      var pagination :=
        if q.take.None? then Pagination(q.page, |recordings|, total, 1)
        else Pagination(q.page, q.limit, total, PageCount(total, q.limit));
      Ok(ListResponse(withUrls, pagination))
  }

  /** The handler's response over the table `rows` (newest first). */
  function ListRecordings(rows: seq<Recording>, userId: string, p: ListParams, previewFailing: set<string>)
    : (r: Result<ListResponse>)
    ensures r.Ok? ==> forall k :: 0 <= k < |r.value.recordings| ==>
              r.value.recordings[k].row.userId == userId && r.value.recordings[k].row in rows
    ensures r.Ok? ==> r.value.pagination.page == OrDefault(p.page, 1)
    ensures r.Ok? ==> r.value.pagination.total == |Select(rows, ListQueryFor(userId, p).where)|
    ensures r.Ok? && p.ids != "" ==> r.value.pagination.totalPages == 1
                                     && r.value.pagination.limit == |r.value.recordings|
    ensures r.Ok? && p.ids == "" ==>
              var limit := ListQueryFor(userId, p).limit;
              && r.value.pagination.limit == limit
              && |r.value.recordings| <= limit
              && r.value.pagination.totalPages == PageCount(r.value.pagination.total, limit)
    ensures r.Ok? ==> forall k :: 0 <= k < |r.value.recordings| ==>
              (r.value.recordings[k].previewUrl.Some? <==>
                 (p.ids != "" || GlossaryGiven(p)) && r.value.recordings[k].row.s3Key !in previewFailing)
    ensures p.ids != "" ==> r.Ok?
    ensures r.Err? ==> r.error == ServerError
    ensures r.Err? <==> RunQuery(rows, ListQueryFor(userId, p)).Err?
    ensures r.Ok? ==> r.value.recordings == WithPreviews(RunQuery(rows, ListQueryFor(userId, p)).value,
                                                         p.ids != "" || GlossaryGiven(p), previewFailing)
  {
    Respond(rows, ListQueryFor(userId, p), p.ids != "" || GlossaryGiven(p), previewFailing)
  }

  /** The listing fails only for a paginated request whose limit or page is
      negative; every other request gets an answer. */
  lemma ListingFailsOnlyOnNegativeParams(rows: seq<Recording>, userId: string, p: ListParams,
                                         previewFailing: set<string>)
    ensures ListRecordings(rows, userId, p, previewFailing).Err?
            <==> p.ids == "" && (ListQueryFor(userId, p).limit < 0 || OrDefault(p.page, 1) < 0)
  {
  }

  /** `getMyRecordings`: the listing reads the table and changes nothing. */
  method GetMyRecordings(db: Database, userId: string, p: ListParams, previewFailing: set<string>)
    returns (r: Result<ListResponse>)
    requires db.Valid()
    ensures r == ListRecordings(db.Rows(), userId, p, previewFailing)
    ensures r.Ok? ==> forall k :: 0 <= k < |r.value.recordings| ==>
              r.value.recordings[k].row.userId == userId && r.value.recordings[k].row in db.recordings.Values
  {
    var rows := db.Rows();
    r := ListRecordings(rows, userId, p, previewFailing);
    if r.Ok? {
      forall k | 0 <= k < |r.value.recordings| ensures r.value.recordings[k].row in db.recordings.Values {
        assert r.value.recordings[k].row in rows;
      }
    }
  }
}
