/**
 * The object-storage gateway: storage keys, presigned URLs and deletion.
 * A presigned URL is opaque; the model keeps only what it grants (the
 * operation, the key, the content type and the lifetime). `uuidv4()` is a
 * source of fresh names, and the bucket is a set of object keys.
 */
module Storage {
  import opened Common

  /** Lifetime of an upload URL, in seconds (15 minutes). */
  const UploadExpiration: nat := 15 * 60
  /** Default lifetime of a download URL, in seconds (1 hour, for previews). */
  const DownloadExpiration: nat := 60 * 60
  const DefaultExtension: string := "webm"

  datatype Operation = Put | Get

  datatype SignedUrl = SignedUrl(op: Operation, key: string, contentType: Option<string>, expiresIn: int)

  // ---------------------------------------------------------------------
  // Keys

  /** `raw/{userId}/{assignmentSlug}/{uuid}.{extension}` */
  function StorageKey(userId: string, slug: string, uuid: string, extension: string := DefaultExtension): string
  {
    "raw/" + userId + "/" + slug + "/" + uuid + "." + extension
  }

  /** The part of `s` after its last `/` (all of `s` when it has none). */
  function LastSegment(s: string): string
    decreases |s|
  {
    if s == [] then []
    else if s[|s| - 1] == '/' then []
    else LastSegment(s[..|s| - 1]) + [s[|s| - 1]]
  }

  /** The part of `s` before its first `.` (all of `s` when it has none). */
  function BeforeDot(s: string): string
    decreases |s|
  {
    if s == [] then [] else if s[0] == '.' then [] else [s[0]] + BeforeDot(s[1..])
  }

  /** The unique part of a key: the file name without its extension. */
  function KeyTag(key: string): string
  {
    BeforeDot(LastSegment(key))
  }

  lemma {:induction false} LastSegmentAfterSlash(a: string, b: string)
    requires '/' !in b
    ensures LastSegment(a + "/" + b) == b
    decreases |b|
  {
    var s := a + "/" + b;
    if b != [] {
      var b' := b[..|b| - 1];
      assert s[..|s| - 1] == a + "/" + b';
      LastSegmentAfterSlash(a, b');
      assert b == b' + [b[|b| - 1]];
    } else {
      assert s[|s| - 1] == '/';
    }
  }

  lemma {:induction false} BeforeDotOf(u: string, rest: string)
    requires '.' !in u
    ensures BeforeDot(u + "." + rest) == u
    decreases |u|
  {
    var s := u + "." + rest;
    if u != [] {
      assert s[1..] == u[1..] + "." + rest;
      BeforeDotOf(u[1..], rest);
      assert u == [u[0]] + u[1..];
    }
  }

  /** The uuid can be read back from the key it was put into. */
  lemma KeyTagOfStorageKey(userId: string, slug: string, uuid: string, extension: string)
    requires '/' !in uuid && '.' !in uuid && '/' !in extension
    ensures KeyTag(StorageKey(userId, slug, uuid, extension)) == uuid
  {
    var file := uuid + "." + extension;
    var dir := "raw/" + userId + "/" + slug;
    assert StorageKey(userId, slug, uuid, extension) == dir + "/" + file;
    LastSegmentAfterSlash(dir, file);
    BeforeDotOf(uuid, extension);
  }

  /** Keys minted from distinct uuids are distinct, whatever the users and slugs. */
  lemma DistinctUuidsDistinctKeys(user1: string, slug1: string, uuid1: string,
                                  user2: string, slug2: string, uuid2: string)
    requires PlainName(uuid1) && PlainName(uuid2) && uuid1 != uuid2
    ensures StorageKey(user1, slug1, uuid1) != StorageKey(user2, slug2, uuid2)
  {
    KeyTagOfStorageKey(user1, slug1, uuid1, DefaultExtension);
    KeyTagOfStorageKey(user2, slug2, uuid2, DefaultExtension);
  }

  // ---------------------------------------------------------------------
  // Presigned URLs

  /** `generateUploadUrl(key, contentType)`: a PUT URL valid for 15 minutes. */
  function UploadUrl(key: string, contentType: string): SignedUrl
  {
    SignedUrl(Put, key, Some(contentType), UploadExpiration)
  }

  /** `generateDownloadUrl(key, expiresIn = 1 hour)`: a GET URL. */
  function DownloadUrl(key: string, expiresIn: int := DownloadExpiration): SignedUrl
  {
    SignedUrl(Get, key, None, expiresIn)
  }

  // ---------------------------------------------------------------------
  // Collaborators with state

  /** The source of `uuidv4()` values, which the model takes to be fresh. */
  class UuidSource {
    var issued: set<string>

    constructor ()
      ensures issued == {}
    {
      issued := {};
    }

    method Next() returns (u: string)
      modifies this
      ensures PlainName(u) && u !in old(issued)
      ensures issued == old(issued) + {u}
    {
      FreshNameExists(issued);
      u :| u !in issued && PlainName(u);
      issued := issued + {u};
    }
  }

  /** The bucket, as the set of keys that hold an object. */
  class ObjectStore {
    var objects: set<string>

    constructor (objects: set<string>)
      ensures this.objects == objects
    {
      this.objects := objects;
    }

    /** `deleteObject(key)`. Deleting an absent key succeeds; `failing` holds
        the keys for which the backend call throws, which leaves the bucket
        as it was. */
    method DeleteObject(key: string, failing: set<string>) returns (ok: bool)
      modifies this
      ensures ok <==> key !in failing
      ensures objects == if ok then old(objects) - {key} else old(objects)
    {
      ok := key !in failing;
      if ok {
        objects := objects - {key};
      }
    }
  }

  // ---------------------------------------------------------------------
  // Minting upload targets

  datatype UploadTarget = UploadTarget(key: string, uploadUrl: SignedUrl)

  datatype SingleTarget = SingleTarget(key: string, uploadUrl: SignedUrl, downloadUrl: SignedUrl)

  /** `key` is a storage key of `userId` and `slug` built from a fresh-looking uuid. */
  predicate KeyFor(key: string, userId: string, slug: string)
  {
    PlainName(KeyTag(key)) && key == StorageKey(userId, slug, KeyTag(key))
  }

  function TagsOf(targets: seq<UploadTarget>): set<string>
  {
    set i | 0 <= i < |targets| :: KeyTag(targets[i].key)
  }

  /** `generateStorageKey` with the default extension: reads one fresh uuid. */
  method GenerateStorageKey(uuids: UuidSource, userId: string, slug: string) returns (key: string)
    modifies uuids
    ensures KeyFor(key, userId, slug)
    ensures KeyTag(key) !in old(uuids.issued)
    ensures uuids.issued == old(uuids.issued) + {KeyTag(key)}
  {
    var uuid := uuids.Next();
    key := StorageKey(userId, slug, uuid);
    KeyTagOfStorageKey(userId, slug, uuid, DefaultExtension);
  }

  /** `generateSingleUploadUrls`: one key, with an upload and a download URL for it. */
  method GenerateSingleUploadUrls(uuids: UuidSource, userId: string, slug: string, contentType: string)
    returns (t: SingleTarget)
    modifies uuids
    ensures KeyFor(t.key, userId, slug)
    ensures KeyTag(t.key) !in old(uuids.issued)
    ensures uuids.issued == old(uuids.issued) + {KeyTag(t.key)}
    ensures t.uploadUrl == SignedUrl(Put, t.key, Some(contentType), 900)
    ensures t.downloadUrl == SignedUrl(Get, t.key, None, 3600)
  {
    var key := GenerateStorageKey(uuids, userId, slug);
    t := SingleTarget(key, UploadUrl(key, contentType), DownloadUrl(key));
  }

  /** What the first targets of a batch satisfy: each key is the user's and
      the slug's, minted from a uuid not issued before the batch, with its
      15-minute upload URL; no uuid is used twice. */
  ghost predicate Minted(results: seq<UploadTarget>, issued0: set<string>, userId: string, slug: string,
                         contentType: string)
  {
    && (forall k :: 0 <= k < |results| ==>
          KeyFor(results[k].key, userId, slug) && KeyTag(results[k].key) !in issued0)
    && (forall k :: 0 <= k < |results| ==>
          results[k].uploadUrl == SignedUrl(Put, results[k].key, Some(contentType), 900))
    && (forall k, m :: 0 <= k < m < |results| ==> KeyTag(results[k].key) != KeyTag(results[m].key))
  }

  lemma MintedStep(results: seq<UploadTarget>, issued0: set<string>, userId: string, slug: string,
                   contentType: string, key: string)
    requires Minted(results, issued0, userId, slug, contentType)
    requires KeyFor(key, userId, slug) && KeyTag(key) !in issued0 + TagsOf(results)
    ensures Minted(results + [UploadTarget(key, UploadUrl(key, contentType))], issued0, userId, slug, contentType)
    ensures TagsOf(results + [UploadTarget(key, UploadUrl(key, contentType))]) == TagsOf(results) + {KeyTag(key)}
  {
    var r := results + [UploadTarget(key, UploadUrl(key, contentType))];
    forall k | 0 <= k < |results| ensures r[k] == results[k] && KeyTag(results[k].key) in TagsOf(results) { }
    assert r[|results|].key == key;
  }

  /** `generateBatchUploadUrls`: `count` keys minted one after the other,
      each with its upload URL; none when `count` is not positive. */
  method GenerateBatchUploadUrls(uuids: UuidSource, userId: string, slug: string, count: int, contentType: string)
    returns (results: seq<UploadTarget>)
    modifies uuids
    ensures |results| == if count > 0 then count else 0
    ensures forall i :: 0 <= i < |results| ==>
              KeyFor(results[i].key, userId, slug) && KeyTag(results[i].key) !in old(uuids.issued)
    ensures forall i :: 0 <= i < |results| ==>
              results[i].uploadUrl == SignedUrl(Put, results[i].key, Some(contentType), 900)
    ensures forall i, j :: 0 <= i < j < |results| ==> KeyTag(results[i].key) != KeyTag(results[j].key)
    ensures forall i, j :: 0 <= i < j < |results| ==> results[i].key != results[j].key
    ensures uuids.issued == old(uuids.issued) + TagsOf(results)
  {
    ghost var issued0 := uuids.issued;
    results := [];
    var i := 0;
    while i < count
      invariant i == |results| && (count > 0 ==> i <= count) && (count <= 0 ==> i == 0)
      invariant Minted(results, issued0, userId, slug, contentType)
      invariant uuids.issued == issued0 + TagsOf(results)
    {
      var key := GenerateStorageKey(uuids, userId, slug);
      MintedStep(results, issued0, userId, slug, contentType, key);
      results := results + [UploadTarget(key, UploadUrl(key, contentType))];
      i := i + 1;
    }
  }
}
