/**
 * The image store: a bucket of objects, one per uploaded image, keyed
 * `{state}-{timestamp}.{extension}`, and the four route handlers that work on
 * it (upload, list by state, vote, flag). Each handler is one atomic step on
 * the bucket.
 */
module VoteStore {
  import opened Wrappers
  import opened Decimal
  import opened Json
  import opened VoteCodec

  newtype byte = x: int | 0 <= x < 256

  /** An object in the bucket: the image bytes, its content type, its metadata and when it was last written. */
  datatype StoredObject = StoredObject(body: seq<byte>, contentType: string, metadata: Metadata, lastModified: nat)

  /** The file part of an upload request. */
  datatype UploadedFile = UploadedFile(originalName: string, mimeType: string, bytes: seq<byte>)

  /** One entry of the list reply. */
  datatype ImageView = ImageView(
    key: string, url: string, timestamp: nat,
    upvotes: int, downvotes: int, flagged: bool, userVote: Option<string>)

  datatype StoreError = NoFileUploaded | NoSuchKey

  datatype Outcome = Success | Failure(error: StoreError)

  /** `name.split('.').pop()`: the text after the last dot, or the whole name when it has none. */
  function Extension(name: string): (ext: string)
    ensures |ext| <= |name| && ext == name[|name| - |ext|..]
    ensures '.' !in ext
    ensures |ext| < |name| ==> name[|name| - |ext| - 1] == '.'
  {
    if name == [] then []
    else if name[|name| - 1] == '.' then []
    else
      var init := name[..|name| - 1];
      var ext := Extension(init);
      assert init[|init| - |ext|..] + [name[|name| - 1]] == name[|name| - |ext| - 1..];
      ext + [name[|name| - 1]]
  }

  function RegionPrefix(state: string): string {
    state + "-"
  }

  /**
   * The key an upload at time `now` files its image under: it lies in the
   * region of `state` and has the extension of the uploaded file's name.
   */
  function ImageKey(state: string, now: nat, originalName: string): (key: string)
    ensures HasPrefix(RegionPrefix(state), key)
    ensures Extension(key) == Extension(originalName)
  {
    RegionKeyPrefix(state, ToString(now), Extension(originalName));
    ExtensionAfterDot(RegionPrefix(state) + ToString(now), Extension(originalName));
    RegionPrefix(state) + ToString(now) + "." + Extension(originalName)
  }

  /** The extension of a name that ends in a dot and dot-free text is that text. */
  lemma {:induction false} ExtensionAfterDot(x: string, ext: string)
    requires '.' !in ext
    ensures Extension(x + "." + ext) == ext
    decreases |ext|
  {
    var name := x + "." + ext;
    if ext == [] {
      assert name[|name| - 1] == '.';
    } else {
      var init := ext[..|ext| - 1];
      assert name[..|name| - 1] == x + "." + init;
      ExtensionAfterDot(x, init);
      assert ext == init + [ext[|ext| - 1]];
    }
  }

  predicate HasPrefix(p: string, s: string) {
    |p| <= |s| && s[..|p|] == p
  }

  /**
   * The list entry for one object, with the vote of `userId`. In a tallied
   * record the counts shown are the numbers of stored votes each way; the
   * object shows as flagged only when its `flagged` field is "true"; an empty
   * stored vote shows as none.
   */
  function ViewOf(key: string, obj: StoredObject, userId: string, sign: string -> string): (v: ImageView)
    requires Readable(obj.metadata)
    ensures Tallied(obj.metadata) ==>
      v.upvotes == Count(ReadUserVotes(obj.metadata), "up") && v.downvotes == Count(ReadUserVotes(obj.metadata), "down")
    ensures v.flagged ==> FlaggedField in obj.metadata && obj.metadata[FlaggedField] == "true"
    ensures v.userVote.Some? ==> v.userVote.value != ""
  {
    var m := obj.metadata;
    ImageView(key, sign(key), obj.lastModified,
              ReadCount(m, UpvotesField), ReadCount(m, DownvotesField), ReadFlagged(m),
              UserVoteOf(m, userId))
  }

  /** A list entry shows the object under its key as read for `userId`. */
  predicate Shows(bucket: map<string, StoredObject>, userId: string, sign: string -> string, view: ImageView) {
    view.key in bucket && Readable(bucket[view.key].metadata)
    && view == ViewOf(view.key, bucket[view.key], userId, sign)
  }

  predicate AllShow(bucket: map<string, StoredObject>, userId: string, sign: string -> string, views: seq<ImageView>) {
    views == [] || (AllShow(bucket, userId, sign, views[..|views| - 1]) && Shows(bucket, userId, sign, views[|views| - 1]))
  }

  /** Appending the entry of a readable object keeps every entry showing its object. */
  lemma AllShowSnoc(bucket: map<string, StoredObject>, userId: string, sign: string -> string, views: seq<ImageView>, key: string)
    requires AllShow(bucket, userId, sign, views)
    requires key in bucket && Readable(bucket[key].metadata)
    ensures AllShow(bucket, userId, sign, views + [ViewOf(key, bucket[key], userId, sign)])
  {
    var view := ViewOf(key, bucket[key], userId, sign);
    assert (views + [view])[..|views|] == views;
  }

  lemma {:induction false} AllShowAt(bucket: map<string, StoredObject>, userId: string, sign: string -> string, views: seq<ImageView>)
    requires AllShow(bucket, userId, sign, views)
    ensures forall i :: 0 <= i < |views| ==> Shows(bucket, userId, sign, views[i])
  {
    if views != [] {
      var init := views[..|views| - 1];
      AllShowAt(bucket, userId, sign, init);
      assert forall i :: 0 <= i < |init| ==> views[i] == init[i];
    }
  }

  lemma PrefixThen(p: string, x: string, y: string)
    requires HasPrefix(p, x)
    ensures HasPrefix(p, x + y)
  {
    assert (x + y)[..|p|] == x[..|p|];
  }

  lemma RegionKeyPrefix(state: string, stamp: string, ext: string)
    ensures HasPrefix(RegionPrefix(state), RegionPrefix(state) + stamp + "." + ext)
  {
    var p := RegionPrefix(state);
    assert (p + stamp)[..|p|] == p;
    PrefixThen(p, p + stamp, ".");
    PrefixThen(p, p + stamp + ".", ext);
  }

  /** The most keys one prefix listing returns; the list handler asks for one listing only. */
  const MaxKeys: nat := 1000

  /**
   * Entries made one per listed key, in order, carry exactly the keys of the
   * listing: matching keys only, each once, every matching key unless the
   * listing is a full page, and none exactly when no key matches.
   */
  lemma ListingKeys(bucket: map<string, StoredObject>, prefix: string, keys: seq<string>, views: seq<ImageView>)
    requires forall k :: k in keys ==> k in bucket && HasPrefix(prefix, k)
    requires |keys| == MaxKeys || forall k :: k in bucket && HasPrefix(prefix, k) ==> k in keys
    requires forall i, j :: 0 <= i < j < |keys| ==> keys[i] != keys[j]
    requires |views| == |keys| && forall i :: 0 <= i < |views| ==> views[i].key == keys[i]
    ensures forall i :: 0 <= i < |views| ==> HasPrefix(prefix, views[i].key)
    ensures |views| < MaxKeys ==>
      forall k :: k in bucket && HasPrefix(prefix, k) ==> exists i :: 0 <= i < |views| && views[i].key == k
    ensures forall i, j :: 0 <= i < j < |views| ==> views[i].key != views[j].key
    ensures views == [] <==> forall k :: k in bucket ==> !HasPrefix(prefix, k)
  {
    assert forall i :: 0 <= i < |keys| ==> keys[i] in keys;
    if |views| < MaxKeys {
      forall k | k in bucket && HasPrefix(prefix, k)
        ensures exists i :: 0 <= i < |views| && views[i].key == k
      {
        var i :| 0 <= i < |keys| && keys[i] == k;
        assert views[i].key == k;
      }
    }
    if views != [] {
      assert keys[0] in bucket && HasPrefix(prefix, keys[0]);
    }
  }

  /** Under a hyphen-free state name, the first hyphen of a key in its region ends the name. */
  lemma FirstHyphenEndsRegion(state: string, key: string)
    requires '-' !in state && HasPrefix(RegionPrefix(state), key)
    ensures key[|state|] == '-'
    ensures forall i :: 0 <= i < |state| ==> key[i] != '-'
  {
    assert key[..|state| + 1] == RegionPrefix(state);
    assert forall i :: 0 <= i < |state| ==> key[i] == state[i];
  }

  /** For hyphen-free state names, a key in the region of `t` is in the region of `s` exactly when `s` is `t`. */
  lemma RegionsDisjoint(s: string, t: string, key: string)
    requires '-' !in s && '-' !in t
    requires HasPrefix(RegionPrefix(t), key)
    ensures HasPrefix(RegionPrefix(s), key) <==> s == t
  {
    if HasPrefix(RegionPrefix(s), key) {
      FirstHyphenEndsRegion(s, key);
      FirstHyphenEndsRegion(t, key);
      assert |s| == |t|;
      assert s == key[..|s|];
      assert t == key[..|t|];
    }
  }

  /**
   * For state names without a hyphen, the scan for one state finds an image
   * exactly when it was uploaded under that same state.
   */
  lemma RegionIsolation(s: string, t: string, now: nat, originalName: string)
    requires '-' !in s && '-' !in t
    ensures HasPrefix(RegionPrefix(s), ImageKey(t, now, originalName)) <==> s == t
  {
    RegionsDisjoint(s, t, ImageKey(t, now, originalName));
  }

  /** Every record in the bucket keeps the record invariant. */
  ghost predicate AllTallied(bucket: map<string, StoredObject>) {
    forall k :: k in bucket ==> Tallied(bucket[k].metadata)
  }

  lemma AllTalliedStore(bucket: map<string, StoredObject>, key: string, obj: StoredObject)
    requires AllTallied(bucket) && Tallied(obj.metadata)
    ensures AllTallied(bucket[key := obj])
  {
  }

  class ImageStore {
    var bucket: map<string, StoredObject>

    /** Every record reads back without NaN and its counts agree with its stored votes. */
    ghost predicate Valid()
      reads this
    {
      AllTallied(bucket)
    }

    constructor ()
      ensures Valid() && bucket == map[]
    {
      bucket := map[];
    }

    /**
     * `POST /api/upload`: file the image under `{state}-{now}.{ext}` with
     * zero votes, not flagged, and reply with its signed URL. An object
     * already under that key is replaced.
     */
    method Upload(state: string, file: Option<UploadedFile>, now: nat, sign: string -> string)
      returns (r: Result<string, StoreError>)
      requires Valid()
      modifies this
      ensures Valid()
      ensures file.None? ==> r == Err(NoFileUploaded) && bucket == old(bucket)
      ensures file.Some? ==>
        var key := ImageKey(state, now, file.value.originalName);
        && r == Ok(sign(key))
        && bucket == old(bucket)[key := StoredObject(file.value.bytes, file.value.mimeType, InitialMetadata(), now)]
    {
      if file.None? {
        return Err(NoFileUploaded);
      }
      var f := file.value;
      var fileName := state + "-" + ToString(now) + "." + Extension(f.originalName);
      var obj := StoredObject(f.bytes, f.mimeType, InitialMetadata(), now);
      InitialMetadataIsZero();
      assert Tallied(obj.metadata);
      AllTalliedStore(bucket, fileName, obj);
      bucket := bucket[fileName := obj];
      r := Ok(sign(fileName));
    }

    /**
     * The bucket's prefix listing, one page of it: keys that start with
     * `prefix`, each once, and every such key unless the page is full.
     */
    method ScanPrefix(prefix: string) returns (keys: seq<string>)
      ensures forall k :: k in keys ==> k in bucket && HasPrefix(prefix, k)
      ensures |keys| <= MaxKeys
      ensures |keys| == MaxKeys || forall k :: k in bucket && HasPrefix(prefix, k) ==> k in keys
      ensures forall i, j :: 0 <= i < j < |keys| ==> keys[i] != keys[j]
    {
      var todo := set k | k in bucket && HasPrefix(prefix, k);
      keys := [];
      while todo != {} && |keys| < MaxKeys
        invariant forall k :: k in keys ==> k in bucket && HasPrefix(prefix, k) && k !in todo
        invariant forall k :: k in bucket && HasPrefix(prefix, k) ==> k in keys || k in todo
        invariant forall k :: k in todo ==> k in bucket && HasPrefix(prefix, k)
        invariant forall i, j :: 0 <= i < j < |keys| ==> keys[i] != keys[j]
        invariant |keys| <= MaxKeys
        decreases |todo|
      {
        var key :| key in todo;
        keys := keys + [key];
        todo := todo - {key};
      }
    }

    /**
     * `GET /api/images/:state`: one entry per object whose key starts with
     * `{state}-`, each key once, with the counts and flag read with their
     * defaults and the vote of `userId`; no entries when nothing matches.
     */
    method ListImages(state: string, userId: string, sign: string -> string) returns (views: seq<ImageView>)
      requires Valid()
      ensures forall i :: 0 <= i < |views| ==> HasPrefix(RegionPrefix(state), views[i].key)
      ensures |views| <= MaxKeys
      ensures |views| < MaxKeys ==>
        forall k :: k in bucket && HasPrefix(RegionPrefix(state), k) ==> exists i :: 0 <= i < |views| && views[i].key == k
      ensures forall i, j :: 0 <= i < j < |views| ==> views[i].key != views[j].key
      ensures forall i :: 0 <= i < |views| ==> Shows(bucket, userId, sign, views[i])
      ensures views == [] <==> forall k :: k in bucket ==> !HasPrefix(RegionPrefix(state), k)
    {
      var contents := ScanPrefix(RegionPrefix(state));
      views := [];
      for i := 0 to |contents|
        invariant |views| == i
        invariant forall j :: 0 <= j < i ==> views[j].key == contents[j]
        invariant AllShow(bucket, userId, sign, views)
      {
        var key := contents[i];
        var view := ViewOf(key, bucket[key], userId, sign);
        AllShowSnoc(bucket, userId, sign, views, key);
        views := views + [view];
      }
      ListingKeys(bucket, RegionPrefix(state), contents, views);
      AllShowAt(bucket, userId, sign, views);
    }

    /**
     * `POST /api/vote`: read the object's metadata, apply the transition to
     * the stored vote of `userId`, and unless the vote repeats the stored one,
     * write back the whole metadata with the new counts and `userVotes`. The
     * client's `currentVote` plays no part.
     */
    method Vote(key: string, voteType: Vote, currentVote: Option<string>, userId: string, now: nat)
      returns (r: Result<VoteReply, StoreError>)
      requires Valid()
      modifies this
      ensures Valid()
      ensures key !in old(bucket) ==> r == Err(NoSuchKey) && bucket == old(bucket)
      ensures key in old(bucket) ==>
        var obj := old(bucket)[key];
        var a := ApplyVote(obj.metadata, voteType, userId);
        && r == Ok(a.reply)
        && bucket == (if a.write.None? then old(bucket)
                      else old(bucket)[key := obj.(metadata := a.write.value, lastModified := now)])
    {
      if key !in bucket {
        return Err(NoSuchKey);
      }
      var obj := bucket[key];
      var reply, write := CastVote(obj.metadata, voteType, userId);
      if write.Some? {
        var newObj := obj.(metadata := write.value, lastModified := now);
        VotePreservesTally(obj.metadata, voteType, userId);
        AllTalliedStore(bucket, key, newObj);
        bucket := bucket[key := newObj];
      }
      r := Ok(reply);
    }

    /**
     * `POST /api/flag`: write back the object's metadata with `flagged` set
     * to "true" and every other field as it was.
     */
    method Flag(key: string, now: nat) returns (r: Outcome)
      requires Valid()
      modifies this
      ensures Valid()
      ensures key !in old(bucket) ==> r == Failure(NoSuchKey) && bucket == old(bucket)
      ensures key in old(bucket) ==>
        var obj := old(bucket)[key];
        && r == Success
        && bucket == old(bucket)[key := obj.(metadata := ApplyFlag(obj.metadata), lastModified := now)]
    {
      if key !in bucket {
        return Failure(NoSuchKey);
      }
      var obj := bucket[key];
      var newMetadata := obj.metadata[FlaggedField := "true"];
      var newObj := obj.(metadata := newMetadata, lastModified := now);
      FlagSetsOnlyFlagged(obj.metadata);
      AllTalliedStore(bucket, key, newObj);
      bucket := bucket[key := newObj];
      r := Success;
    }
  }
}
