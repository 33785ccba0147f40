# MapMories image vote store, in Dafny

MapMories lets visitors upload photos for a region of a map and vote them up
or down. The server keeps every image as one object in an S3-style bucket.
The object's key is `{state}-{timestamp}.{extension}`. Its string metadata
holds the record:

- `upvotes` and `downvotes`, decimal text;
- `flagged`, `"true"` or `"false"`;
- `userVotes`, a JSON object from user identifier to `"up"` or `"down"`.

Four route handlers work on the bucket: upload, list by state, vote and flag.
This project models those handlers and the encoding of the record they read
and write, and proves what the handlers promise.

Modules, one per file:

- `Wrappers` (`wrappers.dfy`): `Option` and `Result`.
- `Decimal` (`decimal.dfy`): `Number.prototype.toString` for counts and the
  `parseInt` that reads them back. `parseInt` is called with no radix. It
  skips leading white space, takes one sign, reads base 16 after a `0x` or
  `0X` prefix and base 10 otherwise.
- `Json` (`json.dfy`): the `userVotes` object. A JavaScript object keeps its
  properties in insertion order, so it is a sequence of (key, value) entries.
  The module covers:
  - `obj[k] = v` and reading a property;
  - `JSON.stringify`, with string escapes;
  - `JSON.parse` for objects whose values are strings, with whitespace,
    escapes, `\u` escapes (an escaped surrogate pair is one character) and
    repeated keys;
  - a proof that parsing what was stringified gives the object back, and
    that text with a repeated key reads as the keys assigned in turn.
- `VoteCodec` (`codec.dfy`):
  - reading the record with the handlers' defaults;
  - the vote transition as a pure function, and the handler's step-by-step
    computation (`CastVote`) proved against it;
  - the metadata a vote or a flag writes back;
  - the tally invariant: each count equals the number of stored votes that
    way.
- `VoteStore` (`store.dfy`): the class `ImageStore`, whose `bucket` field maps
  keys to stored objects. Its methods are `Upload`, `ListImages`, `Vote` and
  `Flag`, and each handler is one atomic step on the bucket. `Valid()` holds
  two things: every record's counts read without NaN, and every record is
  tallied.

Values outside the model:
- The current time is a parameter `now`.
- URL signing is a parameter `sign`.
- An object's last-modified time is the `now` of the write that produced it.

## Model

| member | source | states |
|---|---|---|
| `Decimal.ToString` | server.js:194-195 | `n.toString()` is `-` exactly for a negative number, then a non-empty run of decimal digits that starts with `0` exactly when `n` is 0 |
| `Decimal.Magnitude` | server.js:152-153 | text with no blank or sign in front reads as NaN exactly when it has no leading decimal digit, or has a `0x`/`0X` prefix with no hexadecimal digit after it |
| `Decimal.ParseInt` | server.js:152-153 | `parseInt` is NaN exactly when, after the leading blanks and one sign, there is no digit, or a `0x` prefix with no hexadecimal digit after it; a negative result needs a `-` in front |
| `Decimal.ParseIntOfToString` | server.js:152-153 | `parseInt` of the text `toString` wrote for a count gives that count back |
| `Decimal.ParseIntIgnoresSuffix` | server.js:85-86 | decimal digits read as their value whatever non-digit text follows, except a lone `0` before `x` or `X` |
| `Decimal.ParseIntHex` | server.js:152-153 | `0x` or `0X` and hexadecimal digits read in base 16 up to the first non-hexadecimal character; the prefix alone is NaN |
| `Decimal.ParseIntSign` | server.js:152-153 | one `+` in front keeps the value and one `-` negates it, NaN staying NaN |
| `Decimal.ParseIntSkipsBlanks` | server.js:152-153 | leading ECMAScript white space and line terminators do not change what `parseInt` reads |
| `Json.Put` | server.js:190 | after `userVotes[userId] = voteType`, the property reads back as the vote and every other property reads as before |
| `Json.PutPlace` | server.js:190 | an existing property keeps its place and a new one goes last, so the stringified order is the insertion order |
| `Json.PutKeepsUniqueKeys` | server.js:190 | assigning a property never makes a key appear twice |
| `Json.CountPut` | server.js:190 | replacing one user's vote moves exactly one entry from the old vote's count to the new one's |
| `Json.PutAll` | server.js:157 | assigning entries in turn leaves each key with the value of its last entry, and every other key as it was |
| `Json.Stringify` | server.js:196 | the stored `userVotes` text starts with `{` and ends with `}`, so it is never empty and the `Metadata?.userVotes ?` test always parses it |
| `Json.ParseObject` | server.js:157 | what `JSON.parse` returns for an object has each key once |
| `Json.ParseOfText` | server.js:157 | the text of any entries, repeated keys included, parses as those entries assigned in turn: a repeated key keeps its first place and takes its last value |
| `Json.ParseOfStringify` | server.js:196 | `JSON.parse(JSON.stringify(userVotes))` gives back `userVotes`, entries and order |
| `Json.ParseCharOfPairEscape` | server.js:157 | a character beyond 16 bits, written as the `\u` escapes of its surrogate pair, reads back as that one character |
| `VoteCodec.ReadCount` | server.js:152-153 | an absent or empty count reads as 0, any other as `parseInt` of its text |
| `VoteCodec.ReadFlagged` | server.js:87 | an absent or `"false"` field is not flagged; only the text `"true"` is |
| `VoteCodec.ReadUserVotes` | server.js:155-161 | the votes a handler reads hold each user at most once |
| `VoteCodec.UserVoteOf` | server.js:88 | `userVotes[userId]`, or null when that is falsy: a shown vote is the stored one and not empty; an absent or empty stored vote shows as none |
| `VoteCodec.Decode` | server.js:150-161 | absent fields read as 0 upvotes, 0 downvotes, not flagged and no votes; the votes hold each user once |
| `VoteCodec.DecodeEmpty` | server.js:152-157 | metadata with no fields reads as 0 upvotes, 0 downvotes, not flagged and no votes |
| `VoteCodec.DecodeCorruptUserVotes` | server.js:156-161 | a `userVotes` field that fails to parse reads as `{}` and leaves the counts and the flag as read |
| `VoteCodec.DecodeEncode` | server.js:192-197 | metadata written in the handler's canonical form reads back as the record it encodes |
| `VoteCodec.InitialMetadataIsZero` | server.js:116-121 | the upload's literal metadata is the encoding of the zero record and reads back as zero counts, not flagged, no votes |
| `VoteCodec.Transition` | server.js:163-188 | the vote changes nothing exactly when it equals the stored vote; otherwise the count of the vote cast rises by one and a non-negative other count never rises |
| `VoteCodec.SameVoteIsUnchanged` | server.js:167-175 | a vote equal to the stored vote changes nothing |
| `VoteCodec.FirstVoteRaisesOneCount` | server.js:184-188 | with no stored up or down vote, exactly the chosen count rises by one and the other is kept |
| `VoteCodec.SwitchMovesOneVote` | server.js:178-183 | switching up to down gives `max(0, up-1)` and `down+1`, and down to up is symmetric |
| `VoteCodec.VoteWrite` | server.js:192-197 | the vote's metadata replaces the two counts and `userVotes` and keeps every other field, `flagged` included |
| `VoteCodec.VoteWriteReadsBack` | server.js:192-197 | the metadata a vote writes reads back as the counts and the votes it wrote |
| `VoteCodec.ApplyVote` | server.js:152-197 | the reply's `userVote` is the vote cast, and the vote writes nothing exactly when the voter's stored vote equals it |
| `VoteCodec.CastVote` | server.js:152-197 | the handler's computation is exactly the transition applied to the stored vote: the same reply and the same write, or no write for a repeated vote |
| `VoteCodec.ApplyVoteShape` | server.js:190-197 | a write carries the reply's counts and the stored votes with the voter's vote put in; with no write the reply holds the counts as read |
| `VoteCodec.VoteReadsBack` | server.js:217-222 | after a vote, the stored counts read back as the reply's counts and the voter's stored vote is the vote cast |
| `VoteCodec.VoteKeepsOtherUsers` | server.js:190 | a vote leaves every other user's stored vote as it was read |
| `VoteCodec.VoteKeepsOtherFields` | server.js:192-197 | a vote adds only the count and `userVotes` fields, keeps every other field's value and keeps `flagged`; a repeated vote keeps the metadata whole |
| `VoteCodec.VoteTwiceIsNoOp` | server.js:163-175 | voting again the same way writes nothing and replies with the same counts and vote as the first vote |
| `VoteCodec.TalliedSwitchDoesNotClamp` | server.js:178-183 | in a tallied record the switched vote is counted, so the clamp at 0 never acts |
| `VoteCodec.VotePreservesTally` | server.js:178-197 | a vote keeps each count equal to the number of stored votes that way |
| `VoteCodec.RecountKeepsTally` | server.js:178-190 | when the counts match the stored votes, the recounted counts match the votes after the voter's entry is replaced |
| `VoteCodec.ApplyFlag` | server.js:241-244 | the flag's metadata adds only `flagged`, keeps every other field and reads as flagged |
| `VoteCodec.FlagSetsOnlyFlagged` | server.js:241-244 | a flag makes the record read as flagged, keeps the counts and votes as read and keeps the tally; flagging twice stores the same metadata as flagging once |
| `VoteStore.Extension` | server.js:108 | `split('.').pop()` is the dot-free text after the last dot, or the whole name when there is no dot |
| `VoteStore.ImageKey` | server.js:108 | an uploaded image's key starts with `{state}-` and has the extension of the uploaded file's name |
| `VoteStore.ViewOf` | server.js:81-89 | in a tallied record the entry shows the number of stored votes each way; it shows flagged only for a `flagged` field of `"true"`, and never an empty vote |
| `VoteStore.RegionsDisjoint` | server.js:46-49 | for hyphen-free state names, a key in one state's region is in another's exactly when the states are equal |
| `VoteStore.RegionIsolation` | server.js:48 | for hyphen-free state names, listing one state finds an image exactly when it was uploaded under that state |
| `VoteStore.ListingKeys` | server.js:53-60 | one entry per listed key: matching keys only, each once, all of them unless the page is full, and none exactly when nothing matches |
| `VoteStore.ImageStore.Upload` | server.js:101-137 | no file is an error that writes nothing; otherwise the object is stored under `{state}-{now}.{ext}` with the zero-state metadata, and the reply is that key's signed URL |
| `VoteStore.ImageStore.ScanPrefix` | server.js:46-51 | one page of the prefix listing: keys that match the prefix, each once, at most 1000, and all of them unless the page is full |
| `VoteStore.ImageStore.ListImages` | server.js:38-98 | entries for keys under `{state}-` only, each key once, every such key unless the page is full, and empty exactly when none matches; each entry shows its object's counts, flag, last-modified time and signed URL read with the defaults, and the caller's stored vote, or none for an empty one |
| `VoteStore.ImageStore.Vote` | server.js:140-227 | a missing key is an error that writes nothing; otherwise the reply and the new object are those of the transition on the stored vote. `currentVote` plays no part. A repeated vote leaves the bucket as it was. The record invariant is kept |
| `VoteStore.ImageStore.Flag` | server.js:230-261 | a missing key is an error that writes nothing; otherwise only the object's metadata changes, to the old metadata with `flagged` set to `"true"`, and the record invariant is kept |

## Left out

- Express routing, HTTP status codes and JSON replies (server.js:1-35, 263-265). Replies are return values. The 400 and 500 replies are the `StoreError` cases.
- Multer's 5 MB limit and its `image/` MIME filter (server.js:11-22). They are library configuration; a file that fails them is rejected before the handler runs.
- The S3 client (server.js:25-32). The bucket is an in-memory map.
- `getSignedUrl` (server.js:68, 124-130). Signing is the parameter `sign`.
- `Date.now()`. The time is the parameter `now`.
- Failures of the storage service other than a missing key. Each handler is modelled as succeeding once its object exists.
- The read-then-write race between concurrent votes or flags on one key, and the `Promise.all` fan-out (server.js:60, 150-209). Each handler is one atomic step.
- `console.log` and `console.error` calls.
- Upload: the reply holds only the signed URL. The constant `success`, `upvotes: 0` and `downvotes: 0` fields of the source's reply (server.js:132) are left out.
- ScanPrefix: does not model the ascending order in which the listing returns keys, nor which keys make up a full page. It promises only a page of at most 1000 distinct matching keys that holds every match when it is not full.
- Counts that `parseInt` reads as NaN: no digit after the blanks and the sign, or a `0x` prefix with no hexadecimal digit after it. `CountReadable` excludes them, `Valid()` keeps every stored count readable, and the store never writes such a count. In the source NaN would flow into the reply and the written metadata.
- Precision loss above 2^53, and the exponent form `toString` uses from 1e21 on, are left out: counts are unbounded integers. `parseInt("-0")` is the number -0 in JavaScript and 0 here, which prints the same.
- Metadata keys are modelled as case-preserving: `Metadata` is a map from the field names as the handlers write them. S3 stores user-defined metadata keys in lower case, so on the service the field comes back as `uservotes`. There `Metadata?.userVotes` (server.js:72, 157) would always read `{}`, every vote would take the first-vote branch, and the written `userVotes` would hold only the latest voter. The no-op for a repeated vote in `Vote`, `VoteTwiceIsNoOp`, `VoteKeepsOtherUsers` and the tally part of `Valid()` hold for case-preserving keys only. This comes from the storage service's behaviour, not from server.js itself.
- A `\u` escape of a lone surrogate, outside a high-then-low pair, is read as a syntax error, so such a `userVotes` field reads as `{}`. `JSON.parse` accepts it and keeps a lone UTF-16 code unit, which a Dafny string of Unicode scalar values cannot hold. The store never writes one, since `JSON.stringify` of a Dafny string writes every character as itself or a short escape.
- `JSON.parse` of text that is valid JSON but not an object with string values (`null`, a number, an object with a number value) reads as `{}` here. In the source such values either throw later in the handler or are kept. The store only ever writes objects with string values.
- Integer-like keys, which a JavaScript object orders before other keys. A `__proto__` key and keys inherited from `Object.prototype` are left out too. User identifiers are treated as plain keys in insertion order.
- `voteType` values other than `"up"` and `"down"`. The handler does not validate them; `Vote` takes only the two votes.
- A stored `userVotes` entry other than `"up"` or `"down"` is modelled as the source handles it: it takes the first-vote branch.
- The content type of a copied object. A copy that replaces metadata may reset it in S3; the model keeps the content type of the upload.
- public/script.js and public/js/user-identification.js are not part of this model. They hold browser UI, client-side sorting and fingerprinting.
