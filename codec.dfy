/**
 * The vote record as it lives in an object's string metadata: how the
 * handlers read `upvotes`, `downvotes`, `flagged` and `userVotes` with their
 * defaults, the vote transition, and the metadata each write puts back.
 */
module VoteCodec {
  import opened Wrappers
  import opened Decimal
  import opened Json

  /** An object's user metadata. */
  type Metadata = map<string, string>

  const UpvotesField: string := "upvotes"
  const DownvotesField: string := "downvotes"
  const FlaggedField: string := "flagged"
  const UserVotesField: string := "userVotes"

  lemma FieldNamesDistinct()
    ensures UpvotesField != DownvotesField && UpvotesField != FlaggedField && UpvotesField != UserVotesField
    ensures DownvotesField != FlaggedField && DownvotesField != UserVotesField && FlaggedField != UserVotesField
  {
    assert UpvotesField[0] == 'u' && DownvotesField[0] == 'd' && FlaggedField[0] == 'f';
    assert UpvotesField[1] == 'p' && UserVotesField[1] == 's';
  }

  datatype Vote = Up | Down

  /** The string a vote is sent and stored as. */
  function VoteName(v: Vote): string {
    match v
    case Up => "up"
    case Down => "down"
  }

  // ---------------------------------------------------------------------
  // Reading with defaults

  /** A count field that `parseInt` reads as a number rather than NaN. */
  predicate CountReadable(m: Metadata, f: string) {
    f !in m || m[f] == "" || ParseInt(m[f]).Some?
  }

  predicate Readable(m: Metadata) {
    CountReadable(m, UpvotesField) && CountReadable(m, DownvotesField)
  }

  /** `Metadata?.f ? parseInt(Metadata.f) : 0`: absent or empty reads as 0. */
  function ReadCount(m: Metadata, f: string): (n: int)
    requires CountReadable(m, f)
    ensures f !in m || m[f] == "" ==> n == 0
    ensures f in m && m[f] != "" ==> ParseInt(m[f]) == Some(n)
  {
    if f !in m || m[f] == "" then 0 else ParseInt(m[f]).value
  }

  /** `Metadata?.flagged === 'true'`. */
  function ReadFlagged(m: Metadata): (b: bool)
    ensures FlaggedField !in m ==> !b
    ensures FlaggedField in m && m[FlaggedField] == "false" ==> !b
    ensures b ==> FlaggedField in m && m[FlaggedField] == "true"
  {
    FlaggedField in m && m[FlaggedField] == "true"
  }

  /**
   * `userVotes`, with an absent or empty field and a field that does not
   * parse both reading as the empty object.
   */
  function ReadUserVotes(m: Metadata): (e: Entries)
    ensures UniqueKeys(e)
  {
    if UserVotesField !in m || m[UserVotesField] == "" then []
    else
      match ParseObject(m[UserVotesField])
      case Some(e) => e
      case None => []
  }

  /** `userVotes[userId] || null`: an empty stored vote shows as none. */
  function UserVoteOf(m: Metadata, userId: string): (v: Option<string>)
    ensures v.Some? ==> v.value != "" && Get(ReadUserVotes(m), userId) == v
    ensures v.None? ==> Get(ReadUserVotes(m), userId) in {None, Some("")}
  {
    match Get(ReadUserVotes(m), userId)
    case Some(v) => if v == "" then None else Some(v)
    case None => None
  }

  datatype VoteRecord = VoteRecord(upvotes: int, downvotes: int, flagged: bool, userVotes: Entries)

  function Decode(m: Metadata): (r: VoteRecord)
    requires Readable(m)
    ensures UniqueKeys(r.userVotes)
    ensures UpvotesField !in m ==> r.upvotes == 0
    ensures DownvotesField !in m ==> r.downvotes == 0
    ensures FlaggedField !in m ==> !r.flagged
    ensures UserVotesField !in m ==> r.userVotes == []
  {
    VoteRecord(ReadCount(m, UpvotesField), ReadCount(m, DownvotesField), ReadFlagged(m), ReadUserVotes(m))
  }

  /** Every field written in its canonical form, as the vote handler writes counts and votes. */
  function Encode(r: VoteRecord): Metadata {
    map[UpvotesField := ToString(r.upvotes),
        DownvotesField := ToString(r.downvotes),
        FlaggedField := if r.flagged then "true" else "false",
        UserVotesField := Stringify(r.userVotes)]
  }

  /** The metadata an upload writes. */
  function InitialMetadata(): Metadata {
    map[UpvotesField := "0", DownvotesField := "0", FlaggedField := "false", UserVotesField := "{}"]
  }

  const ZeroRecord: VoteRecord := VoteRecord(0, 0, false, [])

  lemma ReadCountOfToString(m: Metadata, f: string, n: int)
    requires f in m && m[f] == ToString(n)
    ensures CountReadable(m, f) && ReadCount(m, f) == n
  {
    ParseIntOfToString(n);
  }

  lemma ReadUserVotesOfStringify(m: Metadata, e: Entries)
    requires UniqueKeys(e)
    requires UserVotesField in m && m[UserVotesField] == Stringify(e)
    ensures ReadUserVotes(m) == e
  {
    ParseOfStringify(e);
  }

  /** Decoding what was encoded gives the record back. */
  lemma DecodeEncode(r: VoteRecord)
    requires UniqueKeys(r.userVotes)
    ensures Readable(Encode(r)) && Decode(Encode(r)) == r
  {
    var m := Encode(r);
    FieldNamesDistinct();
    assert m[UpvotesField] == ToString(r.upvotes) && m[DownvotesField] == ToString(r.downvotes);
    ReadCountOfToString(m, UpvotesField, r.upvotes);
    ReadCountOfToString(m, DownvotesField, r.downvotes);
    ReadUserVotesOfStringify(m, r.userVotes);
  }

  /** An upload writes exactly the encoding of the zero record. */
  lemma InitialMetadataIsZero()
    ensures InitialMetadata() == Encode(ZeroRecord)
    ensures Readable(InitialMetadata()) && Decode(InitialMetadata()) == ZeroRecord
  {
    assert ToString(0) == "0";
    assert Stringify([]) == "{}";
    DecodeEncode(ZeroRecord);
  }

  /** Absent fields read as the zero record. */
  lemma DecodeEmpty()
    ensures Readable(map[]) && Decode(map[]) == ZeroRecord
  {
  }

  /** A `userVotes` field that does not parse reads as the empty object and leaves the other fields alone. */
  lemma DecodeCorruptUserVotes(m: Metadata)
    requires Readable(m)
    requires UserVotesField in m && ParseObject(m[UserVotesField]) == None
    ensures Decode(m) == VoteRecord(ReadCount(m, UpvotesField), ReadCount(m, DownvotesField), ReadFlagged(m), [])
  {
  }

  // ---------------------------------------------------------------------
  // The vote transition

  /** What a vote does to the counts: nothing, or new counts. */
  datatype Step = Unchanged | Recount(upvotes: int, downvotes: int)

  /**
   * The transition on the stored vote of the user, the vote cast and the
   * current counts. A stored vote other than "up" or "down" is treated as no
   * vote; a decrement is `Math.max(0, count - 1)`. The count of the vote cast
   * always rises by one, and a count that is not negative never rises unless
   * it is the vote cast.
   */
  function Transition(existing: Option<string>, vote: Vote, upvotes: int, downvotes: int): (step: Step)
    ensures step.Unchanged? <==> existing == Some(VoteName(vote))
    ensures step.Recount? && vote == Up ==> step.upvotes == upvotes + 1 && (downvotes >= 0 ==> step.downvotes <= downvotes)
    ensures step.Recount? && vote == Down ==> step.downvotes == downvotes + 1 && (upvotes >= 0 ==> step.upvotes <= upvotes)
  {
    if existing == Some(VoteName(vote)) then Unchanged
    else if existing == Some("up") then Recount(if upvotes > 0 then upvotes - 1 else 0, downvotes + 1)
    else if existing == Some("down") then Recount(upvotes + 1, if downvotes > 0 then downvotes - 1 else 0)
    else if vote == Up then Recount(upvotes + 1, downvotes)
    else Recount(upvotes, downvotes + 1)
  }

  lemma SameVoteIsUnchanged(vote: Vote, upvotes: int, downvotes: int)
    ensures Transition(Some(VoteName(vote)), vote, upvotes, downvotes) == Unchanged
  {
  }

  lemma FirstVoteRaisesOneCount(existing: Option<string>, vote: Vote, upvotes: int, downvotes: int)
    requires existing == None || (existing.Some? && existing.value != "up" && existing.value != "down")
    ensures Transition(existing, vote, upvotes, downvotes)
         == if vote == Up then Recount(upvotes + 1, downvotes) else Recount(upvotes, downvotes + 1)
  {
  }

  lemma SwitchMovesOneVote(upvotes: int, downvotes: int)
    ensures Transition(Some("up"), Down, upvotes, downvotes)
         == Recount(if upvotes > 0 then upvotes - 1 else 0, downvotes + 1)
    ensures Transition(Some("down"), Up, upvotes, downvotes)
         == Recount(upvotes + 1, if downvotes > 0 then downvotes - 1 else 0)
  {
  }

  // ---------------------------------------------------------------------
  // Votes and flags on metadata

  /** The reply of the vote handler. */
  datatype VoteReply = VoteReply(upvotes: int, downvotes: int, userVote: string)

  /** A vote's reply and the metadata it writes back, None when it writes nothing. */
  datatype Applied = Applied(reply: VoteReply, write: Option<Metadata>)

  /**
   * The metadata the vote handler writes back: `m` with the counts and the
   * votes replaced, every other field carried over.
   */
  function VoteWrite(m: Metadata, upvotes: int, downvotes: int, userVotes: Entries): (m': Metadata)
    ensures m'.Keys == m.Keys + {UpvotesField, DownvotesField, UserVotesField}
    ensures forall f :: f in m && f != UpvotesField && f != DownvotesField && f != UserVotesField ==> m'[f] == m[f]
    ensures ReadFlagged(m') == ReadFlagged(m)
  {
    m[UpvotesField := ToString(upvotes)][DownvotesField := ToString(downvotes)][UserVotesField := Stringify(userVotes)]
  }

  /** A vote by `userId` on an object whose metadata is `m`. */
  function ApplyVote(m: Metadata, vote: Vote, userId: string): (a: Applied)
    requires Readable(m)
    ensures a.reply.userVote == VoteName(vote)
    ensures a.write.None? <==> Get(ReadUserVotes(m), userId) == Some(VoteName(vote))
  {
    var upvotes, downvotes, userVotes := ReadCount(m, UpvotesField), ReadCount(m, DownvotesField), ReadUserVotes(m);
    match Transition(Get(userVotes, userId), vote, upvotes, downvotes)
    case Unchanged => Applied(VoteReply(upvotes, downvotes, VoteName(vote)), None)
    case Recount(up, down) =>
      Applied(VoteReply(up, down, VoteName(vote)),
              Some(VoteWrite(m, up, down, Put(userVotes, userId, VoteName(vote)))))
  }

  /** The metadata after a vote. */
  function AfterVote(m: Metadata, vote: Vote, userId: string): Metadata
    requires Readable(m)
  {
    var a := ApplyVote(m, vote, userId);
    if a.write.Some? then a.write.value else m
  }

  /** A flag sets `flagged` to "true" and carries every other field over. */
  function ApplyFlag(m: Metadata): (m': Metadata)
    ensures m'.Keys == m.Keys + {FlaggedField}
    ensures forall f :: f in m && f != FlaggedField ==> m'[f] == m[f]
    ensures ReadFlagged(m')
  {
    m[FlaggedField := "true"]
  }

  /** What a vote writes, when it writes: the counts of its reply and the stored votes with the voter's vote put in. */
  lemma ApplyVoteShape(m: Metadata, vote: Vote, userId: string)
    requires Readable(m)
    ensures var a := ApplyVote(m, vote, userId);
      && a.reply.userVote == VoteName(vote)
      && (a.write.Some? ==>
            a.write.value == VoteWrite(m, a.reply.upvotes, a.reply.downvotes, Put(ReadUserVotes(m), userId, VoteName(vote))))
      && (a.write.None? ==>
            a.reply == VoteReply(ReadCount(m, UpvotesField), ReadCount(m, DownvotesField), VoteName(vote)))
  {
  }

  /** The metadata a vote writes reads back as the counts and the votes written. */
  lemma VoteWriteReadsBack(m: Metadata, upvotes: int, downvotes: int, userVotes: Entries)
    requires UniqueKeys(userVotes)
    ensures var m' := VoteWrite(m, upvotes, downvotes, userVotes);
      && Readable(m')
      && ReadCount(m', UpvotesField) == upvotes
      && ReadCount(m', DownvotesField) == downvotes
      && ReadUserVotes(m') == userVotes
  {
    var m' := VoteWrite(m, upvotes, downvotes, userVotes);
    FieldNamesDistinct();
    assert m'[UpvotesField] == ToString(upvotes) && m'[DownvotesField] == ToString(downvotes);
    assert m'[UserVotesField] == Stringify(userVotes);
    ReadCountOfToString(m', UpvotesField, upvotes);
    ReadCountOfToString(m', DownvotesField, downvotes);
    ReadUserVotesOfStringify(m', userVotes);
  }

  /**
   * After a vote the stored state reads back as the reply: the counts it
   * returned and the user's vote, which is the vote cast.
   */
  lemma VoteReadsBack(m: Metadata, vote: Vote, userId: string)
    requires Readable(m)
    ensures Readable(AfterVote(m, vote, userId))
    ensures var m', a := AfterVote(m, vote, userId), ApplyVote(m, vote, userId);
      && ReadCount(m', UpvotesField) == a.reply.upvotes
      && ReadCount(m', DownvotesField) == a.reply.downvotes
      && a.reply.userVote == VoteName(vote)
      && Get(ReadUserVotes(m'), userId) == Some(VoteName(vote))
      && UserVoteOf(m', userId) == Some(VoteName(vote))
  {
    var a := ApplyVote(m, vote, userId);
    ApplyVoteShape(m, vote, userId);
    if a.write.Some? {
      PutKeepsUniqueKeys(ReadUserVotes(m), userId, VoteName(vote));
      VoteWriteReadsBack(m, a.reply.upvotes, a.reply.downvotes, Put(ReadUserVotes(m), userId, VoteName(vote)));
    } else {
      var votes := ReadUserVotes(m);
      assert Transition(Get(votes, userId), vote, ReadCount(m, UpvotesField), ReadCount(m, DownvotesField)) == Unchanged;
    }
  }

  /** A vote leaves every other user's stored vote as it was read. */
  lemma VoteKeepsOtherUsers(m: Metadata, vote: Vote, userId: string, other: string)
    requires Readable(m) && other != userId
    ensures Get(ReadUserVotes(AfterVote(m, vote, userId)), other) == Get(ReadUserVotes(m), other)
  {
    var a := ApplyVote(m, vote, userId);
    ApplyVoteShape(m, vote, userId);
    if a.write.Some? {
      PutKeepsUniqueKeys(ReadUserVotes(m), userId, VoteName(vote));
      VoteWriteReadsBack(m, a.reply.upvotes, a.reply.downvotes, Put(ReadUserVotes(m), userId, VoteName(vote)));
    }
  }

  /** A vote rewrites only the counts and `userVotes`; `flagged` and every other field are kept. */
  lemma VoteKeepsOtherFields(m: Metadata, vote: Vote, userId: string)
    requires Readable(m)
    ensures var a, m' := ApplyVote(m, vote, userId), AfterVote(m, vote, userId);
      && (a.write.None? ==> m' == m)
      && (a.write.Some? ==> m'.Keys == m.Keys + {UpvotesField, DownvotesField, UserVotesField})
      && (forall f :: f in m && f != UpvotesField && f != DownvotesField && f != UserVotesField ==> m'[f] == m[f])
      && ReadFlagged(m') == ReadFlagged(m)
  {
    var a := ApplyVote(m, vote, userId);
    ApplyVoteShape(m, vote, userId);
  }

  /** Voting the same way twice: the second vote writes nothing and replies as the first. */
  lemma VoteTwiceIsNoOp(m: Metadata, vote: Vote, userId: string)
    requires Readable(m)
    ensures Readable(AfterVote(m, vote, userId))
    ensures var m' := AfterVote(m, vote, userId);
      ApplyVote(m', vote, userId) == Applied(ApplyVote(m, vote, userId).reply, None)
  {
    VoteReadsBack(m, vote, userId);
  }

  /**
   * The record invariant: each count is the number of users whose stored vote
   * is that way.
   */
  predicate Tallied(m: Metadata) {
    && Readable(m)
    && ReadCount(m, UpvotesField) == Count(ReadUserVotes(m), "up")
    && ReadCount(m, DownvotesField) == Count(ReadUserVotes(m), "down")
  }

  /** In a tallied record, the user whose stored vote is switched is counted, so the clamp at 0 never acts. */
  lemma TalliedSwitchDoesNotClamp(m: Metadata, userId: string)
    requires Tallied(m)
    ensures Get(ReadUserVotes(m), userId) == Some("up") ==> ReadCount(m, UpvotesField) >= 1
    ensures Get(ReadUserVotes(m), userId) == Some("down") ==> ReadCount(m, DownvotesField) >= 1
  {
    var votes := ReadUserVotes(m);
    if Get(votes, userId) == Some("up") {
      CountPositive(votes, userId, "up");
    }
    if Get(votes, userId) == Some("down") {
      CountPositive(votes, userId, "down");
    }
  }

  /** A vote keeps the record tallied. */
  lemma VotePreservesTally(m: Metadata, vote: Vote, userId: string)
    requires Tallied(m)
    ensures Tallied(AfterVote(m, vote, userId))
  {
    var a := ApplyVote(m, vote, userId);
    ApplyVoteShape(m, vote, userId);
    if a.write.Some? {
      var votes := ReadUserVotes(m);
      RecountKeepsTally(votes, userId, vote, ReadCount(m, UpvotesField), ReadCount(m, DownvotesField));
      PutKeepsUniqueKeys(votes, userId, VoteName(vote));
      VoteWriteReadsBack(m, a.reply.upvotes, a.reply.downvotes, Put(votes, userId, VoteName(vote)));
    }
  }

  /** When the counts are those of the stored votes, the recounted counts are those of the votes with the new vote put in. */
  lemma RecountKeepsTally(votes: Entries, userId: string, vote: Vote, upvotes: int, downvotes: int)
    requires upvotes == Count(votes, "up") && downvotes == Count(votes, "down")
    requires Transition(Get(votes, userId), vote, upvotes, downvotes).Recount?
    ensures var step, votes' := Transition(Get(votes, userId), vote, upvotes, downvotes), Put(votes, userId, VoteName(vote));
      step.upvotes == Count(votes', "up") && step.downvotes == Count(votes', "down")
  {
    CountPut(votes, userId, VoteName(vote), "up");
    CountPut(votes, userId, VoteName(vote), "down");
    if Get(votes, userId) == Some("up") {
      CountPositive(votes, userId, "up");
    }
    if Get(votes, userId) == Some("down") {
      CountPositive(votes, userId, "down");
    }
  }

  /** A flag marks the record flagged and keeps its counts and votes; flagging again changes nothing. */
  lemma FlagSetsOnlyFlagged(m: Metadata)
    ensures ReadFlagged(ApplyFlag(m))
    ensures ApplyFlag(ApplyFlag(m)) == ApplyFlag(m)
    ensures Readable(m) ==> Readable(ApplyFlag(m)) && Decode(ApplyFlag(m)) == Decode(m).(flagged := true)
    ensures Tallied(m) ==> Tallied(ApplyFlag(m))
  {
  }

  /** The vote as the handler computes it, step by step: when the transition recounts, the reply and the write. */
  lemma ApplyVoteRecounts(m: Metadata, vote: Vote, userId: string, upvotes: int, downvotes: int)
    requires Readable(m)
    requires Transition(Get(ReadUserVotes(m), userId), vote, ReadCount(m, UpvotesField), ReadCount(m, DownvotesField))
          == Recount(upvotes, downvotes)
    ensures ApplyVote(m, vote, userId)
         == Applied(VoteReply(upvotes, downvotes, VoteName(vote)),
                    Some(VoteWrite(m, upvotes, downvotes, Put(ReadUserVotes(m), userId, VoteName(vote)))))
    ensures AfterVote(m, vote, userId) == VoteWrite(m, upvotes, downvotes, Put(ReadUserVotes(m), userId, VoteName(vote)))
  {
  }

  lemma ApplyVoteUnchanged(m: Metadata, vote: Vote, userId: string)
    requires Readable(m)
    requires Transition(Get(ReadUserVotes(m), userId), vote, ReadCount(m, UpvotesField), ReadCount(m, DownvotesField))
          == Unchanged
    ensures ApplyVote(m, vote, userId)
         == Applied(VoteReply(ReadCount(m, UpvotesField), ReadCount(m, DownvotesField), VoteName(vote)), None)
  {
  }

  /**
   * The vote handler's computation on the metadata it read: the counts and
   * the stored votes with their defaults, the transition written out branch by
   * branch, and the metadata to write back, None when the vote repeats the
   * stored one.
   */
  method CastVote(m: Metadata, vote: Vote, userId: string) returns (reply: VoteReply, write: Option<Metadata>)
    requires Readable(m)
    ensures Applied(reply, write) == ApplyVote(m, vote, userId)
  {
    var upvotes := ReadCount(m, UpvotesField);
    var downvotes := ReadCount(m, DownvotesField);
    var userVotes := ReadUserVotes(m);
    var existingVote := Get(userVotes, userId);
    ghost var step := Transition(existingVote, vote, upvotes, downvotes);

    if existingVote == Some(VoteName(vote)) {
      ApplyVoteUnchanged(m, vote, userId);
      return VoteReply(upvotes, downvotes, existingVote.value), None;
    }

    if existingVote == Some("up") {
      upvotes := if upvotes > 0 then upvotes - 1 else 0;
      downvotes := downvotes + 1;
    } else if existingVote == Some("down") {
      downvotes := if downvotes > 0 then downvotes - 1 else 0;
      upvotes := upvotes + 1;
    } else {
      if vote == Up {
        upvotes := upvotes + 1;
      }
      if vote == Down {
        downvotes := downvotes + 1;
      }
    }
    assert step == Recount(upvotes, downvotes);

    userVotes := Put(userVotes, userId, VoteName(vote));
    ApplyVoteRecounts(m, vote, userId, upvotes, downvotes);
    reply := VoteReply(upvotes, downvotes, VoteName(vote));
    write := Some(VoteWrite(m, upvotes, downvotes, userVotes));
  }
}
