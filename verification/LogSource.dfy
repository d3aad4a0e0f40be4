/** The foreign side of the reader: what db2ReadLogNoConn answers, call by call. */
module LogSource {
  import opened Bytes
  import opened LogFrames
  import opened MergeSpec

  /** The sqlcode as readTheLog tells codes apart: SQLU_RLOG_READ_TO_CURRENT, any
      other negative code, and the rest. */
  datatype SqlCode = Continue | ReadToCurrent | Failed

  /** One answer: the code, the output buffer and logRecsWritten. */
  datatype RawReply = RawReply(code: SqlCode, buffer: seq<Byte>, written: nat)

  type Reply = r: RawReply | Framed(r.buffer, 0, r.written) witness RawReply(Continue, [], 0)

  /** The answer of a source that has nothing more to say. */
  const NOTHING_MORE: Reply := RawReply(ReadToCurrent, [], 0)

  /** One log path given to the program: no logs are found there, querying or
      initialising it fails, or it can be read. */
  datatype LogPath = NoLogs | Broken | Logs(replies: seq<Reply>)

  /** The records that a series of answers delivers, up to the first answer that
      fails, is empty or reads to current. */
  function Delivered(replies: seq<Reply>): seq<LogRecord>
    decreases |replies|, 0
  {
    if replies == [] || replies[0].code.Failed? || replies[0].written == 0 then []
    else Frames(replies[0].buffer, 0, replies[0].written) + After(replies[0].code, replies[1..])
  }

  function After(code: SqlCode, replies: seq<Reply>): seq<LogRecord>
    decreases |replies|, 1
  {
    if code.ReadToCurrent? then [] else Delivered(replies)
  }

  /** A read that the stream needs fails. */
  predicate Fails(replies: seq<Reply>)
    decreases |replies|, 0
  {
    replies != [] && (replies[0].code.Failed? || (replies[0].written > 0 && FailsAfter(replies[0].code, replies[1..])))
  }

  predicate FailsAfter(code: SqlCode, replies: seq<Reply>)
    decreases |replies|, 1
  {
    !code.ReadToCurrent? && Fails(replies)
  }

  // -------------------------------------------------------------- any batches

  function Concat(batches: seq<seq<LogRecord>>): seq<LogRecord> {
    if batches == [] then [] else batches[0] + Concat(batches[1..])
  }

  /** An answer that holds one batch. */
  function BatchReply(batch: seq<LogRecord>, code: SqlCode): (r: Reply)
    requires AreRecords(batch)
    ensures r.written == |batch| && r.code == code && Frames(r.buffer, 0, r.written) == batch
  {
    FramesOfFlatten([], batch, []);
    assert [] + Flatten(batch) + [] == Flatten(batch);
    RawReply(code, Flatten(batch), |batch|)
  }

  /** A source that answers with the given batches, and then with `tail`. */
  function Replies(batches: seq<seq<LogRecord>>, tail: seq<Reply>): seq<Reply>
    requires forall i :: 0 <= i < |batches| ==> AreRecords(batches[i])
  {
    if batches == [] then tail else [BatchReply(batches[0], Continue)] + Replies(batches[1..], tail)
  }

  /** However a stream is cut into non-empty batches, it delivers the same records,
      and then what the answers after them deliver. */
  lemma {:induction false} DeliveredIsConcat(batches: seq<seq<LogRecord>>, tail: seq<Reply>)
    requires forall i :: 0 <= i < |batches| ==> batches[i] != [] && AreRecords(batches[i])
    ensures Delivered(Replies(batches, tail)) == Concat(batches) + Delivered(tail)
    ensures Fails(Replies(batches, tail)) <==> Fails(tail)
  {
    hide AreRecords, Framed, Frames;
    if batches == [] {
    } else {
      DeliveredIsConcat(batches[1..], tail);
      var rs := Replies(batches, tail);
      assert rs[0] == BatchReply(batches[0], Continue) && rs[1..] == Replies(batches[1..], tail);
    }
  }

  /** A stream ends with a batch that is read to current or with an empty answer,
      whatever its source might say after that, and fails at an answer that fails. */
  lemma StreamEnds(batches: seq<seq<LogRecord>>, last: seq<LogRecord>, code: SqlCode, more: seq<Reply>)
    requires forall i :: 0 <= i < |batches| ==> batches[i] != [] && AreRecords(batches[i])
    requires AreRecords(last) && (code.Continue? ==> last == [])
    ensures var replies := Replies(batches, [BatchReply(last, code)] + more);
            && Delivered(replies) == (if code.Failed? then Concat(batches) else Concat(batches) + last)
            && (Fails(replies) <==> code.Failed?)
  {
    hide AreRecords, Framed, Frames;
    DeliveredIsConcat(batches, [BatchReply(last, code)] + more);
  }
}
