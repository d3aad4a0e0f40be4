/** One log stream's read control block: a buffer of framed records that is
    refilled from the source whenever its last record has been taken. */
module LogStream {
  import opened Bytes
  import opened Wrappers
  import opened LogFrames
  import opened MergeSpec
  import opened LogSource

  datatype Rc = Ok | ReadErr

  /** What a stream has left: `n` frames from `p`, then what its source delivers. */
  function Left(buf: seq<Byte>, p: nat, n: nat, code: SqlCode, source: seq<Reply>): (rs: seq<LogRecord>)
    requires Framed(buf, p, n)
    ensures |rs| == n + |After(code, source)|
  {
    Frames(buf, p, n) + After(code, source)
  }

  /** A stream about to be read. */
  function Pending(id: nat, source: seq<Reply>): Stream {
    Stream(id, Delivered(source), Fails(source) && Delivered(source) != [])
  }

  lemma FrameFirst(buf: seq<Byte>, p: nat, n: nat)
    requires n > 0 && Framed(buf, p, n)
    ensures FrameFits(buf, p) && Framed(buf, NextLogRecPtr(buf, p), n - 1)
    ensures n > 1 ==> FrameFits(buf, NextLogRecPtr(buf, p))
  {
  }

  lemma ConcatSplits<T>(x: T, a: seq<T>, b: seq<T>)
    ensures (([x] + a) + b)[0] == x && (([x] + a) + b)[1..] == a + b
  {
  }

  /** Taking the first record off is moving the cursor one frame on. */
  lemma LeftSplits(buf: seq<Byte>, p: nat, n: nat, code: SqlCode, source: seq<Reply>)
    requires n > 0 && Framed(buf, p, n)
    ensures Left(buf, p, n, code, source)[0] == FrameAt(buf, p)
    ensures Left(buf, p, n, code, source)[1..] == Left(buf, NextLogRecPtr(buf, p), n - 1, code, source)
    ensures n == 1 ==> Left(buf, p, n, code, source)[1..] == After(code, source)
  {
    FrameFirst(buf, p, n);
    ConcatSplits(FrameAt(buf, p), Frames(buf, NextLogRecPtr(buf, p), n - 1), After(code, source));
  }

  lemma NotLastSplits(s: Stream, buf: seq<Byte>, p: nat, n: nat, code: SqlCode, source: seq<Reply>)
    requires n > 1 && Framed(buf, p, n) && s.rest == Left(buf, p, n, code, source)
    ensures FrameFits(buf, p) && Framed(buf, NextLogRecPtr(buf, p), n - 1) && FrameFits(buf, NextLogRecPtr(buf, p))
    ensures |s.rest| > 1 && s.Pop() == Stream(s.id, Left(buf, NextLogRecPtr(buf, p), n - 1, code, source), s.faulty)
  {
    FrameFirst(buf, p, n);
    LeftSplits(buf, p, n, code, source);
  }

  lemma LastSplits(s: Stream, buf: seq<Byte>, p: nat, code: SqlCode, source: seq<Reply>)
    requires Framed(buf, p, 1)
    requires s.rest == Left(buf, p, 1, code, source) && s.faulty == FailsAfter(code, source)
    ensures s.Pop() == if code.ReadToCurrent? then Stream(s.id, [], false) else Pending(s.id, source)
    ensures s.faulty && |s.rest| == 1 <==> FailsAfter(code, source) && After(code, source) == []
  {
  }

  /** A source that delivers nothing and yet fails, fails at once. */
  lemma FailsAtOnce(source: seq<Reply>)
    ensures Fails(source) && Delivered(source) == [] <==> source != [] && source[0].code.Failed?
  {
  }

  class LogStreamReadCB {
    const logStreamNumber: nat
    var logBuffer: seq<Byte>
    var curLogBuffPtr: Option<nat>   // None is the NULL pointer
    var numLogRecordsRemaining: nat
    var currentLRI: Lri
    var sqlcode: SqlCode
    var source: seq<Reply>           // what the reads to come will answer
    ghost var freed: bool            // freeLogStreamCB has released it

    /** The stream is live and has `s` to deliver: the cursor stands on a frame
        boundary, the count is the number of frames from it, and currentLRI is
        the identifier of that frame, or all ones once there is none. */
    ghost predicate InOrder(s: Stream)
      reads this
    {
      && !freed
      && s.id == logStreamNumber
      && if numLogRecordsRemaining == 0 then
           curLogBuffPtr.None? && currentLRI == EXHAUSTED && s == Stream(s.id, [], false)
         else
           && curLogBuffPtr.Some?
           && Framed(logBuffer, curLogBuffPtr.value, numLogRecordsRemaining)
           && currentLRI == FirstLriValue(logBuffer, curLogBuffPtr.value)
           && s.rest == Left(logBuffer, curLogBuffPtr.value, numLogRecordsRemaining, sqlcode, source)
           && s.faulty == FailsAfter(sqlcode, source)
    }

    /** What clients see of a stream in order. */
    lemma InOrderFacts(s: Stream)
      requires InOrder(s)
      ensures !freed && s.id == logStreamNumber && currentLRI == s.Head()
      ensures s.rest != [] <==> numLogRecordsRemaining > 0
    {
      if numLogRecordsRemaining > 0 {
        LeftSplits(logBuffer, curLogBuffPtr.value, numLogRecordsRemaining, sqlcode, source);
      }
    }

    /** initializeReadLog: an empty buffer in front of its source. */
    constructor (id: nat, replies: seq<Reply>)
      ensures logStreamNumber == id && source == replies && numLogRecordsRemaining == 0 && !freed
      ensures logBuffer == [] && curLogBuffPtr == Some(0) && currentLRI == Lri(0, 0) && sqlcode == Continue
    {
      logStreamNumber := id;
      logBuffer := [];
      curLogBuffPtr := Some(0);
      numLogRecordsRemaining := 0;
      currentLRI := Lri(0, 0);
      sqlcode := Continue;
      source := replies;
      freed := false;
    }

    /** readTheLog */
    method ReadTheLog() returns (rc: Rc)
      requires numLogRecordsRemaining == 0 && !freed
      modifies this
      ensures rc == if old(source) != [] && old(source)[0].code.Failed? then ReadErr else Ok
      ensures rc == Ok ==> InOrder(Pending(logStreamNumber, old(source)))
      ensures rc == Ok && Delivered(old(source)) == [] ==>
                curLogBuffPtr == None && currentLRI == Lri(0xFFFF_FFFF_FFFF_FFFF, 0xFFFF_FFFF_FFFF_FFFF)
    {
      var reply := if source == [] then NOTHING_MORE else source[0];
      if source != [] {
        source := source[1..];
      }
      sqlcode := reply.code;
      logBuffer := reply.buffer;
      if sqlcode.Failed? {
        rc := ReadErr;
      } else if reply.written == 0 {
        rc := Ok;
        curLogBuffPtr := None;
        currentLRI := EXHAUSTED;
      } else {
        rc := Ok;
        curLogBuffPtr := Some(0);
        numLogRecordsRemaining := reply.written;
        currentLRI := FirstLriValue(logBuffer, 0);
      }
    }

    /** The record taken was the last in the buffer. */
    method Refill(ghost s: Stream) returns (rc: Rc)
      requires InOrder(s) && numLogRecordsRemaining == 1
      modifies this
      ensures rc == if s.faulty && |s.rest| == 1 then ReadErr else Ok
      ensures rc == Ok ==> InOrder(s.Pop())
    {
      rc := Ok;
      LastSplits(s, logBuffer, curLogBuffPtr.value, sqlcode, source);
      numLogRecordsRemaining := 0;
      if sqlcode.ReadToCurrent? {
        curLogBuffPtr := None;
        currentLRI := EXHAUSTED;
      } else {
        FailsAtOnce(source);
        rc := ReadTheLog();
      }
    }

    /** The second half of getNextLogRecordFromLogStream: move on to the next
        record, refilling the buffer if the record taken was the last in it. */
    method Advance(ghost s: Stream) returns (rc: Rc)
      requires InOrder(s) && numLogRecordsRemaining > 0
      modifies this
      ensures rc == if s.faulty && |s.rest| == 1 then ReadErr else Ok
      ensures rc == Ok ==> InOrder(s.Pop())
    {
      hide Left, FailsAfter, Framed, FirstLriValue, NextLogRecPtr;
      if numLogRecordsRemaining > 1 {
        rc := Ok;
        NotLastSplits(s, logBuffer, curLogBuffPtr.value, numLogRecordsRemaining, sqlcode, source);
        numLogRecordsRemaining := numLogRecordsRemaining - 1;
        curLogBuffPtr := Some(NextLogRecPtr(logBuffer, curLogBuffPtr.value));
        currentLRI := FirstLriValue(logBuffer, curLogBuffPtr.value);
      } else {
        rc := Refill(s);
      }
    }

    /** getNextLogRecordFromLogStream: copy the record under the cursor out, and
        move on. */
    method GetNextLogRecord(ghost s: Stream) returns (rc: Rc, logLRI: Lri, logRecord: seq<Byte>)
      requires InOrder(s) && s.rest != []
      modifies this
      ensures LogRecord(logLRI, logRecord) == s.rest[0]
      ensures rc == if s.faulty && |s.rest| == 1 then ReadErr else Ok
      ensures rc == Ok ==> InOrder(s.Pop())
    {
      InOrderFacts(s);
      var p := curLogBuffPtr.value;
      FrameFirst(logBuffer, p, numLogRecordsRemaining);
      LeftSplits(logBuffer, p, numLogRecordsRemaining, sqlcode, source);
      logLRI := FirstLriValue(logBuffer, p);
      logRecord := logBuffer[p..NextLogRecPtr(logBuffer, p)];
      rc := Advance(s);
    }
  }
}
