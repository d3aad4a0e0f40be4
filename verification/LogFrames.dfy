/** Framing of log records in the output buffer of db2ReadLogNoConn.

    Every record is preceded by an 8-byte db2LSN; the record itself starts with
    the 40-byte BASE_LOG_RECORD_HEADER, whose first field is the record's length
    without the 8-byte prefix. */
module LogFrames {
  import opened Bytes
  import opened Seqs

  const LSN_SIZE: nat := 8      // the db2LSN in front of every record
  const HEADER_SIZE: nat := 40  // BASE_LOG_RECORD_HEADER

  /** A type 1 log record identifier: log flush sequence, then LSN. */
  datatype Lri = Lri(part1: U64, part2: U64)

  /** A log record with its LSN prefix, and the identifier read from its header. */
  datatype LogRecord = LogRecord(lri: Lri, bytes: seq<Byte>)

  /** What getFirstLriValue reads at a frame that starts at `p`. */
  function FirstLriValue(buf: seq<Byte>, p: nat): Lri
    requires p + LSN_SIZE + HEADER_SIZE <= |buf|
  {
    Lri(U64At(buf, p + LSN_SIZE + 16), U64At(buf, p + LSN_SIZE + 8))
  }

  /** compLRItype1 */
  function CompLri(lhs: Lri, rhs: Lri): int {
    if lhs.part1 > rhs.part1 then 1
    else if lhs.part1 < rhs.part1 then -1
    else if lhs.part2 > rhs.part2 then 1
    else if lhs.part2 < rhs.part2 then -1
    else 0
  }

  predicate Less(a: Lri, b: Lri) {
    CompLri(a, b) < 0
  }

  predicate AtMost(a: Lri, b: Lri) {
    CompLri(a, b) <= 0
  }

  /** A complete record starts at `p`. */
  predicate FrameFits(buf: seq<Byte>, p: nat) {
    && p + LSN_SIZE + HEADER_SIZE <= |buf|
    && HEADER_SIZE <= U32At(buf, p + LSN_SIZE)
    && NextLogRecPtr(buf, p) <= |buf|
  }

  /** getNextLogRecPtr */
  function NextLogRecPtr(buf: seq<Byte>, p: nat): nat
    requires p + LSN_SIZE + HEADER_SIZE <= |buf|
  {
    p + U32At(buf, p + LSN_SIZE) + LSN_SIZE
  }

  /** `n` complete records lie one after the other from `p`. */
  predicate Framed(buf: seq<Byte>, p: nat, n: nat)
    decreases n
  {
    n == 0 || (FrameFits(buf, p) && Framed(buf, NextLogRecPtr(buf, p), n - 1))
  }

  function FrameAt(buf: seq<Byte>, p: nat): LogRecord
    requires FrameFits(buf, p)
  {
    LogRecord(FirstLriValue(buf, p), buf[p..NextLogRecPtr(buf, p)])
  }

  /** The `n` records that start at `p`. */
  function Frames(buf: seq<Byte>, p: nat, n: nat): (rs: seq<LogRecord>)
    requires Framed(buf, p, n)
    ensures |rs| == n
    decreases n
  {
    if n == 0 then [] else [FrameAt(buf, p)] + Frames(buf, NextLogRecPtr(buf, p), n - 1)
  }

  /** The record's bytes are one frame, and its identifier is the one in them. */
  predicate IsRecord(r: LogRecord) {
    FrameFits(r.bytes, 0) && NextLogRecPtr(r.bytes, 0) == |r.bytes| && r.lri == FirstLriValue(r.bytes, 0)
  }

  predicate AreRecords(rs: seq<LogRecord>) {
    forall i :: 0 <= i < |rs| ==> IsRecord(rs[i])
  }

  function Flatten(rs: seq<LogRecord>): seq<Byte> {
    if rs == [] then [] else rs[0].bytes + Flatten(rs[1..])
  }

  lemma FrameAtOf(buf: seq<Byte>, p: nat, r: LogRecord)
    requires IsRecord(r) && At(buf, p, r.bytes)
    ensures FrameFits(buf, p) && FrameAt(buf, p) == r && NextLogRecPtr(buf, p) == p + |r.bytes|
  {
    var end := p + |r.bytes|;
    AtSlice(buf, p, r.bytes);
    SubSlice(buf, p, end, LSN_SIZE, 4);
    SubSlice(buf, p, end, LSN_SIZE + 8, 8);
    SubSlice(buf, p, end, LSN_SIZE + 16, 8);
  }

  lemma FramesNext(buf: seq<Byte>, p: nat, n: nat)
    requires FrameFits(buf, p) && Framed(buf, NextLogRecPtr(buf, p), n)
    ensures Framed(buf, p, n + 1)
    ensures Frames(buf, p, n + 1) == [FrameAt(buf, p)] + Frames(buf, NextLogRecPtr(buf, p), n)
  {
    hide FrameFits, FrameAt, NextLogRecPtr;
  }

  lemma {:induction false} FramesCons(buf: seq<Byte>, p: nat, r: LogRecord, rs: seq<LogRecord>)
    requires IsRecord(r) && At(buf, p, r.bytes)
    requires var next := p + |r.bytes|; Framed(buf, next, |rs|) && Frames(buf, next, |rs|) == rs
    ensures Framed(buf, p, |rs| + 1) && Frames(buf, p, |rs| + 1) == [r] + rs
  {
    hide Framed, Frames, FrameFits, FrameAt, NextLogRecPtr, IsRecord, At;
    FrameAtOf(buf, p, r);
    FramesNext(buf, p, |rs|);
  }

  lemma FlattenSplits(buf: seq<Byte>, p: nat, rs: seq<LogRecord>)
    requires rs != [] && At(buf, p, Flatten(rs))
    ensures At(buf, p, rs[0].bytes) && At(buf, p + |rs[0].bytes|, Flatten(rs[1..]))
  {
    AtSplit(buf, p, rs[0].bytes, Flatten(rs[1..]));
  }

  lemma {:induction false} FramesIn(buf: seq<Byte>, p: nat, rs: seq<LogRecord>)
    requires AreRecords(rs) && At(buf, p, Flatten(rs))
    ensures Framed(buf, p, |rs|) && Frames(buf, p, |rs|) == rs
    decreases |rs|
  {
    hide FrameFits, FrameAt, IsRecord, At;
    if rs == [] {
    } else {
      FlattenSplits(buf, p, rs);
      FramesIn(buf, p + |rs[0].bytes|, rs[1..]);
      FramesCons(buf, p, rs[0], rs[1..]);
      assert rs == [rs[0]] + rs[1..];
    }
  }

  /** Walking the frames of a buffer inverts laying records end to end,
      wherever in the buffer they start and whatever follows them. */
  lemma FramesOfFlatten(before: seq<Byte>, rs: seq<LogRecord>, after: seq<Byte>)
    requires AreRecords(rs)
    ensures Framed(before + Flatten(rs) + after, |before|, |rs|)
    ensures Frames(before + Flatten(rs) + after, |before|, |rs|) == rs
  {
    FramesIn(before + Flatten(rs) + after, |before|, rs);
  }

  // ---------------------------------------------------- records, byte by byte

  /** What a record holds: the LSN in front of it, its identifier, and the rest of
      its header and what follows that, which are not looked at. */
  datatype Parts = Parts(lsn: seq<Byte>, gap: seq<Byte>, lri: Lri, ids: seq<Byte>, payload: seq<Byte>)

  predicate AreParts(p: Parts) {
    |p.lsn| == 8 && |p.gap| == 4 && |p.ids| == 16 && 40 + |p.payload| < 0x1_0000_0000
  }

  /** The bytes of a record: the length, which counts the header's 40 bytes and the
      payload, is at 8, the LSN at 16, the log flush sequence at 24. */
  function Encode(p: Parts): (b: seq<Byte>)
    requires AreParts(p)
    ensures |b| == 48 + |p.payload|
  {
    p.lsn + PutU32(40 + |p.payload|) + p.gap + PutU64(p.lri.part2) + PutU64(p.lri.part1) + (p.ids + p.payload)
  }

  function RecordOf(p: Parts): (r: LogRecord)
    requires AreParts(p)
    ensures IsRecord(r) && r.lri == p.lri && r.bytes == Encode(p)
  {
    HeaderFields(p);
    LogRecord(p.lri, Encode(p))
  }

  lemma HeaderFields(p: Parts)
    requires AreParts(p)
    ensures var b := Encode(p);
            U32At(b, 8) == 40 + |p.payload| && U64At(b, 16) == p.lri.part2 && U64At(b, 24) == p.lri.part1
  {
    var b := Encode(p);
    var size, part2, part1 := PutU32(40 + |p.payload|), PutU64(p.lri.part2), PutU64(p.lri.part1);
    AtAll(b);
    AtParts(b, p.lsn, size, p.gap, part2, part1, p.ids + p.payload);
    AtSlice(b, 8, size);
    AtSlice(b, 16, part2);
    AtSlice(b, 24, part1);
  }

  function RecordsOf(ps: seq<Parts>): (rs: seq<LogRecord>)
    requires forall i :: 0 <= i < |ps| ==> AreParts(ps[i])
    ensures |rs| == |ps|
  {
    if ps == [] then [] else [RecordOf(ps[0])] + RecordsOf(ps[1..])
  }

  lemma {:induction false} RecordsAre(ps: seq<Parts>)
    requires forall i :: 0 <= i < |ps| ==> AreParts(ps[i])
    ensures AreRecords(RecordsOf(ps))
    ensures forall i :: 0 <= i < |ps| ==> RecordsOf(ps)[i] == LogRecord(ps[i].lri, Encode(ps[i]))
  {
    hide RecordOf, IsRecord, AreParts, Encode;
    if ps != [] {
      RecordsAre(ps[1..]);
    }
  }

  /** Records of any contents, laid end to end, are found again byte for byte. */
  lemma EncodedFrames(before: seq<Byte>, ps: seq<Parts>, after: seq<Byte>)
    requires forall i :: 0 <= i < |ps| ==> AreParts(ps[i])
    ensures var buf := before + Flatten(RecordsOf(ps)) + after;
            && Framed(buf, |before|, |ps|) && Frames(buf, |before|, |ps|) == RecordsOf(ps)
            && forall i :: 0 <= i < |ps| ==> RecordsOf(ps)[i] == LogRecord(ps[i].lri, Encode(ps[i]))
  {
    hide AreParts, Encode, RecordsOf, AreRecords, Framed, Frames, Flatten;
    RecordsAre(ps);
    FramesOfFlatten(before, RecordsOf(ps), after);
  }

  /** What a frame is in any buffer: the record reaches as far as its length field
      says, counted from behind the LSN in front of it. */
  lemma FrameIs(buf: seq<Byte>, p: nat)
    requires p + 48 <= |buf|
    ensures var length := U32At(buf, p + 8);
            && (FrameFits(buf, p) <==> 40 <= length && p + 8 + length <= |buf|)
            && (FrameFits(buf, p) ==>
                  FrameAt(buf, p) == LogRecord(Lri(U64At(buf, p + 24), U64At(buf, p + 16)), buf[p..p + 8 + length]))
  {
  }

  /** Identifiers are ordered as the 128-bit numbers that they form. */
  lemma OrderIsNumeric(a: Lri, b: Lri)
    ensures Less(a, b) <==> a.part1 * TWO_64 + a.part2 < b.part1 * TWO_64 + b.part2
    ensures AtMost(a, b) <==> a.part1 * TWO_64 + a.part2 <= b.part1 * TWO_64 + b.part2
    ensures -1 <= CompLri(a, b) <= 1 && (CompLri(a, b) == 0 <==> a == b)
  {
  }
}
