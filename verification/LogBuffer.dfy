/** LogBufferDisplay: the walk over a buffer of log records. */
module LogBuffer {
  import opened Bytes
  import opened Seqs
  import opened Wrappers

  import HexDump
  import opened LogDecoder

  const LRI_SIZE: nat := 8
  const FILTER_DATA_SIZE: nat := 24   // sizeof(db2ReadLogFilterData): two 8-byte and two 4-byte fields

  /** How the walk ends: behind the last record, at a record whose component is not
      known, or beyond the buffer or a record. */
  datatype Display =
    | Finished(pos: nat, records: seq<Record>)
    | Abandoned(records: seq<Record>)
    | Overrun
  {
    function Behind(before: seq<Record>): Display {
      match this
      case Finished(pos, records) => Finished(pos, before + records)
      case Abandoned(records) => Abandoned(before + records)
      case Overrun => Overrun
    }
  }

  function PrefixSize(conn: int): nat {
    if conn == 0 then LRI_SIZE else FILTER_DATA_SIZE
  }

  /** A whole record lies at `p`. */
  predicate RecordFits(buf: seq<Byte>, p: nat) {
    p + RECORD_HEADER_SIZE <= |buf| && p + U32At(buf, p) <= |buf|
  }

  /** The walk over `n` records from `p` on, each of which LogRecordDisplay displays. */
  function Walk(buf: seq<Byte>, p: nat, n: nat, prefix: nat): Display
    decreases n
  {
    if n == 0 then Finished(p, [])
    else
      var r := p + prefix;
      if !RecordFits(buf, r) then Overrun
      else
        var end := r + U32At(buf, r);
        match DecodeRecord(buf[r..end])
        case Shown(record) => Walk(buf, end, n - 1, prefix).Behind([record])
        case Stopped(_) => Abandoned([])
        case Beyond => Overrun
  }

  /** A record as it lies in a buffer. */
  datatype Entry = Entry(prefix: seq<Byte>, bytes: seq<Byte>, record: Record)

  /** Its prefix has the given size, its size field counts its bytes, and LogRecordDisplay
      shows it. */
  predicate Fits(e: Entry, prefix: nat) {
    && |e.prefix| == prefix && |e.bytes| >= RECORD_HEADER_SIZE && U32At(e.bytes, 0) == |e.bytes|
    && DecodeRecord(e.bytes) == Shown(e.record)
  }

  predicate AllFit(es: seq<Entry>, prefix: nat) {
    es == [] || (Fits(es[0], prefix) && AllFit(es[1..], prefix))
  }

  lemma {:induction false} ReadableFit(es: seq<Entry>, prefix: nat)
    requires forall i :: 0 <= i < |es| ==> |es[i].prefix| == prefix && Reads(es[i].bytes, es[i].record)
    ensures AllFit(es, prefix)
  {
    if es != [] {
      ReadableFit(es[1..], prefix);
    }
  }

  function Lay(es: seq<Entry>): seq<Byte> {
    if es == [] then [] else es[0].prefix + es[0].bytes + Lay(es[1..])
  }

  function Records(es: seq<Entry>): seq<Record> {
    if es == [] then [] else [es[0].record] + Records(es[1..])
  }

  lemma SizeThere(buf: seq<Byte>, p: nat, rec: seq<Byte>)
    requires At(buf, p, rec) && |rec| >= RECORD_HEADER_SIZE
    ensures p + |rec| <= |buf| && U32At(buf, p) == U32At(rec, 0) && buf[p..p + |rec|] == rec
  {
    AtSlice(buf, p, rec);
    SubSlice(buf, p, p + |rec|, 0, 4);
  }

  lemma WalkStep(buf: seq<Byte>, p: nat, n: nat, e: Entry, prefix: nat)
    requires n > 0 && Fits(e, prefix) && At(buf, p + prefix, e.bytes)
    ensures Walk(buf, p, n, prefix) ==
            Walk(buf, p + prefix + |e.bytes|, n - 1, prefix).Behind([e.record])
  {
    hide At, U32At, DecodeRecord;
    SizeThere(buf, p + prefix, e.bytes);
  }

  lemma LaySplits(buf: seq<Byte>, p: nat, es: seq<Entry>)
    requires es != [] && At(buf, p, Lay(es))
    ensures var rec := p + |es[0].prefix|;
            At(buf, rec, es[0].bytes) && At(buf, rec + |es[0].bytes|, Lay(es[1..]))
    ensures |Lay(es)| == |es[0].prefix| + |es[0].bytes| + |Lay(es[1..])|
  {
    AtSplit(buf, p, es[0].prefix + es[0].bytes, Lay(es[1..]));
    AtSplit(buf, p, es[0].prefix, es[0].bytes);
  }

  lemma {:induction false} WalkInverse(buf: seq<Byte>, p: nat, es: seq<Entry>, prefix: nat)
    requires AllFit(es, prefix) && At(buf, p, Lay(es))
    ensures Walk(buf, p, |es|, prefix) == Finished(p + |Lay(es)|, Records(es))
    decreases |es|
  {
    hide Walk, At, U32At, DecodeRecord;
    if es == [] {
      WalkNothing(buf, p, prefix);
    } else {
      LaySplits(buf, p, es);
      WalkStep(buf, p, |es|, es[0], prefix);
      WalkInverse(buf, p + prefix + |es[0].bytes|, es[1..], prefix);
    }
  }

  lemma WalkNothing(buf: seq<Byte>, p: nat, prefix: nat)
    ensures Walk(buf, p, 0, prefix) == Finished(p, [])
  {
  }

  /** Walking a buffer of records shows every one of them once, in order, and ends
      exactly at the end of the buffer, with either kind of prefix. */
  lemma WalkShowsAll(es: seq<Entry>, conn: int)
    requires var prefix := if conn == 0 then 8 else 24;
             forall i :: 0 <= i < |es| ==> |es[i].prefix| == prefix && Reads(es[i].bytes, es[i].record)
    ensures Walk(Lay(es), 0, |es|, PrefixSize(conn)) == Finished(|Lay(es)|, Records(es))
  {
    hide Walk, At, Lay, DecodeRecord;
    ReadableFit(es, PrefixSize(conn));
    AtAll(Lay(es));
    WalkInverse(Lay(es), 0, es, PrefixSize(conn));
  }

  /** A record whose component is not known ends the walk: what comes before it has
      been shown, and nothing that comes after it is. */
  lemma {:induction false} WalkAbandons(buf: seq<Byte>, p: nat, es: seq<Entry>, e: Entry, n: nat, prefix: nat)
    requires AllFit(es, prefix) && At(buf, p, Lay(es)) && n > |es|
    requires |e.prefix| == prefix && At(buf, p + |Lay(es)| + prefix, e.bytes)
    requires |e.bytes| >= RECORD_HEADER_SIZE && U32At(e.bytes, 0) == |e.bytes| && DecodeRecord(e.bytes).Stopped?
    ensures Walk(buf, p, n, prefix) == Abandoned(Records(es))
    decreases |es|
  {
    hide At, U32At, DecodeRecord;
    if es == [] {
      SizeThere(buf, p + prefix, e.bytes);
    } else {
      LaySplits(buf, p, es);
      WalkStep(buf, p, n, es[0], prefix);
      WalkAbandons(buf, p + prefix + |es[0].bytes|, es[1..], e, n - 1, prefix);
    }
  }

  /** One round of the loop, if it stays in the buffer. */
  lemma Round(buf: seq<Byte>, p: nat, n: nat, prefix: nat)
    requires n > 0 && !Walk(buf, p, n, prefix).Overrun?
    ensures var r := p + prefix;
            && RecordFits(buf, r)
            && var end := r + U32At(buf, r);
               var decoded := DecodeRecord(buf[r..end]);
               && !decoded.Beyond?
               && (decoded.Shown? ==>
                     && !Walk(buf, end, n - 1, prefix).Overrun?
                     && Walk(buf, p, n, prefix) ==
                        Walk(buf, end, n - 1, prefix).Behind([decoded.record]))
               && (decoded.Stopped? ==> Walk(buf, p, n, prefix) == Abandoned([]))
  {
    hide DecodeRecord;
  }

  /** The dump of formatted user data reads back as all of the image behind its
      8-byte header. */
  lemma DumpShowsImage(image: seq<Byte>)
    requires |image| < 0x1_0000 && View(image).Some? && View(image).value.UserData?
    ensures HexDump.Undump(HexDump.Dump(View(image).value.data)) == image[8..]
  {
    UserDataIsRest(image);
    HexDump.DumpInverse(View(image).value.data);
  }

  // ------------------------------------------------------------------ the program

  lemma BehindNext(before: seq<Record>, r: Record, d: Display)
    ensures d.Behind([r]).Behind(before) == d.Behind(before + [r])
  {
  }

  /** The loop of LogBufferDisplay. */
  method WalkRecords(buf: seq<Byte>, numLogRecords: nat, prefix: nat)
    returns (rc: int, pos: nat, records: seq<Record>)
    requires !Walk(buf, 0, numLogRecords, prefix).Overrun?
    ensures rc == 0 || rc == 1
    ensures Walk(buf, 0, numLogRecords, prefix) == if rc == 0 then Finished(pos, records) else Abandoned(records)
  {
    hide Walk, U32At, DecodeRecord;
    rc, pos, records := 0, 0, [];
    ghost var all := Walk(buf, 0, numLogRecords, prefix);
    var n := 0;
    while n < numLogRecords
      invariant n <= numLogRecords && !Walk(buf, pos, numLogRecords - n, prefix).Overrun?
      invariant all == Walk(buf, pos, numLogRecords - n, prefix).Behind(records)
    {
      Round(buf, pos, numLogRecords - n, prefix);
      pos := pos + prefix;
      var end := pos + U32At(buf, pos);
      var decoded := DecodeRecord(buf[pos..end]);
      if decoded.Stopped? {
        rc := 1;
        return;
      }
      BehindNext(records, decoded.record, Walk(buf, end, numLogRecords - n - 1, prefix));
      records := records + [decoded.record];
      pos := end;
      n := n + 1;
    }
    WalkNothing(buf, pos, prefix);
  }

  /** LogBufferDisplay; the NULL buffer is None. */
  method LogBufferDisplay(logBuffer: Option<seq<Byte>>, numLogRecords: nat, conn: int)
    returns (rc: int, pos: nat, records: seq<Record>)
    requires logBuffer.Some? ==> !Walk(logBuffer.value, 0, numLogRecords, PrefixSize(conn)).Overrun?
    ensures (rc == 0 || rc == 1) && (logBuffer.None? ==> pos == 0 && records == [] && (rc == 0 <==> numLogRecords == 0))
    ensures logBuffer.Some? ==>
              Walk(logBuffer.value, 0, numLogRecords, PrefixSize(conn)) ==
              if rc == 0 then Finished(pos, records) else Abandoned(records)
  {
    hide Walk, DecodeRecord;
    if logBuffer.None? {
      rc, pos, records := if numLogRecords == 0 then 0 else 1, 0, [];
    } else {
      rc, pos, records := WalkRecords(logBuffer.value, numLogRecords, PrefixSize(conn));
    }
  }
}
