/** The backup vendor library: sqluvint, sqluvget, sqluvput and sqluvend over XBSA. */
module Vendor {
  import opened Bytes
  import opened Xbsa
  import opened VendorTransfer
  import opened ObjectNames
  import opened LatestCopy

  // State bits of a session.
  const INIT_DONE: bv8 := 0x01
  const READ_BEGUN: bv8 := 0x02
  const BACKUP: bv8 := 0x04
  const RESTORE: bv8 := 0x08

  datatype Action = WriteAction | ReadAction | OtherAction
  datatype EndAction = Commit | Abort | TerminateAction

  /** The store of module Xbsa, as an object that is called. */
  class Bsa {
    const script: seq<Answer>
    var trace: seq<Event>
    var contents: seq<Byte>
    var pos: nat
    var pattern: ObjName      // what the last query asked for
    ghost var phase: Phase

    ghost predicate Valid()
      reads this
    {
      phase == PhaseOf(trace) && pos <= |contents|
    }

    constructor (script: seq<Answer>, contents: seq<Byte>)
      ensures Valid() && phase == Fresh && trace == [] && pos == 0
      ensures this.script == script && this.contents == contents
    {
      this.script, this.contents := script, contents;
      trace, pos, pattern, phase := [], 0, ObjName("", ""), Fresh;
    }

    /** Record one call. */
    method Record(call: Call, code: Code)
      requires Valid()
      modifies this`trace, this`phase
      ensures Valid() && trace == old(trace) + [Event(call, code)]
      ensures phase == Next(old(phase), Event(call, code))
    {
      hide PhaseOf, Next;
      PhaseOfNext(trace, Event(call, code));
      phase := Next(phase, Event(call, code));
      trace := trace + [Event(call, code)];
    }

    /** Any call that moves no data. */
    method Invoke(call: Call) returns (a: Answer)
      requires Valid()
      modifies this`trace, this`phase
      ensures Valid() && a == AnswerTo(script, |old(trace)|)
      ensures trace == old(trace) + [Event(call, a.code)] && phase == Next(old(phase), Event(call, a.code))
    {
      hide PhaseOf, Next;
      a := AnswerTo(script, |trace|);
      Record(call, a.code);
    }

    /** BSAQueryObject */
    method Query(name: ObjName) returns (a: Answer)
      requires Valid() && (phase == InTxn || phase == Searching)
      modifies this`trace, this`phase, this`pattern
      ensures Valid() && phase == Searching && a == AnswerTo(script, |old(trace)|) && |trace| == |old(trace)| + 1
      ensures pattern == name && trace == old(trace) + [Event(QueryObject, a.code)]
    {
      hide PhaseOf;
      pattern := name;
      a := Invoke(QueryObject);
    }

    /** BSAGetNextQueryObject */
    method QueryNext() returns (a: Answer)
      requires Valid() && phase == Searching
      modifies this`trace, this`phase
      ensures Valid() && phase == Searching && a == AnswerTo(script, |old(trace)|) && |trace| == |old(trace)| + 1
    {
      hide PhaseOf;
      a := Invoke(GetNextQueryObject);
    }

    /** BSASendData: store a first part of data[offset..offset + len]. */
    method Send(data: seq<Byte>, offset: nat, len: U16) returns (code: Code, numBytes: U16)
      requires Valid() && phase == Writing && offset + len <= |data|
      modifies this`trace, this`phase, this`contents
      ensures Valid() && |trace| == |old(trace)| + 1 && phase == Writing
      ensures code == AnswerTo(script, |old(trace)|).code
      ensures numBytes == Min(AnswerTo(script, |old(trace)|).numBytes, len)
      ensures contents == old(contents) + if code.Success? then data[offset..offset + numBytes] else []
    {
      hide PhaseOf;
      var a := AnswerTo(script, |trace|);
      code, numBytes := a.code, Min(a.numBytes, len);
      if code.Success? {
        contents := contents + data[offset..offset + numBytes];
      }
      Record(SendData, code);
    }

    /** BSAGetData: put the next bytes of the object at `offset`. */
    method Get(buffer: array<Byte>, offset: nat, len: U16) returns (code: Code, numBytes: U16)
      requires Valid() && phase == Reading && offset + len <= buffer.Length
      modifies this`trace, this`phase, this`pos, buffer
      ensures Valid() && phase == Reading && trace == old(trace) + [Event(GetData, code)]
      ensures var a := AnswerTo(script, |old(trace)|);
              var move := MoveOf(a, len, |contents| - old(pos));
              && code == move.code
              && (if code.MoreData? || code.NoMoreData? then numBytes == move.numBytes && pos == old(pos) + numBytes
                  else numBytes == Min(a.numBytes, len) && pos == old(pos))
      ensures forall i :: 0 <= i < buffer.Length ==>
                buffer[i] ==
                if offset <= i < offset + (pos - old(pos)) then contents[old(pos) + (i - offset)] else old(buffer[i])
    {
      hide PhaseOf, MoveOf;
      var a := AnswerTo(script, |trace|);
      var move := MoveOf(a, len, |contents| - pos);
      code, numBytes := move.code, move.numBytes;
      Record(GetData, code);
      if code.MoreData? || code.NoMoreData? {
        forall i | offset <= i < offset + numBytes {
          buffer[i] := contents[pos + (i - offset)];
        }
        pos := pos + numBytes;
      } else {
        numBytes := Min(a.numBytes, len);
      }
    }
  }

  lemma ExtendPrefix<T>(before: seq<T>, data: seq<T>, i: nat, n: nat)
    requires i + n <= |data|
    ensures before + data[..i] + data[i..i + n] == before + data[..i + n]
  {
  }

  /** DB2XBSAHANDLE, the vendor control block. */
  class Db2XbsaHandle {
    const bsa: Bsa
    var status: bv8

    /** The status bits of an initialised session agree with what was called. */
    ghost predicate Valid()
      reads this, bsa
    {
      && bsa.Valid()
      && (|| (status == INIT_DONE | BACKUP && bsa.phase == Writing)
          || (status == INIT_DONE | RESTORE && bsa.phase == Searching)
          || (status == INIT_DONE | RESTORE | READ_BEGUN && bsa.phase == Reading))
    }

    constructor (bsa: Bsa)
      ensures this.bsa == bsa && status == 0
    {
      this.bsa, status := bsa, 0;
    }

    /** The loop of sqluvput. */
    method PutBlocks(data: seq<Byte>) returns (rc: Rc, actual: nat)
      requires bsa.Valid() && bsa.phase == Writing
      modifies bsa`trace, bsa`phase, bsa`contents
      ensures bsa.Valid() && bsa.phase == Writing
      ensures var r := VendorTransfer.Put(|data|, bsa.script, |old(bsa.trace)|);
              rc == r.rc && actual == r.actual && |bsa.trace| == |old(bsa.trace)| + r.calls
      ensures bsa.contents == old(bsa.contents) + data[..actual]
    {
      hide PhaseOf, VendorTransfer.Put, AnswerTo;
      rc := Ok;
      actual := 0;
      var toWrite: int := |data|;
      ghost var all := VendorTransfer.Put(|data|, bsa.script, |bsa.trace|);
      ghost var before := bsa.contents;
      while toWrite > 0
        invariant 0 <= toWrite && actual + toWrite <= |data| && bsa.phase == Writing && bsa.Valid()
        invariant var r := VendorTransfer.Put(toWrite, bsa.script, |bsa.trace|);
                  && all.rc == r.rc && all.actual == actual + r.actual
                  && |bsa.trace| + r.calls == |old(bsa.trace)| + all.calls
        invariant bsa.contents == before + data[..actual]
      {
        VendorTransfer.PutNext(toWrite, bsa.script, |bsa.trace|);
        var length: U16 := if toWrite >= USHRT_MAX then USHRT_MAX - 16 else toWrite;
        toWrite := toWrite - length;
        var code, numBytes := bsa.Send(data, actual, length);
        if !code.Success? {
          return IoError, actual;
        } else if numBytes == 0 {
          return EndOfTape, actual;
        }
        ExtendPrefix(before, data, actual, numBytes);
        actual := actual + numBytes;
      }
      VendorTransfer.PutNothing(bsa.script, |bsa.trace|);
    }

    /** sqluvput */
    method Sqluvput(data: seq<Byte>) returns (rc: Rc, actual: nat)
      requires Valid()
      modifies bsa`trace, bsa`phase, bsa`contents
      ensures Valid()
      ensures status & BACKUP == 0 ==> rc == InvAction && actual == 0 && bsa.trace == old(bsa.trace)
      ensures status & BACKUP != 0 ==>
                var r := VendorTransfer.Put(|data|, bsa.script, |old(bsa.trace)|);
                rc == r.rc && actual == r.actual && |bsa.trace| == |old(bsa.trace)| + r.calls
      ensures actual <= |data| && bsa.contents == old(bsa.contents) + data[..actual]
    {
      hide PhaseOf, VendorTransfer.Put;
      if status & BACKUP == 0 {
        return InvAction, 0;
      }
      rc, actual := PutBlocks(data);
    }

    /** The body of the loop in sqluvget: one block. */
    method GetBlock(buffer: array<Byte>, offset: nat, toRead: nat, ghost more: bool) returns (code: Code, numBytes: U16)
      requires bsa.Valid() && bsa.phase == Reading && offset + toRead <= buffer.Length
      modifies bsa`trace, bsa`phase, bsa`pos, buffer
      ensures bsa.Valid() && bsa.phase == Reading && |bsa.trace| == |old(bsa.trace)| + 1 && numBytes <= toRead
      ensures var r := VendorTransfer.Get(toRead, |bsa.contents| - old(bsa.pos), bsa.script, |old(bsa.trace)|, more);
              if code.MoreData? || code.NoMoreData? then
                && bsa.pos == old(bsa.pos) + numBytes
                && r == if toRead - numBytes > 0 && (code.MoreData? || more) then
                          VendorTransfer.Get(toRead - numBytes, |bsa.contents| - bsa.pos, bsa.script, |bsa.trace|, true)
                          .Plus(numBytes)
                        else GetResult(if code.NoMoreData? then EndOfMedia else MoreDataRc, numBytes, numBytes, 1)
              else bsa.pos == old(bsa.pos) && r == GetResult(IoError, numBytes, 0, 1)
      ensures forall i :: 0 <= i < buffer.Length ==>
                buffer[i] ==
                if offset <= i < offset + (bsa.pos - old(bsa.pos)) then bsa.contents[old(bsa.pos) + (i - offset)]
                             else old(buffer[i])
    {
      hide PhaseOf, VendorTransfer.Get, AnswerTo, MoveOf, Min;
      VendorTransfer.GetNext(toRead, |bsa.contents| - bsa.pos, bsa.script, |bsa.trace|, more);
      var length: U16 := if toRead >= USHRT_MAX then USHRT_MAX - 16 else toRead;
      code, numBytes := bsa.Get(buffer, offset, length);
    }

    /** The loop of sqluvget. */
    method GetBlocks(buffer: array<Byte>, size: nat) returns (rc: Rc, actual: nat)
      requires bsa.Valid() && bsa.phase == Reading && size <= buffer.Length
      modifies bsa`trace, bsa`phase, bsa`pos, buffer
      ensures bsa.Valid() && bsa.phase == Reading
      ensures var r := VendorTransfer.Get(size, |bsa.contents| - old(bsa.pos), bsa.script, |old(bsa.trace)|, false);
              && rc == r.rc && actual == r.actual && bsa.pos == old(bsa.pos) + r.got
              && |bsa.trace| == |old(bsa.trace)| + r.calls
      ensures forall i :: 0 <= i < buffer.Length ==>
                buffer[i] == if i < bsa.pos - old(bsa.pos) then bsa.contents[old(bsa.pos) + i] else old(buffer[i])
    {
      hide PhaseOf, VendorTransfer.Get, AnswerTo, MoveOf, Min;
      rc := Ok;
      actual := 0;
      var toRead: int := size;
      ghost var all := VendorTransfer.Get(size, |bsa.contents| - bsa.pos, bsa.script, |bsa.trace|, false);
      while true
        invariant bsa.Valid() && bsa.phase == Reading
        invariant 0 <= toRead && actual + toRead == size && bsa.pos == old(bsa.pos) + actual
        invariant rc == Ok || rc == MoreDataRc
        invariant var r := VendorTransfer.Get(toRead, |bsa.contents| - bsa.pos, bsa.script, |bsa.trace|, rc == MoreDataRc);
                  && all.rc == r.rc && all.actual == actual + r.actual && all.got == actual + r.got
                  && |old(bsa.trace)| + all.calls == |bsa.trace| + r.calls
        invariant forall i :: 0 <= i < buffer.Length ==>
                    buffer[i] == if i < actual then bsa.contents[old(bsa.pos) + i] else old(buffer[i])
        decreases |old(bsa.trace)| + all.calls - |bsa.trace|
      {
        var code, numBytes := GetBlock(buffer, actual, toRead, rc == MoreDataRc);
        actual := actual + numBytes;
        if code.MoreData? {
          rc := MoreDataRc;
        } else if !code.NoMoreData? {
          return IoError, actual;
        }
        toRead := toRead - numBytes;
        if !(toRead > 0 && rc == MoreDataRc) {
          rc := if code.NoMoreData? then EndOfMedia else rc;
          return;
        }
      }
    }

    /** The return code of the first call of sqluvget, unless there is more data. */
    static function FirstRc(code: Code): (rc: Rc)
      ensures (rc == Ok <==> code == Success) && (rc == ObjNotFound <==> code == NoMatch)
      ensures rc == IoError <==> code in {MoreData, NoMoreData, Failure}
    {
      if code.Success? then Ok else if code.NoMatch? then ObjNotFound else IoError
    }

    /** The first call of sqluvget: query the object, open it, and read from it if
        BSAGetObject says that there is more. Whether BSAGetObject succeeded is not kept:
        the next call reads on. */
    method BeginRead(buffer: array<Byte>, size: nat) returns (rc: Rc, actual: nat)
      requires Valid() && bsa.phase == Searching && size <= buffer.Length
      modifies this`status, bsa`trace, bsa`phase, bsa`pattern, bsa`pos, buffer
      ensures Valid() && bsa.phase == if Finds(AnswerTo(bsa.script, |old(bsa.trace)|).code) then Reading else Searching
      ensures var k := |old(bsa.trace)|;
              var query, open, data := AnswerTo(bsa.script, k), AnswerTo(bsa.script, k + 1), AnswerTo(bsa.script, k + 2);
              var move := MoveOf(data, size % 0x1_0000, |bsa.contents| - old(bsa.pos));
              var asked, found := Event(QueryObject, query.code), Event(GetObject, open.code);
              if !Finds(query.code) then
                rc == ObjNotFound && bsa.pos == old(bsa.pos) && bsa.trace == old(bsa.trace) + [asked]
              else if !open.code.MoreData? then
                && rc == FirstRc(open.code) && actual == open.numBytes && bsa.pos == old(bsa.pos)
                && bsa.trace == old(bsa.trace) + [asked, found]
              else
                && rc == (if move.code.MoreData? then MoreDataRc else FirstRc(move.code))
                && bsa.trace == old(bsa.trace) + [asked, found, Event(GetData, move.code)]
                && if move.code.MoreData? || move.code.NoMoreData? then
                     actual == move.numBytes && bsa.pos == old(bsa.pos) + actual
                   else
                     actual == Min(data.numBytes, size % 0x1_0000) && bsa.pos == old(bsa.pos)
      ensures old(bsa.pos) <= bsa.pos
      ensures forall i :: 0 <= i < buffer.Length ==>
                buffer[i] == if i < bsa.pos - old(bsa.pos) then bsa.contents[old(bsa.pos) + i] else old(buffer[i])
    {
      hide PhaseOf, MoveOf, AnswerTo;
      actual := 0;
      var a := bsa.Query(bsa.pattern);
      if !Finds(a.code) {
        return ObjNotFound, actual;
      }
      status := status | READ_BEGUN;
      a := bsa.Invoke(GetObject);
      actual := a.numBytes;
      var code := a.code;
      if code.MoreData? {
        var length := size % 0x1_0000;   // bufferLen holds 16 bits
        code, actual := bsa.Get(buffer, 0, length);
        if code.MoreData? {
          return MoreDataRc, actual;
        }
      }
      rc := FirstRc(code);
    }

    /** sqluvget */
    method Sqluvget(buffer: array<Byte>, size: nat) returns (rc: Rc, actual: nat)
      requires Valid() && size <= buffer.Length
      modifies this`status, bsa`trace, bsa`phase, bsa`pattern, bsa`pos, buffer
      ensures Valid() && bsa.phase.SideOf() == old(bsa.phase.SideOf()) && (old(bsa.phase).Reading? ==> bsa.phase.Reading?)
      ensures old(status) & RESTORE == 0 ==> rc == InvAction && bsa.trace == old(bsa.trace) && buffer[..] == old(buffer[..])
      ensures old(bsa.phase).Reading? ==>
                var r := VendorTransfer.Get(size, |bsa.contents| - old(bsa.pos), bsa.script, |old(bsa.trace)|, false);
                && rc == r.rc && actual == r.actual && bsa.pos == old(bsa.pos) + r.got
                && |bsa.trace| == |old(bsa.trace)| + r.calls
      ensures old(bsa.phase).Reading? ==>
                forall i :: 0 <= i < buffer.Length ==>
                  buffer[i] == if i < bsa.pos - old(bsa.pos) then bsa.contents[old(bsa.pos) + i] else old(buffer[i])
    {
      hide PhaseOf, VendorTransfer.Get, MoveOf, AnswerTo;
      if status & RESTORE == 0 {
        rc, actual := InvAction, 0;
      } else if status & READ_BEGUN == 0 {
        rc, actual := BeginRead(buffer, size);
      } else {
        rc, actual := GetBlocks(buffer, size);
      }
    }
  }

  // ------------------------------------------------------------------- sqluvint

  /** The body of the loop in getLatestCopy. */
  method ConsiderObject(best: Latest, e: Found, nodeNum: U16, prefixes: Prefixes) returns (next: Latest)
    ensures next == Consider(best, e, nodeNum, prefixes)
  {
    hide PartitionOf, StartsWith, StrnCmp, ImageOf;
    next := best;
    if PartitionOf(e.space) == nodeNum {
      var base := BaseName(e.path);
      if StartsWith(base, prefixes.dbFull) || StartsWith(base, prefixes.db) {
        next := next.(database := true);
      } else if StartsWith(base, prefixes.tsp) {
        next := next.(tableSpace := true);
      }
      if !best.found {
        next := next.(found := true, name := ImageOf(e), length := |ImageOf(e).path|);
      } else if StrnCmp(e.path, best.name.path, best.length) > 0 {
        next := next.(name := ImageOf(e));
      }
    }
  }

  /** The loop of getLatestCopy. */
  method ScanImages(bsa: Bsa, pattern: ObjName, nodeNum: U16, prefixes: Prefixes) returns (best: Latest)
    requires bsa.Valid() && (bsa.phase == InTxn || bsa.phase == Searching)
    modifies bsa`trace, bsa`phase, bsa`pattern
    ensures bsa.Valid() && bsa.phase == Searching
    ensures best == LatestOf(Listing(bsa.script, |old(bsa.trace)|), nodeNum, prefixes)
    ensures |bsa.trace| == |old(bsa.trace)| + ListingCalls(bsa.script, |old(bsa.trace)|)
  {
    hide PhaseOf, Consider, LatestOf, Listing, ListingCalls, AnswerTo;
    best := NOTHING;
    ghost var es, seen := Listing(bsa.script, |bsa.trace|), [];
    ghost var calls := |bsa.trace| + ListingCalls(bsa.script, |bsa.trace|);
    LatestOfNothing(nodeNum, prefixes);
    var a := bsa.Query(pattern);
    assert [] + es == es;
    while true
      invariant bsa.Valid() && bsa.phase == Searching && |bsa.trace| > 0 && a == AnswerTo(bsa.script, |bsa.trace| - 1)
      invariant calls == |bsa.trace| - 1 + ListingCalls(bsa.script, |bsa.trace| - 1)
      invariant best == LatestOf(seen, nodeNum, prefixes) && es == seen + Listing(bsa.script, |bsa.trace| - 1)
      decreases calls - |bsa.trace|
    {
      ListingNext(bsa.script, |bsa.trace| - 1);
      if !Finds(a.code) {
        assert seen + [] == seen;
        break;
      }
      best := ConsiderObject(best, a.found, nodeNum, prefixes);
      LatestOfNext(seen, a.found, nodeNum, prefixes);
      if a.code.NoMoreData? {
        break;
      }
      MoveFirst(seen, a.found, Listing(bsa.script, |bsa.trace|));
      seen := seen + [a.found];
      a := bsa.QueryNext();
    }
  }

  lemma LatestOfNothing(nodeNum: U16, prefixes: Prefixes)
    ensures LatestOf([], nodeNum, prefixes) == NOTHING
  {
  }

  lemma MoveFirst<T>(xs: seq<T>, y: T, ys: seq<T>)
    ensures xs + ([y] + ys) == xs + [y] + ys
  {
  }

  /** What getLatestCopy returns for what it has found. */
  function LatestRc(b: Latest): Rc {
    if b.tableSpace && b.database then ObjsFound else if b.found then Ok else ObjNotFound
  }

  /** getLatestCopy */
  method GetLatestCopy(bsa: Bsa, pattern: ObjName, nodeNum: U16, prefixes: Prefixes) returns (rc: Rc, name: ObjName)
    requires bsa.Valid() && (bsa.phase == InTxn || bsa.phase == Searching)
    modifies bsa`trace, bsa`phase, bsa`pattern
    ensures bsa.Valid() && bsa.phase == Searching
    ensures |bsa.trace| == |old(bsa.trace)| + ListingCalls(bsa.script, |old(bsa.trace)|)
    ensures var es := Listing(bsa.script, |old(bsa.trace)|);
            var b := LatestOf(es, nodeNum, prefixes);
            && rc == LatestRc(b)
            && (rc == ObjsFound <==> HasDatabase(es, nodeNum, prefixes) && HasTableSpace(es, nodeNum, prefixes))
            && (rc == ObjNotFound <==> Images(es, nodeNum) == [])
            && (rc == Ok ==>
                  name == ObjName(b.name.space, b.name.path + ".*") && RightIfPrevails(es, nodeNum, b.name))
  {
    hide PhaseOf, LatestOf, Listing, ListingCalls, HasDatabase, HasTableSpace, Images, RightIfPrevails;
    name := pattern;
    LatestPromise(Listing(bsa.script, |bsa.trace|), nodeNum, prefixes);
    var best := ScanImages(bsa, pattern, nodeNum, prefixes);
    if best.tableSpace && best.database {
      rc := ObjsFound;
    } else if best.found {
      rc, name := Ok, ObjName(best.name.space, best.name.path + ".*");
    } else {
      rc := ObjNotFound;
    }
  }

  /** How many of the objects found belong to the partition, and how many of those
      are the first of their image. */
  function CountMine(es: seq<Found>, nodeNum: U16): nat {
    if es == [] then 0 else (if Mine(es[0], nodeNum) then 1 else 0) + CountMine(es[1..], nodeNum)
  }

  predicate IsFirst(path: string) {
    |path| >= 2 && path[|path| - 2] == '.' && path[|path| - 1] == '1'
  }

  function CountFirst(es: seq<Found>, nodeNum: U16): nat {
    if es == [] then 0
    else (if Mine(es[0], nodeNum) && IsFirst(es[0].path) then 1 else 0) + CountFirst(es[1..], nodeNum)
  }

  lemma CountNext(e: Found, es: seq<Found>, nodeNum: U16)
    ensures CountMine([e] + es, nodeNum) == (if Mine(e, nodeNum) then 1 else 0) + CountMine(es, nodeNum)
    ensures CountFirst([e] + es, nodeNum) == (if Mine(e, nodeNum) && IsFirst(e.path) then 1 else 0) + CountFirst(es, nodeNum)
  {
    hide Mine, IsFirst;
    assert ([e] + es)[1..] == es;
  }

  lemma CountNothing(nodeNum: U16)
    ensures CountMine([], nodeNum) == 0 && CountFirst([], nodeNum) == 0
  {
  }

  /** Some object belongs to the partition. */
  ghost predicate SomeMine(es: seq<Found>, nodeNum: U16) {
    exists i :: 0 <= i < |es| && Mine(es[i], nodeNum)
  }

  /** Two of its objects are the first of their image. */
  ghost predicate TwoImages(es: seq<Found>, nodeNum: U16) {
    exists i, j :: 0 <= i < j < |es| && StartsImage(es[i], nodeNum) && StartsImage(es[j], nodeNum)
  }

  predicate StartsImage(e: Found, nodeNum: U16) {
    Mine(e, nodeNum) && IsFirst(e.path)
  }

  /** The first object of an image is the one with sequence number 1. */
  lemma FirstIsOne(image: string, sequence: string)
    requires '.' !in sequence
    ensures IsFirst(image + "." + sequence) <==> sequence == "1"
  {
    var path, n := image + "." + sequence, |sequence|;
    assert forall i :: 0 <= i < n ==> path[|path| - n + i] == sequence[i];
    assert path[|path| - n - 1] == '.';
    if IsFirst(path) {
      assert n == 1;
    }
  }

  lemma {:induction false} CountsAre(es: seq<Found>, nodeNum: U16)
    ensures CountMine(es, nodeNum) > 0 <==> SomeMine(es, nodeNum)
    ensures CountFirst(es, nodeNum) > 0 <==> exists i :: 0 <= i < |es| && StartsImage(es[i], nodeNum)
    ensures CountFirst(es, nodeNum) > 1 <==> TwoImages(es, nodeNum)
  {
    hide Mine, IsFirst;
    if es != [] {
      CountsAre(es[1..], nodeNum);
      var rest := es[1..];
      assert forall i :: 0 <= i < |rest| ==> rest[i] == es[i + 1];
      if TwoImages(es, nodeNum) {
        var i, j :| 0 <= i < j < |es| && StartsImage(es[i], nodeNum) && StartsImage(es[j], nodeNum);
        assert StartsImage(rest[j - 1], nodeNum);
        assert i > 0 ==> StartsImage(rest[i - 1], nodeNum);
      }
    }
  }

  /** The query in sqluvint for the objects of the image to be restored. */
  method CountObjects(bsa: Bsa, pattern: ObjName, nodeNum: U16) returns (code: Code, searchCount: nat, uniqueBackup: nat)
    requires bsa.Valid() && (bsa.phase == InTxn || bsa.phase == Searching)
    modifies bsa`trace, bsa`phase, bsa`pattern
    ensures bsa.Valid() && bsa.phase == Searching && bsa.pattern == pattern
    ensures var es := Listing(bsa.script, |old(bsa.trace)|);
            searchCount == CountMine(es, nodeNum) && uniqueBackup == CountFirst(es, nodeNum)
    ensures code == ListingCode(bsa.script, |old(bsa.trace)|)
  {
    hide PhaseOf, CountMine, CountFirst, Listing, ListingCode, ListingCalls, AnswerTo, PartitionOf, IsFirst, Finds;
    searchCount, uniqueBackup := 0, 0;
    ghost var es, end := Listing(bsa.script, |bsa.trace|), ListingCode(bsa.script, |bsa.trace|);
    ghost var calls := |bsa.trace| + ListingCalls(bsa.script, |bsa.trace|);
    CountNothing(nodeNum);
    var a := bsa.Query(pattern);
    while true
      invariant bsa.Valid() && bsa.phase == Searching && bsa.pattern == pattern
      invariant |bsa.trace| > 0 && a == AnswerTo(bsa.script, |bsa.trace| - 1)
      invariant calls == |bsa.trace| - 1 + ListingCalls(bsa.script, |bsa.trace| - 1)
      invariant end == ListingCode(bsa.script, |bsa.trace| - 1)
      invariant CountMine(es, nodeNum) == searchCount + CountMine(Listing(bsa.script, |bsa.trace| - 1), nodeNum)
      invariant CountFirst(es, nodeNum) == uniqueBackup + CountFirst(Listing(bsa.script, |bsa.trace| - 1), nodeNum)
      decreases calls - |bsa.trace|
    {
      ListingNext(bsa.script, |bsa.trace| - 1);
      if !Finds(a.code) {
        break;
      }
      CountNext(a.found, [], nodeNum);
      CountNext(a.found, Listing(bsa.script, |bsa.trace|), nodeNum);
      if PartitionOf(a.found.space) == nodeNum {
        if IsFirst(a.found.path) {
          uniqueBackup := uniqueBackup + 1;
        }
        searchCount := searchCount + 1;
      }
      if a.code.NoMoreData? {
        assert [a.found] + [] == [a.found];
        break;
      }
      a := bsa.QueryNext();
    }
    code := a.code;
  }

  /** The object that the second query of a restore looks for, and where that query
      starts: without a timestamp, the first query has chosen the latest image. */
  ghost function Wanted(script: seq<Answer>, k: nat, pattern: ObjName, timestamp: string, nodeNum: U16, prefixes: Prefixes)
    : (ObjName, nat)
  {
    if timestamp != "" then (pattern, k)
    else
      var b := LatestOf(Listing(script, k), nodeNum, prefixes);
      (ObjName(b.name.space, b.name.path + ".*"), k + ListingCalls(script, k))
  }

  /** Whether the first query of a restore, if there is one, has chosen an image. */
  ghost predicate Chosen(script: seq<Answer>, k: nat, timestamp: string, nodeNum: U16, prefixes: Prefixes) {
    timestamp != "" || LatestRc(LatestOf(Listing(script, k), nodeNum, prefixes)) == Ok
  }

  /** Whether a restore finds an image to open: one is wanted, and the query for it ends
      well and finds objects of the partition, of one image only. */
  ghost predicate OpensImage(script: seq<Answer>, k: nat, pattern: ObjName, timestamp: string, nodeNum: U16,
                             prefixes: Prefixes) {
    && Chosen(script, k, timestamp, nodeNum, prefixes)
    && var k1 := Wanted(script, k, pattern, timestamp, nodeNum, prefixes).1;
       var es, end := Listing(script, k1), ListingCode(script, k1);
       SomeMine(es, nodeNum) && !TwoImages(es, nodeNum) && (end.NoMatch? || end.NoMoreData?)
  }

  /** What a restore returns for what it finds. */
  ghost function ImageRc(script: seq<Answer>, k: nat, pattern: ObjName, timestamp: string, nodeNum: U16,
                         prefixes: Prefixes): Rc
  {
    if !Chosen(script, k, timestamp, nodeNum, prefixes) then LatestRc(LatestOf(Listing(script, k), nodeNum, prefixes))
    else
      var k1 := Wanted(script, k, pattern, timestamp, nodeNum, prefixes).1;
      if !SomeMine(Listing(script, k1), nodeNum) then ObjNotFound
      else if ListingCode(script, k1) !in {NoMatch, NoMoreData} then DevError
      else if TwoImages(Listing(script, k1), nodeNum) then ObjsFound
      else Ok
  }

  /** The restore branch of sqluvint: it succeeds exactly if an image is wanted, and the
      query for it ends well and finds objects of the partition, of one image only. */
  method OpenImage(bsa: Bsa, pattern: ObjName, timestamp: string, nodeNum: U16, prefixes: Prefixes) returns (rc: Rc)
    requires bsa.Valid() && bsa.phase == InTxn
    modifies bsa`trace, bsa`phase, bsa`pattern
    ensures bsa.Valid() && bsa.phase == Searching
    ensures rc == Ok <==> OpensImage(bsa.script, |old(bsa.trace)|, pattern, timestamp, nodeNum, prefixes)
    ensures var k := |old(bsa.trace)|;
            if !Chosen(bsa.script, k, timestamp, nodeNum, prefixes) then
              rc == LatestRc(LatestOf(Listing(bsa.script, k), nodeNum, prefixes))
            else
              var (wanted, k1) := Wanted(bsa.script, k, pattern, timestamp, nodeNum, prefixes);
              var es, end := Listing(bsa.script, k1), ListingCode(bsa.script, k1);
              && bsa.pattern == wanted
              && (rc == ObjNotFound <==> !SomeMine(es, nodeNum))
              && (rc == DevError <==> SomeMine(es, nodeNum) && !end.NoMatch? && !end.NoMoreData?)
              && (rc == ObjsFound <==>
                    SomeMine(es, nodeNum) && TwoImages(es, nodeNum) && (end.NoMatch? || end.NoMoreData?))
    ensures rc == ImageRc(bsa.script, |old(bsa.trace)|, pattern, timestamp, nodeNum, prefixes)
  {
    hide PhaseOf, LatestOf, Listing, ListingCalls, ListingCode, CountMine, CountFirst, SomeMine, TwoImages;
    hide HasDatabase, HasTableSpace, Images, RightIfPrevails;
    var name := pattern;
    if timestamp == "" {
      rc, name := GetLatestCopy(bsa, pattern, nodeNum, prefixes);
      if rc != Ok {
        return;
      }
    }
    CountsAre(Listing(bsa.script, |bsa.trace|), nodeNum);
    var code, searchCount, uniqueBackup := CountObjects(bsa, name, nodeNum);
    if searchCount == 0 {
      rc := ObjNotFound;
    } else if !code.NoMatch? && !code.NoMoreData? {
      rc := DevError;
    } else if uniqueBackup > 1 {
      rc := ObjsFound;
    } else {
      rc := Ok;
    }
  }

  /** The backup and restore branches of sqluvint. */
  method OpenObject(bsa: Bsa, action: Action, pattern: ObjName, timestamp: string, nodeNum: U16, prefixes: Prefixes)
    returns (rc: Rc)
    requires bsa.Valid() && bsa.phase == InTxn && !action.OtherAction?
    modifies bsa`trace, bsa`phase, bsa`pattern
    ensures bsa.Valid()
    ensures rc == Ok ==> bsa.phase == if action.WriteAction? then Writing else Searching
    ensures rc != Ok ==> bsa.phase == if action.WriteAction? then Failed(true) else Searching
    ensures rc == Ok <==>
            if action.WriteAction? then AnswerTo(bsa.script, |old(bsa.trace)|).code.Success?
            else OpensImage(bsa.script, |old(bsa.trace)|, pattern, timestamp, nodeNum, prefixes)
    ensures rc == Ok ||
            rc == if action.WriteAction? then InitFailed
                  else ImageRc(bsa.script, |old(bsa.trace)|, pattern, timestamp, nodeNum, prefixes)
  {
    hide PhaseOf, AnswerTo, OpensImage, ImageRc, Chosen, Wanted;
    if action.WriteAction? {
      var a := bsa.Invoke(CreateObject);
      rc := if a.code.Success? then Ok else InitFailed;
    } else {
      rc := OpenImage(bsa, pattern, timestamp, nodeNum, prefixes);
    }
  }

  /** What the answers of the store mean for the start of a session. */
  predicate InitLeavesNothing(script: seq<Answer>, k: nat) {
    !AnswerTo(script, k).code.Success? && !AnswerTo(script, k).handleSet
  }

  predicate TxnBegins(script: seq<Answer>, k: nat) {
    AnswerTo(script, k).code.Success? && AnswerTo(script, k + 1).code.Success?
  }

  /** Exactly when a session starts: the transaction begins, and the object to be
      stored is created, or an image to be fetched is found. */
  ghost predicate Starts(script: seq<Answer>, k: nat, action: Action, pattern: ObjName, timestamp: string, nodeNum: U16,
                         prefixes: Prefixes) {
    match action
    case OtherAction => false
    case WriteAction => TxnBegins(script, k) && AnswerTo(script, k + 2).code.Success?
    case ReadAction => TxnBegins(script, k) && OpensImage(script, k + 2, pattern, timestamp, nodeNum, prefixes)
  }

  /** sqluvint, once its memory is allocated. */
  method Sqluvint(bsa: Bsa, action: Action, pattern: ObjName, timestamp: string, nodeNum: U16, prefixes: Prefixes)
    returns (rc: Rc, handle: Db2XbsaHandle?)
    requires bsa.Valid() && bsa.phase == Fresh
    modifies bsa`trace, bsa`phase, bsa`pattern
    ensures bsa.Valid() && (rc == Ok <==> handle != null)
    ensures handle != null ==>
              && fresh(handle) && handle.bsa == bsa && handle.Valid() && TxnBegins(bsa.script, |old(bsa.trace)|)
              && !action.OtherAction? && bsa.phase == (if action.WriteAction? then Writing else Searching)
              && (action.WriteAction? ==> handle.status == INIT_DONE | BACKUP)
              && (action.ReadAction? ==> handle.status == INIT_DONE | RESTORE)
    ensures rc == Ok <==> Starts(bsa.script, |old(bsa.trace)|, action, pattern, timestamp, nodeNum, prefixes)
    ensures rc == Ok ||
            rc == if action.OtherAction? then InvAction
                  else if action.WriteAction? || !TxnBegins(bsa.script, |old(bsa.trace)|) then InitFailed
                  else ImageRc(bsa.script, |old(bsa.trace)| + 2, pattern, timestamp, nodeNum, prefixes)
    ensures handle == null ==>
              bsa.phase ==
              if action.OtherAction? then Fresh
              else if InitLeavesNothing(bsa.script, |old(bsa.trace)|) then Failed(false)
              else if !TxnBegins(bsa.script, |old(bsa.trace)|) then Closed(Neither, NotBegun)
              else Closed(if action.WriteAction? then Side.Backup else Side.Restore, LeftOpen)
  {
    hide PhaseOf, AnswerTo, OpensImage, ImageRc;
    handle := null;
    if action.OtherAction? {
      return InvAction, null;
    }
    var a := bsa.Invoke(Init);
    if !a.code.Success? {
      // terminated only if a session handle was returned
      if a.handleSet {
        var _ := bsa.Invoke(Terminate);
      }
      return InitFailed, null;
    }
    a := bsa.Invoke(BeginTxn);
    if !a.code.Success? {
      var _ := bsa.Invoke(Terminate);
      return InitFailed, null;
    }
    rc := OpenObject(bsa, action, pattern, timestamp, nodeNum, prefixes);
    if rc == Ok {
      handle := new Db2XbsaHandle(bsa);
      handle.status := INIT_DONE | if action.WriteAction? then BACKUP else RESTORE;
    } else {
      var _ := bsa.Invoke(Terminate);
    }
  }

  // ------------------------------------------------------------------- sqluvend

  /** sqluvend */
  method Sqluvend(endAction: EndAction, handle: Db2XbsaHandle?) returns (rc: Rc)
    requires handle != null ==> handle.Valid()
    modifies if handle == null then {} else {handle.bsa}
    ensures handle == null ==> rc == Ok
    ensures handle != null ==>
              var bsa, k := handle.bsa, |old(handle.bsa.trace)|;
              var dataEnded, txnEnded := AnswerTo(bsa.script, k).code, AnswerTo(bsa.script, k + 1).code;
              && bsa.Valid() && bsa.phase == Closed(old(handle.bsa.phase.SideOf()), Ended)
              && bsa.contents == old(handle.bsa.contents)
              && rc == (if dataEnded.Success? && txnEnded.Success? then Ok else DevError)
              && bsa.trace ==
                 old(handle.bsa.trace)
                 + [Event(EndData, dataEnded)]
                 + [Event(EndTxn(dataEnded.Success? && !endAction.Abort?), txnEnded)]
                 + [Event(Terminate, AnswerTo(bsa.script, k + 2).code)]
  {
    hide PhaseOf, AnswerTo;
    rc := Ok;
    if handle == null {
      return;
    }
    var bsa, action := handle.bsa, endAction;
    if handle.status & INIT_DONE != 0 {
      var a := bsa.Invoke(EndData);
      if !a.code.Success? {
        rc := DevError;
        action := Abort;
      }
      a := bsa.Invoke(EndTxn(action.Commit? || action.TerminateAction?));
      if !a.code.Success? {
        rc := DevError;
      }
    }
    var _ := bsa.Invoke(Terminate);
  }

  // ------------------------------------------------------------ whole sessions

  /** One call that DB2 makes in a session. */
  datatype Op = PutOp(data: seq<Byte>) | GetOp(size: nat)

  /** The side of a session. */
  function SideFor(action: Action): Side {
    match action
    case WriteAction => Side.Backup
    case ReadAction => Side.Restore
    case OtherAction => Neither
  }

  /** The calls between the start and the end of a session. */
  method Serve(handle: Db2XbsaHandle, ops: seq<Op>)
    requires handle.Valid()
    modifies handle`status, handle.bsa
    ensures handle.Valid() && handle.bsa.phase.SideOf() == old(handle.bsa.phase.SideOf())
  {
    hide PhaseOf, VendorTransfer.Get, VendorTransfer.Put;
    var i := 0;
    while i < |ops|
      invariant handle.Valid() && handle.bsa.phase.SideOf() == old(handle.bsa.phase.SideOf())
    {
      match ops[i] {
        case PutOp(data) =>
          var _, _ := handle.Sqluvput(data);
        case GetOp(size) =>
          var buffer := new Byte[size];
          var _, _ := handle.Sqluvget(buffer, size);
      }
      i := i + 1;
    }
  }

  /** init;(put|get)*;end: which phases such a run can end in, and when. */
  method Run(bsa: Bsa, action: Action, pattern: ObjName, timestamp: string, nodeNum: U16, prefixes: Prefixes,
             ops: seq<Op>, end: EndAction)
    returns (started: bool)
    requires bsa.Valid() && bsa.phase == Fresh
    modifies bsa
    ensures bsa.Valid()
    ensures started <==> Starts(bsa.script, |old(bsa.trace)|, action, pattern, timestamp, nodeNum, prefixes)
    ensures bsa.phase ==
            if started then Closed(SideFor(action), Ended)
            else if action.OtherAction? then Fresh
            else if InitLeavesNothing(bsa.script, |old(bsa.trace)|) then Failed(false)
            else if TxnBegins(bsa.script, |old(bsa.trace)|) then Closed(SideFor(action), LeftOpen)
            else Closed(Neither, NotBegun)
  {
    hide PhaseOf, AnswerTo, InitLeavesNothing, TxnBegins, Starts;
    var rc, handle := Sqluvint(bsa, action, pattern, timestamp, nodeNum, prefixes);
    started := rc == Ok;
    if handle != null {
      Serve(handle, ops);
    }
    rc := Sqluvend(end, handle);
  }

  /** Every run init;(put|get)*;end keeps to the protocol of XBSA, whatever the store
      answers and whichever calls DB2 makes. A session that is started opens one session
      of XBSA and terminates it, begins one transaction and ends it once; a begun
      transaction is left open exactly when the start fails after BSABeginTxn; data is
      stored only in a backup, and looked for and fetched only in a restore. */
  method Session(bsa: Bsa, action: Action, pattern: ObjName, timestamp: string, nodeNum: U16, prefixes: Prefixes,
                 ops: seq<Op>, end: EndAction)
    returns (started: bool)
    requires bsa.Valid() && bsa.phase == Fresh
    modifies bsa
    ensures PhaseOf(bsa.trace) != Bad
    ensures started <==> Starts(bsa.script, |old(bsa.trace)|, action, pattern, timestamp, nodeNum, prefixes)
    ensures started ==> Count(bsa.trace, Init) == 1 && Count(bsa.trace, Terminate) == 1
    ensures Begun(bsa.trace) == if !action.OtherAction? && TxnBegins(bsa.script, |old(bsa.trace)|) then 1 else 0
    ensures TxnEnds(bsa.trace) == if started then 1 else 0
    ensures !started ==> Moves(bsa.trace) == 0
    ensures !started ==>
              (Count(bsa.trace, Terminate) == 0 <==>
                 action.OtherAction? || InitLeavesNothing(bsa.script, |old(bsa.trace)|))
    ensures !action.WriteAction? ==> Stores(bsa.trace) == 0
    ensures !action.ReadAction? ==> Fetches(bsa.trace) == 0
  {
    hide PhaseOf, Count, Begun, TxnEnds, Stores, Fetches, Moves, OpensImage;
    started := Run(bsa, action, pattern, timestamp, nodeNum, prefixes, ops, end);
    KeepsTally(bsa.trace);
  }

  /** Put one buffer after the other until one fails. */
  method PutAll(handle: Db2XbsaHandle, bufs: seq<seq<Byte>>) returns (ok: bool)
    requires handle.Valid() && handle.bsa.phase == Writing
    modifies handle.bsa`trace, handle.bsa`phase, handle.bsa`contents
    ensures handle.Valid() && handle.bsa.phase == Writing
    ensures var s := Store(bufs, handle.bsa.script, |old(handle.bsa.trace)|);
            ok == s.ok && handle.bsa.contents == old(handle.bsa.contents) + s.bytes
  {
    hide PhaseOf, Store, VendorTransfer.Put;
    var i := 0;
    ghost var all := Store(bufs, handle.bsa.script, |handle.bsa.trace|);
    ghost var stored := [];
    assert bufs[0..] == bufs && [] + all.bytes == all.bytes;
    while i < |bufs|
      invariant i <= |bufs| && handle.Valid() && handle.bsa.phase == Writing
      invariant handle.bsa.contents == old(handle.bsa.contents) + stored
      invariant var s := Store(bufs[i..], handle.bsa.script, |handle.bsa.trace|);
                all == Stored(s.ok, stored + s.bytes)
    {
      StoreNext(bufs[i..], handle.bsa.script, |handle.bsa.trace|);
      assert bufs[i..][1..] == bufs[i + 1..];
      ghost var put := VendorTransfer.Put(|bufs[i]|, handle.bsa.script, |handle.bsa.trace|);
      ghost var rest := Store(bufs[i + 1..], handle.bsa.script, |handle.bsa.trace| + put.calls);
      var rc, actual := handle.Sqluvput(bufs[i]);
      Regroup(old(handle.bsa.contents), stored, bufs[i][..actual], rest.bytes);
      if rc != Ok {
        return false;
      }
      stored := stored + bufs[i][..actual];
      i := i + 1;
    }
    StoreNothing(handle.bsa.script, |handle.bsa.trace|);
    assert bufs[i..] == [] && stored + [] == stored;
    ok := true;
  }

  lemma Regroup<T>(a: seq<T>, b: seq<T>, c: seq<T>, d: seq<T>)
    ensures a + b + c == a + (b + c) && b + (c + d) == b + c + d
  {
  }

  /** One get with a buffer of `size` bytes: the bytes that it reports. */
  method GetOne(handle: Db2XbsaHandle, size: nat) returns (rc: Rc, bytes: seq<Byte>)
    requires handle.Valid() && handle.bsa.phase == Reading
    modifies handle`status, handle.bsa`trace, handle.bsa`phase, handle.bsa`pattern, handle.bsa`pos
    ensures handle.Valid() && handle.bsa.phase == Reading
    ensures var bsa, p := handle.bsa, old(handle.bsa.pos);
            var r := VendorTransfer.Get(size, |bsa.contents| - p, bsa.script, |old(bsa.trace)|, false);
            && rc == r.rc && bsa.pos == p + r.got && |bsa.trace| == |old(bsa.trace)| + r.calls
            && (rc != IoError ==> bytes == bsa.contents[p..bsa.pos])
  {
    hide PhaseOf, VendorTransfer.Get;
    var buffer := new Byte[size];
    var actual;
    rc, actual := handle.Sqluvget(buffer, size);
    bytes := buffer[..actual];
  }

  /** Get with buffers of the given sizes until one call does not return
      SQLUV_MORE_DATA. */
  method GetAll(handle: Db2XbsaHandle, sizes: seq<nat>) returns (rc: Rc, bytes: seq<Byte>)
    requires handle.Valid() && handle.bsa.phase == Reading
    modifies handle`status, handle.bsa`trace, handle.bsa`phase, handle.bsa`pattern, handle.bsa`pos
    ensures handle.Valid() && handle.bsa.phase == Reading
    ensures var bsa, p := handle.bsa, old(handle.bsa.pos);
            var f := Fetch(sizes, |bsa.contents| - p, bsa.script, |old(bsa.trace)|);
            && rc == f.rc && bsa.pos == p + f.got
            && (rc != IoError ==> bytes == bsa.contents[p..bsa.pos])
  {
    hide PhaseOf, VendorTransfer.Get, Fetch;
    rc, bytes := MoreDataRc, [];
    var i := 0;
    ghost var p := handle.bsa.pos;
    ghost var all := Fetch(sizes, |handle.bsa.contents| - p, handle.bsa.script, |handle.bsa.trace|);
    assert sizes[0..] == sizes;
    while i < |sizes|
      invariant i <= |sizes| && handle.Valid() && handle.bsa.phase == Reading && rc == MoreDataRc
      invariant p <= handle.bsa.pos && bytes == handle.bsa.contents[p..handle.bsa.pos]
      invariant var f := Fetch(sizes[i..], |handle.bsa.contents| - handle.bsa.pos, handle.bsa.script, |handle.bsa.trace|);
                all.rc == f.rc && p + all.got == handle.bsa.pos + f.got
    {
      FetchNext(sizes[i..], |handle.bsa.contents| - handle.bsa.pos, handle.bsa.script, |handle.bsa.trace|);
      assert sizes[i..][1..] == sizes[i + 1..];
      ghost var q := handle.bsa.pos;
      var part;
      rc, part := GetOne(handle, sizes[i]);
      if rc != IoError {
        JoinSlices(handle.bsa.contents, p, q, handle.bsa.pos);
      }
      bytes := bytes + part;
      if rc != MoreDataRc {
        return;
      }
      i := i + 1;
    }
    assert sizes[i..] == [];
    FetchNothing(|handle.bsa.contents| - handle.bsa.pos, handle.bsa.script, |handle.bsa.trace|);
  }

  lemma JoinSlices<T>(s: seq<T>, i: nat, j: nat, k: nat)
    requires i <= j <= k <= |s|
    ensures s[i..j] + s[j..k] == s[i..k]
  {
  }

  /** A backup session stores buffers of any sizes, and a restore session on the same
      object fetches it with buffers of any other sizes, from wherever its first get has
      left it: what comes back is what was stored, in order, and if the store took every
      block whole and the gets end with the end of media, it is all that was put. */
  method StoreAndFetch(put: Db2XbsaHandle, bufs: seq<seq<Byte>>, get: Db2XbsaHandle, sizes: seq<nat>)
    returns (ok: bool, rc: Rc, bytes: seq<Byte>)
    requires put.Valid() && put.bsa.phase == Writing && get.Valid() && get.bsa.phase == Reading && put.bsa != get.bsa
    requires get.bsa.contents == put.bsa.contents + Store(bufs, put.bsa.script, |put.bsa.trace|).bytes
    modifies put.bsa`trace, put.bsa`phase, put.bsa`contents
    modifies get`status, get.bsa`trace, get.bsa`phase, get.bsa`pattern, get.bsa`pos
    ensures get.bsa.contents == put.bsa.contents && ok == Store(bufs, put.bsa.script, |old(put.bsa.trace)|).ok
    ensures var f := Fetch(sizes, |get.bsa.contents| - old(get.bsa.pos), get.bsa.script, |old(get.bsa.trace)|);
            rc == f.rc && get.bsa.pos == old(get.bsa.pos) + f.got
    ensures rc != IoError ==> bytes == put.bsa.contents[old(get.bsa.pos)..get.bsa.pos]
    ensures AllTakenWhole(bufs, put.bsa.script, |old(put.bsa.trace)|) && rc == EndOfMedia ==>
              bytes == (old(put.bsa.contents) + Concat(bufs))[old(get.bsa.pos)..]
  {
    hide PhaseOf, Store, Fetch, AllTakenWhole, VendorTransfer.Concat;
    StoreOutcome(bufs, put.bsa.script, |put.bsa.trace|);
    ok := PutAll(put, bufs);
    rc, bytes := GetAll(get, sizes);
  }
}
