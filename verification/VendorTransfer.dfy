/** How sqluvput and sqluvget cut DB2's buffers into blocks for the 16-bit interface
    of XBSA, as functions of the store's answers. */
module VendorTransfer {
  import opened Bytes
  import opened Xbsa

  const USHRT_MAX: nat := 0xFFFF

  datatype Rc =
    | Ok | MoreDataRc | IoError | EndOfTape | EndOfMedia | InvAction | InitFailed
    | ObjNotFound | ObjsFound | DevError

  /** The block offered when `n` bytes are left. */
  function BlockLength(n: nat): (len: nat)
    ensures len <= n && len < USHRT_MAX && (n > 0 ==> len > 0)
  {
    if n >= USHRT_MAX then USHRT_MAX - 16 else n
  }

  /** The blocks that a buffer of `n` bytes is cut into. */
  function Blocks(n: nat): seq<nat> {
    if n == 0 then [] else [BlockLength(n)] + Blocks(n - BlockLength(n))
  }

  function Sum(ns: seq<nat>): nat {
    if ns == [] then 0 else ns[0] + Sum(ns[1..])
  }

  /** The blocks cover the buffer, and each fits the 16-bit length field. */
  lemma {:induction false} BlocksCover(n: nat)
    ensures Sum(Blocks(n)) == n
    ensures forall i :: 0 <= i < |Blocks(n)| ==> 0 < Blocks(n)[i] < 0x1_0000
  {
    if n > 0 {
      BlocksCover(n - BlockLength(n));
      assert Blocks(n)[1..] == Blocks(n - BlockLength(n));
    }
  }

  /** A buffer of less than 65535 bytes is one block; a greater one starts with a block
      of 65519 bytes. */
  lemma BlocksAre(n: nat)
    ensures 0 < n < 65535 ==> Blocks(n) == [n]
    ensures n >= 65535 ==> Blocks(n) == [65519] + Blocks(n - 65519)
  {
  }

  // -------------------------------------------------------------------- sqluvput

  datatype PutResult = PutResult(rc: Rc, actual: nat, calls: nat)

  /** sqluvput on `n` bytes, from the store's `k`th answer on. */
  function Put(n: nat, script: seq<Answer>, k: nat): (r: PutResult)
    ensures r.actual <= n
  {
    if n == 0 then PutResult(Ok, 0, 0)
    else
      var len, answer := BlockLength(n), AnswerTo(script, k);
      var sent := Min(answer.numBytes, len);
      if !answer.code.Success? then PutResult(IoError, 0, 1)
      else if sent == 0 then PutResult(EndOfTape, 0, 1)
      else
        var r := Put(n - len, script, k + 1);
        PutResult(r.rc, sent + r.actual, 1 + r.calls)
  }

  /** One block of it. */
  lemma PutNext(n: nat, script: seq<Answer>, k: nat)
    requires n > 0
    ensures var len, answer := BlockLength(n), AnswerTo(script, k);
            var sent := Min(answer.numBytes, len);
            Put(n, script, k) ==
            if !answer.code.Success? then PutResult(IoError, 0, 1)
            else if sent == 0 then PutResult(EndOfTape, 0, 1)
            else
              var r := Put(n - len, script, k + 1);
              PutResult(r.rc, sent + r.actual, 1 + r.calls)
  {
  }

  lemma PutNothing(script: seq<Answer>, k: nat)
    ensures Put(0, script, k) == PutResult(Ok, 0, 0)
  {
  }

  /** The store takes something of every block of an `n`-byte buffer. */
  predicate TakesEach(n: nat, script: seq<Answer>, k: nat) {
    forall i :: k <= i < k + |Blocks(n)| ==> AnswerTo(script, i).code.Success? && AnswerTo(script, i).numBytes > 0
  }

  /** The store takes every block whole. */
  predicate TakesWhole(n: nat, script: seq<Answer>, k: nat) {
    forall i :: k <= i < k + |Blocks(n)| ==>
      AnswerTo(script, i).code.Success? && AnswerTo(script, i).numBytes >= Blocks(n)[i - k]
  }

  lemma NextBlock(n: nat, script: seq<Answer>, k: nat)
    requires n > 0
    ensures var rest, a := n - BlockLength(n), AnswerTo(script, k);
            && (TakesEach(n, script, k) <==> a.code.Success? && a.numBytes > 0 && TakesEach(rest, script, k + 1))
            && (TakesWhole(n, script, k) <==>
                  a.code.Success? && a.numBytes >= BlockLength(n) && TakesWhole(rest, script, k + 1))
  {
  }

  /** What a put achieves: it succeeds exactly when no block fails or is refused,
      never reports more than it was given, and has then stored the whole buffer
      exactly when every block was taken whole. */
  lemma {:induction false} PutOutcome(n: nat, script: seq<Answer>, k: nat)
    ensures var r := Put(n, script, k);
            && r.calls <= |Blocks(n)| && (r.rc.Ok? ==> r.calls == |Blocks(n)|)
            && (r.rc.Ok? <==> TakesEach(n, script, k))
            && (r.rc.Ok? && r.actual == n <==> TakesWhole(n, script, k))
            && (r.rc.Ok? || r.rc.IoError? || r.rc.EndOfTape?)
  {
    if n > 0 {
      NextBlock(n, script, k);
      PutOutcome(n - BlockLength(n), script, k + 1);
    }
  }

  /** Why a put stops early: the answer to its last call failed, or took nothing. */
  lemma {:induction false} PutStops(n: nat, script: seq<Answer>, k: nat)
    requires !Put(n, script, k).rc.Ok?
    ensures var r := Put(n, script, k);
            && 0 < r.calls <= |Blocks(n)|
            && (forall i :: k <= i < k + r.calls - 1 ==>
                  AnswerTo(script, i).code == Success && AnswerTo(script, i).numBytes > 0)
            && var last := AnswerTo(script, k + r.calls - 1);
               && (r.rc == IoError <==> last.code != Success)
               && (r.rc == EndOfTape <==> last.code == Success && last.numBytes == 0)
  {
    PutNext(n, script, k);
    NextBlock(n, script, k);
    var len, a := BlockLength(n), AnswerTo(script, k);
    if a.code.Success? && Min(a.numBytes, len) > 0 {
      PutStops(n - len, script, k + 1);
    }
  }

  /** "If this field ends up being less than buff_size, then do not return SQLUV_OK,
      unless it is OK to lose the remaining data in the buffer", which a backup is not
      told: the code keeps that promise exactly when it is not the case that the store
      takes something of every block but not all of every block. */
  lemma PutPromise(n: nat, script: seq<Answer>, k: nat)
    ensures var r := Put(n, script, k);
            (r.rc.Ok? ==> r.actual == n) <==> (TakesEach(n, script, k) ==> TakesWhole(n, script, k))
  {
    PutOutcome(n, script, k);
  }

  /** A short send is lost without an error, for every buffer of two bytes or more. */
  lemma ShortSendIsLost(n: nat)
    requires 2 <= n < USHRT_MAX
    ensures Put(n, [Answer(Success, 1, false, ObjName("", "."))], 0) == PutResult(Ok, 1, 1)
  {
  }

  // ------------------------------------------------------- sqluvget, later calls

  /** The return code, the size reported, the bytes really delivered, and the calls
      of BSAGetData. */
  datatype GetResult = GetResult(rc: Rc, actual: nat, got: nat, calls: nat) {
    function Plus(m: nat): GetResult {
      GetResult(rc, m + actual, m + got, 1 + calls)
    }
  }

  /** What one BSAGetData does: its code, and how many bytes it moves. */
  datatype Move = Move(code: Code, numBytes: U16)

  /** The store moves at most `len` of the `left` bytes that it has, and claims the
      end of the data only at the end. */
  function MoveOf(a: Answer, len: U16, left: nat): (v: Move)
    ensures v.numBytes <= left && v.numBytes <= len
    ensures v.code.NoMoreData? ==> v.numBytes == left
  {
    var m := Min(Min(a.numBytes, len), left);
    Move(if a.code.NoMoreData? && m < left then MoreData else a.code, m)
  }

  /** A later sqluvget for `n` bytes of an object of which `left` bytes are to come;
      `more` says that rc is already SQLUV_MORE_DATA. It never fills more than `n`
      bytes; where it reports the end of media the whole object has been delivered,
      and unless the first block got it, the buffer is full too. */
  function Get(n: nat, left: nat, script: seq<Answer>, k: nat, more: bool): (r: GetResult)
    ensures r.got <= r.actual <= n && r.got <= left && r.calls > 0
    ensures r.rc.EndOfMedia? || r.rc.MoreDataRc? || r.rc.IoError?
    ensures !r.rc.IoError? ==> r.actual == r.got
    ensures r.rc.MoreDataRc? ==> r.got == n
    ensures r.rc.EndOfMedia? ==> r.got == left
    ensures r.rc.EndOfMedia? ==> r.got == n || (!more && r.got <= BlockLength(n))
    decreases |script| - k
  {
    var a, len := AnswerTo(script, k), BlockLength(n);
    var Move(code, m) := MoveOf(a, len, left);
    match code
    case MoreData =>
      if n - m > 0 then Get(n - m, left - m, script, k + 1, true).Plus(m) else GetResult(MoreDataRc, m, m, 1)
    case NoMoreData =>
      if n - m > 0 && more then Get(n - m, left - m, script, k + 1, true).Plus(m) else GetResult(EndOfMedia, m, m, 1)
    case _ => GetResult(IoError, Min(a.numBytes, len), 0, 1)
  }

  /** One block of it. */
  lemma GetNext(n: nat, left: nat, script: seq<Answer>, k: nat, more: bool)
    ensures var a, len := AnswerTo(script, k), BlockLength(n);
            var Move(code, m) := MoveOf(a, len, left);
            Get(n, left, script, k, more) ==
            if code.MoreData? || code.NoMoreData? then
              if n - m > 0 && (code.MoreData? || more) then Get(n - m, left - m, script, k + 1, true).Plus(m)
              else GetResult(if code.NoMoreData? then EndOfMedia else MoreDataRc, m, m, 1)
            else GetResult(IoError, Min(a.numBytes, len), 0, 1)
  {
  }

  lemma MoveCode(a: Answer, len: U16, left: nat)
    ensures var v := MoveOf(a, len, left);
            && (v.code in {MoreData, NoMoreData} <==> a.code in {MoreData, NoMoreData})
            && (a.code == MoreData ==> v.code == MoreData)
  {
  }

  /** What a get returns tells what the answer to its last call was. */
  lemma {:induction false} GetStops(n: nat, left: nat, script: seq<Answer>, k: nat, more: bool)
    ensures var r := Get(n, left, script, k, more);
            var last := AnswerTo(script, k + r.calls - 1).code;
            && (r.rc == IoError <==> last !in {MoreData, NoMoreData})
            && (r.rc == EndOfMedia ==> last == NoMoreData)
            && (last == MoreData ==> r.rc == MoreDataRc)
    ensures var r := Get(n, left, script, k, more);
            forall i :: k <= i < k + r.calls - 1 ==> AnswerTo(script, i).code in {MoreData, NoMoreData}
    decreases |script| - k
  {
    hide Get, MoveOf, BlockLength;
    GetNext(n, left, script, k, more);
    MoveCode(AnswerTo(script, k), BlockLength(n), left);
    var v := MoveOf(AnswerTo(script, k), BlockLength(n), left);
    if n - v.numBytes > 0 && (v.code.MoreData? || (v.code.NoMoreData? && more)) {
      GetStops(n - v.numBytes, left - v.numBytes, script, k + 1, true);
    }
  }

  /** A store that always moves as much as it can and says at once when it is done. */
  predicate Eager(script: seq<Answer>) {
    forall i :: 0 <= i < |script| ==> script[i].code.NoMoreData? && script[i].numBytes == USHRT_MAX
  }

  lemma {:induction false} EagerGet(n: nat, left: nat, script: seq<Answer>, k: nat, more: bool)
    requires Eager(script) && k + |Blocks(n)| < |script| && left <= n
    ensures Get(n, left, script, k, more).rc.EndOfMedia? <==> left == n || (!more && left <= BlockLength(n))
    decreases n
  {
    var a, len := AnswerTo(script, k), BlockLength(n);
    assert a == script[k];
    var m := Min(len, left);
    if n - m > 0 && m == len {
      assert Blocks(n) == [len] + Blocks(n - len);
      EagerGet(n - len, left - len, script, k + 1, true);
    }
  }

  /** Even from such a store, a get that could deliver the rest of the object does
      not always report the end of media: it does exactly when the rest fits the
      first block or fills the whole buffer. Otherwise the loop asks again. */
  lemma EagerGetReportsEnd(n: nat, left: nat, script: seq<Answer>, k: nat)
    requires Eager(script) && k + |Blocks(n)| < |script| && left <= n
    ensures Get(n, left, script, k, false).rc.EndOfMedia? <==> left == n || left <= BlockLength(n)
  {
    EagerGet(n, left, script, k, false);
  }

  // ------------------------------------------------------------- whole streams

  function Concat(bufs: seq<seq<Byte>>): seq<Byte> {
    if bufs == [] then [] else bufs[0] + Concat(bufs[1..])
  }

  /** The bytes that a series of puts stores, and whether all of them succeed. DB2
      stops at the first that does not. */
  datatype Stored = Stored(ok: bool, bytes: seq<Byte>)

  function Store(bufs: seq<seq<Byte>>, script: seq<Answer>, k: nat): (s: Stored)
    ensures |s.bytes| <= |Concat(bufs)|
  {
    if bufs == [] then Stored(true, [])
    else
      var r := Put(|bufs[0]|, script, k);
      if !r.rc.Ok? then Stored(false, bufs[0][..r.actual])
      else
        var rest := Store(bufs[1..], script, k + r.calls);
        Stored(rest.ok, bufs[0][..r.actual] + rest.bytes)
  }

  lemma StoreNext(bufs: seq<seq<Byte>>, script: seq<Answer>, k: nat)
    requires bufs != []
    ensures var r := Put(|bufs[0]|, script, k);
            var rest := Store(bufs[1..], script, k + r.calls);
            Store(bufs, script, k) ==
            if r.rc.Ok? then Stored(rest.ok, bufs[0][..r.actual] + rest.bytes) else Stored(false, bufs[0][..r.actual])
  {
  }

  lemma StoreNothing(script: seq<Answer>, k: nat)
    ensures Store([], script, k) == Stored(true, [])
  {
  }

  /** The store takes every block of every buffer whole. */
  predicate AllTakenWhole(bufs: seq<seq<Byte>>, script: seq<Answer>, k: nat) {
    bufs == [] ||
    (TakesWhole(|bufs[0]|, script, k) && AllTakenWhole(bufs[1..], script, k + |Blocks(|bufs[0]|)|))
  }

  /** A series of puts succeeds and stores all bytes of all buffers exactly when every
      block was taken whole; what it stores is then those bytes in order. */
  lemma {:induction false} StoreOutcome(bufs: seq<seq<Byte>>, script: seq<Answer>, k: nat)
    ensures var s := Store(bufs, script, k);
            && (AllTakenWhole(bufs, script, k) ==> s == Stored(true, Concat(bufs)))
            && (s.ok && |s.bytes| == |Concat(bufs)| ==> AllTakenWhole(bufs, script, k))
  {
    hide TakesWhole, Put, Blocks;
    if bufs != [] {
      PutOutcome(|bufs[0]|, script, k);
      StoreOutcome(bufs[1..], script, k + |Blocks(|bufs[0]|)|);
    }
  }

  /** The end of a series of later gets with buffers of the given sizes, and how many
      bytes they deliver together. DB2 stops at the first that does not return
      SQLUV_MORE_DATA. */
  datatype Fetched = Fetched(rc: Rc, got: nat)

  function Fetch(sizes: seq<nat>, left: nat, script: seq<Answer>, k: nat): (f: Fetched)
    ensures f.got <= left
    ensures f.rc.EndOfMedia? ==> f.got == left
    ensures f.rc.MoreDataRc? ==> f.got == Sum(sizes)
  {
    if sizes == [] then Fetched(MoreDataRc, 0)
    else
      var r := Get(sizes[0], left, script, k, false);
      if !r.rc.MoreDataRc? then Fetched(r.rc, r.got)
      else
        var rest := Fetch(sizes[1..], left - r.got, script, k + r.calls);
        Fetched(rest.rc, r.got + rest.got)
  }

  lemma FetchNext(sizes: seq<nat>, left: nat, script: seq<Answer>, k: nat)
    requires sizes != []
    ensures var r := Get(sizes[0], left, script, k, false);
            var rest := Fetch(sizes[1..], left - r.got, script, k + r.calls);
            Fetch(sizes, left, script, k) ==
            if r.rc.MoreDataRc? then Fetched(rest.rc, r.got + rest.got) else Fetched(r.rc, r.got)
  {
  }

  lemma FetchNothing(left: nat, script: seq<Answer>, k: nat)
    ensures Fetch([], left, script, k) == Fetched(MoreDataRc, 0)
  {
  }

  /** Bytes written by any series of puts that the store takes whole, and read by any
      series of later gets with buffers of other sizes, come back in order; all of
      them, if the gets end with the end of media. */
  lemma RoundTrip(bufs: seq<seq<Byte>>, script: seq<Answer>, k: nat, sizes: seq<nat>, script2: seq<Answer>, k2: nat)
    requires AllTakenWhole(bufs, script, k)
    ensures var stored := Store(bufs, script, k).bytes;
            var fetched := Fetch(sizes, |stored|, script2, k2);
            && stored[..fetched.got] <= Concat(bufs)
            && (fetched.rc.EndOfMedia? ==> stored[..fetched.got] == Concat(bufs))
  {
    hide AllTakenWhole, Store, Fetch, Concat;
    StoreOutcome(bufs, script, k);
  }
}
