/** The promises of the merge, for every list of log paths. */
module MergeTheorems {
  import opened Bytes
  import opened Wrappers
  import opened Seqs
  import opened LogFrames
  import opened MergeSpec
  import opened MergeRuns
  import opened MergeCorrect
  import opened LogSource

  const ZERO: Lri := Lri(0, 0)

  // --------------------------------------------------------------- the queue

  /** Insertion is stable: `s` goes behind every stream whose next record is not
      greater, in particular behind equal ones, and in front of all others. */
  lemma {:induction false} EnqueueIsStable(q: seq<Stream>, s: Stream)
    requires SortedByHead(q)
    ensures var k := Position(q, s);
            && k <= |q|
            && Enqueue(q, s) == InsertAt(q, k, s)
            && forall i :: 0 <= i < |q| ==> (i < k <==> AtMost(q[i].Head(), s.Head()))
  {
    if q == [] {
    } else if CompLri(q[0].Head(), s.Head()) > 0 {
      InsertAtFront(q, s);
      assert forall i :: 0 < i < |q| ==> AtMost(q[0].Head(), q[i].Head());
    } else {
      EnqueueIsStable(q[1..], s);
      InsertAtTail(q, Position(q[1..], s) + 1, s);
      assert forall i :: 1 <= i < |q| ==> q[i] == q[1..][i - 1];
    }
  }

  /** Staying on the stream in hand is the same as putting it back and taking the
      head of the queue exactly when nothing that waits is at or below it. */
  lemma FastPathIsReselect(st: State)
    requires Inv(st) && Able(st)
    ensures Reselect(st) == Select(st) <==>
            !PastEnd(st) && forall i :: 0 <= i < |st.queue| ==> Less(st.hand.value.Head(), st.queue[i].Head())
  {
  }

  /** In a mergeable state the fast path changes nothing. */
  lemma MergeableFastPath(st: State)
    requires Inv(st) && Mergeable(st)
    ensures Select(st) == Reselect(st)
  {
    if Able(st) {
      SelectKeepsInv(st);
      forall i | 0 <= i < |st.queue| ensures Less(st.hand.value.Head(), st.queue[i].Head()) {
        LookupMember(st.queue, i);
        assert RecordsAbove(st.hand.value.Head(), Rest(st, st.queue[i].id));
        assert st.queue[i].Head() == Rest(st, st.queue[i].id)[0].lri;
      }
      FastPathIsReselect(st);
    }
  }

  // ------------------------------------------------------------- all streams

  function PathStream(paths: seq<LogPath>, id: nat): Stream {
    if id < |paths| && paths[id].Logs? then Stream(id, Delivered(paths[id].replies), Fails(paths[id].replies))
    else Stream(id, [], false)
  }

  /** The queue-building loop of initializeAndReadAllStreams from path `i` on;
      None if a path cannot be opened. */
  function Open(paths: seq<LogPath>, i: nat, q: seq<Stream>): Option<seq<Stream>>
    requires i <= |paths|
    decreases |paths| - i
  {
    if i == |paths| then Some(q)
    else match paths[i]
      case NoLogs => Open(paths, i + 1, q)
      case Broken => None
      case Logs(rs) =>
        if rs != [] && rs[0].code.Failed? then None else Open(paths, i + 1, Admit(q, PathStream(paths, i)))
  }

  /** A stream without records is skipped. */
  function Admit(q: seq<Stream>, s: Stream): seq<Stream> {
    if s.rest == [] then q else Enqueue(q, s)
  }

  /** A path that keeps the program from starting. */
  predicate Blocked(p: LogPath) {
    p.Broken? || (p.Logs? && p.replies != [] && p.replies[0].code.Failed?)
  }

  /** The streams in `q` are those of the paths before `i` that have records. */
  ghost predicate Holds(paths: seq<LogPath>, i: nat, q: seq<Stream>) {
    && QueueInv(q)
    && (forall k :: 0 <= k < |q| ==> q[k].id < i)
    && forall id: nat :: Lookup(q, id) ==
                    if id < i && PathStream(paths, id).rest != [] then PathStream(paths, id) else Stream(id, [], false)
  }

  lemma EnqueueIds(q: seq<Stream>, s: Stream, i: nat)
    requires s.id == i && forall k :: 0 <= k < |q| ==> q[k].id < i
    ensures forall k :: 0 <= k < |Enqueue(q, s)| ==> Enqueue(q, s)[k].id < i + 1
  {
  }

  lemma HoldsEnqueue(paths: seq<LogPath>, i: nat, q: seq<Stream>)
    requires Holds(paths, i, q) && PathStream(paths, i).rest != []
    ensures Holds(paths, i + 1, Enqueue(q, PathStream(paths, i)))
  {
    var s := PathStream(paths, i);
    EnqueueKeepsQueueInv(q, s);
    EnqueueIds(q, s, i);
    var e := Enqueue(q, s);
    forall id: nat ensures Lookup(e, id) == if id < i + 1 && PathStream(paths, id).rest != [] then PathStream(paths, id)
                                       else Stream(id, [], false)
    {
      LookupEnqueue(q, s, id);
    }
  }

  lemma HoldsSkip(paths: seq<LogPath>, i: nat, q: seq<Stream>)
    requires Holds(paths, i, q) && PathStream(paths, i).rest == []
    ensures Holds(paths, i + 1, q)
  {
  }

  lemma HoldsNext(paths: seq<LogPath>, i: nat, q: seq<Stream>)
    requires i < |paths| && Holds(paths, i, q)
    ensures var q1 := Admit(q, PathStream(paths, i));
            Holds(paths, i + 1, q1) && Size(q1) == Size(q) + |PathStream(paths, i).rest|
  {
    if PathStream(paths, i).rest == [] {
      HoldsSkip(paths, i, q);
    } else {
      HoldsEnqueue(paths, i, q);
      LookupEnqueue(q, PathStream(paths, i), 0);
    }
  }

  lemma OpenNext(paths: seq<LogPath>, i: nat, q: seq<Stream>)
    requires i < |paths|
    ensures Open(paths, i, q) == if Blocked(paths[i]) then None else Open(paths, i + 1, Admit(q, PathStream(paths, i)))
  {
  }

  lemma {:induction false} OpenHolds(paths: seq<LogPath>, i: nat, q: seq<Stream>)
    requires i <= |paths| && Holds(paths, i, q)
    requires Open(paths, i, q).Some?
    ensures Holds(paths, |paths|, Open(paths, i, q).value)
    ensures Size(Open(paths, i, q).value) == Size(q) + Supply(paths, i)
    decreases |paths| - i
  {
    if i < |paths| {
      OpenNext(paths, i, q);
      HoldsNext(paths, i, q);
      OpenHolds(paths, i + 1, Admit(q, PathStream(paths, i)));
    }
  }

  lemma {:induction false} OpenSucceeds(paths: seq<LogPath>, i: nat, q: seq<Stream>)
    requires i <= |paths|
    ensures Open(paths, i, q).Some? <==> forall k :: i <= k < |paths| ==> !Blocked(paths[k])
    decreases |paths| - i
  {
    if i < |paths| {
      OpenNext(paths, i, q);
      if !Blocked(paths[i]) {
        OpenSucceeds(paths, i + 1, Admit(q, PathStream(paths, i)));
      }
    }
  }

  /** How many records the paths from `i` on have to deliver. */
  function Supply(paths: seq<LogPath>, i: nat): nat
    requires i <= |paths|
    decreases |paths| - i
  {
    if i == |paths| then 0 else |PathStream(paths, i).rest| + Supply(paths, i + 1)
  }

  lemma {:induction false} InitialQueue(paths: seq<LogPath>)
    ensures Open(paths, 0, []).Some? <==> forall k :: 0 <= k < |paths| ==> !Blocked(paths[k])
    ensures var o := Open(paths, 0, []);
            o.Some? ==> Holds(paths, |paths|, o.value) && Size(o.value) == Supply(paths, 0)
  {
    OpenSucceeds(paths, 0, []);
    if Open(paths, 0, []).Some? {
      OpenHolds(paths, 0, []);
    }
  }

  /** What the program does with its log paths: the records it displays, and how
      the loop in main ends. */
  function Session(paths: seq<LogPath>): (seq<Item>, Outcome) {
    InitialQueue(paths);
    match Open(paths, 0, [])
    case None => ([], ReadError)
    case Some(q) => Run(State(q, None, ZERO))
  }

  lemma SessionOpens(paths: seq<LogPath>)
    ensures match Open(paths, 0, [])
            case None => Session(paths) == ([], ReadError)
            case Some(q) =>
              && Inv(State(q, None, ZERO)) && Session(paths) == Run(State(q, None, ZERO))
              && (q == [] ==> Session(paths) == ([], ReadToCur))
  {
    InitialQueue(paths);
  }

  /** All paths open, every stream reads to its end in strictly increasing order
      from above (0, 0), and no record of a stream falls on or between two records
      of another whose log flush sequences are within 1. */
  ghost predicate OrderlyPaths(paths: seq<LogPath>) {
    && (forall k :: 0 <= k < |paths| ==> !Blocked(paths[k]))
    && (forall id: nat :: Readable(PathStream(paths, id), ZERO))
    && (forall i: nat, j: nat :: i != j ==> NotOvertaken(PathStream(paths, i).rest, PathStream(paths, j).rest))
  }

  ghost predicate AllBounded(paths: seq<LogPath>) {
    forall id: nat :: Bounded(PathStream(paths, id))
  }

  lemma HoldsStreams(paths: seq<LogPath>, q: seq<Stream>, id: nat)
    requires Holds(paths, |paths|, q)
    ensures var st := State(q, None, ZERO);
            && Rest(st, id) == PathStream(paths, id).rest
            && (Readable(StreamOf(st, id), ZERO) <==> Readable(PathStream(paths, id), ZERO))
            && (Bounded(StreamOf(st, id)) <==> Bounded(PathStream(paths, id)))
  {
  }

  /** The conditions on the paths are those on the state the loop starts from. */
  lemma {:induction false} FirstState(paths: seq<LogPath>)
    ensures Open(paths, 0, []).Some? <==> forall k :: 0 <= k < |paths| ==> !Blocked(paths[k])
    ensures var o := Open(paths, 0, []);
            o.Some? ==>
              var st := State(o.value, None, ZERO);
              && Inv(st) && Session(paths) == Run(st)
              && (Orderly(st) <==> OrderlyPaths(paths)) && (InBounds(st) <==> AllBounded(paths))
  {
    InitialQueue(paths);
    SessionOpens(paths);
    var o := Open(paths, 0, []);
    if o.Some? {
      var st := State(o.value, None, ZERO);
      forall id: nat
        ensures Rest(st, id) == PathStream(paths, id).rest
        ensures Readable(StreamOf(st, id), ZERO) <==> Readable(PathStream(paths, id), ZERO)
        ensures Bounded(StreamOf(st, id)) <==> Bounded(PathStream(paths, id))
      {
        HoldsStreams(paths, o.value, id);
      }
      hide Readable, NotOvertaken, Bounded, Rest, StreamOf, PathStream, Blocked;
    }
  }

  /** The exact condition for the program to reach the end of its logs, stated of
      the paths alone. */
  lemma SessionSucceedsIff(paths: seq<LogPath>)
    ensures Session(paths).1 == ReadToCur <==> OrderlyPaths(paths) && AllBounded(paths)
  {
    FirstState(paths);
    hide Orderly, InBounds;
    if Open(paths, 0, []).Some? {
      SucceedsIff(State(Open(paths, 0, []).value, None, ZERO));
    }
  }

  /** The program reads a stream past its end only if a log flush sequence exceeds
      2^64 - 3; if the paths are orderly, it does so exactly then. */
  lemma ReadsPastEnd(paths: seq<LogPath>)
    ensures AllBounded(paths) ==> Session(paths).1 != ReadPastEnd
    ensures OrderlyPaths(paths) ==> (Session(paths).1 == ReadPastEnd <==> !AllBounded(paths))
  {
    FirstState(paths);
    hide Orderly, InBounds;
    if Open(paths, 0, []).Some? {
      var st := State(Open(paths, 0, []).value, None, ZERO);
      if InBounds(st) {
        InBoundsStaysInside(st);
      }
      if Orderly(st) {
        OrderlyEnds(st);
      }
    }
  }

  /** Whatever the order of the streams: what is emitted strictly increases, and
      a session that reaches the end has emitted every record of every stream
      once, in stream order, with one more call than there are records. */
  lemma SessionConserves(paths: seq<LogPath>, id: nat)
    ensures var (out, end) := Session(paths);
            && Increasing(out)
            && (end == ReadToCur ==> Project(out, id) == PathStream(paths, id).rest && |out| == Supply(paths, 0))
  {
    InitialQueue(paths);
    var o := Open(paths, 0, []);
    if o.Some? {
      var st := State(o.value, None, ZERO);
      RunIncreases(st);
      if Succeeds(st) {
        RunInterleaves(st, id);
        HoldsStreams(paths, o.value, id);
      }
    }
  }

  ghost predicate NoSharedLfs(paths: seq<LogPath>) {
    forall i: nat, j: nat, a, b :: i != j && 0 <= a < |PathStream(paths, i).rest| && 0 <= b < |PathStream(paths, j).rest| ==>
      PathStream(paths, i).rest[a].lri.part1 != PathStream(paths, j).rest[b].lri.part1
  }

  /** The assumption that the fast path makes about pureScale logs is enough. */
  lemma DistinctLfsSucceeds(paths: seq<LogPath>)
    requires NoSharedLfs(paths)
    requires forall k :: 0 <= k < |paths| ==> !Blocked(paths[k])
    requires forall id: nat :: Readable(PathStream(paths, id), ZERO)
    ensures Session(paths).1 == if AllBounded(paths) then ReadToCur else ReadPastEnd
  {
    forall i: nat, j: nat | i != j ensures NotOvertaken(PathStream(paths, i).rest, PathStream(paths, j).rest) {
      DistinctLfsNotOvertaken(PathStream(paths, i).rest, PathStream(paths, j).rest);
    }
    SessionSucceedsIff(paths);
    ReadsPastEnd(paths);
  }

  lemma DistinctLfsNotOvertaken(p: seq<LogRecord>, q: seq<LogRecord>)
    requires forall a, b :: 0 <= a < |p| && 0 <= b < |q| ==> p[a].lri.part1 != q[b].lri.part1
    ensures NotOvertaken(p, q)
  {
  }

  /** A path whose log holds just `rs`. */
  function PathOf(rs: seq<LogRecord>): LogPath
    requires AreRecords(rs)
  {
    Logs(Replies([rs], []))
  }

  lemma PathOfDelivers(rs: seq<LogRecord>)
    requires AreRecords(rs) && rs != []
    ensures Delivered(PathOf(rs).replies) == rs && !Fails(PathOf(rs).replies)
  {
    DeliveredIsConcat([rs], []);
    assert Concat([rs][1..]) == [];
  }

  /** A log of one record that is out of bounds is read past its end. RecordOf makes
      such records. */
  lemma PastEndIsReached(r: LogRecord)
    requires IsRecord(r) && r.lri.part1 > MAX_LFS
    ensures Session([PathOf([r])]).1 == ReadPastEnd
  {
    var paths := [PathOf([r])];
    PathOfDelivers([r]);
    OutOfBounds(r, paths);
    ReadsPastEnd(paths);
  }

  lemma OutOfBounds(r: LogRecord, paths: seq<LogPath>)
    requires r.lri.part1 > MAX_LFS && |paths| == 1 && paths[0].Logs? && !Fails(paths[0].replies)
    requires Delivered(paths[0].replies) == [r]
    ensures OrderlyPaths(paths) && !AllBounded(paths)
  {
    hide Delivered;
    assert PathStream(paths, 0).rest[0] == r;
  }

  /** That assumption cannot be dropped: of these two streams, each in order, the
      second falls between the records of the first. A sorted merge exists, but the
      fast path passes over it and the order check then stops the program. RecordOf
      makes records with such identifiers. */
  lemma SharedLfsIsRejected(a: LogRecord, b: LogRecord, c: LogRecord)
    requires IsRecord(a) && IsRecord(b) && IsRecord(c)
    requires 0 < a.lri.part1 == b.lri.part1 - 1 && b.lri.part1 == c.lri.part1 <= MAX_LFS && b.lri.part2 < c.lri.part2
    ensures var paths := [PathOf([a, c]), PathOf([b])];
            var merged := [Item(0, a), Item(1, b), Item(0, c)];
            && (forall id: nat :: Readable(PathStream(paths, id), ZERO))
            && Increasing(merged) && (forall id: nat :: Project(merged, id) == PathStream(paths, id).rest)
            && Session(paths).1 == ReadError
  {
    var paths := [PathOf([a, c]), PathOf([b])];
    PathOfDelivers([a, c]);
    PathOfDelivers([b]);
    Overtaken(a, b, c, paths);
    SessionSucceedsIff(paths);
    ReadsPastEnd(paths);
  }

  lemma Overtaken(a: LogRecord, b: LogRecord, c: LogRecord, paths: seq<LogPath>)
    requires 0 < a.lri.part1 == b.lri.part1 - 1 && b.lri.part1 == c.lri.part1 <= MAX_LFS && b.lri.part2 < c.lri.part2
    requires |paths| == 2 && forall k :: 0 <= k < 2 ==> paths[k].Logs? && !Fails(paths[k].replies)
    requires Delivered(paths[0].replies) == [a, c] && Delivered(paths[1].replies) == [b]
    ensures var merged := [Item(0, a), Item(1, b), Item(0, c)];
            && (forall id: nat :: Readable(PathStream(paths, id), ZERO))
            && Increasing(merged) && (forall id: nat :: Project(merged, id) == PathStream(paths, id).rest)
            && AllBounded(paths) && !OrderlyPaths(paths)
  {
    hide Delivered, Fails;
    var merged := [Item(0, a), Item(1, b), Item(0, c)];
    assert merged[1..] == [Item(1, b), Item(0, c)] && merged[1..][1..] == [Item(0, c)];
    forall id: nat ensures Project(merged, id) == PathStream(paths, id).rest {
      assert Project([Item(0, c)], id) == if id == 0 then [c] else [];
    }
    assert [a, c][1].lri.part1 - [a, c][0].lri.part1 < 2 && AtMost([a, c][0].lri, [b][0].lri);
    assert !NotOvertaken(PathStream(paths, 0).rest, PathStream(paths, 1).rest);
  }

  // -------------------------------------------------- there is only one merge

  lemma {:induction false} ProjectHead(out: seq<Item>, id: nat) returns (k: nat)
    requires Project(out, id) != []
    ensures k < |out| && out[k] == Item(id, Project(out, id)[0])
  {
    if out[0].id == id {
      k := 0;
    } else {
      k := ProjectHead(out[1..], id);
      k := k + 1;
    }
  }

  lemma ProjectTail(out: seq<Item>, id: nat)
    requires out != []
    ensures Project(out[1..], id) == if out[0].id == id then Project(out, id)[1..] else Project(out, id)
  {
  }

  /** A strictly increasing interleaving of given streams is unique: a successful
      session emits the global sorted merge. */
  lemma {:induction false} MergeIsUnique(a: seq<Item>, b: seq<Item>)
    requires Increasing(a) && Increasing(b)
    requires forall id :: Project(a, id) == Project(b, id)
    ensures a == b
  {
    var id := if a != [] then a[0].id else if b != [] then b[0].id else 0;
    assert Project(a, id) == Project(b, id);
    if a != [] {
      var k := ProjectHead(b, a[0].id);
      var m := ProjectHead(a, b[0].id);
      assert b[k] == a[0] && a[m] == b[0];
      assert k == 0;
      forall id ensures Project(a[1..], id) == Project(b[1..], id) {
        ProjectTail(a, id);
        ProjectTail(b, id);
      }
      MergeIsUnique(a[1..], b[1..]);
    }
  }
}
