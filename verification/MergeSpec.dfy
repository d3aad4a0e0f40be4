/** The merge of the log streams, on values: one call of getNextLogRecord as a
    function from state to state, and what whole runs of it emit. */
module MergeSpec {
  import opened Bytes
  import opened Wrappers
  import opened LogFrames

  const EXHAUSTED: Lri := Lri(TWO_64 - 1, TWO_64 - 1)
  const MAX_LFS: U64 := TWO_64 - 3

  /** A log stream: what it has still to deliver, and whether the read that
      should follow its last record fails. */
  datatype Stream = Stream(id: nat, rest: seq<LogRecord>, faulty: bool) {
    /** The stream's currentLRI. */
    function Head(): Lri {
      if rest == [] then EXHAUSTED else rest[0].lri
    }

    function Pop(): Stream
      requires rest != []
    {
      Stream(id, rest[1..], faulty && |rest| > 1)
    }
  }

  datatype State = State(queue: seq<Stream>, hand: Option<Stream>, last: Lri)

  datatype Item = Item(id: nat, rec: LogRecord)

  /** How a call ends: with a record, with one of the program's two codes, or with
      a read of a stream that has no current record, which is undefined. */
  datatype Outcome = Emit(item: Item) | ReadToCur | ReadError | ReadPastEnd

  // ---------------------------------------------------------------- one call

  /** ableToReadFromSameLogStream */
  predicate Able(st: State) {
    st.hand.Some? && SubU64(st.hand.value.Head().part1, st.last.part1) < 2
  }

  /** enqueueElement: in front of the first stream with a greater currentLRI. */
  function Enqueue(q: seq<Stream>, s: Stream): seq<Stream> {
    if q == [] || CompLri(q[0].Head(), s.Head()) > 0 then [s] + q
    else [q[0]] + Enqueue(q[1..], s)
  }

  /** The number of streams that stay in front of `s`. */
  function Position(q: seq<Stream>, s: Stream): nat {
    if q == [] || CompLri(q[0].Head(), s.Head()) > 0 then 0 else 1 + Position(q[1..], s)
  }

  /** Give the stream in hand back, if it has records left. */
  function Requeue(st: State): seq<Stream> {
    if st.hand.Some? && st.hand.value.rest != [] then Enqueue(st.queue, st.hand.value) else st.queue
  }

  /** Give the stream in hand back and take the head of the queue. */
  function Reselect(st: State): State {
    var q := Requeue(st);
    if q == [] then State([], None, st.last) else State(q[1..], Some(q[0]), st.last)
  }

  function Select(st: State): State {
    if Able(st) then st else Reselect(st)
  }

  /** Read one record from the stream in hand. */
  function ReadHand(st: State): (State, Outcome)
    requires st.hand.Some? && st.hand.value.rest != []
  {
    var h := st.hand.value;
    var r := h.rest[0];
    (State(st.queue, Some(h.Pop()), r.lri),
     if h.faulty && |h.rest| == 1 then ReadError
     else if CompLri(st.last, r.lri) >= 0 then ReadError
     else Emit(Item(h.id, r)))
  }

  /** getNextLogRecord */
  function Step(st: State): (State, Outcome) {
    var st1 := Select(st);
    if st1.hand.None? then (st1, ReadToCur)
    else if st1.hand.value.rest == [] then (st1, ReadPastEnd)
    else ReadHand(st1)
  }

  // --------------------------------------------------------------- invariant

  predicate SortedByHead(q: seq<Stream>) {
    forall i, j :: 0 <= i < j < |q| ==> AtMost(q[i].Head(), q[j].Head())
  }

  predicate DistinctIds(q: seq<Stream>) {
    forall i, j :: 0 <= i < j < |q| ==> q[i].id != q[j].id
  }

  predicate QueueInv(q: seq<Stream>) {
    && SortedByHead(q)
    && DistinctIds(q)
    && forall i :: 0 <= i < |q| ==> q[i].rest != []
  }

  /** What holds between calls. */
  predicate Inv(st: State) {
    && QueueInv(st.queue)
    && (st.hand.Some? ==> forall i :: 0 <= i < |st.queue| ==> st.queue[i].id != st.hand.value.id)
  }

  /** The stream in hand is exhausted, and will be read again all the same. */
  predicate PastEnd(st: State) {
    st.hand.Some? && st.hand.value.rest == [] && Able(st)
  }

  /** The difference with the all-ones sentinel is unsigned: it is below 2 exactly
      for the two greatest log flush sequences. */
  lemma PastEndIff(st: State)
    requires st.hand.Some? && st.hand.value.rest == []
    ensures PastEnd(st) <==> st.last.part1 > MAX_LFS
  {
  }

  lemma {:induction false} EnqueueMembers(q: seq<Stream>, s: Stream)
    ensures |Enqueue(q, s)| == |q| + 1
    ensures forall x :: x in Enqueue(q, s) <==> x == s || x in q
  {
    if q == [] || CompLri(q[0].Head(), s.Head()) > 0 {
    } else {
      EnqueueMembers(q[1..], s);
      assert forall x :: x in q <==> x == q[0] || x in q[1..];
    }
  }

  /** A stream that is not above the first of a queue, nor in it, can go in front. */
  lemma FrontKeepsQueueInv(q: seq<Stream>, s: Stream)
    requires QueueInv(q) && s.rest != []
    requires forall i :: 0 <= i < |q| ==> q[i].id != s.id
    requires q != [] ==> AtMost(s.Head(), q[0].Head())
    ensures QueueInv([s] + q)
  {
    hide Stream.Head;
    forall i | 0 <= i < |q| ensures AtMost(s.Head(), q[i].Head()) {
      assert i > 0 ==> AtMost(q[0].Head(), q[i].Head());
    }
  }

  lemma {:induction false} EnqueueKeepsQueueInv(q: seq<Stream>, s: Stream)
    requires QueueInv(q) && s.rest != []
    requires forall i :: 0 <= i < |q| ==> q[i].id != s.id
    ensures QueueInv(Enqueue(q, s))
  {
    if q == [] || CompLri(q[0].Head(), s.Head()) > 0 {
      FrontKeepsQueueInv(q, s);
    } else {
      EnqueueKeepsQueueInv(q[1..], s);
      EnqueueMembers(q[1..], s);
      var e := Enqueue(q[1..], s);
      assert forall i :: 0 <= i < |e| ==> e[i] in e;
      assert forall x :: x in q[1..] ==> exists i :: 1 <= i < |q| && q[i] == x;
      FrontKeepsQueueInv(e, q[0]);
    }
  }

  lemma RequeueKeepsInv(st: State)
    requires Inv(st)
    ensures QueueInv(Requeue(st))
  {
    if st.hand.Some? && st.hand.value.rest != [] {
      EnqueueKeepsQueueInv(st.queue, st.hand.value);
    }
  }

  lemma TailKeepsQueueInv(q: seq<Stream>)
    requires QueueInv(q) && q != []
    ensures QueueInv(q[1..]) && q[0].rest != []
    ensures forall i :: 0 <= i < |q[1..]| ==> q[1..][i].id != q[0].id
  {
  }

  /** Reselecting keeps the invariant, and selecting leaves an exhausted stream in
      hand only if the fast path took it. */
  lemma {:induction false} SelectKeepsInv(st: State)
    requires Inv(st)
    ensures Inv(Select(st)) && Inv(Reselect(st))
    ensures Select(st).hand.Some? && Select(st).hand.value.rest == [] <==> PastEnd(st)
    ensures Select(st).hand.None? ==> Select(st).queue == []
  {
    RequeueKeepsInv(st);
    if Requeue(st) != [] {
      TailKeepsQueueInv(Requeue(st));
    }
  }

  lemma StepKeepsInv(st: State)
    requires Inv(st)
    ensures Inv(Step(st).0)
  {
    SelectKeepsInv(st);
  }
}
