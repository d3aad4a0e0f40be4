/** When the merge succeeds, and when it reads past the end of a stream instead:
    exact conditions on the streams alone. */
module MergeCorrect {
  import opened Bytes
  import opened Wrappers
  import opened LogFrames
  import opened MergeSpec
  import opened MergeRuns

  predicate RecordsIncrease(rs: seq<LogRecord>) {
    forall i, j :: 0 <= i < j < |rs| ==> Less(rs[i].lri, rs[j].lri)
  }

  predicate RecordsAbove(lri: Lri, rs: seq<LogRecord>) {
    forall i :: 0 <= i < |rs| ==> Less(lri, rs[i].lri)
  }

  /** No record of `q` falls on or between two records of `p` whose log flush
      sequences are less than 2 apart. */
  predicate NotOvertaken(p: seq<LogRecord>, q: seq<LogRecord>) {
    forall a, b, x :: 0 <= a < |p| && 0 <= b < |p| && 0 <= x < |q| && p[b].lri.part1 - p[a].lri.part1 < 2 ==>
      !(AtMost(p[a].lri, q[x].lri) && AtMost(q[x].lri, p[b].lri))
  }

  /** A stream that on its own can be read to its end after `last`. */
  predicate Readable(s: Stream, last: Lri) {
    && (s.rest != [] ==> !s.faulty)
    && RecordsIncrease(s.rest)
    && RecordsAbove(last, s.rest)
  }

  /** If a record of the stream in hand will be read without re-sorting, it comes
      before everything that waits. */
  ghost predicate HandIsNext(st: State) {
    Able(st) && st.hand.value.rest != [] ==>
      forall j :: j != st.hand.value.id ==> RecordsAbove(st.hand.value.Head(), Rest(st, j))
  }

  ghost predicate Orderly(st: State) {
    && (forall i :: Readable(StreamOf(st, i), st.last))
    && (forall i, j :: i != j ==> NotOvertaken(Rest(st, i), Rest(st, j)))
    && HandIsNext(st)
  }

  predicate Bounded(s: Stream) {
    forall k :: 0 <= k < |s.rest| ==> s.rest[k].lri.part1 <= MAX_LFS
  }

  /** No log flush sequence is so great that an exhausted stream is taken for one
      that can be read. */
  ghost predicate InBounds(st: State) {
    (forall i :: Bounded(StreamOf(st, i))) && !PastEnd(st)
  }

  ghost predicate Mergeable(st: State) {
    Orderly(st) && InBounds(st)
  }

  // -------------------------------------------------------------- sufficient

  lemma FirstIsBelow(p: seq<LogRecord>, q: seq<LogRecord>)
    requires p != [] && RecordsIncrease(q) && NotOvertaken(p, q)
    requires q != [] ==> AtMost(p[0].lri, q[0].lri)
    ensures RecordsAbove(p[0].lri, q)
  {
  }

  /** The head of a sorted queue is not above any stream's next record. */
  lemma HeadIsLeast(q: seq<Stream>, j: nat)
    requires QueueInv(q) && q != [] && j != q[0].id && Lookup(q[1..], j).rest != []
    ensures AtMost(q[0].Head(), Lookup(q[1..], j).Head())
  {
    LookupIsMember(q[1..], j);
    var k :| 0 <= k < |q[1..]| && q[1..][k] == Lookup(q[1..], j);
    assert q[k + 1] == Lookup(q[1..], j);
  }

  /** The selected stream holds the least record of all. */
  lemma SelectsLeast(st: State, j: nat)
    requires Inv(st) && Orderly(st) && Select(st).hand.Some? && Select(st).hand.value.rest != []
    requires j != Select(st).hand.value.id
    ensures RecordsAbove(Select(st).hand.value.Head(), Rest(st, j))
  {
    if !Able(st) {
      SelectKeepsInv(st);
      var h := Select(st).hand.value;
      SelectKeepsStreams(st, j);
      SelectKeepsStreams(st, h.id);
      RequeueKeepsInv(st);
      assert Readable(StreamOf(st, j), st.last);
      assert NotOvertaken(Rest(st, h.id), Rest(st, j));
      if Rest(st, j) != [] {
        HeadIsLeast(Requeue(st), j);
      }
      FirstIsBelow(h.rest, Rest(st, j));
    }
  }

  lemma OrderlyReads(st: State)
    requires Inv(st) && Orderly(st)
    ensures Step(st).1 != ReadError
  {
    SelectKeepsInv(st);
    var sel := Select(st);
    if sel.hand.Some? && sel.hand.value.rest != [] {
      SelectKeepsStreams(st, sel.hand.value.id);
      assert Readable(StreamOf(st, sel.hand.value.id), st.last);
    }
  }

  lemma StepKeepsReadable(st: State, i: nat)
    requires Inv(st) && Orderly(st) && Step(st).1.Emit?
    ensures Readable(StreamOf(Step(st).0, i), Step(st).0.last)
  {
    StepTakesOne(st, i);
    assert Readable(StreamOf(st, i), st.last);
    if i != Select(st).hand.value.id {
      SelectKeepsInv(st);
      SelectsLeast(st, i);
    }
  }

  lemma StepKeepsHandIsNext(st: State, j: nat)
    requires Inv(st) && Orderly(st) && Step(st).1.Emit? && Able(Step(st).0) && Step(st).0.hand.value.rest != []
    requires j != Step(st).0.hand.value.id
    ensures RecordsAbove(Step(st).0.hand.value.Head(), Rest(Step(st).0, j))
  {
    StepTakesOne(st, j);
    var h := Step(st).0.hand.value;
    var p, q := Rest(st, h.id), Rest(st, j);
    SelectKeepsInv(st);
    SelectsLeast(st, j);
    StepKeepsInv(st);
    assert NotOvertaken(p, q);
    assert h.rest == p[1..] && Readable(StreamOf(st, h.id), st.last);
    SecondIsBelow(Step(st).0, p, q);
  }

  lemma SecondIsBelow(st1: State, p: seq<LogRecord>, q: seq<LogRecord>)
    requires Inv(st1) && Able(st1) && |p| > 1 && st1.hand.value.rest == p[1..] && st1.last == p[0].lri
    requires RecordsIncrease(p) && NotOvertaken(p, q) && RecordsAbove(p[0].lri, q)
    ensures RecordsAbove(st1.hand.value.Head(), q)
  {
  }

  lemma StepKeepsNotOvertaken(st: State, i: nat, j: nat)
    requires Inv(st) && Orderly(st) && Step(st).1.Emit? && i != j
    ensures NotOvertaken(Rest(Step(st).0, i), Rest(Step(st).0, j))
  {
    StepTakesOne(st, i);
    StepTakesOne(st, j);
    NotOvertakenTail(Rest(st, i), Rest(st, j));
  }

  lemma NotOvertakenTail(p: seq<LogRecord>, q: seq<LogRecord>)
    requires NotOvertaken(p, q)
    ensures p != [] ==> NotOvertaken(p[1..], q)
    ensures q != [] ==> NotOvertaken(p, q[1..])
  {
  }

  lemma OrderlySteps(st: State)
    requires Inv(st) && Orderly(st) && Step(st).1.Emit?
    ensures Orderly(Step(st).0)
  {
    var st1 := Step(st).0;
    forall i ensures Readable(StreamOf(st1, i), st1.last) {
      StepKeepsReadable(st, i);
    }
    forall i, j | i != j ensures NotOvertaken(Rest(st1, i), Rest(st1, j)) {
      StepKeepsNotOvertaken(st, i, j);
    }
    if Able(st1) && st1.hand.value.rest != [] {
      forall j | j != st1.hand.value.id ensures RecordsAbove(st1.hand.value.Head(), Rest(st1, j)) {
        StepKeepsHandIsNext(st, j);
      }
    }
  }

  // -------------------------------------------------------------- the bounds

  /** Taking a record off a stream takes no record out of bounds, and what was
      taken was in bounds if what follows is. */
  lemma BoundedBefore(s: Stream, st1: State)
    requires s.rest != [] && RecordsIncrease(s.rest)
    requires st1.hand == Some(s.Pop()) && st1.last == s.rest[0].lri
    ensures Bounded(s) <==> Bounded(s.Pop()) && !PastEnd(st1)
  {
    if |s.rest| == 1 {
      PastEndIff(st1);
    } else {
      assert Less(s.rest[0].lri, s.rest[1].lri) && s.Pop().rest[0] == s.rest[1];
      forall k | 1 <= k < |s.rest| ensures s.rest[k] == s.Pop().rest[k - 1] {
      }
    }
  }

  lemma InBoundsSteps(st: State)
    requires Inv(st) && Orderly(st) && Step(st).1.Emit?
    ensures InBounds(st) <==> InBounds(Step(st).0)
  {
    SelectKeepsInv(st);
    var st1 := Step(st).0;
    var h := st1.hand.value.id;
    StepTakesOne(st, h);
    assert Readable(StreamOf(st, h), st.last);
    BoundedBefore(StreamOf(st, h), st1);
    forall i ensures Bounded(StreamOf(st, i)) <==> Bounded(if i == h then StreamOf(st, h) else StreamOf(st1, i)) {
      StepTakesOne(st, i);
    }
    if InBounds(st1) {
      assert Bounded(StreamOf(st1, h));
      forall i ensures Bounded(StreamOf(st, i)) {
        assert Bounded(StreamOf(st1, i));
      }
    }
    if InBounds(st) {
      assert Bounded(StreamOf(st, h));
      forall i ensures Bounded(StreamOf(st1, i)) {
        assert Bounded(StreamOf(st, i));
      }
    }
  }

  /** Orderly streams are merged to the end, unless a log flush sequence is out of
      bounds: then the program reads past the end of a stream. */
  lemma {:induction false} OrderlyEnds(st: State)
    requires Inv(st) && Orderly(st)
    ensures Run(st).1 == if InBounds(st) then ReadToCur else ReadPastEnd
    decreases Total(st)
  {
    OrderlyReads(st);
    if Step(st).1.Emit? {
      OrderlySteps(st);
      InBoundsSteps(st);
      StepKeepsInv(st);
      StepTakesOne(st, 0);
      OrderlyEnds(Step(st).0);
    } else {
      SelectKeepsInv(st);
      if Step(st).1.ReadToCur? {
        NothingLeft(st);
      }
    }
  }

  // --------------------------------------------------------------- necessary

  lemma ReadableBefore(st: State, i: nat)
    requires Inv(st) && Step(st).1.Emit? && Orderly(Step(st).0)
    ensures Readable(StreamOf(st, i), st.last)
    ensures i != Step(st).0.hand.value.id ==> RecordsAbove(Step(st).0.last, Rest(st, i))
  {
    StepTakesOne(st, i);
    SelectKeepsInv(st);
    var st1 := Step(st).0;
    assert Readable(StreamOf(st1, i), st1.last);
    assert Less(st.last, st1.last);
    if i == st1.hand.value.id {
      SelectKeepsStreams(st, i);
      ReadableCons(StreamOf(st, i), st.last);
    }
  }

  lemma ReadableCons(s: Stream, last: Lri)
    requires s.rest != [] && Less(last, s.rest[0].lri) && Readable(s.Pop(), s.rest[0].lri)
    requires !(s.faulty && |s.rest| == 1)
    ensures Readable(s, last)
  {
  }

  lemma NotOvertakenBefore(st: State, i: nat, j: nat)
    requires Inv(st) && Step(st).1.Emit? && Orderly(Step(st).0) && i != j
    ensures NotOvertaken(Rest(st, i), Rest(st, j))
  {
    StepTakesOne(st, i);
    StepTakesOne(st, j);
    var st1 := Step(st).0;
    assert NotOvertaken(Rest(st1, i), Rest(st1, j));
    ReadableBefore(st, i);
    ReadableBefore(st, j);
    if i == st1.hand.value.id {
      StepKeepsInv(st);
      NotOvertakenCons(st1, Rest(st, i), Rest(st, j));
    } else if j == st1.hand.value.id {
      NotOvertakenByEarlier(Rest(st, i), Rest(st, j));
    }
  }

  lemma NotOvertakenByEarlier(p: seq<LogRecord>, q: seq<LogRecord>)
    requires q != [] && NotOvertaken(p, q[1..]) && RecordsAbove(q[0].lri, p)
    ensures NotOvertaken(p, q)
  {
  }

  /** If what is left after a call is orderly, so was what there was before it. */
  lemma OrderlyBefore(st: State)
    requires Inv(st) && Step(st).1.Emit? && Orderly(Step(st).0)
    ensures Orderly(st)
  {
    forall i ensures Readable(StreamOf(st, i), st.last) {
      ReadableBefore(st, i);
    }
    forall i, j | i != j ensures NotOvertaken(Rest(st, i), Rest(st, j)) {
      NotOvertakenBefore(st, i, j);
    }
    if Able(st) {
      forall j | j != st.hand.value.id ensures RecordsAbove(st.hand.value.Head(), Rest(st, j)) {
        ReadableBefore(st, j);
        StepTakesOne(st, j);
      }
    }
  }

  lemma NotOvertakenCons(st1: State, p: seq<LogRecord>, q: seq<LogRecord>)
    requires Inv(st1) && st1.hand.Some? && p != [] && st1.hand.value.rest == p[1..] && st1.last == p[0].lri
    requires NotOvertaken(p[1..], q) && RecordsAbove(p[0].lri, q) && RecordsIncrease(p)
    requires Able(st1) && |p| > 1 ==> RecordsAbove(st1.hand.value.Head(), q)
    ensures NotOvertaken(p, q)
  {
  }

  lemma NothingLeft(st: State)
    requires Inv(st) && Step(st).1 == ReadToCur
    ensures Mergeable(st)
  {
  }

  lemma {:induction false} SucceedsIsOrderly(st: State)
    requires Inv(st) && Succeeds(st)
    ensures Orderly(st)
    decreases Total(st)
  {
    if Step(st).1.Emit? {
      StepKeepsInv(st);
      StepTakesOne(st, 0);
      SucceedsIsOrderly(Step(st).0);
      OrderlyBefore(st);
    } else {
      NothingLeft(st);
    }
  }

  /** The exact condition for a run to reach the end. */
  lemma SucceedsIff(st: State)
    requires Inv(st)
    ensures Succeeds(st) <==> Mergeable(st)
  {
    if Succeeds(st) {
      SucceedsIsOrderly(st);
    }
    if Orderly(st) {
      OrderlyEnds(st);
    }
  }

  lemma BoundedStep(st: State, i: nat)
    requires Inv(st) && InBounds(st) && Step(st).1.Emit?
    ensures Bounded(StreamOf(Step(st).0, i)) && !PastEnd(Step(st).0)
  {
    var st1 := Step(st).0;
    SelectKeepsInv(st);
    StepTakesOne(st, i);
    StepTakesOne(st, st1.hand.value.id);
    assert Bounded(StreamOf(st, i)) && Bounded(StreamOf(st, st1.hand.value.id));
    if st1.hand.value.rest == [] {
      PastEndIff(st1);
    }
  }

  /** Within the bounds no run, successful or not, reads past the end of a stream. */
  lemma {:induction false} InBoundsStaysInside(st: State)
    requires Inv(st) && InBounds(st)
    ensures !Run(st).1.ReadPastEnd?
    decreases Total(st)
  {
    SelectKeepsInv(st);
    if Step(st).1.Emit? {
      StepKeepsInv(st);
      StepTakesOne(st, 0);
      forall i ensures Bounded(StreamOf(Step(st).0, i)) {
        BoundedStep(st, i);
      }
      BoundedStep(st, 0);
      InBoundsStaysInside(Step(st).0);
    }
  }
}
