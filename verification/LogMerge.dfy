/** The sorted linked queue of log streams, and the program's main loop over it. */
module LogMerge {
  import opened Bytes
  import opened Wrappers
  import opened Seqs
  import opened LogFrames
  import opened MergeSpec
  import opened MergeRuns
  import opened LogSource
  import opened LogStream
  import MergeTheorems

  const READLOG_ERR_READ_ERROR: int := 1
  const READLOG_ERR_READ_TO_CUR: int := 3

  function ReturnCode(o: Outcome): (rc: int)
    requires !o.ReadPastEnd?
    ensures (rc == 0 <==> o.Emit?) && (rc == 1 <==> o.ReadError?) && (rc == 3 <==> o.ReadToCur?)
  {
    match o
    case Emit(_) => 0
    case ReadToCur => READLOG_ERR_READ_TO_CUR
    case ReadError => READLOG_ERR_READ_ERROR
  }

  class SortedQueueElement {
    var streamCB: LogStreamReadCB?
    var nextElement: SortedQueueElement?
    ghost var freed: bool   // freeSortedQueueElement has released it

    constructor (cb: LogStreamReadCB)
      ensures streamCB == cb && nextElement == null && !freed
    {
      streamCB := cb;
      nextElement := null;
      freed := false;
    }
  }

  /** Inserting after exactly the streams that are not greater is Enqueue. */
  lemma {:induction false} EnqueueAt(q: seq<Stream>, s: Stream, k: nat)
    requires k <= |q|
    requires forall i :: 0 <= i < k ==> CompLri(q[i].Head(), s.Head()) <= 0
    requires k < |q| ==> CompLri(q[k].Head(), s.Head()) > 0
    ensures Position(q, s) == k && Enqueue(q, s) == InsertAt(q, k, s)
  {
    if k == 0 {
      InsertAtFront(q, s);
    } else {
      EnqueueAt(q[1..], s, k - 1);
      InsertAtTail(q, k, s);
    }
  }

  /** The list from `head` is `es`: it ends, and no element is on it twice. */
  ghost predicate Chain(head: SortedQueueElement?, es: seq<SortedQueueElement>)
    reads es`nextElement
  {
    && head == (if es == [] then null else es[0])
    && (forall i {:trigger es[i].nextElement} :: 0 <= i < |es| ==> es[i].nextElement == After(es, i))
    && Distinct(es)
  }

  ghost function After(es: seq<SortedQueueElement>, i: nat): SortedQueueElement? {
    if i + 1 < |es| then es[i + 1] else null
  }

  /** The elements are live and hold the streams `cbs`. */
  ghost predicate Carries(es: seq<SortedQueueElement>, cbs: seq<LogStreamReadCB>)
    reads es`streamCB, es`freed
  {
    && |es| == |cbs|
    && forall i {:trigger es[i]} {:trigger cbs[i]} :: 0 <= i < |es| ==> es[i].streamCB == cbs[i] && !es[i].freed
  }

  /** The streams are in order, not exhausted, and have `q` to deliver. */
  ghost predicate AllInOrder(cbs: seq<LogStreamReadCB>, q: seq<Stream>)
    reads cbs
  {
    && |cbs| == |q|
    && forall i {:trigger cbs[i]} {:trigger q[i]} :: 0 <= i < |cbs| ==> cbs[i].InOrder(q[i]) && q[i].rest != []
  }

  ghost predicate Heads(cbs: seq<LogStreamReadCB>, lris: seq<Lri>)
    reads cbs`currentLRI
  {
    |cbs| == |lris| && forall i {:trigger cbs[i]} {:trigger lris[i]} :: 0 <= i < |cbs| ==> cbs[i].currentLRI == lris[i]
  }

  function HeadLris(q: seq<Stream>): (lris: seq<Lri>)
    ensures |lris| == |q| && forall i :: 0 <= i < |q| ==> lris[i] == q[i].Head()
  {
    if q == [] then [] else [q[0].Head()] + HeadLris(q[1..])
  }

  lemma AllInOrderHeads(cbs: seq<LogStreamReadCB>, q: seq<Stream>)
    requires AllInOrder(cbs, q)
    ensures |cbs| == |q| && Heads(cbs, HeadLris(q))
  {
    hide LogStreamReadCB.InOrder;
    forall i | 0 <= i < |cbs| ensures cbs[i].currentLRI == q[i].Head() {
      cbs[i].InOrderFacts(q[i]);
    }
  }

  lemma ChainInsert(head: SortedQueueElement?, es: seq<SortedQueueElement>, k: nat, x: SortedQueueElement)
    requires Distinct(es) && x !in es && k <= |es|
    requires head == if k == 0 then x else es[0]
    requires x.nextElement == if k < |es| then es[k] else null
    requires forall i {:trigger es[i].nextElement} :: 0 <= i < |es| ==>
               es[i].nextElement == if i == k - 1 then x else After(es, i)
    ensures Chain(head, InsertAt(es, k, x))
  {
  }

  lemma CarriesInsert(es: seq<SortedQueueElement>, cbs: seq<LogStreamReadCB>, k: nat, x: SortedQueueElement,
                      cb: LogStreamReadCB)
    requires Carries(es, cbs) && k <= |es| && x.streamCB == cb && !x.freed
    ensures Carries(InsertAt(es, k, x), InsertAt(cbs, k, cb))
  {
    hide LogStreamReadCB.InOrder;
  }

  lemma AllInOrderInsert(cbs: seq<LogStreamReadCB>, q: seq<Stream>, k: nat, cb: LogStreamReadCB, s: Stream)
    requires AllInOrder(cbs, q) && k <= |cbs| && cb.InOrder(s) && s.rest != []
    ensures AllInOrder(InsertAt(cbs, k, cb), InsertAt(q, k, s))
  {
    hide LogStreamReadCB.InOrder;
  }

  lemma ChainTail(head: SortedQueueElement?, es: seq<SortedQueueElement>)
    requires es != [] && Distinct(es) && head == After(es, 0)
    requires forall i {:trigger es[i].nextElement} :: 1 <= i < |es| ==> es[i].nextElement == After(es, i)
    ensures Chain(head, es[1..]) && es[0] !in es[1..]
  {
  }

  lemma QueueTail(es: seq<SortedQueueElement>, cbs: seq<LogStreamReadCB>, q: seq<Stream>, repr: set<object>)
    requires es != [] && Carries(es, cbs) && AllInOrder(cbs, q) && OwnedBy(es, cbs, repr)
    ensures Carries(es[1..], cbs[1..]) && AllInOrder(cbs[1..], q[1..]) && OwnedBy(es[1..], cbs[1..], repr)
    ensures es[0].streamCB == cbs[0] && !es[0].freed && cbs[0].InOrder(q[0]) && es[0] in repr && cbs[0] in repr
  {
    hide LogStreamReadCB.InOrder;
  }

  /** The elements and their streams are among the objects `repr`. */
  ghost predicate OwnedBy(es: seq<SortedQueueElement>, cbs: seq<LogStreamReadCB>, repr: set<object>) {
    (forall i :: 0 <= i < |es| ==> es[i] in repr) && (forall i :: 0 <= i < |cbs| ==> cbs[i] in repr)
  }

  lemma OwnedInsert(es: seq<SortedQueueElement>, cbs: seq<LogStreamReadCB>, k: nat, x: SortedQueueElement,
                    cb: LogStreamReadCB,
                    repr: set<object>)
    requires OwnedBy(es, cbs, repr) && k <= |es| && k <= |cbs| && x in repr && cb in repr
    ensures OwnedBy(InsertAt(es, k, x), InsertAt(cbs, k, cb), repr)
  {
  }

  /** Inserting an element, its stream and what that has to deliver at one place. */
  lemma QueueInsert(es: seq<SortedQueueElement>, cbs: seq<LogStreamReadCB>, q: seq<Stream>, k: nat, x: SortedQueueElement,
                    cb: LogStreamReadCB, s: Stream, repr: set<object>)
    requires Carries(es, cbs) && AllInOrder(cbs, q) && OwnedBy(es, cbs, repr) && k <= |es|
    requires x.streamCB == cb && !x.freed && cb.InOrder(s) && s.rest != [] && x in repr && cb in repr
    ensures Carries(InsertAt(es, k, x), InsertAt(cbs, k, cb)) && AllInOrder(InsertAt(cbs, k, cb), InsertAt(q, k, s))
    ensures OwnedBy(InsertAt(es, k, x), InsertAt(cbs, k, cb), repr)
  {
    hide LogStreamReadCB.InOrder;
    CarriesInsert(es, cbs, k, x, cb);
    AllInOrderInsert(cbs, q, k, cb, s);
    OwnedInsert(es, cbs, k, x, cb, repr);
  }

  /** freeLogStreamCB */
  method FreeLogStreamCB(qElement: SortedQueueElement)
    requires qElement.streamCB != null && !qElement.streamCB.freed
    modifies qElement`streamCB, qElement.streamCB`freed
    ensures qElement.streamCB == null && old(qElement.streamCB).freed
  {
    var cb := qElement.streamCB;
    cb.freed := true;
    qElement.streamCB := null;
  }

  /** freeSortedQueueElement: frees the elements of the whole list that starts at
      `qElement`, and their streams, each of them once. */
  method FreeSortedQueueElement(qElement: SortedQueueElement, ghost es: seq<SortedQueueElement>,
                                ghost cbs: seq<LogStreamReadCB>)
    requires Chain(qElement, es) && Carries(es, cbs) && Distinct(cbs)
    requires forall cb :: cb in cbs ==> !cb.freed
    modifies es, cbs`freed
    ensures forall cb :: cb in cbs ==> cb.freed
    ensures forall e :: e in es ==> e.freed && e.streamCB == null && e.nextElement == null
    decreases |es|
  {
    assert es[0] == qElement && cbs[0] == qElement.streamCB;
    FreeLogStreamCB(qElement);
    if qElement.nextElement != null {
      assert qElement.nextElement == es[1] && cbs[1..] != [];
      FreeSortedQueueElement(qElement.nextElement, es[1..], cbs[1..]);
      qElement.nextElement := null;
    }
    qElement.freed := true;
    assert cbs == [cbs[0]] + cbs[1..] && es == [es[0]] + es[1..];
  }

  /** Read the first batch of a stream. */
  method StartStream(id: nat, replies: seq<Reply>) returns (read: Rc, cb: LogStreamReadCB)
    ensures fresh(cb)
    ensures read == if replies != [] && replies[0].code.Failed? then ReadErr else Ok
    ensures read == Ok ==> cb.InOrder(Pending(id, replies))
  {
    cb := new LogStreamReadCB(id, replies);
    read := cb.ReadTheLog();
  }

  /** The place at index `k` is right for a stream whose next record is `lri`. */
  ghost predicate IsPlace(lris: seq<Lri>, lri: Lri, k: nat) {
    && k <= |lris|
    && (forall i :: 0 <= i < k ==> CompLri(lris[i], lri) <= 0)
    && (k < |lris| ==> CompLri(lris[k], lri) > 0)
  }

  class ReadLogNcCB {
    var qHead: SortedQueueElement?
    var lastReadFromQElem: SortedQueueElement?
    var lastReadLri: Lri
    var prevLastReadLri: Lri
    var logRecord: seq<Byte>

    ghost var elems: seq<SortedQueueElement>   // the queue from qHead
    ghost var cbs: seq<LogStreamReadCB>        // the streams in it
    ghost var queue: seq<Stream>               // what they have to deliver
    ghost var hand: Option<Stream>             // what the stream in hand has to deliver
    ghost var Repr: set<object>

    /** The list of the queue ends, repeats no element, and its streams are live
        and have records to deliver. */
    ghost predicate QueueValid()
      reads this, elems, cbs
    {
      Chain(qHead, elems) && Carries(elems, cbs) && AllInOrder(cbs, queue) && OwnedBy(elems, cbs, Repr) && this !in Repr
    }

    /** The element in hand is outside the queue, points nowhere, and holds a
        stream that is in order. */
    ghost predicate HandValid()
      reads this, lastReadFromQElem, HandStream()
    {
      var h := lastReadFromQElem;
      if h == null then hand.None?
      else
        && hand.Some? && h !in elems && !h.freed && h.nextElement == null && h in Repr
        && h.streamCB != null && h.streamCB.InOrder(hand.value) && h.streamCB in Repr
    }

    ghost function HandStream(): set<object>
      reads this, lastReadFromQElem
    {
      if lastReadFromQElem == null || lastReadFromQElem.streamCB == null then {} else {lastReadFromQElem.streamCB}
    }

    ghost function Abs(): State
      reads this
    {
      State(queue, hand, lastReadLri)
    }

    ghost predicate Valid()
      reads this, lastReadFromQElem, HandStream(), elems, cbs
    {
      QueueValid() && HandValid() && Inv(Abs())
    }

    constructor ()
      ensures Valid() && Abs() == State([], None, MergeTheorems.ZERO) && Repr == {}
    {
      hide LogStreamReadCB.InOrder;
      qHead, lastReadFromQElem := null, null;
      lastReadLri, prevLastReadLri := Lri(0, 0), Lri(0, 0);
      logRecord := [];
      elems, cbs, queue, hand, Repr := [], [], [], None, {};
    }

    /** ableToReadFromSameLogStream */
    method AbleToReadFromSameLogStream() returns (able: bool)
      requires Valid()
      ensures able == Able(Abs())
    {
      hide LogStreamReadCB.InOrder;
      if lastReadFromQElem != null {
        lastReadFromQElem.streamCB.InOrderFacts(hand.value);
        var lfsDiff := SubU64(lastReadFromQElem.streamCB.currentLRI.part1, lastReadLri.part1);
        if lfsDiff < 2 {
          return true;
        }
      }
      return false;
    }

    /** The search of enqueueElement: the last element that is not greater than
        `lri`, and the one after it. */
    method FindPlace(lri: Lri, ghost lris: seq<Lri>)
      returns (prev: SortedQueueElement?, next: SortedQueueElement?, ghost k: nat)
      requires Chain(qHead, elems) && Carries(elems, cbs) && Heads(cbs, lris)
      ensures IsPlace(lris, lri, k) && |lris| == |cbs| == |elems|
      ensures next == (if k < |elems| then elems[k] else null) && prev == (if k > 0 then elems[k - 1] else null)
    {
      hide LogStreamReadCB.InOrder;
      next, prev, k := qHead, null, 0;
      while next != null
        invariant k <= |elems|
        invariant next == if k < |elems| then elems[k] else null
        invariant prev == if k > 0 then elems[k - 1] else null
        invariant forall i :: 0 <= i < k ==> CompLri(lris[i], lri) <= 0
        decreases |elems| - k
      {
        assert elems[k].streamCB == cbs[k] && cbs[k].currentLRI == lris[k];
        if CompLri(next.streamCB.currentLRI, lri) > 0 {
          break;
        }
        prev, next, k := next, next.nextElement, k + 1;
      }
    }

    /** The pointer writes of enqueueElement, from a list `es` to the list `elems`. */
    method LinkElement(prev: SortedQueueElement?, next: SortedQueueElement?, qElement: SortedQueueElement,
                       ghost es: seq<SortedQueueElement>, ghost k: nat)
      requires Chain(qHead, es) && k <= |es| && elems == InsertAt(es, k, qElement)
      requires next == (if k < |es| then es[k] else null) && prev == (if k > 0 then es[k - 1] else null)
      requires qElement !in es && qElement.nextElement == null
      requires Carries(elems, cbs) && AllInOrder(cbs, queue) && OwnedBy(elems, cbs, Repr) && this !in Repr
      modifies this`qHead, es`nextElement, qElement`nextElement
      ensures QueueValid()
    {
      hide LogStreamReadCB.InOrder, AllInOrder, Carries, OwnedBy;
      if prev == null {
        qHead := qElement;
      } else {
        prev.nextElement := qElement;
      }
      if next != null {
        qElement.nextElement := next;
      }
      ChainInsert(qHead, es, k, qElement);
    }

    /** enqueueElement */
    method EnqueueElement(qElement: SortedQueueElement, cb: LogStreamReadCB, ghost s: Stream)
      requires QueueValid() && cb.InOrder(s) && s.rest != [] && qElement.streamCB == cb && !qElement.freed
      requires qElement in Repr && cb in Repr
      requires qElement !in elems && qElement.nextElement == null
      modifies this`qHead, this`elems, this`cbs, this`queue, elems`nextElement, qElement`nextElement
      ensures QueueValid()
      ensures queue == Enqueue(old(queue), s)
    {
      hide LogStreamReadCB.InOrder, AllInOrder, Carries, OwnedBy, Chain, Enqueue, HeadLris;
      AllInOrderHeads(cbs, queue);
      cb.InOrderFacts(s);
      ghost var es, cs, q := elems, cbs, queue;
      var prevQElement, myQHead, k := FindPlace(cb.currentLRI, HeadLris(queue));
      EnqueueAt(q, s, k);
      QueueInsert(es, cs, q, k, qElement, cb, s, Repr);
      elems, cbs, queue := InsertAt(es, k, qElement), InsertAt(cs, k, cb), InsertAt(q, k, s);
      LinkElement(prevQElement, myQHead, qElement, es, k);
    }

    /** The stream in hand is none of those that wait. */
    lemma HandIsNotQueued()
      requires Valid() && lastReadFromQElem != null
      ensures lastReadFromQElem.streamCB !in cbs
    {
      hide LogStreamReadCB.InOrder;
      lastReadFromQElem.streamCB.InOrderFacts(hand.value);
      forall i | 0 <= i < |cbs| ensures cbs[i] != lastReadFromQElem.streamCB {
        cbs[i].InOrderFacts(queue[i]);
      }
    }

    /** Free the element in hand: its stream has nothing left. */
    method ReleaseHand()
      requires Valid() && hand.Some? && hand.value.rest == []
      modifies Repr
      ensures QueueValid() && unchanged(this)
      ensures old(lastReadFromQElem.streamCB).freed && lastReadFromQElem.freed
    {
      hide LogStreamReadCB.InOrder;
      HandIsNotQueued();
      lastReadFromQElem.streamCB.InOrderFacts(hand.value);
      var cb: LogStreamReadCB := lastReadFromQElem.streamCB;
      FreeSortedQueueElement(lastReadFromQElem, [lastReadFromQElem], [cb]);
    }

    /** Put the element in hand back into the queue, or free it if its stream has
        nothing left. */
    method GiveBack()
      requires Valid()
      modifies this`qHead, this`elems, this`cbs, this`queue, this`hand, this`lastReadFromQElem, Repr
      ensures QueueValid() && queue == Requeue(old(Abs()))
      ensures lastReadFromQElem == null && hand == None
      ensures old(hand.Some? && hand.value.rest == []) ==>
                old(lastReadFromQElem.streamCB).freed && old(lastReadFromQElem).freed
    {
      hide LogStreamReadCB.InOrder, AllInOrder, Carries, Chain, Enqueue;
      if lastReadFromQElem != null {
        lastReadFromQElem.streamCB.InOrderFacts(hand.value);
        if lastReadFromQElem.streamCB.numLogRecordsRemaining > 0 {
          EnqueueElement(lastReadFromQElem, lastReadFromQElem.streamCB, hand.value);
        } else {
          ReleaseHand();
        }
      }
      lastReadFromQElem, hand := null, None;
    }

    /** The pointer writes that take the head off the list `es`. */
    method UnlinkHead(ghost es: seq<SortedQueueElement>)
      requires Chain(qHead, es) && qHead != null && lastReadFromQElem == qHead && elems == es[1..]
      requires Carries(elems, cbs) && AllInOrder(cbs, queue) && OwnedBy(elems, cbs, Repr) && this !in Repr
      modifies this`qHead, qHead`nextElement
      ensures QueueValid()
      ensures lastReadFromQElem.nextElement == null && lastReadFromQElem !in elems
    {
      hide LogStreamReadCB.InOrder, AllInOrder, Carries, OwnedBy;
      qHead := lastReadFromQElem.nextElement;
      lastReadFromQElem.nextElement := null;
      ChainTail(qHead, es);
    }

    /** Take the head of the queue, if there is one, out of it and into the hand. */
    method TakeHead()
      requires QueueValid() && lastReadFromQElem == null && hand == None
      modifies this`qHead, this`elems, this`cbs, this`queue, this`hand, this`lastReadFromQElem, elems`nextElement
      ensures QueueValid() && HandValid()
      ensures Abs() == if old(queue) == [] then old(Abs()) else State(old(queue[1..]), Some(old(queue[0])), old(lastReadLri))
    {
      hide LogStreamReadCB.InOrder;
      lastReadFromQElem := qHead;
      if lastReadFromQElem != null {
        ghost var es := elems;
        QueueTail(elems, cbs, queue, Repr);
        hand := Some(queue[0]);
        elems, cbs, queue := elems[1..], cbs[1..], queue[1..];
        UnlinkHead(es);
      }
    }

    /** Read one record from the stream in hand, and check that it comes after the
        last one. */
    method ReadFromHand() returns (rc: int)
      requires QueueValid() && HandValid() && hand.Some? && hand.value.rest != [] && lastReadFromQElem.streamCB !in cbs
      modifies this`prevLastReadLri, this`lastReadLri, this`logRecord, this`hand, HandStream()
      ensures rc == ReturnCode(ReadHand(old(Abs())).1)
      ensures rc == 0 ==> QueueValid() && HandValid() && Abs() == ReadHand(old(Abs())).0
      ensures rc == 0 ==>
                ReadHand(old(Abs())).1 ==
                Emit(Item(lastReadFromQElem.streamCB.logStreamNumber, LogRecord(lastReadLri, logRecord)))
    {
      hide LogStreamReadCB.InOrder, AllInOrder, Carries, OwnedBy, Chain;
      prevLastReadLri := lastReadLri;
      ghost var s := hand.value;
      var read;
      read, lastReadLri, logRecord := lastReadFromQElem.streamCB.GetNextLogRecord(s);
      hand := Some(s.Pop());
      if read != Ok {
        return READLOG_ERR_READ_ERROR;
      }
      lastReadFromQElem.streamCB.InOrderFacts(s.Pop());
      if CompLri(prevLastReadLri, lastReadLri) >= 0 {
        return READLOG_ERR_READ_ERROR;
      }
      return 0;
    }

    /** The first half of getNextLogRecord: unless the stream in hand can be read
        again, give it back and take the head of the queue. An exhausted stream is
        freed on the way. */
    method SelectStream()
      requires Valid()
      modifies this`qHead, this`elems, this`cbs, this`queue, this`hand, this`lastReadFromQElem, Repr
      ensures Valid() && Abs() == Select(old(Abs()))
      ensures old(hand.Some? && hand.value.rest == [] && !PastEnd(Abs())) ==>
                old(lastReadFromQElem.streamCB).freed && old(lastReadFromQElem).freed
      ensures lastReadFromQElem != null ==> !lastReadFromQElem.freed && !lastReadFromQElem.streamCB.freed
    {
      hide LogStreamReadCB.InOrder, AllInOrder, Carries, Chain;
      SelectKeepsInv(Abs());
      var able := AbleToReadFromSameLogStream();
      if !able {
        GiveBack();
        TakeHead();
      }
      if lastReadFromQElem != null {
        lastReadFromQElem.streamCB.InOrderFacts(hand.value);
      }
    }

    /** getNextLogRecord. The call reads through a null pointer if the fast path
        takes an exhausted stream. */
    method GetNextLogRecord() returns (rc: int)
      requires Valid() && !Step(Abs()).1.ReadPastEnd?
      modifies this`qHead, this`elems, this`cbs, this`queue, this`hand, this`lastReadFromQElem
      modifies this`prevLastReadLri, this`lastReadLri, this`logRecord, Repr
      ensures rc == ReturnCode(Step(old(Abs())).1)
      ensures rc != READLOG_ERR_READ_ERROR ==> Valid() && Abs() == Step(old(Abs())).0
      ensures rc == 0 ==>
                && lastReadFromQElem != null && lastReadFromQElem.streamCB != null
                && Step(old(Abs())).1 ==
                Emit(Item(lastReadFromQElem.streamCB.logStreamNumber, LogRecord(lastReadLri, logRecord)))
      ensures old(hand.Some? && hand.value.rest == []) ==>
                old(lastReadFromQElem.streamCB).freed && old(lastReadFromQElem).freed
    {
      hide LogStreamReadCB.InOrder, AllInOrder, Carries, OwnedBy, Chain;
      SelectKeepsInv(Abs());
      StepKeepsInv(Abs());
      SelectStream();
      if lastReadFromQElem == null {
        return READLOG_ERR_READ_TO_CUR;
      }
      HandIsNotQueued();
      rc := ReadFromHand();
    }

    /** Queue a stream whose first batch has been read, if it has records. */
    method AdmitStream(cb: LogStreamReadCB, ghost s: Stream)
      requires QueueValid() && cb.InOrder(s) && cb !in cbs
      modifies this`qHead, this`elems, this`cbs, this`queue, this`Repr, elems`nextElement, cb`freed
      ensures QueueValid() && queue == MergeTheorems.Admit(old(queue), s)
      ensures fresh(Repr - old(Repr) - {cb}) && old(Repr) <= Repr
    {
      hide LogStreamReadCB.InOrder;
      cb.InOrderFacts(s);
      if cb.numLogRecordsRemaining <= 0 {
        cb.freed := true;
      } else {
        var qElement := new SortedQueueElement(cb);
        Repr := Repr + {cb, qElement};
        assert forall i :: 0 <= i < |elems| ==> elems[i] != qElement;
        EnqueueElement(qElement, cb, s);
      }
    }

    /** initializeAndReadAllStreams */
    method InitializeAndReadAllStreams(paths: seq<LogPath>) returns (rc: int)
      requires QueueValid() && queue == [] && Repr == {}
      modifies this`qHead, this`elems, this`cbs, this`queue, this`Repr
      ensures fresh(Repr)
      ensures match MergeTheorems.Open(paths, 0, [])
              case None => rc == READLOG_ERR_READ_ERROR
              case Some(q) => QueueValid() && queue == q && rc == if q == [] then READLOG_ERR_READ_TO_CUR else 0
    {
      hide LogStreamReadCB.InOrder;
      for i := 0 to |paths|
        invariant QueueValid() && fresh(Repr)
        invariant MergeTheorems.Open(paths, 0, []) == MergeTheorems.Open(paths, i, queue)
      {
        MergeTheorems.OpenNext(paths, i, queue);
        match paths[i] {
          case NoLogs =>
          case Broken => return READLOG_ERR_READ_ERROR;
          case Logs(replies) =>
            FailsAtOnce(replies);
            var read, cb := StartStream(i, replies);
            if read != Ok {
              return READLOG_ERR_READ_ERROR;
            }
            AdmitStream(cb, Pending(i, replies));
        }
      }
      rc := if qHead == null then READLOG_ERR_READ_TO_CUR else 0;
    }
  }

  /** The loop of main: call getNextLogRecord until it does not return 0. */
  method DisplayLoop(readLogCB: ReadLogNcCB) returns (rc: int, shown: seq<Item>)
    requires readLogCB.Valid() && !Run(readLogCB.Abs()).1.ReadPastEnd?
    modifies readLogCB, readLogCB.Repr
    ensures shown == Run(old(readLogCB.Abs())).0
    ensures rc == ReturnCode(Run(old(readLogCB.Abs())).1)
  {
    hide LogStreamReadCB.InOrder, Run, Step;
    shown := [];
    while true
      invariant readLogCB.Valid() && readLogCB.Repr == old(readLogCB.Repr)
      invariant Run(old(readLogCB.Abs())).0 == shown + Run(readLogCB.Abs()).0
      invariant Run(old(readLogCB.Abs())).1 == Run(readLogCB.Abs()).1
      decreases Total(readLogCB.Abs())
    {
      ghost var st := readLogCB.Abs();
      RunUnfolds(st);
      rc := readLogCB.GetNextLogRecord();
      if rc != 0 {
        return;
      }
      shown := shown + [Item(readLogCB.lastReadFromQElem.streamCB.logStreamNumber,
                             LogRecord(readLogCB.lastReadLri, readLogCB.logRecord))];
    }
  }

  lemma RunUnfolds(st: State)
    requires Inv(st)
    ensures var (st1, o) := Step(st);
            if o.Emit? then Inv(st1) && Run(st) == ([o.item] + Run(st1).0, Run(st1).1) && Total(st1) < Total(st)
            else Run(st) == ([], o)
  {
    StepKeepsInv(st);
    if Step(st).1.Emit? {
      StepTakesOne(st, 0);
    }
  }

  /** main: open the streams, then display records until there are no more. */
  method DisplayAllRecords(paths: seq<LogPath>) returns (rc: int, shown: seq<Item>)
    requires !MergeTheorems.Session(paths).1.ReadPastEnd?
    ensures shown == MergeTheorems.Session(paths).0
    ensures rc == ReturnCode(MergeTheorems.Session(paths).1)
  {
    hide LogStreamReadCB.InOrder, Run, Inv, MergeTheorems.Open, MergeTheorems.Session;
    MergeTheorems.SessionOpens(paths);
    var readLogCB := new ReadLogNcCB();
    rc := readLogCB.InitializeAndReadAllStreams(paths);
    if rc == 0 {
      rc, shown := DisplayLoop(readLogCB);
    } else {
      shown := [];
    }
  }
}
