/** The storage library under the vendor interface (XBSA), as an abstract store: it
    answers by a script, keeps the bytes of one object, and records every call. */
module Xbsa {
  import opened Bytes

  datatype Code = Success | MoreData | NoMoreData | NoMatch | Failure

  datatype ObjName = ObjName(space: string, path: string)

  /** The name of an object that is found: every query asks for path names with a dot
      in them, behind the name and before the sequence number. */
  type Found = n: ObjName | '.' in n.path witness ObjName("", ".")

  /** One answer: the return code, how many bytes the store is willing to move,
      whether BSAInit sets its handle, and the object that a query finds. */
  datatype Answer = Answer(code: Code, numBytes: U16, handleSet: bool, found: Found)

  datatype Call =
    | Init | BeginTxn | CreateObject | QueryObject | GetNextQueryObject
    | SendData | GetObject | GetData | EndData | EndTxn(commit: bool) | Terminate

  datatype Event = Event(call: Call, code: Code)

  const NO_ANSWER: Answer := Answer(Failure, 0, false, ObjName("", "."))

  /** What the store answers to its `k`th call; beyond the script every call fails. */
  function AnswerTo(script: seq<Answer>, k: nat): Answer {
    if k < |script| then script[k] else NO_ANSWER
  }

  predicate Finds(code: Code) {
    code.Success? || code.MoreData? || code.NoMoreData?
  }

  /** The objects that a query finds whose first call is the store's `k`th. */
  function Listing(script: seq<Answer>, k: nat): seq<Found>
    decreases |script| - k
  {
    var a := AnswerTo(script, k);
    if !Finds(a.code) then [] else [a.found] + if a.code.NoMoreData? then [] else Listing(script, k + 1)
  }

  /** The code that ends the query. */
  function ListingCode(script: seq<Answer>, k: nat): Code
    decreases |script| - k
  {
    var a := AnswerTo(script, k);
    if !Finds(a.code) || a.code.NoMoreData? then a.code else ListingCode(script, k + 1)
  }

  /** How many calls the query takes. */
  function ListingCalls(script: seq<Answer>, k: nat): (calls: nat)
    ensures calls > 0
    decreases |script| - k
  {
    var a := AnswerTo(script, k);
    if !Finds(a.code) || a.code.NoMoreData? then 1 else 1 + ListingCalls(script, k + 1)
  }

  /** One call of it. */
  lemma ListingNext(script: seq<Answer>, k: nat)
    ensures var a := AnswerTo(script, k);
            && Listing(script, k) ==
               (if !Finds(a.code) then [] else if a.code.NoMoreData? then [a.found] else [a.found] + Listing(script, k + 1))
            && ListingCode(script, k) ==
               (if !Finds(a.code) || a.code.NoMoreData? then a.code else ListingCode(script, k + 1))
            && ListingCalls(script, k) ==
               (if !Finds(a.code) || a.code.NoMoreData? then 1 else 1 + ListingCalls(script, k + 1))
  {
  }

  /** The names that come with the `n` answers before an answer of another kind. */
  function FoundIn(script: seq<Answer>, k: nat, n: nat): seq<Found>
    requires k + n <= |script|
    decreases n
  {
    if n == 0 then [] else [script[k].found] + FoundIn(script, k + 1, n - 1)
  }

  /** A query goes on while the store answers success or more data. With "no more data"
      it still gets an object, the last one; any other code ends it without one. */
  lemma {:induction false} ListingIs(script: seq<Answer>, k: nat, n: nat)
    requires k + n < |script| && script[k + n].code !in {Success, MoreData}
    requires forall i :: k <= i < k + n ==> script[i].code in {Success, MoreData}
    ensures Listing(script, k) ==
            if script[k + n].code == NoMoreData then FoundIn(script, k, n + 1) else FoundIn(script, k, n)
    ensures ListingCode(script, k) == script[k + n].code && ListingCalls(script, k) == n + 1
    decreases n
  {
    hide Listing, ListingCode, ListingCalls;
    ListingNext(script, k);
    assert AnswerTo(script, k) == script[k];
    hide AnswerTo;
    if n > 0 {
      ListingIs(script, k + 1, n - 1);
    }
  }

  function Min(a: nat, b: nat): (m: nat)
    ensures m <= a && m <= b && (m == a || m == b)
  {
    if a < b then a else b
  }

  // ------------------------------------------------------------ the protocol

  /** Which way a session moves data. */
  datatype Side = Neither | Backup | Restore

  /** What has become of the transaction when a session is terminated. */
  datatype TxnFate = NotBegun | Ended | LeftOpen

  datatype Phase =
    | Fresh | Failed(begun: bool) | Opened | InTxn | Writing | Searching | Reading
    | DataEnded(side: Side) | TxnEnded(side: Side) | Closed(side: Side, fate: TxnFate) | Bad
  {
    function SideOf(): Side {
      match this
      case Writing => Backup
      case Failed(begun) => if begun then Backup else Neither
      case Searching => Restore
      case Reading => Restore
      case DataEnded(side) => side
      case TxnEnded(side) => side
      case Closed(side, _) => side
      case _ => Neither
    }
  }

  /** One session, one transaction; data is sent only to an object that was created,
      and fetched only after a query and a call of BSAGetObject, even if that failed; a
      transaction that moved data is ended before the session is terminated, and only
      a start that failed leaves one open. */
  function Next(p: Phase, e: Event): Phase {
    var ok := e.code.Success?;
    match p
    case Fresh => if e.call.Init? then if ok then Opened else Failed(false) else Bad
    case Opened => if e.call.BeginTxn? then if ok then InTxn else Failed(false) else Bad
    case InTxn =>
      if e.call.CreateObject? then if ok then Writing else Failed(true)
      else if e.call.QueryObject? then Searching
      else Bad
    case Writing => if e.call.SendData? then Writing else if e.call.EndData? then DataEnded(Backup) else Bad
    case Searching =>
      if e.call.QueryObject? || e.call.GetNextQueryObject? then Searching
      else if e.call.GetObject? then Reading
      else if e.call.EndData? then DataEnded(Restore)
      else if e.call.Terminate? then Closed(Restore, LeftOpen)
      else Bad
    case Reading => if e.call.GetData? then Reading else if e.call.EndData? then DataEnded(Restore) else Bad
    case DataEnded(side) => if e.call.EndTxn? then TxnEnded(side) else Bad
    case TxnEnded(side) => if e.call.Terminate? then Closed(side, Ended) else Bad
    case Failed(begun) =>
      if e.call.Terminate? then Closed(p.SideOf(), if begun then LeftOpen else NotBegun) else Bad
    case _ => Bad
  }

  function PhaseOf(trace: seq<Event>): Phase {
    if trace == [] then Fresh else Next(PhaseOf(trace[..|trace| - 1]), trace[|trace| - 1])
  }

  lemma PhaseOfNext(trace: seq<Event>, e: Event)
    ensures PhaseOf(trace + [e]) == Next(PhaseOf(trace), e)
  {
    assert (trace + [e])[..|trace|] == trace;
  }

  function Count(trace: seq<Event>, c: Call): nat {
    if trace == [] then 0
    else Count(trace[..|trace| - 1], c) + if trace[|trace| - 1].call == c then 1 else 0
  }

  /** The transactions begun: calls of BSABeginTxn that succeeded. */
  function Begun(trace: seq<Event>): nat {
    if trace == [] then 0
    else Begun(trace[..|trace| - 1]) + if trace[|trace| - 1] == Event(BeginTxn, Success) then 1 else 0
  }

  function TxnEnds(trace: seq<Event>): nat {
    Count(trace, EndTxn(true)) + Count(trace, EndTxn(false))
  }

  /** The calls that store data, those that look for it and fetch it, and those that
      move it. */
  function Stores(trace: seq<Event>): nat {
    Count(trace, CreateObject) + Count(trace, SendData)
  }

  function Fetches(trace: seq<Event>): nat {
    Count(trace, QueryObject) + Count(trace, GetNextQueryObject) + Count(trace, GetObject) + Count(trace, GetData)
  }

  function Moves(trace: seq<Event>): nat {
    Count(trace, SendData) + Count(trace, GetObject) + Count(trace, GetData)
  }

  /** How often each call has been made in a trace that ends in phase `p`: the calls
      about the session, about the transaction, and about the data. */
  predicate SessionTally(trace: seq<Event>, p: Phase) {
    && Count(trace, Init) == (if p.Fresh? then 0 else 1)
    && Count(trace, Terminate) == (if p.Closed? then 1 else 0)
  }

  predicate TxnTally(trace: seq<Event>, p: Phase) {
    && Begun(trace) == (if p.Fresh? || p.Opened? || p == Failed(false) || (p.Closed? && p.fate.NotBegun?) then 0 else 1)
    && TxnEnds(trace) == (if p.TxnEnded? || (p.Closed? && p.fate.Ended?) then 1 else 0)
  }

  predicate DataTally(trace: seq<Event>, p: Phase) {
    && (p.SideOf() != Backup ==> Stores(trace) == 0)
    && (p.SideOf() != Restore ==> Fetches(trace) == 0)
    && (p.Fresh? || p.Failed? || p.Searching? || (p.Closed? && !p.fate.Ended?) ==> Moves(trace) == 0)
  }

  lemma {:induction false} KeepsTally(trace: seq<Event>)
    requires PhaseOf(trace) != Bad
    ensures SessionTally(trace, PhaseOf(trace))
    ensures TxnTally(trace, PhaseOf(trace))
    ensures DataTally(trace, PhaseOf(trace))
  {
    if trace != [] {
      var front, e := trace[..|trace| - 1], trace[|trace| - 1];
      KeepsTally(front);
      SessionTallyNext(front, PhaseOf(front), e);
      TxnTallyNext(front, PhaseOf(front), e);
      DataTallyNext(front, PhaseOf(front), e);
      assert front + [e] == trace;
    }
  }

  lemma SessionTallyNext(trace: seq<Event>, p: Phase, e: Event)
    requires SessionTally(trace, p) && Next(p, e) != Bad
    ensures SessionTally(trace + [e], Next(p, e))
  {
    assert (trace + [e])[..|trace|] == trace;
  }

  lemma TxnTallyNext(trace: seq<Event>, p: Phase, e: Event)
    requires TxnTally(trace, p) && Next(p, e) != Bad
    ensures TxnTally(trace + [e], Next(p, e))
  {
    assert (trace + [e])[..|trace|] == trace;
  }

  lemma DataTallyNext(trace: seq<Event>, p: Phase, e: Event)
    requires DataTally(trace, p) && Next(p, e) != Bad
    ensures DataTally(trace + [e], Next(p, e))
  {
    assert (trace + [e])[..|trace|] == trace;
  }

  /** What it means for a trace to keep to the protocol up to its end: one session was
      opened and terminated; its transaction, if one was begun, was ended once unless
      it was left open; data was moved one way only, and none outside a transaction
      that was ended. */
  lemma ClosedSession(trace: seq<Event>)
    requires PhaseOf(trace).Closed?
    ensures Count(trace, Init) == 1 && Count(trace, Terminate) == 1 && trace[|trace| - 1].call == Terminate
    ensures Begun(trace) == (if PhaseOf(trace).fate.NotBegun? then 0 else 1)
    ensures TxnEnds(trace) == (if PhaseOf(trace).fate.Ended? then 1 else 0)
    ensures PhaseOf(trace).side != Backup ==> Stores(trace) == 0
    ensures PhaseOf(trace).side != Restore ==> Fetches(trace) == 0
    ensures !PhaseOf(trace).fate.Ended? ==> Moves(trace) == 0
  {
    hide Count, Begun, TxnEnds, Stores, Fetches, Moves;
    KeepsTally(trace);
  }
}
