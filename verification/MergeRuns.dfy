/** Whole runs of the merge: what they emit, and exactly when they succeed. */
module MergeRuns {
  import opened Bytes
  import opened LogFrames
  import opened MergeSpec

  // ------------------------------------------------- what a state has to give

  function Lookup(q: seq<Stream>, id: nat): (s: Stream)
    ensures s.id == id
  {
    if q == [] then Stream(id, [], false) else if q[0].id == id then q[0] else Lookup(q[1..], id)
  }

  /** The stream numbered `id`, wherever it is; an exhausted one if there is none. */
  function StreamOf(st: State, id: nat): Stream {
    if st.hand.Some? && st.hand.value.id == id then st.hand.value else Lookup(st.queue, id)
  }

  function Rest(st: State, id: nat): seq<LogRecord> {
    StreamOf(st, id).rest
  }

  function Size(q: seq<Stream>): nat {
    if q == [] then 0 else |q[0].rest| + Size(q[1..])
  }

  function Total(st: State): nat {
    Size(st.queue) + if st.hand.Some? then |st.hand.value.rest| else 0
  }

  lemma {:induction false} LookupMember(q: seq<Stream>, i: nat)
    requires DistinctIds(q) && i < |q|
    ensures Lookup(q, q[i].id) == q[i]
  {
    if i != 0 {
      LookupMember(q[1..], i - 1);
    }
  }

  lemma {:induction false} LookupIsMember(q: seq<Stream>, id: nat)
    ensures Lookup(q, id).rest == [] || Lookup(q, id) in q
  {
    if q != [] && q[0].id != id {
      LookupIsMember(q[1..], id);
    }
  }

  lemma {:induction false} LookupEnqueue(q: seq<Stream>, s: Stream, id: nat)
    requires forall i :: 0 <= i < |q| ==> q[i].id != s.id
    ensures Lookup(Enqueue(q, s), id) == if id == s.id then s else Lookup(q, id)
    ensures Size(Enqueue(q, s)) == Size(q) + |s.rest|
  {
    if q == [] || CompLri(q[0].Head(), s.Head()) > 0 {
      assert ([s] + q)[1..] == q;
      if id == s.id { } else { }
    } else {
      LookupEnqueue(q[1..], s, id);
      assert Enqueue(q, s)[1..] == Enqueue(q[1..], s);
    }
  }

  /** Reselecting moves streams about and drops an exhausted one; every stream
      with records left keeps them. */
  lemma SelectKeepsStreams(st: State, id: nat)
    requires Inv(st)
    ensures Rest(Select(st), id) == Rest(st, id)
    ensures Rest(st, id) != [] ==> StreamOf(Select(st), id) == StreamOf(st, id)
    ensures Rest(Reselect(st), id) == Rest(st, id)
    ensures Total(Select(st)) == Total(st)
  {
    if st.hand.Some? && st.hand.value.rest != [] {
      LookupEnqueue(st.queue, st.hand.value, id);
    } else if st.hand.Some? && id == st.hand.value.id {
      LookupIsMember(st.queue, id);
    }
    SelectKeepsInv(st);
    var q := Requeue(st);
    if q != [] {
      assert q == [q[0]] + q[1..];
    }
  }

  /** One call takes the first record of one stream and leaves the others alone. */
  lemma StepTakesOne(st: State, id: nat)
    requires Inv(st) && (Step(st).1.Emit? || Step(st).1.ReadError?)
    ensures var h := Step(st).0.hand;
            && h.Some?
            && Rest(st, h.value.id) != []
            && Step(st).0.last == Rest(st, h.value.id)[0].lri
            && h.value == StreamOf(st, h.value.id).Pop()
            && (id != h.value.id ==> Rest(Step(st).0, id) == Rest(st, id))
            && (id != h.value.id && Rest(st, id) != [] ==> StreamOf(Step(st).0, id) == StreamOf(st, id))
    ensures Total(Step(st).0) == Total(st) - 1
  {
    SelectKeepsInv(st);
    SelectKeepsStreams(st, id);
    SelectKeepsStreams(st, Select(st).hand.value.id);
  }

  lemma StepEmits(st: State)
    requires Inv(st) && Step(st).1.Emit?
    ensures var (st1, o) := Step(st);
            st1.hand.Some? && Rest(st, o.item.id) == [o.item.rec] + Rest(st1, o.item.id) && st1.hand.value.id == o.item.id
  {
  }

  // -------------------------------------------------------------------- runs

  /** Call getNextLogRecord until it returns something other than 0. */
  function Run(st: State): (r: (seq<Item>, Outcome))
    requires Inv(st)
    ensures !r.1.Emit?
    decreases Total(st)
  {
    var (st1, o) := Step(st);
    if !o.Emit? then ([], o)
    else
      StepKeepsInv(st);
      StepTakesOne(st, 0);
      var (out, end) := Run(st1);
      ([o.item] + out, end)
  }

  predicate Succeeds(st: State)
    requires Inv(st)
  {
    Run(st).1 == ReadToCur
  }

  /** The records that stream `id` contributed to `out`, in order. */
  function Project(out: seq<Item>, id: nat): seq<LogRecord> {
    if out == [] then []
    else (if out[0].id == id then [out[0].rec] else []) + Project(out[1..], id)
  }

  lemma ProjectCons(item: Item, out: seq<Item>, id: nat)
    ensures Project([item] + out, id) == (if item.id == id then [item.rec] else []) + Project(out, id)
  {
  }

  predicate Increasing(out: seq<Item>) {
    forall i, j :: 0 <= i < j < |out| ==> Less(out[i].rec.lri, out[j].rec.lri)
  }

  predicate Above(lri: Lri, out: seq<Item>) {
    forall i :: 0 <= i < |out| ==> Less(lri, out[i].rec.lri)
  }

  /** Every prefix of a run, successful or not, is strictly increasing. */
  lemma {:induction false} RunIncreases(st: State)
    requires Inv(st)
    ensures Increasing(Run(st).0) && Above(st.last, Run(st).0)
    decreases Total(st)
  {
    var (st1, o) := Step(st);
    if o.Emit? {
      StepKeepsInv(st);
      StepTakesOne(st, 0);
      RunIncreases(st1);
    }
  }

  /** Conservation: a successful run emits every record of every stream exactly
      once, each stream's records in that stream's order. */
  lemma {:induction false} RunInterleaves(st: State, id: nat)
    requires Inv(st) && Succeeds(st)
    ensures Project(Run(st).0, id) == Rest(st, id)
    ensures |Run(st).0| == Total(st)
    decreases Total(st)
  {
    var (st1, o) := Step(st);
    if o.Emit? {
      StepKeepsInv(st);
      StepTakesOne(st, id);
      RunInterleaves(st1, id);
      ProjectCons(o.item, Run(st1).0, id);
      StepEmits(st);
    } else {
      SelectKeepsInv(st);
      SelectKeepsStreams(st, id);
    }
  }
}
