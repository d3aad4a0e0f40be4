/** ParseMonitorStream: a recursive parser whose loop cursor is what the recursive
    call returns. */
module MonitorParser {
  import opened Bytes
  import opened Seqs
  import opened Wrappers

  import opened MonitorFormat

  /** Where the parser stops and what it has printed; Fault if it reads beyond the
      buffer, which the program does not check. */
  datatype Parse = Fault | Done(pos: nat, lines: seq<Line>) {
    function Prepend(before: seq<Line>): Parse {
      match this
      case Fault => Fault
      case Done(pos, lines) => Done(pos, before + lines)
    }
  }

  function NextIndent(indent: nat): nat {
    if indent + 2 < BLANKS_LENGTH then indent + 2 else BLANKS_LENGTH
  }

  /** The parser as a function of any buffer, in the order in which it reads. */
  function Walk(buf: seq<Byte>, pos: nat, end: nat, indent: nat): (r: Parse)
    ensures r.Done? ==> pos <= r.pos && end <= r.pos
    decreases if pos < |buf| then |buf| - pos else 0
  {
    if pos >= end then Done(pos, [])
    else if pos + HEADER_INFO_SIZE > |buf| then Fault
    else
      var size, typ, element := U32At(buf, pos), U16At(buf, pos + 4), U16At(buf, pos + 6);
      var data := pos + HEADER_INFO_SIZE;
      if typ == TYPE_HEADER then
        match Walk(buf, data, data + size, NextIndent(indent))
        case Fault => Fault
        case Done(next, inner) => Walk(buf, next, end, indent).Prepend([GroupLine(indent, element, size)] + inner)
      else if data + ShownSize(typ, size) > |buf| then Fault
      else
        Walk(buf, data + size, end, indent).Prepend([DataLine(indent, element, size, buf[data..data + ShownSize(typ, size)])])
  }

  // -------------------------------------------------------------- the inverse

  lemma HeaderAt(buf: seq<Byte>, p: nat, size: U32, typ: U16, element: U16)
    requires At(buf, p, Header(size, typ, element))
    ensures p + HEADER_INFO_SIZE <= |buf|
    ensures U32At(buf, p) == size && U16At(buf, p + 4) == typ && U16At(buf, p + 6) == element
  {
    AtSplit(buf, p, PutU32(size) + PutU16(typ), PutU16(element));
    AtSplit(buf, p, PutU32(size), PutU16(typ));
    AtSlice(buf, p, PutU32(size));
    AtSlice(buf, p + 4, PutU16(typ));
    AtSlice(buf, p + 6, PutU16(element));
  }

  lemma WalkEnd(buf: seq<Byte>, p: nat, end: nat, indent: nat)
    requires p >= end
    ensures Walk(buf, p, end, indent) == Done(p, [])
  {
  }

  /** What is shown of data, whatever size its header gives: a number is read with the
      width of its type, and parsing goes on behind the size given. */
  lemma DataShown(buf: seq<Byte>, p: nat, end: nat, indent: nat)
    requires p < end && p + 8 <= |buf| && U16At(buf, p + 4) != TYPE_HEADER
    ensures var size, typ, element := U32At(buf, p), U16At(buf, p + 4), U16At(buf, p + 6);
            var width := if typ in {TYPE_U32BIT, TYPE_32BIT} then 4 else if typ in {TYPE_U16BIT, TYPE_16BIT} then 2 else size;
            Walk(buf, p, end, indent) ==
            if p + 8 + width > |buf| then Fault
            else
              Walk(buf, p + 8 + size, end, indent)
              .Prepend([DataLine(indent, element, size, buf[p + 8..p + 8 + width])])
  {
  }

  lemma DataStep(buf: seq<Byte>, p: nat, end: nat, indent: nat, typ: U16, element: U16, bytes: seq<Byte>)
    requires p < end && |bytes| < 0x1_0000_0000
    requires At(buf, p, Header(|bytes|, typ, element)) && At(buf, p + HEADER_INFO_SIZE, bytes)
    requires WellFormed(Data(typ, element, bytes))
    ensures Walk(buf, p, end, indent) ==
            Walk(buf, p + HEADER_INFO_SIZE + |bytes|, end, indent).Prepend([DataLine(indent, element, |bytes|, bytes)])
  {
    hide At, Header, U32At, U16At;
    HeaderAt(buf, p, |bytes|, typ, element);
    AtSlice(buf, p + HEADER_INFO_SIZE, bytes);
  }

  lemma GroupStep(buf: seq<Byte>, p: nat, end: nat, indent: nat, element: U16, size: U32, inner: seq<Line>)
    requires p < end && At(buf, p, Header(size, TYPE_HEADER, element))
    requires var data := p + HEADER_INFO_SIZE; Walk(buf, data, data + size, NextIndent(indent)) == Done(data + size, inner)
    ensures Walk(buf, p, end, indent) ==
            Walk(buf, p + HEADER_INFO_SIZE + size, end, indent).Prepend([GroupLine(indent, element, size)] + inner)
  {
    hide At, Header, U32At, U16At;
    HeaderAt(buf, p, size, TYPE_HEADER, element);
  }

  lemma GroupParts(buf: seq<Byte>, p: nat, n: Node)
    requires n.Group? && WellFormed(n) && At(buf, p, Serialize(n))
    ensures var size := |Forest(n.children)|;
            && size < 0x1_0000_0000 && |Serialize(n)| == HEADER_INFO_SIZE + size
            && At(buf, p, Header(size, TYPE_HEADER, n.element))
    ensures AllWellFormed(n.children) && At(buf, p + HEADER_INFO_SIZE, Forest(n.children))
  {
    var body := Forest(n.children);
    AtSplit(buf, p, Header(|body|, TYPE_HEADER, n.element), body);
  }

  lemma DataParts(buf: seq<Byte>, p: nat, n: Node)
    requires n.Data? && WellFormed(n) && At(buf, p, Serialize(n))
    ensures |Serialize(n)| == HEADER_INFO_SIZE + |n.bytes| && At(buf, p, Header(|n.bytes|, n.typ, n.element))
    ensures At(buf, p + HEADER_INFO_SIZE, n.bytes)
  {
    AtSplit(buf, p, Header(|n.bytes|, n.typ, n.element), n.bytes);
  }

  lemma NextPrefix(depth: nat)
    ensures NextIndent(PrefixLength(depth)) == PrefixLength(depth + 1)
  {
  }

  /** Parsing one serialized node lists it, then goes on from where it ends. */
  lemma {:induction false} NodeStep(buf: seq<Byte>, p: nat, n: Node, end: nat, depth: nat)
    requires WellFormed(n) && At(buf, p, Serialize(n)) && p < end
    ensures Walk(buf, p, end, PrefixLength(depth)) ==
            Walk(buf, p + |Serialize(n)|, end, PrefixLength(depth)).Prepend(NodeListing(n, depth))
    decreases n, 1
  {
    hide Walk, Serialize, Forest, At, WellFormed, PrefixLength, NextIndent;
    match n {
      case Group(element, children) =>
        GroupParts(buf, p, n);
        NextPrefix(depth);
        ForestStep(buf, p + HEADER_INFO_SIZE, children, depth + 1);
        GroupStep(buf, p, end, PrefixLength(depth), element, |Forest(children)|, Listing(children, depth + 1));
      case Data(typ, element, bytes) =>
        DataParts(buf, p, n);
        DataStep(buf, p, end, PrefixLength(depth), typ, element, bytes);
    }
  }

  /** Parsing a serialized forest, wherever in the buffer it lies, lists it and
      stops exactly at its end. */
  lemma {:induction false} ForestStep(buf: seq<Byte>, p: nat, ns: seq<Node>, depth: nat)
    requires AllWellFormed(ns) && At(buf, p, Forest(ns))
    ensures Walk(buf, p, p + |Forest(ns)|, PrefixLength(depth)) == Done(p + |Forest(ns)|, Listing(ns, depth))
    decreases ns, 0
  {
    hide Walk, Serialize, At, WellFormed;
    var end, indent := p + |Forest(ns)|, PrefixLength(depth);
    if ns == [] {
      WalkEnd(buf, p, p, indent);
    } else {
      var n, rest := ns[0], ns[1..];
      ForestSplits(buf, p, ns);
      ForestStep(buf, p + |Serialize(n)|, rest, depth);
      NodeStep(buf, p, n, end, depth);
    }
  }

  lemma ForestSplits(buf: seq<Byte>, p: nat, ns: seq<Node>)
    requires ns != [] && At(buf, p, Forest(ns))
    ensures At(buf, p, Serialize(ns[0])) && At(buf, p + |Serialize(ns[0])|, Forest(ns[1..]))
    ensures |Forest(ns)| == |Serialize(ns[0])| + |Forest(ns[1..])|
  {
    AtSplit(buf, p, Serialize(ns[0]), Forest(ns[1..]));
  }

  /** The parser inverts the serializer: in any surroundings, a serialized forest is
      listed node by node, and parsing ends exactly where the forest does. */
  lemma {:induction false} ParseInvertsForest(before: seq<Byte>, ns: seq<Node>, after: seq<Byte>, depth: nat)
    requires AllWellFormed(ns)
    ensures Walk(before + Forest(ns) + after, |before|, |before + Forest(ns)|, PrefixLength(depth)) ==
            Done(|before + Forest(ns)|, Listing(ns, depth))
  {
    hide Walk, Forest, Listing;
    ForestStep(before + Forest(ns) + after, |before|, ns, depth);
  }

  /** Where a stream ends whose end the caller did not give: its first header tells. */
  function CollectedEnd(buf: seq<Byte>, start: nat): nat
    requires start + HEADER_INFO_SIZE <= |buf|
  {
    start + U32At(buf, start) + HEADER_INFO_SIZE
  }

  lemma StreamTellsItsEnd(collected: Node, after: seq<Byte>)
    requires collected.Group? && WellFormed(collected)
    ensures CollectedEnd(Serialize(collected) + after, 0) == |Serialize(collected)|
  {
    var stream, children := Serialize(collected), Forest(collected.children);
    AtSplit(stream + after, 0, Header(|children|, TYPE_HEADER, collected.element), children);
    HeaderAt(stream + after, 0, |children|, TYPE_HEADER, collected.element);
  }

  /** A whole stream is one grouping; its header's size is enough to find its end. */
  lemma ParseInvertsStream(collected: Node, after: seq<Byte>)
    requires collected.Group? && WellFormed(collected)
    ensures var buf := Serialize(collected) + after;
            Walk(buf, 0, CollectedEnd(buf, 0), PrefixLength(0)) == Done(|Serialize(collected)|, NodeListing(collected, 0))
  {
    var buf, end := Serialize(collected) + after, |Serialize(collected)|;
    hide Walk, Serialize;
    StreamTellsItsEnd(collected, after);
    WalkEnd(buf, end, end, PrefixLength(0));
    NodeStep(buf, 0, collected, end, 0);
  }

  // --------------------------------------------------------------- the program

  /** `s` holds `n` blanks and then the NUL that ends a C string. */
  ghost predicate IsBlanks(s: array<char>, n: nat)
    reads s
  {
    n < s.Length && s[n] == '\0' && forall i :: 0 <= i < n ==> s[i] == ' '
  }

  /** strlen */
  method StringLength(s: array<char>, ghost n: nat) returns (length: nat)
    requires IsBlanks(s, n)
    ensures length == n
  {
    length := 0;
    while s[length] != '\0'
      invariant length <= n
      decreases n - length
    {
      length := length + 1;
    }
  }

  /** strncpy(target, BLANKS, n): at most `n` blanks, padded with NULs up to `n`. */
  method CopyBlanks(target: array<char>, n: nat)
    requires n <= target.Length
    modifies target
    ensures forall i :: 0 <= i < target.Length ==>
              target[i] == if i >= n then old(target[i]) else if i < BLANKS_LENGTH then ' ' else '\0'
  {
    for i := 0 to n
      invariant forall j :: 0 <= j < target.Length ==>
                  target[j] == if j >= i then old(target[j]) else if j < BLANKS_LENGTH then ' ' else '\0'
    {
      target[i] := if i < BLANKS_LENGTH then ' ' else '\0';
    }
  }

  /** The prefix of a nested grouping; it fits its 80 characters at every depth. */
  method Indent(prefix: array<char>, ghost n: nat) returns (newPrefix: array<char>)
    requires IsBlanks(prefix, n) && n <= BLANKS_LENGTH
    ensures fresh(newPrefix) && newPrefix.Length == 80 && IsBlanks(newPrefix, if n + 2 < 77 then n + 2 else 77)
  {
    newPrefix := new char[80];
    var length := StringLength(prefix, n);
    CopyBlanks(newPrefix, length + 2);
    newPrefix[length + 2] := '\0';
  }

  lemma PrependTwice(r: Parse, a: seq<Line>, b: seq<Line>)
    ensures r.Prepend(b).Prepend(a) == r.Prepend(a + b)
  {
  }

  /** What one round of the parser's loop does, if it stays in the buffer. */
  lemma Round(buf: seq<Byte>, p: nat, end: nat, indent: nat)
    requires p < end && Walk(buf, p, end, indent).Done?
    ensures p + HEADER_INFO_SIZE <= |buf|
    ensures var size, typ, element := U32At(buf, p), U16At(buf, p + 4), U16At(buf, p + 6);
            var data := p + HEADER_INFO_SIZE;
            if typ == TYPE_HEADER then
              var inner := Walk(buf, data, data + size, NextIndent(indent));
              && inner.Done? && Walk(buf, inner.pos, end, indent).Done?
              && Walk(buf, p, end, indent) ==
                 Walk(buf, inner.pos, end, indent).Prepend([GroupLine(indent, element, size)] + inner.lines)
            else
              && data + ShownSize(typ, size) <= |buf| && Walk(buf, data + size, end, indent).Done?
              && Walk(buf, p, end, indent) ==
                 Walk(buf, data + size, end, indent).Prepend(
                   [DataLine(indent, element, size, buf[data..data + ShownSize(typ, size)])])
  {
  }

  method ParseMonitorStream(buf: seq<Byte>, prefix: array<char>, ghost n: nat, start: nat, pEnd: Option<nat>)
    returns (pos: nat, lines: seq<Line>)
    requires IsBlanks(prefix, n) && n <= BLANKS_LENGTH
    requires pEnd.None? ==> start + HEADER_INFO_SIZE <= |buf|
    requires var end := if pEnd.Some? then pEnd.value else CollectedEnd(buf, start);
             Walk(buf, start, end, n).Done?
    ensures var end := if pEnd.Some? then pEnd.value else CollectedEnd(buf, start);
            Walk(buf, start, end, n) == Done(pos, lines)
    decreases if start < |buf| then |buf| - start else 0
  {
    hide Walk, U32At, U16At, CollectedEnd, IsBlanks;
    var end := if pEnd.Some? then pEnd.value else CollectedEnd(buf, start);
    pos, lines := start, [];
    while pos < end
      invariant start <= pos && Walk(buf, pos, end, n).Done?
      invariant Walk(buf, start, end, n) == Walk(buf, pos, end, n).Prepend(lines)
      decreases end - pos
    {
      Round(buf, pos, end, n);
      var size, typ, element := U32At(buf, pos), U16At(buf, pos + 4), U16At(buf, pos + 6);
      var data := pos + HEADER_INFO_SIZE;
      var length := StringLength(prefix, n);
      if typ == TYPE_HEADER {
        var newPrefix := Indent(prefix, n);
        var next, inner := ParseMonitorStream(buf, newPrefix, NextIndent(n), data, Some(data + size));
        PrependTwice(Walk(buf, next, end, n), lines, [GroupLine(length, element, size)] + inner);
        lines := lines + ([GroupLine(length, element, size)] + inner);
        pos := next;
      } else {
        var shown := buf[data..data + ShownSize(typ, size)];
        PrependTwice(Walk(buf, data + size, end, n), lines, [DataLine(length, element, size, shown)]);
        lines := lines + [DataLine(length, element, size, shown)];
        pos := data + size;
      }
    }
    WalkEnd(buf, pos, end, n);
  }
}
