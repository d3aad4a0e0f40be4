/** The self-describing monitor stream: a forest of logical groupings and monitor
    elements, each introduced by a sqlm_header_info. */
module MonitorFormat {
  import opened Bytes
  import opened Seqs

  const HEADER_INFO_SIZE: nat := 8   // 4 bytes of size, 2 of type, 2 of element

  // The type codes; only that they differ matters here.
  const TYPE_HEADER: U16 := 1
  const TYPE_U32BIT: U16 := 2
  const TYPE_32BIT: U16 := 3
  const TYPE_U16BIT: U16 := 4
  const TYPE_16BIT: U16 := 5

  lemma TypesDiffer()
    ensures |{TYPE_HEADER, TYPE_U32BIT, TYPE_32BIT, TYPE_U16BIT, TYPE_16BIT}| == 5
  {
  }

  datatype Node =
    | Group(element: U16, children: seq<Node>)
    | Data(typ: U16, element: U16, bytes: seq<Byte>)

  /** One line of output: how far it is indented, and what it shows. */
  datatype Line =
    | GroupLine(indent: nat, element: U16, size: U32)
    | DataLine(indent: nat, element: U16, size: U32, shown: seq<Byte>)

  /** How many bytes are read to show data of the given type and size. */
  function ShownSize(typ: U16, size: nat): nat {
    if typ == TYPE_U32BIT || typ == TYPE_32BIT then 4
    else if typ == TYPE_U16BIT || typ == TYPE_16BIT then 2
    else size
  }

  /** What the writer of a stream guarantees: sizes fit their field, and numbers
      have the width of their type. */
  predicate WellFormed(n: Node) {
    match n
    case Group(_, children) => |Forest(children)| < 0x1_0000_0000 && AllWellFormed(children)
    case Data(typ, _, bytes) =>
      && typ != TYPE_HEADER && |bytes| < 0x1_0000_0000
      && (typ in {TYPE_U32BIT, TYPE_32BIT} ==> |bytes| == 4)
      && (typ in {TYPE_U16BIT, TYPE_16BIT} ==> |bytes| == 2)
  }

  predicate AllWellFormed(ns: seq<Node>) {
    forall i :: 0 <= i < |ns| ==> WellFormed(ns[i])
  }

  function Header(size: U32, typ: U16, element: U16): (h: seq<Byte>)
    ensures |h| == HEADER_INFO_SIZE
  {
    PutU32(size) + PutU16(typ) + PutU16(element)
  }

  /** A size as the 4-byte field holds it. */
  function SizeField(n: nat): U32 {
    if n < 0x1_0000_0000 then n else n % 0x1_0000_0000
  }

  /** The bytes of a node; a size that does not fit its field is cut. */
  function Serialize(n: Node): (b: seq<Byte>)
    ensures |b| >= HEADER_INFO_SIZE
    decreases n
  {
    match n
    case Group(element, children) =>
      Header(SizeField(|Forest(children)|), TYPE_HEADER, element) + Forest(children)
    case Data(typ, element, bytes) =>
      Header(SizeField(|bytes|), typ, element) + bytes
  }

  function Forest(ns: seq<Node>): seq<Byte>
    decreases ns
  {
    if ns == [] then [] else Serialize(ns[0]) + Forest(ns[1..])
  }

  // --------------------------------------------------------------- indentation

  const BLANKS_LENGTH: nat := 77

  /** The length of the prefix at nesting depth `depth`. */
  function PrefixLength(depth: nat): nat {
    if 1 + 2 * depth < BLANKS_LENGTH then 1 + 2 * depth else BLANKS_LENGTH
  }

  /** The first prefix is one blank. */
  lemma PrefixIs(depth: nat)
    ensures PrefixLength(depth) == if depth < 38 then 1 + 2 * depth else 77
  {
  }

  /** The listing of a forest: every node once, in preorder, indented by its depth. */
  function Listing(ns: seq<Node>, depth: nat): seq<Line>
    decreases ns
  {
    if ns == [] then [] else NodeListing(ns[0], depth) + Listing(ns[1..], depth)
  }

  function NodeListing(n: Node, depth: nat): seq<Line>
    decreases n
  {
    match n
    case Group(element, children) =>
      [GroupLine(PrefixLength(depth), element, SizeField(|Forest(children)|))] + Listing(children, depth + 1)
    case Data(typ, element, bytes) =>
      [DataLine(PrefixLength(depth), element, SizeField(|bytes|), bytes)]
  }
}
