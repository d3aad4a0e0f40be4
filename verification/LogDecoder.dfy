/** The log record decoder of utilrecov.c: which bytes of a record are shown as what. */
module LogDecoder {
  import opened Bytes
  import opened Seqs
  import opened Wrappers

  const RECORD_HEADER_SIZE: nat := 40
  const RID_SIZE: nat := 6
  const COMPONENT_HEADER_SIZE: nat := 6

  const LOCAL_PENDING_LIST: U16 := 0x8A
  const NORMAL_COMMIT: U16 := 0x84
  const NORMAL_ABORT: U16 := 0x41
  const NORMAL: U16 := 0x4E
  const COMPENSATION: U16 := 0x43

  // ------------------------------------------------------ data manager operations

  /** What is shown of a data manager record: the row that it is about, and the
      images of sub-records in it. */
  datatype Operation =
    | SubRecord(id: Byte, rid: seq<Byte>, offset: U16, image: seq<Byte>)
    | UndoInsert(rid: seq<Byte>, length: U16)
    | Update(rid: seq<Byte>, offset: U16, oldImage: seq<Byte>, newImage: seq<Byte>)
    | AlterAttribute(mask: U64, values: U64)
    | UnknownFunction(id: Byte)

  /** Insert, delete, undo update and undo delete. */
  predicate IsShort(f: Byte) {
    f == 161 || f == 112 || f == 111 || f == 162
  }

  /** The operations on an empty page, which have 6 more bytes in front of the offset. */
  predicate IsLong(f: Byte) {
    f == 165 || f == 164 || f == 166
  }

  /** ComplexLogRecordDisplay, for the bytes behind the record header; None if it
      reads beyond them. */
  function DecodeOperation(f: Byte, data: seq<Byte>): Option<Operation> {
    if IsShort(f) then DecodeSubRecord(f, data, 12)
    else if IsLong(f) then DecodeSubRecord(f, data, 18)
    else if f == 110 then
      if |data| < 12 then None else Some(UndoInsert(data[6..12], U16At(data, 2)))
    else if f == 163 then DecodeUpdate(data)
    else if f == 124 then DecodeAlter(data)
    else Some(UnknownFunction(f))
  }

  function DecodeSubRecord(f: Byte, data: seq<Byte>, at: nat): Option<Operation>
    requires at >= 12
  {
    if |data| < at + 2 then None
    else
      var end := at + 2 + U16At(data, 2);
      if |data| < end then None else Some(SubRecord(f, data[6..12], U16At(data, at), data[at + 2..end]))
  }

  /** Each image of an update has its length in its own bytes 2 and 3; the new image
      starts 20 bytes behind the end of the old one. */
  function DecodeUpdate(data: seq<Byte>): Option<Operation> {
    if |data| < 18 then None
    else
      var oldEnd := 14 + U16At(data, 16);
      var newStart := oldEnd + COMPONENT_HEADER_SIZE + 6 + RID_SIZE + 2;
      if |data| < newStart + 4 then None
      else
        var newEnd := newStart + U16At(data, newStart + 2);
        if |data| < newEnd then None
        else Some(Update(data[6..12], U16At(data, 12), data[14..oldEnd], data[newStart..newEnd]))
  }

  function DecodeAlter(data: seq<Byte>): Option<Operation> {
    if |data| < 16 then None else Some(AlterAttribute(U64At(data, 0), U64At(data, 8)))
  }

  function FunctionOf(op: Operation): Byte {
    match op
    case SubRecord(f, _, _, _) => f
    case UndoInsert(_, _) => 110
    case Update(_, _, _, _) => 163
    case AlterAttribute(_, _) => 124
    case UnknownFunction(f) => f
  }

  predicate HasOwnLength(image: seq<Byte>) {
    4 <= |image| < 0x1_0000 && U16At(image, 2) == |image|
  }

  predicate WellFormed(op: Operation) {
    match op
    case SubRecord(f, rid, _, image) =>
      f in {161, 112, 111, 162, 165, 164, 166} && |rid| == 6 && |image| < 0x1_0000
    case UndoInsert(rid, _) => |rid| == 6
    case Update(rid, _, o, n) => |rid| == 6 && HasOwnLength(o) && HasOwnLength(n)
    case AlterAttribute(_, _) => true
    case UnknownFunction(f) => f !in {161, 112, 111, 162, 165, 164, 166, 110, 163, 124}
  }

  /** The bytes of an operation; `gap` holds what the decoder does not look at. */
  function EncodeOperation(op: Operation, gap: seq<Byte>): seq<Byte>
    requires |gap| == 20 && WellFormed(op)
  {
    match op
    case SubRecord(f, rid, offset, image) =>
      EncodeSubRecord(rid, offset, image, gap[..2], if f in {165, 164, 166} then gap[..6] else [])
    case UndoInsert(rid, length) => gap[..2] + PutU16(length) + gap[..2] + rid + [] + []
    case Update(rid, offset, o, n) => EncodeUpdate(rid, offset, o, n, gap[..6], gap)
    case AlterAttribute(mask, values) => PutU64(mask) + PutU64(values)
    case UnknownFunction(_) => gap
  }

  function EncodeSubRecord(rid: seq<Byte>, offset: U16, image: seq<Byte>, gap: seq<Byte>, skip: seq<Byte>): seq<Byte>
    requires |image| < 0x1_0000
  {
    gap + PutU16(|image|) + gap + rid + (skip + PutU16(offset)) + image
  }

  function EncodeUpdate(rid: seq<Byte>, offset: U16, o: seq<Byte>, n: seq<Byte>, head: seq<Byte>,
                        gap: seq<Byte>): seq<Byte> {
    head + rid + PutU16(offset) + o + gap + n
  }

  lemma FieldU16(buf: seq<Byte>, p: nat, v: U16)
    requires At(buf, p, PutU16(v))
    ensures p + 2 <= |buf| && U16At(buf, p) == v
  {
    AtSlice(buf, p, PutU16(v));
  }

  lemma FieldU32(buf: seq<Byte>, p: nat, v: U32)
    requires At(buf, p, PutU32(v))
    ensures p + 4 <= |buf| && U32At(buf, p) == v
  {
    AtSlice(buf, p, PutU32(v));
  }

  lemma FieldU64(buf: seq<Byte>, p: nat, v: U64)
    requires At(buf, p, PutU64(v))
    ensures p + 8 <= |buf| && U64At(buf, p) == v
  {
    AtSlice(buf, p, PutU64(v));
  }

  lemma FieldInside(buf: seq<Byte>, p: nat, part: seq<Byte>, i: nat)
    requires At(buf, p, part) && i + 2 <= |part|
    ensures p + i + 2 <= |buf| && U16At(buf, p + i) == U16At(part, i)
  {
    AtSlice(buf, p, part);
    SubSlice(buf, p, p + |part|, i, 2);
  }

  lemma SubRecordFields(f: Byte, data: seq<Byte>, at: nat, rid: seq<Byte>, offset: U16, image: seq<Byte>)
    requires |image| < 0x1_0000 && |rid| == RID_SIZE && at >= 12
    requires At(data, 2, PutU16(|image|)) && At(data, 6, rid) && At(data, at, PutU16(offset)) && At(data, at + 2, image)
    ensures DecodeSubRecord(f, data, at) == Some(SubRecord(f, rid, offset, image))
  {
    FieldU16(data, 2, |image|);
    FieldU16(data, at, offset);
    AtSlice(data, 6, rid);
    AtSlice(data, at + 2, image);
  }

  lemma SubRecordInverse(f: Byte, rid: seq<Byte>, offset: U16, image: seq<Byte>, gap: seq<Byte>, skip: seq<Byte>)
    requires |image| < 0x1_0000 && |rid| == RID_SIZE && |gap| == 2
    ensures DecodeSubRecord(f, EncodeSubRecord(rid, offset, image, gap, skip), 12 + |skip|) ==
            Some(SubRecord(f, rid, offset, image))
  {
    var data := EncodeSubRecord(rid, offset, image, gap, skip);
    AtAll(data);
    AtParts(data, gap, PutU16(|image|), gap, rid, skip + PutU16(offset), image);
    AtSplit(data, 12, skip, PutU16(offset));
    SubRecordFields(f, data, 12 + |skip|, rid, offset, image);
  }

  lemma UpdateFields(data: seq<Byte>, rid: seq<Byte>, offset: U16, o: seq<Byte>, n: seq<Byte>)
    requires |rid| == RID_SIZE && HasOwnLength(o) && HasOwnLength(n)
    requires At(data, 6, rid) && At(data, 12, PutU16(offset)) && At(data, 14, o) && At(data, 34 + |o|, n)
    ensures DecodeUpdate(data) == Some(Update(rid, offset, o, n))
  {
    FieldU16(data, 12, offset);
    FieldInside(data, 14, o, 2);
    FieldInside(data, 34 + |o|, n, 2);
    AtSlice(data, 6, rid);
    AtSlice(data, 14, o);
    AtSlice(data, 34 + |o|, n);
  }

  lemma UpdateInverse(rid: seq<Byte>, offset: U16, o: seq<Byte>, n: seq<Byte>, head: seq<Byte>, gap: seq<Byte>)
    requires |head| == 6 && |gap| == 20 && |rid| == RID_SIZE && HasOwnLength(o) && HasOwnLength(n)
    ensures DecodeUpdate(EncodeUpdate(rid, offset, o, n, head, gap)) == Some(Update(rid, offset, o, n))
  {
    var data := EncodeUpdate(rid, offset, o, n, head, gap);
    AtAll(data);
    AtParts(data, head, rid, PutU16(offset), o, gap, n);
    UpdateFields(data, rid, offset, o, n);
  }

  lemma UndoInsertInverse(rid: seq<Byte>, length: U16, gap: seq<Byte>)
    requires |gap| == 20 && |rid| == RID_SIZE
    ensures DecodeOperation(110, EncodeOperation(UndoInsert(rid, length), gap)) == Some(UndoInsert(rid, length))
  {
    var data := EncodeOperation(UndoInsert(rid, length), gap);
    AtAll(data);
    AtParts(data, gap[..2], PutU16(length), gap[..2], rid, [], []);
    FieldU16(data, 2, length);
    AtSlice(data, 6, rid);
  }

  lemma AlterFields(data: seq<Byte>, mask: U64, values: U64)
    requires At(data, 0, PutU64(mask)) && At(data, 8, PutU64(values))
    ensures DecodeAlter(data) == Some(AlterAttribute(mask, values))
  {
    FieldU64(data, 0, mask);
    FieldU64(data, 8, values);
  }

  lemma AlterInverse(mask: U64, values: U64)
    ensures DecodeAlter(PutU64(mask) + PutU64(values)) == Some(AlterAttribute(mask, values))
  {
    var data := PutU64(mask) + PutU64(values);
    AtAll(data);
    AtSplit(data, 0, PutU64(mask), PutU64(values));
    AlterFields(data, mask, values);
  }

  predicate Inverse(op: Operation, gap: seq<Byte>)
    requires |gap| == 20 && WellFormed(op)
  {
    DecodeOperation(FunctionOf(op), EncodeOperation(op, gap)) == Some(op)
  }

  lemma SubRecordOperation(op: Operation, gap: seq<Byte>)
    requires |gap| == 20 && WellFormed(op) && op.SubRecord?
    ensures Inverse(op, gap)
  {
    var skip := if op.id in {165, 164, 166} then gap[..6] else [];
    SubRecordInverse(op.id, op.rid, op.offset, op.image, gap[..2], skip);
  }

  lemma UpdateOperation(op: Operation, gap: seq<Byte>)
    requires |gap| == 20 && WellFormed(op) && op.Update?
    ensures Inverse(op, gap)
  {
    UpdateInverse(op.rid, op.offset, op.oldImage, op.newImage, gap[..6], gap);
  }

  lemma OtherOperation(op: Operation, gap: seq<Byte>)
    requires |gap| == 20 && WellFormed(op) && !op.SubRecord? && !op.Update?
    ensures Inverse(op, gap)
  {
    hide U16At, U64At;
    match op
    case UndoInsert(rid, length) => UndoInsertInverse(rid, length, gap);
    case AlterAttribute(mask, values) => AlterInverse(mask, values);
    case UnknownFunction(_) =>
  }

  /** Decoding recovers every operation exactly. */
  lemma OperationInverse(op: Operation, gap: seq<Byte>)
    requires |gap| == 20 && WellFormed(op)
    ensures DecodeOperation(FunctionOf(op), EncodeOperation(op, gap)) == Some(op)
  {
    if op.SubRecord? {
      SubRecordOperation(op, gap);
    } else if op.Update? {
      UpdateOperation(op, gap);
    } else {
      OtherOperation(op, gap);
    }
  }

  /** Whatever the bytes: if an update can be decoded at all, its two images are
      slices of the record, apart from each other by the 20 bytes of the second
      record header, and each is as long as the length field in it says. */
  lemma UpdateImagesApart(data: seq<Byte>)
    requires DecodeOperation(163, data).Some?
    ensures var op := DecodeOperation(163, data).value;
            && op.Update?
            && 14 + |op.oldImage| + 20 + |op.newImage| <= |data|
            && At(data, 14, op.oldImage) && At(data, 14 + |op.oldImage| + 20, op.newImage)
            && |op.oldImage| == U16At(data, 14 + 2) && |op.newImage| == U16At(data, 14 + |op.oldImage| + 20 + 2)
  {
  }

  // ---------------------------------------------------------------- sub-records

  /** What LogSubRecordDisplay says of an image. */
  datatype SubRecordView =
    | UnknownType(typ: Byte) | SpecialControl | InternalControl
    | UserData(fixedLength: U16, data: seq<Byte>)

  /** The size passed to UserDataDisplay, in 16 bits. */
  function UserDataSize(recordSize: U16): U16 {
    (recordSize - 8) % 0x1_0000
  }

  /** LogSubRecordDisplay; None if it reads beyond the image. */
  function View(image: seq<Byte>): Option<SubRecordView>
    requires |image| < 0x1_0000
  {
    if |image| < 1 then None
    else if image[0] !in {0, 4, 16} then Some(UnknownType(image[0]))
    else if image[0] == 4 then Some(SpecialControl)
    else if |image| < 5 then None
    else if image[4] != 1 then Some(InternalControl)
    else if 8 + UserDataSize(|image|) > |image| then None
    else Some(UserData(U16At(image, 6), image[8..8 + UserDataSize(|image|)]))
  }

  /** Formatted user data can be shown exactly if it is not shorter than its header;
      then it is all the bytes behind the header. */
  lemma UserDataIsRest(image: seq<Byte>)
    requires 5 <= |image| < 0x1_0000 && image[0] in {0, 16} && image[4] == 1
    ensures View(image).Some? <==> |image| >= 8
    ensures |image| >= 8 ==> View(image).value.UserData? && View(image).value.data == image[8..]
  {
  }

  /** Formatted user data is recovered from its image: type, 3 bytes, 1, a byte, the
      fixed length, the data. */
  lemma UserDataInverse(typ: Byte, gap: seq<Byte>, fixedLength: U16, data: seq<Byte>)
    requires typ in {0, 16} && |gap| == 4 && 8 + |data| < 0x1_0000
    ensures View([typ] + gap[..3] + [1] + gap[3..] + PutU16(fixedLength) + data) == Some(UserData(fixedLength, data))
  {
    var image := [typ] + gap[..3] + [1] + gap[3..] + PutU16(fixedLength) + data;
    AtAll(image);
    AtParts(image, [typ], gap[..3], [1], gap[3..], PutU16(fixedLength), data);
    FieldU16(image, 6, fixedLength);
    assert image[4] == 1 && image[8..] == data;
    UserDataIsRest(image);
  }

  /** What is said of an image, and exactly when. */
  lemma ViewIs(image: seq<Byte>)
    requires |image| < 0x1_0000
    ensures View(image) == None <==> !CanShow(image)
    ensures forall typ :: View(image) == Some(UnknownType(typ)) <==> image != [] && image[0] == typ && typ !in {0, 4, 16}
    ensures View(image) == Some(SpecialControl) <==> image != [] && image[0] == 4
    ensures View(image) == Some(InternalControl) <==> |image| >= 5 && image[0] in {0, 16} && image[4] != 1
    ensures View(image).Some? && View(image).value.UserData? <==>
            |image| >= 8 && image[0] in {0, 16} && image[4] == 1
    ensures View(image).Some? && View(image).value.UserData? ==>
              View(image).value == UserData(U16At(image, 6), image[8..])
  {
  }

  /** It has as many bytes as its kind needs. */
  predicate CanShow(image: seq<Byte>) {
    |image| >= 1 && (image[0] in {0, 16} ==> |image| >= 5 && (image[4] == 1 ==> |image| >= 8))
  }

  /** The images that an operation shows can be shown. */
  predicate Viewable(op: Operation) {
    match op
    case SubRecord(_, _, _, image) => |image| < 0x1_0000 && View(image).Some?
    case Update(_, _, o, n) => |o| < 0x1_0000 && |n| < 0x1_0000 && View(o).Some? && View(n).Some?
    case _ => true
  }

  // -------------------------------------------------------------------- records

  /** The identification in a record header: LSN, LFS, back pointer, transaction and
      log stream, as bytes 8 to 39. */
  datatype Header = Header(typ: U16, flag: U16, ids: seq<Byte>)

  datatype Body =
    | Ended(time: Option<U32>, authId: seq<Byte>)   // pending list, commit and abort
    | DataManager(op: Operation)
    | Unknown

  datatype Record = Record(header: Header, body: Body)

  /** What LogRecordDisplay does with a record: it shows it, stops at a component that
      it does not know, or reads beyond the record. */
  datatype Decoded = Shown(record: Record) | Stopped(header: Header) | Beyond

  /** The size of the log manager's header. */
  function LogManagerHeaderSize(typ: U16, flag: U16): nat {
    if typ != COMPENSATION then RECORD_HEADER_SIZE
    else RECORD_HEADER_SIZE + 16 + if flag / 2 % 2 == 1 then 8 else 0
  }

  /** SimpleLogRecordDisplay */
  function DecodeEnded(typ: U16, data: seq<Byte>): Option<Body> {
    var at := if typ == NORMAL_ABORT then 0 else 8;
    if |data| < at + 2 || |data| < at + 2 + U16At(data, at) then None
    else Some(Ended(if typ == NORMAL_ABORT then None else Some(U32At(data, 0)), data[at + 2..at + 2 + U16At(data, at)]))
  }

  /** LogRecordDisplay, for the bytes of one record. */
  function DecodeRecord(rec: seq<Byte>): Decoded {
    if |rec| < RECORD_HEADER_SIZE then Beyond
    else
      var header := Header(U16At(rec, 4), U16At(rec, 6), rec[8..RECORD_HEADER_SIZE]);
      var start := LogManagerHeaderSize(header.typ, header.flag);
      if |rec| < start then Beyond
      else DecodeBody(header, rec[start..])
  }

  function DecodeBody(header: Header, data: seq<Byte>): Decoded {
    if header.typ in {LOCAL_PENDING_LIST, NORMAL_COMMIT, NORMAL_ABORT} then
      match DecodeEnded(header.typ, data)
      case None => Beyond
      case Some(body) => Shown(Record(header, body))
    else if header.typ in {NORMAL, COMPENSATION} then
      if |data| < COMPONENT_HEADER_SIZE then Beyond
      else if data[0] != 1 then Stopped(header)
      else
        match DecodeOperation(data[1], data[COMPONENT_HEADER_SIZE..])
        case None => Beyond
        case Some(op) => if Viewable(op) then Shown(Record(header, DataManager(op))) else Beyond
    else Shown(Record(header, Unknown))
  }

  predicate IsRecord(r: Record) {
    && |r.header.ids| == 32
    && match r.body
       case Ended(time, authId) =>
         && |authId| < 0x1_0000
         && r.header.typ in {0x8A, 0x84, 0x41} && (time.None? <==> r.header.typ == 0x41)
       case DataManager(op) => r.header.typ in {0x4E, 0x43} && WellFormed(op) && ImagesShow(op)
       case Unknown => r.header.typ !in {0x8A, 0x84, 0x41, 0x4E, 0x43}
  }

  predicate ImagesShow(op: Operation) {
    match op
    case SubRecord(_, _, _, image) => CanShow(image)
    case Update(_, _, o, n) => CanShow(o) && CanShow(n)
    case _ => true
  }

  lemma ShowIsView(op: Operation)
    requires WellFormed(op)
    ensures ImagesShow(op) <==> Viewable(op)
  {
    hide View;
    if op.SubRecord? {
      ViewIs(op.image);
    } else if op.Update? {
      ViewIs(op.oldImage);
      ViewIs(op.newImage);
    }
  }

  function EncodeBody(r: Record, gap: seq<Byte>): seq<Byte>
    requires IsRecord(r) && |gap| == 24
  {
    match r.body
    case Ended(time, authId) =>
      (if time.Some? then PutU32(time.value) + gap[..4] else []) + PutU16(|authId|) + authId
    case DataManager(op) => [1, FunctionOf(op)] + gap[..4] + EncodeOperation(op, gap[..20])
    case Unknown => gap
  }

  /** What follows the size field of a record. */
  function EncodeRest(r: Record, gap: seq<Byte>): seq<Byte>
    requires IsRecord(r) && |gap| == 24
  {
    PutU16(r.header.typ) + PutU16(r.header.flag) + r.header.ids +
    LogManagerGap(r.header, gap) + EncodeBody(r, gap)
  }

  /** What a compensation record has between the 40 bytes of its header and its body:
      16 bytes, and 8 more if bit 1 of its flag says that it can be propagated. */
  function LogManagerGap(header: Header, gap: seq<Byte>): seq<Byte>
    requires |gap| == 24
  {
    if header.typ != 0x43 then [] else if header.flag / 2 % 2 == 0 then gap[..16] else gap
  }

  lemma AbortInverse(authId: seq<Byte>)
    requires |authId| < 0x1_0000
    ensures DecodeEnded(NORMAL_ABORT, [] + PutU16(|authId|) + authId) == Some(Ended(None, authId))
  {
    var data := [] + PutU16(|authId|) + authId;
    assert data == PutU16(|authId|) + authId;
    AtAll(data);
    AtSplit(data, 0, PutU16(|authId|), authId);
    FieldU16(data, 0, |authId|);
    AtSlice(data, 2, authId);
  }

  lemma CommitInverse(typ: U16, time: U32, authId: seq<Byte>, gap: seq<Byte>)
    requires |authId| < 0x1_0000 && |gap| == 4 && typ != NORMAL_ABORT
    ensures DecodeEnded(typ, PutU32(time) + gap + PutU16(|authId|) + authId) == Some(Ended(Some(time), authId))
  {
    var data := PutU32(time) + gap + PutU16(|authId|) + authId;
    assert data == PutU32(time) + gap + PutU16(|authId|) + authId + [] + [];
    AtAll(data);
    AtParts(data, PutU32(time), gap, PutU16(|authId|), authId, [], []);
    FieldU32(data, 0, time);
    FieldU16(data, 8, |authId|);
    AtSlice(data, 10, authId);
  }

  lemma BodyInverse(r: Record, gap: seq<Byte>)
    requires IsRecord(r) && |gap| == 24
    ensures DecodeBody(r.header, EncodeBody(r, gap)) == Shown(r)
  {
    match r.body
    case Ended(time, authId) =>
      if time.Some? {
        CommitInverse(r.header.typ, time.value, authId, gap[..4]);
      } else {
        AbortInverse(authId);
      }
    case DataManager(op) =>
      var data := EncodeBody(r, gap);
      assert data[..COMPONENT_HEADER_SIZE] == [1, FunctionOf(op)] + gap[..4];
      assert data[0] == 1 && data[1] == FunctionOf(op) && data[COMPONENT_HEADER_SIZE..] == EncodeOperation(op, gap[..20]);
      OperationInverse(op, gap[..20]);
      ShowIsView(op);
    case Unknown =>
  }

  /** A normal or compensation record is not shown exactly if its component is not the
      data manager, or it ends before what there is to show. */
  lemma StopsAtOthers(header: Header, data: seq<Byte>)
    requires header.typ in {0x4E, 0x43} && |data| >= 6
    ensures DecodeBody(header, data) == Stopped(header) <==> data[0] != 1
    ensures data[0] == 1 && DecodeBody(header, data).Shown? ==>
              && DecodeOperation(data[1], data[6..]).Some?
              && DecodeBody(header, data).record == Record(header, DataManager(DecodeOperation(data[1], data[6..]).value))
              && Viewable(DecodeOperation(data[1], data[6..]).value)
  {
  }

  /** The bytes of a record, whose size field counts them all. */
  function EncodeRecord(r: Record, gap: seq<Byte>): seq<Byte>
    requires IsRecord(r) && |gap| == 24 && 4 + |EncodeRest(r, gap)| < 0x1_0000_0000
  {
    PutU32(4 + |EncodeRest(r, gap)|) + EncodeRest(r, gap)
  }

  /** Decoding recovers every record exactly. */
  lemma RecordInverse(r: Record, gap: seq<Byte>)
    requires IsRecord(r) && |gap| == 24 && 4 + |EncodeRest(r, gap)| < 0x1_0000_0000
    ensures DecodeRecord(EncodeRecord(r, gap)) == Shown(r)
  {
    hide At, U16At, U32At, DecodeBody, EncodeBody, WellFormed, Viewable;
    var size, typ, flag, ids := PutU32(4 + |EncodeRest(r, gap)|), PutU16(r.header.typ), PutU16(r.header.flag), r.header.ids;
    var lm, body := LogManagerGap(r.header, gap), EncodeBody(r, gap);
    var rec := EncodeRecord(r, gap);
    Regroup6(size, typ, flag, ids, lm, body);
    AtAll(rec);
    AtParts(rec, size, typ, flag, ids, lm, body);
    FieldU16(rec, 4, r.header.typ);
    FieldU16(rec, 6, r.header.flag);
    AtSlice(rec, 8, ids);
    AtSlice(rec, RECORD_HEADER_SIZE + |lm|, body);
    assert rec[RECORD_HEADER_SIZE + |lm|..] == body;
    BodyInverse(r, gap);
  }

  lemma Regroup6<T>(a: seq<T>, b: seq<T>, c: seq<T>, d: seq<T>, e: seq<T>, f: seq<T>)
    ensures a + (b + c + d + e + f) == a + b + c + d + e + f
  {
  }

  /** `rec` is a record that can be walked over: its size field counts its bytes, and
      decoding it shows `r`. */
  predicate Reads(rec: seq<Byte>, r: Record) {
    |rec| >= RECORD_HEADER_SIZE && U32At(rec, 0) == |rec| && DecodeRecord(rec) == Shown(r)
  }

  lemma RestLength(r: Record, gap: seq<Byte>)
    requires IsRecord(r) && |gap| == 24
    ensures |EncodeRest(r, gap)| >= RECORD_HEADER_SIZE - 4
  {
    hide EncodeBody, WellFormed, Viewable;
  }

  lemma EncodedReads(r: Record, gap: seq<Byte>)
    requires IsRecord(r) && |gap| == 24 && 4 + |EncodeRest(r, gap)| < 0x1_0000_0000
    ensures Reads(EncodeRecord(r, gap), r)
  {
    hide At, U32At, DecodeRecord, EncodeRest, IsRecord;
    RestLength(r, gap);
    var rec := EncodeRecord(r, gap);
    AtAll(rec);
    AtSplit(rec, 0, PutU32(4 + |EncodeRest(r, gap)|), EncodeRest(r, gap));
    FieldU32(rec, 0, 4 + |EncodeRest(r, gap)|);
    RecordInverse(r, gap);
  }
}
