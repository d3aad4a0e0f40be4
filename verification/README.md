# A Dafny model of the algorithms in the DB2 samples

Most of the DB2 samples call one API after the other. Five of them hold algorithms of
their own, and these are modelled here and proved correct:

1. **The pureScale log merge** (`c/dblognoconnlogmerge.c`), a k-way merge of log streams
   over a sorted linked queue, where each stream refills its own buffer of framed records
   and a fast path skips the queue.
2. **The resumable directory walk** (`c/udfsrv.c`, Windows version), a depth-first
   traversal cut into OPEN, FETCH and CLOSE calls, and the word counter of the same file.
3. **The monitor stream parser** (`c/utilsnap.c`), a recursive parser whose loop cursor is
   returned by the recursive call.
4. **The log record decoder** (`c/utilrecov.c`), with its walk over variable-size records,
   its sub-record slices and its hexadecimal dump.
5. **The backup vendor library** (`BARVendor/vendor.C`), which cuts DB2's buffers for a
   16-bit interface, drives a session and a transaction of the storage library (XBSA), and
   picks the image to restore by name.

`dafny verify dfyconfig.toml` checks the whole project.

## The modules

| file | what it holds |
|---|---|
| `Bytes`, `Seqs`, `Wrappers` | little-endian fields, sequences, Option |
| `LogFrames` | the framing of records in a log buffer, and identifiers (LRIs) |
| `MergeSpec` | one call of getNextLogRecord as a function on values; the invariant |
| `MergeRuns` | whole runs: order, conservation, termination |
| `MergeCorrect` | exactly which states can be merged to the end |
| `LogSource` | the answers of db2ReadLogNoConn, batch by batch |
| `MergeTheorems` | the promises of the merge for every list of log paths |
| `LogStream`, `LogMerge` | the control blocks, the linked queue and the program's loops, proved to do what `MergeSpec` says |
| `DirTree`, `FileSystem`, `DirWalk` | a directory tree and its recursive listing; search handles; the walk |
| `WordCount` | the word counter |
| `MonitorFormat`, `MonitorParser` | the serializer of a forest of monitor data; the parser |
| `LogDecoder`, `LogBuffer`, `HexDump` | one record; a buffer of records; the dump |
| `Xbsa` | the storage library: answers, calls, and the protocol they follow |
| `VendorTransfer` | cutting buffers into blocks, as functions of the store's answers |
| `ObjectNames`, `LatestCopy` | object names and partition numbers; the latest image |
| `Vendor` | the four entry points and whole sessions |

## What was found

- **The fast path of the merge needs more than sorted streams.** A run reaches the end of
  its logs if and only if every path opens, every stream reads to its end in strictly
  increasing order from above (0, 0), no record of one stream falls on or between two
  records of another stream whose log flush sequences are within 1 of each other, and no
  log flush sequence exceeds 2^64 - 3 (`MergeTheorems.SessionSucceedsIff`). No shared log
  flush sequence is enough for the third condition (`DistinctLfsSucceeds`). Two log paths
  whose streams share one can have a sorted merge and yet stop the program with an error
  (`SharedLfsIsRejected`).
- **Above 2^64 - 3 the program reads past the end of a stream.** The difference in
  ableToReadFromSameLogStream is unsigned, and an exhausted stream carries the all-ones
  identifier, so the exhausted stream is taken for one that can be read, through a null
  pointer. No run does that within the bound, and if the other conditions hold, a run does
  it exactly if some record is out of bounds (`MergeTheorems.ReadsPastEnd`); a log of one such
  record is enough (`PastEndIsReached`).
- **The directory walk leaves its array of handles in a tree that is too high.** The array
  has 50 places and its index is not checked: a run stays inside if and only if the height
  of the tree is below 50 (`DirWalk.Walk`).
- **sqluvput can lose data without an error.** Its documentation says that it must not
  return SQLUV_OK when it wrote less than it was given, unless it is OK to lose the
  remaining data in the buffer. It subtracts the length offered from what is left and adds
  the length accepted to its pointer, so after a short send the two drift apart.
  `VendorTransfer.PutPromise` says exactly when nothing is lost, and `ShortSendIsLost` gives
  the short send that loses data. Even then what was stored is a prefix of the buffer
  (`Vendor.Db2XbsaHandle.Sqluvput`).
- **sqluvget does not always report the end of the data.** Once a second block has been
  needed, the end is reported only if the buffer is full as well; otherwise the loop asks
  again (`VendorTransfer.EagerGetReportsEnd`).
- **A failed start can leave a transaction open.** `Vendor.Starts` says of the store's
  answers alone when a session starts. Then it begins one transaction and ends it once. When
  BSABeginTxn succeeds and the session still does not start, and only then, sqluvint
  terminates the session with the transaction open (`Vendor.Session`).
- **A failed BSAGetObject is forgotten.** The first get of a restore notes that reading has
  begun before it knows whether BSAGetObject succeeded, so after a failure the next get asks
  for data all the same (`Vendor.Db2XbsaHandle.BeginRead`, `Xbsa.Next`).
- **getLatestCopy compares names only as far as the first image's name goes.** The exact
  condition for the greatest image to be chosen (`LatestCopy.LatestIsGreatestIff`) is that
  some object of it is listed behind which no object beats it, while every object in front
  that hides it is followed, still in front, by one that beats it. An object hides the image if
  its own image is another that agrees with it as far as names are compared; it beats the
  image if strncmp makes it the greater one, which only a shorter image that is the beginning
  of the greatest can do, for its sequence number (`BeatsIsShort`). For names of one length
  the choice is always right (`LatestIsGreatest`). Behind an image with a shorter database or
  table space name, an older image of a longer name can be chosen (`OlderImageIsChosen`), and
  an image that is the beginning of another can (`ShortBeginningIsChosen`).
- **A sub-record of formatted user data shorter than its header** makes the 16-bit size
  of the data wrap around (`LogDecoder.UserDataIsRest`).

## Assumptions

- Numbers in buffers are little-endian. `sqlm_header_info` has 8 bytes (4 of size, 2 of
  type, 2 of element) and `db2ReadLogFilterData` has 24; sqlmon.h and db2ApiDf.h are not
  part of this model. The `BLANKS` literal has 77 characters.
- Foreign calls (db2ReadLogNoConn, `_findfirst` and its relatives, XBSA) answer by a
  script that is a parameter of the model. A script ends: db2ReadLogNoConn then has nothing
  more to say, and an XBSA call beyond it fails. XBSA moves no more bytes than it is
  offered, and claims the end of the data only at the end. Its queries find only names with
  a dot in their path, as every pattern that the code builds asks for; getLatestCopy has no
  defined behaviour for others.
- `_findfirst` returns 0 when it finds nothing, as the code tests for. The C runtime
  returns -1: what the model says of empty directories rests on this.
- The prefixes of the names of full, incremental and table space backups are parameters.
- A buffer that a program reads beyond has no defined behaviour in C. The parser and the
  decoder are modelled on every buffer, with a result that stands for reading beyond; the
  methods require that it does not occur. So it is with the merge's read past the end of a
  stream. A fetch of the directory walk that would store a handle beyond the array ends
  with a result of its own instead.
- A byte is a letter or a digit in the dump if it is one in ASCII; names are compared as
  unsigned characters; the path separator is `/`.

## Model

| member | source | states |
|---|---|---|
| LogFrames.FramesOfFlatten | c/dblognoconnlogmerge.c:391-432 | records laid one after the other in a buffer are found again, all of them, by stepping from frame to frame |
| LogFrames.EncodedFrames | c/dblognoconnlogmerge.c:391-432 | records given field by field, with a payload of any length behind the 40-byte header, are found again byte for byte |
| LogFrames.FrameIs | c/dblognoconnlogmerge.c:391-432 | in any buffer a record reaches as far as its length field says, behind its LSN; its identifier is the log flush sequence and the LSN of its header |
| LogFrames.OrderIsNumeric | c/dblognoconnlogmerge.c:150-158 | identifiers are ordered as the 128-bit numbers that they form |
| LogStream.LogStreamReadCB.ReadTheLog | c/dblognoconnlogmerge.c:731-778 | after a read the stream stands on its first frame with the right count and identifier, or on the all-ones sentinel if nothing was read; it fails exactly if the read fails |
| LogStream.LogStreamReadCB.GetNextLogRecord | c/dblognoconnlogmerge.c:809-865 | delivers the stream's next record and moves to the frame behind it, across refills; fails exactly if the read that must follow fails |
| LogStream.LeftSplits | c/dblognoconnlogmerge.c:423-432 | moving the cursor one frame on takes exactly one record off what the stream has left |
| LogStream.LastSplits | c/dblognoconnlogmerge.c:834-859 | after the last record of a buffer the stream goes on with what its source answers next, or ends if it has read to current |
| LogSource.DeliveredIsConcat | c/dblognoconnlogmerge.c:731-865 | however a stream is cut into non-empty batches, it delivers the concatenation of the batches, and then what the answers after them deliver |
| LogSource.StreamEnds | c/dblognoconnlogmerge.c:737-859 | a batch that is read to current ends the stream, so does an empty answer, and an answer that fails makes it fail, whatever the source would say after it |
| MergeSpec.SelectKeepsInv | c/dblognoconnlogmerge.c:894-927 | choosing a stream keeps the queue sorted, free of exhausted streams and of the stream in hand; it leaves an exhausted stream in hand exactly if the fast path took it |
| MergeSpec.PastEndIff | c/dblognoconnlogmerge.c:175-187 | the fast path takes an exhausted stream if and only if the last log flush sequence exceeds 2^64 - 3 |
| MergeSpec.StepKeepsInv | c/dblognoconnlogmerge.c:886-950 | every call keeps the invariant |
| MergeSpec.EnqueueKeepsQueueInv | c/dblognoconnlogmerge.c:203-233 | insertion keeps the queue sorted by the next identifiers, with every stream in it once |
| MergeTheorems.EnqueueIsStable | c/dblognoconnlogmerge.c:203-233 | insertion is stable: behind all streams that are not greater, in front of all others, and the rest unmoved |
| MergeTheorems.FastPathIsReselect | c/dblognoconnlogmerge.c:175-187 | staying on a stream picks what re-sorting would pick if and only if it is not exhausted and nothing that waits is at or below it |
| MergeTheorems.MergeableFastPath | c/dblognoconnlogmerge.c:175-187 | in every state from which the merge succeeds the fast path changes nothing |
| MergeRuns.StepTakesOne | c/dblognoconnlogmerge.c:886-950 | one call takes the first record of one stream and leaves every other stream alone |
| MergeRuns.RunIncreases | c/dblognoconnlogmerge.c:940-946 | whatever the streams, what a run emits is strictly increasing |
| MergeRuns.RunInterleaves | c/dblognoconnlogmerge.c:1025-1041 | a run that ends with READ_TO_CUR has emitted every record of every stream once, in stream order: one call per record and one more |
| MergeCorrect.OrderlyEnds | c/dblognoconnlogmerge.c:886-950 | from an orderly state the merge reaches the end, or, exactly if some log flush sequence is out of bounds, reads past the end of a stream |
| MergeCorrect.SucceedsIff | c/dblognoconnlogmerge.c:886-950 | the states from which the merge reaches the end are exactly the mergeable ones |
| MergeTheorems.InitialQueue | c/dblognoconnlogmerge.c:555-641 | the queue built from the log paths holds exactly their non-empty streams; it is built if and only if no path is blocked |
| MergeTheorems.SessionSucceedsIff | c/dblognoconnlogmerge.c:994-1052 | the program reaches the end of its logs if and only if the paths are orderly and within the bounds, a condition on their records alone |
| MergeTheorems.ReadsPastEnd | c/dblognoconnlogmerge.c:175-187 | within the bounds the program never reads past the end of a stream; with orderly paths it does so exactly if some record exceeds them |
| MergeTheorems.PastEndIsReached | c/dblognoconnlogmerge.c:175-187 | it does so for every log of one record that exceeds them |
| MergeTheorems.SessionConserves | c/dblognoconnlogmerge.c:994-1052 | what the program displays is strictly increasing; if it reaches the end, nothing is lost, repeated or reordered within a stream |
| MergeTheorems.DistinctLfsSucceeds | c/dblognoconnlogmerge.c:161-187 | if no log flush sequence occurs in two streams, increasing streams that read well are merged to the end, unless one is out of bounds |
| MergeTheorems.SharedLfsIsRejected | c/dblognoconnlogmerge.c:175-187 | without that, two log paths may deliver streams, each in order, that have a sorted merge, and the program ends with a read error |
| MergeTheorems.MergeIsUnique | c/dblognoconnlogmerge.c:994-1052 | there is only one strictly increasing interleaving, so a successful run emits the global sorted merge |
| LogMerge.FreeSortedQueueElement | c/dblognoconnlogmerge.c:290-309 | frees the elements of a whole list and their streams, each once |
| LogMerge.ReadLogNcCB.AbleToReadFromSameLogStream | c/dblognoconnlogmerge.c:175-187 | decides the fast path as the specification does, with the unsigned difference |
| LogMerge.ReadLogNcCB.EnqueueElement | c/dblognoconnlogmerge.c:203-233 | the pointer writes keep the list acyclic and put the element where the specification does |
| LogMerge.ReadLogNcCB.SelectStream | c/dblognoconnlogmerge.c:894-927 | gives the stream in hand back and takes the head of the list; an exhausted stream and its element are freed, and none that is still in use |
| LogMerge.ReadLogNcCB.GetNextLogRecord | c/dblognoconnlogmerge.c:886-950 | returns what the specification's step returns, and leaves the linked structure in the state of that step |
| LogMerge.ReadLogNcCB.InitializeAndReadAllStreams | c/dblognoconnlogmerge.c:539-643 | builds the specification's queue from the log paths, or fails where it fails |
| LogMerge.DisplayAllRecords | c/dblognoconnlogmerge.c:994-1052 | displays exactly the records of the session, and returns its code |
| DirTree.ParentOfChild | c/udfsrv.c:380-383 | cutting the last name off a directory path gives back the path it was appended to |
| DirTree.ListingOfChild | c/udfsrv.c:412-427 | the path that is searched after a directory was returned names that directory |
| DirTree.HeightBound | c/udfsrv.c:329-331 | the walk needs as many handles beyond the first as subdirectories are nested, or one more: 50 handles are enough for 48 levels |
| DirTree.PreorderLists | c/udfsrv.c:398-472 | every row of the listing is the path, the contents cut to size and the warning of an entry of a directory that can be reached without "." and ".."; every such entry has its row; no file name is listed twice |
| DirWalk.RowsNext | c/udfsrv.c:399-472 | returning an entry and entering it, or passing over it, takes one row off the listing to come |
| DirWalk.PopOk | c/udfsrv.c:374-387 | going up one level closes the innermost search, restores the path around it, and loses no row |
| DirWalk.EnterOk | c/udfsrv.c:403-441 | entering a directory keeps handles and path together; "." and ".." are opened but not listed, an empty directory has no search |
| DirWalk.ReachNext | c/udfsrv.c:412-432 | returning an entry changes nothing about how deep the walk will go; a directory needs the next place in the array |
| DirWalk.Scratchpad.Open | c/udfsrv.c:336-366 | after OPEN the rows to come are the recursive listing of the directory, and the walk will go as deep as it is high |
| DirWalk.Scratchpad.Fetch | c/udfsrv.c:368-473 | returns the first row to come, SQLSTATE 02000 exactly when there is none, or leaves the array of handles, only if the walk goes too deep for it |
| DirWalk.Walk | c/udfsrv.c:307-488 | a complete run returns the recursive preorder listing: every entry that can be reached, under its full path, once; every search that was opened has been closed; the run stays inside the array of handles if and only if the tree is lower than 50 |
| WordCount.ClobScalarUDF | c/udfsrv.c:131-154 | returns the number of words |
| WordCount.WordsIsCount | c/udfsrv.c:141-152 | counting the places where words start gives the size of the set of words, up to every place in the text |
| WordCount.WordsStart | c/udfsrv.c:141-152 | a word is a maximal run of characters that are not spaces; exactly one starts at every place that is counted, none elsewhere |
| WordCount.WordsAdd | c/udfsrv.c:141-152 | two texts joined by a space have the words of both |
| MonitorParser.Walk | c/utilsnap.c:1392-1500 | the parser on any buffer: it never stops before the end it was given, and terminates |
| MonitorParser.DataShown | c/utilsnap.c:1445-1494 | numbers are read with 4 or 2 bytes by their type, all other data with the size given, and parsing goes on behind the size given |
| MonitorParser.NodeStep | c/utilsnap.c:1415-1495 | parsing a serialized node lists it and goes on where it ends |
| MonitorParser.ParseInvertsForest | c/utilsnap.c:1392-1500 | the parser inverts the serializer: every node once, in preorder, indented by its depth, ending exactly where the forest ends |
| MonitorParser.ParseInvertsStream | c/utilsnap.c:1405-1411 | for a whole stream the size in its first header is enough to find its end |
| MonitorParser.Indent | c/utilsnap.c:1428-1438 | the prefix of a nested grouping has two more blanks, at most 77, and with its NUL it fits 80 characters |
| MonitorParser.ParseMonitorStream | c/utilsnap.c:1392-1500 | the recursive program, with its cursor and its prefix buffers, prints and returns what the parser specification says |
| LogDecoder.OperationInverse | c/utilrecov.c:634-957 | decoding an encoded data manager operation gives it back, for every function identifier |
| LogDecoder.UpdateImagesApart | c/utilrecov.c:770-824 | the images of any update that can be decoded are disjoint slices of the record, each sized by the length field inside it |
| LogDecoder.UserDataIsRest | c/utilrecov.c:990-1004 | formatted user data can be shown if and only if the sub-record is not shorter than its header; then it is all the rest |
| LogDecoder.UserDataInverse | c/utilrecov.c:963-1010 | an encoded sub-record of user data is recognised and its fixed length and data are recovered |
| LogDecoder.ViewIs | c/utilrecov.c:963-1010 | what is said of an image, and exactly when: unknown type, special control, internal control or user data |
| LogDecoder.StopsAtOthers | c/utilrecov.c:523-535 | a normal or compensation record is given up exactly if its component is not 1 |
| LogDecoder.RecordInverse | c/utilrecov.c:485-628 | decoding an encoded log record gives it back, for every record type and header size |
| LogDecoder.EncodedReads | c/utilrecov.c:446-474 | an encoded record can be walked over: its size field counts its bytes |
| LogBuffer.WalkShowsAll | c/utilrecov.c:396-479 | the walk over a buffer of records shows each once, in order, and ends at the end of the buffer, with either prefix |
| LogBuffer.WalkAbandons | c/utilrecov.c:468-474 | a record of another component ends the walk: the records before it have been shown, and none behind it is |
| LogBuffer.LogBufferDisplay | c/utilrecov.c:396-479 | the program does that walk, stops with 1 at an unknown component, and for the NULL buffer returns 0 only if no records are asked for |
| LogBuffer.DumpShowsImage | c/utilrecov.c:996-1004 | the dump of user data reads back as the bytes of the image behind its header |
| HexDump.DumpInverse | c/utilrecov.c:1016-1064 | the bytes can be read back from the dump, for data of every length |
| HexDump.DumpShape | c/utilrecov.c:1024-1060 | the dump has one line for every ten bytes begun, and cells of fixed width |
| HexDump.DumpAt | c/utilrecov.c:1024-1060 | byte k is shown in line k / 10 and column k % 10, as two upper-case digits and, if it is an ASCII letter or digit, as itself; behind the last byte there are blanks |
| HexDump.UserDataDisplay | c/utilrecov.c:1016-1064 | the program prints that dump, and its 16-bit counters do not wrap around |
| Xbsa.ClosedSession | BARVendor/vendor.C:364-661 | a trace that keeps to the protocol to its end opens and terminates one session, ends the transaction it began once unless it is left open, moves data only in a transaction that is ended, and only in the direction of its side |
| Xbsa.ListingIs | BARVendor/vendor.C:1445-1511 | a query goes on with success and more data, finds one object more with no more data, and ends without one at any other code |
| VendorTransfer.BlocksCover | BARVendor/vendor.C:922-932 | the blocks cover the buffer, and each fits 16 bits |
| VendorTransfer.BlocksAre | BARVendor/vendor.C:922-932 | a buffer of less than 65535 bytes is one block, a greater one starts with 65519 bytes |
| VendorTransfer.PutOutcome | BARVendor/vendor.C:922-958 | a put succeeds if and only if no block fails or is refused; it has then stored everything if and only if every block was taken whole |
| VendorTransfer.PutStops | BARVendor/vendor.C:934-953 | a put stops at the first answer that fails, with an I/O error, or that takes nothing, with end of tape |
| VendorTransfer.PutPromise | BARVendor/vendor.C:864-871 | exactly when a put that reports success has not lost data: the documented promise about short writes, without its exception |
| VendorTransfer.ShortSendIsLost | BARVendor/vendor.C:926-957 | a short send is reported as success |
| VendorTransfer.Get | BARVendor/vendor.C:801-844 | a later get never fills more than its buffer; where it reports the end, everything has been delivered |
| VendorTransfer.GetStops | BARVendor/vendor.C:814-844 | a get ends with an I/O error exactly at an answer other than more or no more data, and reports the end only at the latter |
| VendorTransfer.EagerGetReportsEnd | BARVendor/vendor.C:814-844 | even a store that delivers at once has its end reported if and only if the rest fits the first block or fills the buffer |
| VendorTransfer.StoreOutcome | BARVendor/vendor.C:922-958 | a series of puts succeeds and stores every byte, in order, if and only if every block was taken whole |
| VendorTransfer.RoundTrip | BARVendor/vendor.C:801-958 | what puts of any sizes stored whole, gets of any other sizes return from the front, and all of it if they end with the end of media |
| Vendor.Db2XbsaHandle.Sqluvput | BARVendor/vendor.C:903-966 | on success or error, what was sent is exactly the prefix of the buffer that is reported; outside a backup nothing is called |
| Vendor.Db2XbsaHandle.Sqluvget | BARVendor/vendor.C:714-850 | a later get fills the front of the buffer with the next bytes of the object and leaves the rest alone; outside a restore nothing is called |
| Vendor.Db2XbsaHandle.BeginRead | BARVendor/vendor.C:733-800 | the first get: its code, its calls one by one, the size it reports and the bytes at the front of the buffer follow from the store's answers; the next get reads on exactly if the query found the object |
| Vendor.StoreAndFetch | BARVendor/vendor.C:801-958 | a restore of the object that puts of any sizes stored returns, from where its first get left off, exactly the bytes stored there, with buffers of any other sizes; all that was put, if every block was taken whole and the end of media is reported |
| ObjectNames.PartitionRoundTrip | BARVendor/vendor.C:1337-1340 | the partition number printed into a name is parsed back, for every number and alias |
| ObjectNames.PartitionIs | BARVendor/vendor.C:1453-1461 | the number behind "/NODE" is cut to 16 bits; a name without separators is parsed as a number itself |
| ObjectNames.AtoiIs | BARVendor/vendor.C:1461 | a number is parsed with its sign, up to the first character that is not a digit |
| ObjectNames.FourDigitsAre | BARVendor/vendor.C:1339-1340 | a number below 10000 is printed with four digits, a greater one with all of its own |
| ObjectNames.LastIndexIs | BARVendor/vendor.C:1453-1461 | the last separator is found |
| LatestCopy.LatestIsImage | BARVendor/vendor.C:1450-1508 | an image of the partition is found if and only if there is one; names are compared as far as the first one's goes |
| LatestCopy.LatestIsGreatestIff | BARVendor/vendor.C:1450-1508 | for every listing, the greatest image is chosen if and only if it prevails: a condition on the order of the listed objects and their names |
| LatestCopy.LatestIsCutGreatestIff | BARVendor/vendor.C:1450-1508 | the choice is greatest as far as names are compared if and only if some object agrees with the greatest image and none behind it beats it |
| LatestCopy.BeatsIsShort | BARVendor/vendor.C:1496-1498 | the only objects that can push the greatest image out are those of a shorter image that is its beginning |
| LatestCopy.LatestIsCutGreatest | BARVendor/vendor.C:1450-1508 | if no image shorter than the first is the beginning of another, the choice is greatest as far as names are compared, and greatest of all if and only if the greatest comes first of those that agree with it |
| LatestCopy.LatestIsGreatest | BARVendor/vendor.C:1450-1508 | for names of one length the greatest image of the partition is chosen |
| LatestCopy.SeesKinds | BARVendor/vendor.C:1464-1481 | each kind of backup is noticed if and only if the partition has one whose name starts as that kind's does |
| LatestCopy.KindOfPrinted | BARVendor/vendor.C:1464-1476 | in a name that bldWriteObjDesc printed, the kind is told from the file name behind the separator |
| LatestCopy.OlderImageIsChosen | BARVendor/vendor.C:1492-1498 | behind an image with a shorter name, of two images with a longer one the older can be chosen |
| LatestCopy.ShortBeginningIsChosen | BARVendor/vendor.C:1496-1498 | an image that is the beginning of another can be chosen for its sequence number |
| ObjectNames.ComparesCut | BARVendor/vendor.C:1496-1497 | strncmp is the lexicographic order of the names cut to the length compared |
| Vendor.GetLatestCopy | BARVendor/vendor.C:1428-1535 | of all that the query finds: both kinds exactly if the partition has both, no image exactly if it has none, else an image of it, the greatest exactly if that prevails |
| Vendor.OpenImage | BARVendor/vendor.C:438-568 | without a timestamp the latest image is chosen first, or the code says why there is none; then a restore starts if and only if the partition has objects of the wanted image, of one image only, and the query ended well |
| Vendor.FirstIsOne | BARVendor/vendor.C:513-517 | an image is counted at its object whose sequence number is 1 |
| Vendor.CountsAre | BARVendor/vendor.C:509-521 | the two counters tell whether the partition has an object, and whether it has two images |
| Vendor.Sqluvint | BARVendor/vendor.C:272-661 | returns a handle exactly if the session starts: BSAInit and BSABeginTxn succeed, and then BSACreateObject, or the queries find one image to restore; otherwise the code says which of these failed, and no session is left open that BSAInit returned |
| Vendor.Sqluvend | BARVendor/vendor.C:986-1056 | ends the data and the transaction, then terminates; commits exactly if the data ended well and no abort was asked for |
| Vendor.Run | BARVendor/vendor.C:272-1056 | in which state of the protocol a run ends, as a function of the store's answers: closed with the transaction ended, left open or not begun, or no session opened |
| Vendor.Session | BARVendor/vendor.C:272-1056 | every run init, put or get any number of times, end, keeps to the protocol; from the answers alone it follows whether a transaction is begun and whether it is ended; data is stored only in backups, and looked for and fetched only in restores |

## Left out

- LogMerge.ReadLogNcCB.GetNextLogRecord: after a read error no claim is made about the queue; the program stops there.
- Vendor.Db2XbsaHandle.BeginRead: BSAGetObject is taken to report a code and a count only; bytes that it might put in the buffer itself are not modelled.
- Vendor.Sqluvint: the memory allocations are taken to succeed.
- VendorTransfer.Get: the store's script is finite, so a store that goes on answering with no data for ever is not modelled.
- LogDecoder.OperationInverse: the new row identifier and the new offset of an update are not decoded, since the code never assigns the one and reads the other from the wrong place.
- MonitorParser.ParseMonitorStream: lines are indentation, element, size and the bytes shown; names of elements and the formatting of numbers are not modelled.
- WordCount.ClobScalarUDF: the two tests of its inner loops are swapped, since the code reads a character before it tests the length.
- Buffers that are only read (log buffers, monitor streams, DB2's put buffers) are sequences; buffers that are written (prefixes, get buffers, the array of handles) are arrays.
- The 256-byte path buffers of the directory walk, and stale bytes behind the NUL of a string.
- The position (nextStartLSN) that the log merge passes to db2ReadLogNoConn: an answer depends only on its place in the sequence of answers.
- Queries and initialisation of a log stream: a log path is one without logs, one that cannot be opened, or one that can be read.
- The UNIX version of the table function, which lists a single directory.
- CLOSE of the directory walk before its end, which leaves the searches of outer directories open.
- Printing, SQL, argument parsing and error messages; in the log record decoder the identification fields of a header are kept as 32 bytes.
- The sequence number that sqluvget writes into an object name.
- sqluvdel, the snapshot buffer loops, the table of element names and the other samples.
