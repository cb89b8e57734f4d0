# Hyperlink: a Dafny model of transfers and peer discovery

Hyperlink sends a file or a directory from one machine to another over several TCP connections at
once, finds receivers by UDP, and wraps its tools in a small command-line front end. This project
models that behaviour and proves what it is for.

`dafny verify dfyconfig.toml` checks the whole project.

## What is modelled

**The transfer.** A sender splits a file into byte ranges, or a directory into item lists, one per
connection, and frames each record with a 48-byte header. The receiver runs one thread per
connection; the threads share a flag, a file name and a size under a mutex, and one file system.

* `Wire`, `Framing`, `Transport` hold the format, the encoder, a reference parser over a whole byte
  stream, and the receive loops with arbitrarily short reads, proved equal to the parser.
* `ByteRanges`, `Paths`, `FileSystem`, `Sender` hold the range arithmetic in 64 bits, the name
  checks, a map from paths to nodes, and the two sender loops.
* `Receiver` is one receiver thread as a step machine (each read and each file operation is a
  step); `Streams` puts N senders, pipes and threads together, so that an execution is any
  interleaving, any split into reads and writes, any moment at which a connection closes.
* `StreamInvariant`, `SystemInvariant`, `FileTransfer`, `DirectoryTransfer` prove that every
  execution keeps the invariants, and that an execution in which everything was sent and every
  thread finished reproduces the source. `Completion` shows that such executions exist: as long as no
  connection is cut, every execution can be continued to one. `CutDirectory` says what a directory
  transfer leaves behind when connections are cut between records.
* `Containment` follows every access of the receiver, for records from anyone: which ones leave the
  output directory, and that none does on what a sender sends. `RangeCheck` says what the check of a
  range is worth for headers from anyone.
* `ReceiverThread` is the receiver's loop as it is written, over mutable state that other threads
  may change between any two operations. `ThreadRuns` proves that any interleaving of such loops is
  an execution of `Streams`, so the results carry over to the loops.
* `Partition`, `Scheduling`, `Sorting`, `SourceTree` hold the distribution of a directory over the
  streams, by longest processing time first, and Graham's bounds for it; `EndToEnd` joins them with the
  sender loops and the receiver.
* `Refusals` says what a receiver thread refuses, and that it then changes nothing; `Totals` that the
  byte counts of sender and receiver agree.
* `SingleStream` is the receiver that was started without parallel streams.

**Peer discovery.** `Decimal`, `Ipv4`, `Advertisement` hold the texts; `Responder` the responder's
checks and its choice of a probe port; `Ranking` de-duplication, probing and the selection of the
fastest peer; `ProbeServer` the bounded set of probe clients.

**The command line.** `Shell` prints a command line and reads it back as a POSIX shell does,
after sections 2.2.1, 2.2.2, 2.3 and 2.6.7 of the POSIX.1-2017 Shell Command Language; `Cli` follows
the options of `send` and `receive` through the shell into the transfer tool's own parser.

## Findings

* *No error* does not mean *complete*: a stream that closes before its first byte ends cleanly, so,
  for any number of streams, all threads can finish without an error and without a file
  (`NoErrorIsNotEnough`). Exactly: when all threads have finished without an error, each connection has
  carried nothing or its whole record; if some carried its record, the output is the source if and only
  if every other had only zeros to carry, and if none did, no file was touched (`ErrorFreeDeliversIff`).
  For a directory the output is exactly the items that were carried and the directories on the way to
  them (`ErrorFreeDirectory`).
* The reported total equals the file size if and only if every range is complete
  (`ReceivedTotalDecides`). That the right total and no error always mean the source is true if and only
  if the source is not empty or its file was there before (`TotalSufficesIff`); for an empty source the
  total is right from the start (`TotalMissesTheEmptyFile`).
* The receiver follows symbolic links that it has received itself. A link and then a file in its place
  or below it, two records each of which a sender could send, lead through the link, wherever it points
  (`LinkThenFileLeaves`). Exactly: for any bytes on any connections, under any schedule, a thread leaves
  through a link if and only if one of its accesses meets one, on the way or at an end that is opened
  (`LeavesIffItMetALink`, `AccessStaysIff`). None does if there was no link and no thread makes one
  (`StaysWithoutLinks`), and none ever does on a real tree or a file (`TreeStaysBelow`,
  `FileStaysBelow`).
* A name with a NUL passes the receiver's checks, but the system sees it cut. As a name, an accepted one
  leads where it says if and only if it has no NUL, and out of the output directory if and only if it
  begins with ".." and a NUL (`AcceptedNameLeads`); such names are accepted (`DotsAndNulAccepted`). An
  access that meets no link leaves the output directory exactly with them, and then the receiver finds
  nothing there to create, open or change (`AccessStaysIff`, `NothingAbove`).
* The receiver's range check adds in 64 bits. A part whose end wraps passes it and is written beyond the
  announced size (`WrappedPartIsWritten`); the writes of a part that was checked and opened stay within
  that size if and only if its end does not wrap (`CheckedWritesFitIff`). The ranges of a sender never
  do (`RangeIsExact`).
* The comparator of the ranking, for rates that are numbers, is what a sort demands if and only if no
  three peers of equal rate form a circle: two addresses in one order as addresses and in the other as
  texts, and between them a text that is no address (`StrictWeakOrderIff`). On parsed replies there is
  none (`FasterIsStrictWeakOrder`); on arbitrary texts there can be
  (`PrecedesCircleOnArbitraryTexts`).
* The winner's host and ports do not depend on the order of the replies (`OrderIndependence`), but its
  stream count and name may (`RepliesCanDisagree`). They do not, whatever the probes find, if and only
  if any two valid replies of equal key agree (`RecordsOrderIndependentIff`).
* A command line with a NUL in an argument would reach the shell cut inside a quote; without one it
  splits back exactly (`ShellInverse`). Every string the tool puts there comes from its arguments, the
  environment or a path, none of which can hold a NUL, so the guard always holds in practice.
* `docs/superpowers/specs/2026-07-10-cross-platform-peer-discovery-design.md:78` announces the text
  "no discovered peer accepted a TCP throughput probe"; `src/peer_discovery.cpp:423` says "all
  Hyperlink peer probes failed". The model follows the code.

## Model

| member | source | states |
|---|---|---|
| `Wire.EncodeDecode` | examples/file_transfer.cpp:146-158 | Decoding the big-endian form of a number that fits in the given width yields the number. |
| `Wire.DecodeEncode` | examples/file_transfer.cpp:146-158 | Every byte string is the encoding of the number it decodes to, and that number fits. |
| `Wire.EncodeDigit` | examples/file_transfer.cpp:146-150 | Byte i of the encoding is the value shifted right by 8 bits for each later byte, masked to 8 bits. |
| `Wire.WriteU64Be` | examples/file_transfer.cpp:146-150 | Replaces exactly eight bytes of the buffer by the encoding of the value and leaves all others. |
| `Wire.ReadU64Be` | examples/file_transfer.cpp:152-158 | The loop of shifts computes the decoded number; the 64-bit shift never loses a byte. |
| `Wire.MakeHeader` | examples/file_transfer.cpp:160-173 | The filled buffer is the magic followed by the five encoded fields. |
| `Wire.HeaderRoundTrip` | examples/file_transfer.cpp:160-173 | The receiver decodes a header to exactly the fields sent if and only if name length and kind are acceptable. |
| `Wire.HeaderLayout` | examples/file_transfer.cpp:160-173 | Where each of the five fields stands in the 48 bytes, behind the magic. |
| `Wire.HeaderFaults` | examples/file_transfer.cpp:803-826 | A wrong magic is reported before a name length outside 1..4096, and that before an unknown kind. |
| `Wire.DecodedHeaderIsCanonical` | examples/file_transfer.cpp:803-826 | An accepted header is the encoding of what was decoded: no two byte strings mean the same. |
| `Transport.TcpTransport.OsSend` | src/network_transport.cpp:280-288 | The operating system takes any positive part of a chunk, or nothing and an error. |
| `Transport.TcpTransport.Send` | src/network_transport.cpp:272-294 | Whatever part each call takes, success means all was sent in order; failure leaves a proper prefix sent. |
| `Transport.TcpTransport.ReceiveInto` | src/network_transport.cpp:303-320 | Returns between 1 and the asked number of the next bytes, or none exactly at the end of the stream, and touches nothing else in the buffer. |
| `Framing.ReceiveExact` | examples/file_transfer.cpp:175-184 | For any split into reads, succeeds if and only if enough bytes arrive, and then yields exactly the next bytes. |
| `Framing.ReceiveHeaderBytes` | examples/file_transfer.cpp:788-801 | Collects 48 bytes or as many as arrive before the end. |
| `Framing.ReceiveHeaderOptional` | examples/file_transfer.cpp:788-832 | Equals the reference for the next header: clean end only before the first byte, otherwise an error or the header with its name. |
| `Framing.ReadHeader` | examples/file_transfer.cpp:803-826 | Magic, name length and kind are checked in this order; the result equals the reference decoder. |
| `Framing.ReceivePayload` | examples/file_transfer.cpp:849-864 | For any split into reads of at most one buffer, yields exactly the payload, or reports a connection that ended too early. |
| `Framing.ReceiveRecords` | examples/file_transfer.cpp:889-914 | The whole receive loop equals the reference parser on the byte stream, for every split into reads, and ends. |
| `Framing.NextOfEncoded` | examples/file_transfer.cpp:520-554 | The parser finds an encoded record at the front of any stream. |
| `Framing.NextOfCut` | examples/file_transfer.cpp:791-800 | A record cut inside its header or after it is reported as such, never as a record. |
| `Framing.StreamRoundTrip` | examples/file_transfer.cpp:520-554 | Parsing everything a sender stream sends yields exactly its records, then a clean end. |
| `Framing.ParseStreamExact` | examples/file_transfer.cpp:788-832 | Exactly the concatenations of announced records are read to a clean end, as these records; an announcement is free only in the payload size of a directory entry, which is ignored. |
| `Framing.TruncationSoundness` | examples/file_transfer.cpp:791-800 | A stream cut at any point yields exactly the whole records before the cut, and ends cleanly if and only if the cut is on a record boundary. |
| `Paths.WirePathRoundTrip` | examples/file_transfer.cpp:205-220 | A path of a source tree, written with slashes, passes the receiver's check and is the same path again. |
| `Paths.SafeRelativePathIsSafe` | examples/file_transfer.cpp:205-218 | Whatever name arrives, the components of an accepted one are not empty, not "." or "..", and hold no slash. |
| `Paths.RelativePathExact` | examples/file_transfer.cpp:205-218 | Exactly which directory names are accepted: not empty, no slash at either end, and no "." or ".." between slashes; the components are the pieces between runs of slashes. |
| `Paths.FileNameIsLastPart` | examples/file_transfer.cpp:197-203 | Of a file name exactly what follows the last slash is taken, and refused if it is empty, "." or "..". |
| `Paths.OnDiskIsCut` | examples/file_transfer.cpp:896-897 | The components the system sees are those of the path's text, cut at its first NUL. |
| `Paths.AcceptedNameLeads` | examples/file_transfer.cpp:205-218 | Exactly where an accepted name leads as a name, links apart, cut at a NUL: to the path it spells if and only if it has no NUL, and out of the output directory if and only if it begins with ".." and a NUL. |
| `Paths.AcceptedFileNameLeads` | examples/file_transfer.cpp:197-203 | The same for the name of a single file, as a name, links apart. |
| `Paths.DotsAndNulAccepted` | examples/file_transfer.cpp:197-218 | Both checks accept ".." and a NUL followed by anything without a slash, and it leads out of the output directory. |
| `FileSystem.StaysInsideIff` | examples/file_transfer.cpp:836-842 | Whatever is there, the system stays below the output directory with a checked path if and only if it meets no link that it follows and the path does not begin with ".." and a NUL; then it gets where the components lead. |
| `FileSystem.MakeDirectoriesExact` | examples/file_transfer.cpp:836-841 | Creating directories succeeds exactly if nothing but directories is in the way, and adds exactly the missing ones. |
| `FileSystem.LinkReplaces` | examples/file_transfer.cpp:239-246 | A link replaces any file, link or empty directory at its place, and nothing else changes. |
| `FileSystem.FallbackHoldsTarget` | examples/file_transfer.cpp:237-253 | Beside a directory that is not empty the target is written into a file named after it with ".hyperlink-symlink.txt", and nothing else changes. |
| `Paths.SafeFileNameIdempotent` | examples/file_transfer.cpp:197-203 | The receiver's check changes nothing in a name the sender has checked; the result is one component that is not empty, "." or "..". |
| `ByteRanges.RangeIsExact` | examples/file_transfer.cpp:358-365 | No operation wraps in 64 bits: each range runs from its exact boundary to the next, and passes the receiver's range check. |
| `ByteRanges.RangesTile` | examples/file_transfer.cpp:358-365 | The ranges are contiguous and disjoint, start at 0, end at the file's end, and differ in size by at most 1. |
| `ByteRanges.RangeOf` | examples/file_transfer.cpp:358-365 | Every byte of the file belongs to a range. |
| `ByteRanges.CheckedRangeFitsIff` | examples/file_transfer.cpp:920-922 | A range that passes the receiver's check lies within the announced size if and only if its end does not wrap. |
| `RangeCheck.CheckedWritesFitIff` | examples/file_transfer.cpp:920-975 | All writes of any part that was checked and opened leave the file at the announced size if and only if the end of its range does not wrap. |
| `RangeCheck.WrappedPartIsWritten` | examples/file_transfer.cpp:920-975 | A part of size 2^64 - 5 at offset 10 of a file of 5 bytes is accepted, and its first byte makes the file 11 bytes long. |
| `Refusals.FaultsStop` | examples/file_transfer.cpp:894-922 | For any record, shared state and files: an unsafe path, an unsupported kind, an unsafe file name or a range beyond the size, in this order of checks, stops the thread with that fault and changes nothing; without a fault only the file system can stop it there. |
| `Refusals.OtherFileRefused` | examples/file_transfer.cpp:940-943 | Once one file has been begun, a part of any file of another name or size is refused and changes nothing. |
| `Streams.StepDecreases` | examples/file_transfer.cpp:889-980 | Every event of any schedule lowers a measure. |
| `Streams.ExecutionsTerminate` | examples/file_transfer.cpp:889-980 | No execution has more than seven events per byte and two per stream. |
| `Streams.Progress` | examples/file_transfer.cpp:883-980 | While some stream is open or some thread runs, some event is possible. |
| `StreamInvariant.ConnectionStep` | examples/file_transfer.cpp:889-980 | Every event keeps the bytes received, the records completed and the point in the current record consistent with what was sent. |
| `StreamInvariant.EndOfStream` | examples/file_transfer.cpp:791-800 | At the end of a stream a thread has completed exactly the records that lie before the bytes received. |
| `SystemInvariant.AlwaysFramed` | examples/file_transfer.cpp:883-980 | In every reachable state of every schedule each thread stands at the right point of the right record. |
| `SystemInvariant.NoDeadlock` | examples/file_transfer.cpp:1007-1016 | In every reachable state that is not final some event is possible. |
| `SystemInvariant.TruncationSoundUnderConcurrency` | examples/file_transfer.cpp:791-800 | Under any schedule a thread that ended has completed exactly the whole records its sender got through; it finished cleanly only on a record boundary. |
| `FileTransfer.OpenPart` | examples/file_transfer.cpp:924-945 | The first thread through the mutex leaves a file of zeros of the final size; later threads change nothing. |
| `FileTransfer.WritePart` | examples/file_transfer.cpp:951-975 | A write extends the written prefix of its own range by source bytes, and changes nothing outside its window. |
| `FileTransfer.TransferStep` | examples/file_transfer.cpp:883-980 | Every event of every stream keeps the invariant of the shared file. |
| `FileTransfer.AlwaysSafe` | examples/file_transfer.cpp:924-975 | In every reachable state: nothing is written before the file is emptied and sized; from then on it has the final length, each byte is zero or the source byte, each result counts a written prefix, and the rest of each range is still zero. |
| `FileTransfer.NothingIsUndone` | examples/file_transfer.cpp:924-945 | Between any two moments of any execution: the file is initialised only once, keeps its length, and a byte that is right stays right. |
| `FileTransfer.ParallelTransferIsCorrect` | examples/file_transfer.cpp:883-980 | Once every stream has delivered its record and every thread has finished, under any schedule, the output file is the source byte for byte and nothing else has changed. |
| `FileTransfer.NoSpuriousErrors` | examples/file_transfer.cpp:958-970 | A thread reports an error only if its own connection was cut inside its record. |
| `FileTransfer.TotalBytes` | examples/file_transfer.cpp:350-356 | The loop computes the sum of the results modulo 2^64. |
| `FileTransfer.ReceivedTotalDecides` | examples/file_transfer.cpp:350-356 | In every reachable state the total does not wrap, and it equals the file size if and only if every range is complete; then the output is the source if the source is not empty, or if some thread has opened the file. |
| `FileTransfer.TotalMissesTheEmptyFile` | examples/file_transfer.cpp:350-356 | For every number of streams an execution for an empty source in which every thread finishes, the total is right and there is no file. |
| `FileTransfer.TotalSufficesIff` | examples/file_transfer.cpp:350-356 | All executions without an error in which the total is right leave the source if and only if the source is not empty or the file was there before. |
| `FileTransfer.NoErrorIsNotEnough` | examples/file_transfer.cpp:793-798 | For every number of streams an execution in which every thread finishes without an error and no file is touched. |
| `FileTransfer.ErrorFreeDeliversIff` | examples/file_transfer.cpp:793-798 | When every thread has finished without an error, each connection has carried nothing or its whole record, and the output is the source if and only if some carried it and each of the others had only zeros to carry (or none did and the file was already there). |
| `DirectoryTransfer.TreeStep` | examples/file_transfer.cpp:894-914 | Every event keeps the invariant of the received tree. |
| `DirectoryTransfer.AlwaysTreeSafe` | examples/file_transfer.cpp:834-873 | In every reachable state the output below the root is a parent-closed part of the source tree whose files are prefixes of the source files, and completed items are in place; everything else is untouched. |
| `DirectoryTransfer.ParallelDirectoryIsCorrect` | examples/file_transfer.cpp:834-914 | Once every stream has delivered its items and every thread has finished, every file of the tree is at its path with its content and the twelve low bits of its mode, every link with its target, every directory is there, what was there before is unchanged, and there is nothing else. |
| `DirectoryTransfer.NoSpuriousErrors` | examples/file_transfer.cpp:834-873 | A thread reports an error only if its own connection was cut inside a record. |
| `CutDirectory.AlwaysJustified` | examples/file_transfer.cpp:894-914 | In every reachable state each new path leads to an item that some stream has completed or begun. |
| `CutDirectory.ErrorFreeDirectory` | examples/file_transfer.cpp:894-914 | When every thread has finished without an error, each connection has carried a number of whole items, and the output is the old output plus exactly these items and the directories on the way to them. |
| `Containment.AccessStaysIff` | examples/file_transfer.cpp:894-951 | For any record, shared state and files: an access stays below the output directory if and only if it meets no link and the name does not begin with ".." and a NUL; it is led through a link if and only if it meets one. |
| `Containment.LeavesIffLinkMet` | examples/file_transfer.cpp:894-951 | Any action leaves through a link if and only if one of the system calls it makes by path meets a link. |
| `Containment.NothingAbove` | examples/file_transfer.cpp:894-951 | An action with a path above the output directory changes no file; it fails, except for directories, which exist there, and permissions, whose errors are ignored. |
| `Containment.LeavesIffItMetALink` | examples/file_transfer.cpp:883-980 | For any bytes on any number of connections, under any schedule: a thread has left through a link if and only if one of its accesses so far has met one. |
| `Containment.StaysWithoutLinks` | examples/file_transfer.cpp:883-980 | For any bytes and any schedule: if there was no link and no thread gets to make one, there is none, and no thread leaves. |
| `Containment.LinkThenFileLeaves` | examples/file_transfer.cpp:900-914 | For every name, target and path below that name: an execution on one connection, with a link and a file that a sender could each send, in which the thread leaves through the link. |
| `Containment.TreeStaysBelow` | examples/file_transfer.cpp:894-914 | In every reachable state of every transfer of a real tree, cut connections included: no thread has left through a link, and all calls of its next action stay below the output directory. |
| `Containment.FileStaysBelow` | examples/file_transfer.cpp:916-951 | The same for the transfer of a file. |
| `Completion.FileTransferCanComplete` | examples/file_transfer.cpp:1007-1018 | Any execution of a file transfer in which no connection has been cut, the empty one included, can be continued to one that delivers the source. |
| `Completion.DirectoryTransferCanComplete` | examples/file_transfer.cpp:1007-1018 | The same for a directory. |
| `Completion.FileTransferExists` | examples/file_transfer.cpp:1007-1018 | For every job there is an execution that delivers its file. |
| `Completion.DirectoryTransferExists` | examples/file_transfer.cpp:1007-1018 | For every tree and every way to spread its items there is an execution that delivers it. |
| `SourceTree.CollectDirectoryItems` | examples/file_transfer.cpp:380-430 | The walk adds one item for each link, directory and regular file; each says its wire name, the size of the file or the target, and the twelve low bits of the mode of a file or directory. |
| `SourceTree.CollectAndPartition` | examples/file_transfer.cpp:612-613 | Collecting and partitioning puts every transferred path on exactly one stream, at one place. |
| `SourceTree.CollectedKindsInPlace` | examples/file_transfer.cpp:436-460 | Every item on a stream other than the first is a file or a link; the first begins with exactly the directories, in order. |
| `SourceTree.CollectedNearOptimal` | examples/file_transfer.cpp:436-460 | If the sizes fit in 64 bits, each byte count is the size of all items of its partition, and no partition exceeds 4/3 - 1/(3m) times the largest one of any other spread of all the items. |
| `EndToEnd.PartitionIsItsList` | examples/file_transfer.cpp:612-622 | What the partitioner gives to a stream is what its sender loop demands: the items of the paths of that stream. |
| `EndToEnd.DirectoryEndToEnd` | examples/file_transfer.cpp:611-629 | Collect, partition, send the messages of each partition over its own connection, receive under any schedule: if all is delivered, the output is the old output plus exactly the source tree, with contents, twelve mode bits and link targets. |
| `Sender.InputFile.Read` | examples/file_transfer.cpp:493-497 | A read returns the next bytes, fewer only at the end of the file. |
| `Sender.SendFromFile` | examples/file_transfer.cpp:488-503 | Copies exactly the asked bytes of the file to the connection, or fails with a part of them sent; it fails if the file is too short. |
| `Sender.SendFileRange` | examples/file_transfer.cpp:465-509 | Sends the header, the name and the range of the file, or a proper part of them on failure; of a file that is too short, a part of what it holds. |
| `Sender.SendPart` | examples/file_transfer.cpp:670-683 | Each stream of a transfer sends exactly the encoding of its record, or a proper prefix. |
| `Sender.SendItem` | examples/file_transfer.cpp:520-554 | Sends header, name, and the bytes of the file or the link target, or a first part of them; it fails if the announced bytes cannot be read. |
| `Sender.SendDirectoryItems` | examples/file_transfer.cpp:511-560 | Sends all items in order, or a first part of what it finds of them on failure, and counts the payload bytes. |
| `Sender.ItemsAreRecords` | examples/file_transfer.cpp:520-554 | What is sent for the items of a list is exactly the encoding of its records. |
| `Sender.SendPartition` | examples/file_transfer.cpp:618-622 | Each stream of a directory transfer sends exactly the encoding of its records, or a proper prefix; on success it reports the bytes of the files and link targets of its list. |
| `Totals.AlwaysCounting` | examples/file_transfer.cpp:906-971 | In every reachable state of every schedule each result counts, modulo 2^64, the payloads of the records the thread has completed and what it has written of the current one. |
| `Totals.FinishedTotal` | examples/file_transfer.cpp:350-356 | A thread that has finished on a complete connection reports all payload bytes of its records, link targets included. |
| `Totals.TotalsAgree` | examples/file_transfer.cpp:350-356 | Each thread of a delivered directory reports what the sender of its list reports: the bytes of its files and link targets. |
| `ReceiverThread.Host.CreateDirectories` | examples/file_transfer.cpp:894-898 | Whatever other threads did before, creates what is missing on the path, fails, or reports that the system follows a link. |
| `ReceiverThread.Host.OpenForWriting` | examples/file_transfer.cpp:842-845 | Whatever other threads did before, leaves an empty file, fails, or reports that the system follows a link. |
| `ReceiverThread.Host.CreateSymlinkOrFallback` | examples/file_transfer.cpp:237-253 | Whatever other threads did before: removes a file, link or empty directory, leaves the link or else the text file beside it, fails, or reports that the system follows a link on the way or at the text file. |
| `ReceiverThread.Host.OpenShared` | examples/file_transfer.cpp:924-950 | Initialises the shared file or compares name and size, exactly as the step machine prescribes for the state found. |
| `ReceiverThread.Host.WriteChunk` | examples/file_transfer.cpp:967-972 | Writes one buffer at its place in whatever the file then is. |
| `ReceiverThread.Host.ApplyPermissions` | examples/file_transfer.cpp:226-235 | Replaces the mode of the file, if there is one, or reports that the system follows a link. |
| `ReceiverThread.ReceiveBody` | examples/file_transfer.cpp:956-975 | The payload loop follows the step machine through alternating reads and writes, to the end or to an error. |
| `ReceiverThread.ReceiveDirectoryFile` | examples/file_transfer.cpp:834-867 | Parent, truncation, payload and mode follow the step machine. |
| `ReceiverThread.ReceiveLink` | examples/file_transfer.cpp:900-907 | Parent, target, and link or fallback file follow the step machine. |
| `ReceiverThread.ReceivePart` | examples/file_transfer.cpp:916-975 | The checks, the section under the mutex and the payload follow the step machine. |
| `ReceiverThread.ReceiveRecord` | examples/file_transfer.cpp:894-918 | The branch on the kind follows the step machine, unsupported kinds included. |
| `ReceiverThread.ReceiveFilePart` | examples/file_transfer.cpp:883-980 | With arbitrary interference between its operations, the loop's run is an allowed run of the step machine on its connection: same result, same error, same byte count, and each access leaves what that run prescribes. |
| `ThreadRuns.RunsAreExecutions` | examples/file_transfer.cpp:1007-1016 | Any interleaving of such loops over complete or cut connections is an execution of the transfer model that ends in the same state. |
| `ThreadRuns.ThreadsReproduceTheFile` | examples/file_transfer.cpp:1007-1018 | Any interleaving of loops that all finish, on complete connections, leaves the file equal to the source. |
| `ThreadRuns.ThreadsReproduceTheTree` | examples/file_transfer.cpp:1007-1018 | The same for a directory: exactly the source tree is added, with contents, twelve mode bits and link targets. |
| `SingleStream.ReceiveHeader` | examples/file_transfer.cpp:753-786 | Equals the reference for the first header on a connection, with the checked file name. |
| `SingleStream.OutputDirectory.ReceivePayloadToFile` | examples/file_transfer.cpp:691-716 | If the file can be opened and is no link, it ends up with exactly the bytes that arrived, up to the size; fewer bytes are an error. |
| `SingleStream.OutputDirectory.ReceiveSingle` | examples/file_transfer.cpp:1028-1053 | Behind the first header it saves a file, refuses a part, or hands any other kind to the extractor, as the specification by kind says. |
| `SingleStream.SingleByKind` | examples/file_transfer.cpp:1028-1053 | For any accepted header and name and whatever follows: a file is written and saved under the last component of the name, a part is refused, and of every other kind exactly the bytes behind the name are handed to the extractor; only a file touches the output. |
| `SingleStream.SingleRefusesHead` | examples/file_transfer.cpp:753-786 | A bad header, or a name that names nothing, is refused with its own error, whatever follows, and nothing is touched. |
| `SingleStream.PartNeedsParallel` | examples/file_transfer.cpp:1028-1031 | A part of any file sent over more than one stream is refused as soon as its header and name have arrived, whatever follows, and nothing is touched. |
| `SingleStream.SingleStreamIsSound` | examples/file_transfer.cpp:691-716 | For a file sent over one stream and cut anywhere: it is saved if and only if the whole record arrived, and then it is the source; otherwise there is an error and the file holds a prefix of the source or was not touched. |
| `Sorting.Sort` | examples/file_transfer.cpp:450-452 | A permutation of the input in which no element precedes an earlier one, for any strict weak order. |
| `Sorting.MinElement` | examples/file_transfer.cpp:455-457 | The first position of the least value. |
| `Scheduling.LoadsAddUp` | examples/file_transfer.cpp:454-460 | The loads of the machines add up to all jobs. |
| `Scheduling.ListSchedulingBound` | examples/file_transfer.cpp:454-460 | Graham's bound for any order of jobs: at most 2 - 1/m times any other assignment's maximum. |
| `Scheduling.LptBound` | examples/file_transfer.cpp:450-460 | Graham's bound for descending jobs: at most 4/3 - 1/(3m) times any other assignment's maximum. |
| `Scheduling.LptBoundIsTight` | examples/file_transfer.cpp:450-460 | For every number of machines there are jobs on which the bound is attained. |
| `Scheduling.GreedyBalance` | examples/file_transfer.cpp:454-460 | At every step the loads differ by at most the largest job so far. |
| `Partition.SplitItems` | examples/file_transfer.cpp:436-448 | The payload is exactly the files and links, the metadata all other items, each in input order. |
| `Partition.PlacePayload` | examples/file_transfer.cpp:454-460 | The loop gives each payload to a partition with the fewest bytes at that moment and adds its size there. |
| `Partition.PartitionDirectoryItems` | examples/file_transfer.cpp:432-463 | The result is a greedy assignment of the files and links in descending order, behind the metadata on the first partition; each byte count is the 64-bit sum of the sizes of the files and links there. |
| `Partition.PartitionsConserve` | examples/file_transfer.cpp:432-463 | Over all partitions the items are exactly the input items; metadata comes first on partition 0, in input order. |
| `Partition.PartitionsBalanced` | examples/file_transfer.cpp:454-460 | Each byte count is the sum of its payload sizes, and two partitions differ by at most the largest payload. |
| `Partition.PartitionsNearOptimal` | examples/file_transfer.cpp:450-460 | If the sizes fit in 64 bits, no partition exceeds 4/3 - 1/(3m) times the maximum of any other distribution of the same payloads. |
| `Partition.KindsInPlace` | examples/file_transfer.cpp:436-460 | Of directories, files and links, partition 0 begins with exactly the directories, and everything else on any partition is a file or a link. |
| `Partition.SizesNearOptimal` | examples/file_transfer.cpp:450-460 | If directories have no bytes, the bound holds for the sizes of the partitions against any spread of all the items, whatever is a payload. |
| `Decimal.PrintValue` | src/peer_discovery.cpp:466-468 | A printed number is read back as itself. |
| `Decimal.PrintNoLonger` | src/peer_discovery.cpp:259-271 | A parsed number prints to at most as many digits as were parsed. |
| `Decimal.ValueOfDigits` | src/peer_discovery.cpp:259-271 | Digits are read in positional notation: those to the right shift those to the left by powers of ten. |
| `Ipv4.ParseIpv4` | src/peer_discovery.cpp:273-297 | The loop over positions accepts and returns what splitting at the dots says. |
| `Ipv4.Ipv4Exact` | src/peer_discovery.cpp:273-297 | An address is accepted with given octets if and only if it is four nonempty decimal fields of at most 255 with single dots between them, with those values. |
| `Ipv4.Ipv4RoundTrip` | src/peer_discovery.cpp:273-297 | Each of the 2^32 dotted addresses is read back as its octets. |
| `Advertisement.AdvertisementExact` | src/peer_discovery.cpp:628-670 | Exactly the messages of at most 512 characters with the prefix, three decimals in range and a nonempty name, from a valid address, are accepted. |
| `Advertisement.AcceptedIsWellFormed` | src/peer_discovery.cpp:649-669 | An accepted peer has ports in 1..65535, streams, a name, and the sender's own address as host. |
| `Advertisement.AdvertisementRoundTrip` | src/peer_discovery.cpp:468-470 | What a responder prints is read back exactly, names with spaces included. |
| `Advertisement.ParsePrintParse` | src/peer_discovery.cpp:628-670 | Printing an accepted peer gives a message, no longer than the first, that is accepted with the same result, leading zeros or not. |
| `Ranking.PrecedesTotal` | src/peer_discovery.cpp:299-313 | Exactly one of two peers that differ in address text or ports precedes the other. |
| `Ranking.PrecedesTransitive` | src/peer_discovery.cpp:299-313 | The comparison is transitive on three peers that form no circle. |
| `Ranking.StrictWeakOrderIff` | src/peer_discovery.cpp:677-682 | On any list of peers whose rates are numbers, not NaN, the comparator is what a sort demands if and only if no three of equal rate form a circle: two addresses whose order as texts is the opposite one, and a text that is no address between them. |
| `Ranking.FasterIsStrictWeakOrder` | src/peer_discovery.cpp:677-682 | On peers with valid addresses the comparator is what a sort demands. |
| `Ranking.PrecedesCircleOnArbitraryTexts` | src/peer_discovery.cpp:299-313 | Such a circle exists: 9.0.0.0, 10.0.0.0 and the text "1x". |
| `Ranking.DeduplicateCandidates` | src/peer_discovery.cpp:315-327 | The loop agrees with the specification of the first valid reply of each host and pair of ports. |
| `Ranking.FirstRepliesKept` | src/peer_discovery.cpp:315-327 | The candidates are what exactly those replies say, in the order of arrival, that are valid and before which no valid reply has the same host, transfer port and probe port. |
| `Ranking.FirstOfEachKeyFacts` | src/peer_discovery.cpp:315-327 | The kept peers have distinct keys, and every key has one. |
| `Ranking.SelectFastestPeer` | src/peer_discovery.cpp:672-684 | Yields a peer of the highest rate, and of those with valid addresses and that rate the one that is first by address number, then text, then transfer port, then probe port; an empty list is refused. |
| `Ranking.TextLessIff` | src/peer_discovery.cpp:306 | The order of texts is that of a dictionary: at the first difference the smaller character, or the end, comes first. |
| `Ranking.BestIsFastestAndFirst` | src/peer_discovery.cpp:677-682 | A peer that no other beats has the highest rate, and among the valid addresses of that rate the least address number, text, transfer port and probe port, in this order. |
| `Ranking.RankCandidates` | src/peer_discovery.cpp:407-428 | The probes made are one for each distinct peer, in order of arrival. The winner is a candidate whose probe succeeded with the highest rate of all, and of those with that rate the first by address number, text and ports; without a candidate, or if all probes fail, it fails, in the second case with the fixed text and one part "; host: reason" for each candidate in order. |
| `Ranking.OrderIndependence` | src/peer_discovery.cpp:407-428 | For every permutation of the replies the same host and ports win, or both fail alike. |
| `Ranking.WholeRecordOrderIndependenceIff` | src/peer_discovery.cpp:315-327 | For given probes, the winner's whole record is the same for every order if and only if all valid replies with its key agree. |
| `Ranking.RecordsOrderIndependentIff` | src/peer_discovery.cpp:315-327 | For all probes of endpoints, the winner's whole record is the same for every order if and only if any two valid replies of equal key agree. |
| `Ranking.RepliesCanDisagree` | src/peer_discovery.cpp:628-670 | Two replies from one address that do not agree. |
| `Responder.PeerDiscoveryResponder.Start` | src/peer_discovery.cpp:444-487 | A second start changes nothing. The first fails with the first thing that is wrong (options, then discovery socket, probe socket, threads) and leaves no thread behind; otherwise both threads run and serve what the options prepare. |
| `Responder.PeerDiscoveryResponder.Launch` | src/peer_discovery.cpp:474-482 | Sockets and threads are asked for in this order; the first that is missing is reported. |
| `Responder.PeerDiscoveryResponder.Configure` | src/peer_discovery.cpp:447-473 | The checks, the choice of the probe port and the advertisement agree with the specification of the options. |
| `Responder.StreamPortsDistinct` | examples/file_transfer.cpp:328-335 | The sender's range check holds if and only if no stream port is truncated to 16 bits; then all are distinct and in 1..65535. |
| `Responder.NoProbePortIff` | src/peer_discovery.cpp:456-467 | The search for a probe port fails if and only if the transfer ports are all of 1..65535. |
| `Responder.ProbePortChoice` | src/peer_discovery.cpp:456-467 | A configured probe port outside the transfer ports is kept; one among them moves right behind them or, where they end at 65535, right before them. |
| `Responder.PrepareExact` | src/peer_discovery.cpp:447-473 | Exactly which options are refused and with which fault; complete options with a free port and a name of at most 480 characters are accepted and advertise these settings. |
| `Responder.AdvertisedPortsWork` | examples/file_transfer.cpp:566-576 | For any options a responder accepts, a sender that reads its advertisement gets these settings, passes its own check, and uses distinct untruncated ports other than the probe port. |
| `ProbeServer.ProbeServer.ServeRound` | src/peer_discovery.cpp:549-589 | One round leaves the clients, and makes the sends, that the specification of a round says. |
| `ProbeServer.RoundAdmits` | src/peer_discovery.cpp:562-588 | When the listener is ready, accepted connection k becomes a client, at place |clients| + k, exactly if that is below 16, with its socket and a deadline one second after it was accepted; it is there after the round exactly if also that deadline is later than the clock and no send to it failed. |
| `ProbeServer.ProbeServer.RemoveIf` | src/peer_discovery.cpp:574-579 | The in-place compaction leaves exactly the clients not to be dropped, in order. |
| `ProbeServer.ProbeServer.SendToWritable` | src/peer_discovery.cpp:580-588 | The sends made are one for each client reported writable, in order, and exactly the clients whose send fails are dropped. |
| `ProbeServer.RoundKeepsInv` | src/peer_discovery.cpp:562-588 | A round keeps at most 16 clients with distinct sockets after each connection it accepts and after each of its passes. |
| `ProbeServer.RoundSurvivors` | src/peer_discovery.cpp:573-588 | After a round all deadlines are later than its clock; a client is gone exactly if it expired or its send failed; new clients come from connections accepted while the listener was ready. |
| `ProbeServer.SurvivorsKeepOrder` | src/peer_discovery.cpp:574-588 | Both passes keep the order of the survivors. |
| `ProbeServer.SendsAreLegitimate` | src/peer_discovery.cpp:580-588 | In a round with something ready, a send goes exactly to the unexpired clients that were in its write set and are reported writable, once to each; in any other none is made. |
| `ProbeServer.AlwaysBounded` | src/peer_discovery.cpp:547-590 | In every run there are at most 16 clients with distinct sockets: between rounds, after each accepted connection and after each pass. |
| `ProbeServer.ClientsExpire` | src/peer_discovery.cpp:569-579 | In every run a client was accepted earlier in it, and is gone after the first round whose clock has reached its deadline. |
| `Shell.ShellQuote` | examples/cli.cpp:284-296 | The loop yields the quoted text. |
| `Shell.RunCommand` | examples/cli.cpp:319-325 | The loop yields the quoted executable and arguments with blanks between them. |
| `Shell.LexCommandLine` | examples/cli.cpp:319-325 | Reading a printed command line as the shell does collects exactly the arguments, if none contains a NUL. |
| `Shell.CutCommandLine` | examples/cli.cpp:325-326 | With a NUL in an argument, what the system call sees ends inside a quote. |
| `Shell.ShellInverse` | examples/cli.cpp:319-326 | The command line splits back into exactly the argument vector if and only if no argument contains a NUL; otherwise the shell finds an open quote. |
| `Cli.ParseArgs` | examples/file_transfer.cpp:78-141 | The loop over the arguments and the checks after it agree with the specification, first error first. |
| `Cli.AcceptedExactly` | examples/file_transfer.cpp:126-143 | Understood arguments are accepted if and only if they choose one mode, a sender has a file, a receiver does not search, and the ports of all streams end at 65535. |
| `Cli.RefusedCombinations` | examples/file_transfer.cpp:126-135 | Argument lists with no mode or both, `--send` without `--file`, and `--receive --auto` are refused with their own message, whatever else they hold. |
| `Cli.OutputDirectoryIsSet` | examples/file_transfer.cpp:114-115 | Behind any understood arguments `--out` and `--output-dir` both set the output directory and nothing else. |
| `Cli.PortIsChecked` | examples/file_transfer.cpp:70-76 | Behind any understood arguments a port is taken exactly if it is a number from 1 to 65535; otherwise the list is refused, whatever follows. |
| `Cli.ParallelIsChecked` | examples/file_transfer.cpp:107-111 | A number of streams is cut to 32 bits, and refused if that leaves zero. |
| `Cli.StrangeArguments` | examples/file_transfer.cpp:83-123 | A missing value, a request for help and an unknown argument each end the parsing with their own result. |
| `Cli.RunSend` | examples/cli.cpp:343-363 | The command line for the send options. |
| `Cli.RunReceive` | examples/cli.cpp:331-341 | The command line for the receive options. |
| `Cli.SendArgumentsParse` | examples/cli.cpp:343-361 | The transfer tool's parser turns the arguments of send into exactly the wanted options, or refuses the same bad numbers. |
| `Cli.ReceiveArgumentsParse` | examples/cli.cpp:331-339 | The same for receive. |
| `Cli.SendReachesTheTool` | examples/cli.cpp:343-363 | From one tool to the other through the shell: the transfer tool gets exactly its arguments and parses them to what was wanted. |
| `Cli.ReceiveReachesTheTool` | examples/cli.cpp:331-341 | The same for receive. |

## Left out

- Sockets, select, address resolution, interface enumeration: a connection is a reliable byte pipe whose reads and writes may be short, and whose writes may fail; recv never fails other than by the end of the stream.
- Probe timing: a probe is a function from a peer to a rate or a failure; rates are real numbers; a probe never yields NaN, because the elapsed time is at least 1e-9, but the public selection also takes rates that are NaN, on which the comparator is not modelled.
- Clocks in the probe server: each round is given its clock value, the accepted sockets and the sockets that can be written.
- Real file systems: no permission errors, no lack of space, no partly created directories after a failure, and writes reach the file at once and never reach the largest file size; sizes and offsets of 2^63 and more are refused where the file is sized and the position is set, and a source file is shorter than that.
- What lies behind a symbolic link: where the system follows one, the thread ends with an outcome of its own, and what it would do there is not modelled.
- ReceiverThread.Host.WriteChunk: writes to the file that is at the path at that moment; the code writes to the one it opened, which is another one if a record has replaced it in between.
- Modes from other senders: a mode is kept as it came, where the system would keep its twelve low bits; a sender sends no others.
- LinkOrFallback: removing what is there, creating the link and writing the fallback file are one step, and creation fails only for a missing parent, an entry that stays, or an empty target; a removal through a name that ends in a slash before a NUL is not modelled.
- Names with a NUL: the receiver's checks and the place they lead to are modelled for every name; the transfers of whole files and trees are stated for names without a NUL, because no directory holds another and none can be given on the command line.
- Opening the shared file after the mutex section is one step with that section; the file can no longer disappear in between.
- Other separators than '/' and drive letters: a path is a sequence of byte strings.
- Sender.SendFromFile: a failing read and the end of the file are one case, as they are in the code, which looks only at the byte count.
- Sources that change while they are sent: EndToEnd.DirectoryEndToEnd and ParallelTransferIsCorrect assume a static source and an output without the root name, while SendItem and SendFileRange also cover files that have become shorter.
- Names over 4096 bytes: the sender does not check this limit and the receiver refuses such names, so the results about whole transfers assume names within it.
- Tar pipe mode and the external archive extractor: Single hands the rest of the stream to it.
- The Windows code paths: quoting and process creation in `cli.cpp`, Winsock.
- Ranking.SelectFastestPeer: sorts with an insertion sort in place of std::ranges::sort and states only what any correct sort gives; its precondition is the one std::ranges::sort has.
- Partition.PartitionDirectoryItems: the order of payloads of equal size is any order, because std::sort does not fix it.
- Cli.ParseArgs: std::stoul is a parameter, a function from texts to optional 64-bit values, and printing of usage text is the outcome HelpRequested.
- The parsing of the friendly tool's own options and its `test`, `bench` and `probe` commands: they only copy or pass on strings.
- Shell.ShellWords: unquoted operators, expansions, globs, comments and line ends make the model give up, which for the command lines printed here happens only after a NUL.
- Session negotiation and automatic configuration, benchmarks, USB transports, console output, packaging.
