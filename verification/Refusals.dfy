/** What a receiver thread refuses, for records from anyone, and that it then changes nothing. */
module Refusals {
  import opened Basics
  import opened Wire
  import opened Framing
  import opened Paths
  import opened FileSystem
  import opened Receiver
  import opened StreamInvariant
  import opened FileTransfer

  /** The first fault that the branch on the kind finds. An archive is for a receiver without threads. */
  function Fault(incoming: Incoming): Option<ReceiveError> {
    var h := incoming.header;
    if h.kind in {KIND_DIRECTORY_ENTRY, KIND_DIRECTORY_FILE, KIND_DIRECTORY_SYMLINK} then
      if SafeRelativePath(incoming.name) == None then Some(BadPath) else None
    else if h.kind !in {KIND_FILE, KIND_FILE_PART} then Some(Protocol(UnsupportedKind))
    else if SafeFileName(incoming.name) == None then Some(BadFileName)
    else if (h.offset + h.payloadSize) % 0x1_0000_0000_0000_0000 > h.totalSize then Some(RangeExceedsTotal)
    else None
  }

  /** A record with a fault stops the thread with that fault before it changes anything; one without is
      stopped at this point only by the file system. */
  lemma {:induction false} FaultsStop(incoming: Incoming, shared: Shared, files: Files)
    ensures var effect := Perform(Dispatch(incoming), shared, files);
            && (Fault(incoming).Some? ==> effect == Effect(shared, files, Fault(incoming)))
            && (Fault(incoming) == None ==>
                  effect.shared == shared && effect.thrown in {None, Some(FileSystemFailed), Some(LeavesThroughLink)})
  {
    hide SafeRelativePath, SafeFileName, CreateDirectories;
  }

  /** Once a thread has begun to receive one file, a part of a file of another name or size stops the
      thread it arrives at, and changes nothing. */
  lemma {:induction false} OtherFileRefused(job: Job, other: Job, s: nat, before: Files, shared: Shared, files: Files)
    requires ValidJob(job) && ValidJob(other) && s < other.parallel
    requires SharedFileSafe(job, before, shared, files) && shared.initialized
    requires job.name != other.name || |job.source| != |other.source|
    ensures Perform(Open(IncomingOf(PartRecord(other, s))), shared, files) ==
            Effect(shared, files, Some(DifferentFile))
  {
    hide SafeFileName, ByteRanges.ByteRangeForStream, CreateFile, Locate;
  }
}
