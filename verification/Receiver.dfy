/** One receiver thread as a step machine: receive_file_part with every read, every action on
    the shared state and every file operation as a step of its own. */
module Receiver {
  import opened Basics
  import opened Wire
  import opened Framing
  import opened Paths
  import opened FileSystem
  import opened ByteRanges

  /** ReceiveSharedState, guarded by its mutex. The output path is the one component fileName. */
  datatype Shared = Shared(initialized: bool, fileName: Bytes, totalSize: U64)

  datatype ReceiveError =
    | Protocol(error: StreamError)
    | BadPath
    | BadFileName
    | RangeExceedsTotal
    | DifferentFile
    | FileSystemFailed
    | LeavesThroughLink  // no error of the program: the system follows a link, and the model ends

  /** Where a thread is in its loop. */
  datatype Pc =
    | AtHeader(buf: Bytes)                                   // filling the 48 header bytes
    | AtName(header: Header, buf: Bytes)                     // filling the name
    | Dispatch(incoming: Incoming)                           // branching on the kind
    | Open(incoming: Incoming)                               // opening or initialising the output
    | AtTarget(incoming: Incoming, buf: Bytes)               // filling a symlink target
    | Link(incoming: Incoming, target: Bytes)                // creating the symlink
    | AtBody(incoming: Incoming, got: nat)                   // reading the next chunk
    | Write(incoming: Incoming, got: nat, chunk: Bytes)      // writing that chunk
    | SetMode(incoming: Incoming)                            // applying the permissions
    | Finished                                               // left the loop at a clean end
    | Stopped(reason: ReceiveError)                          // left it by an exception

  /** How many bytes the pending read asks for; 0 when no read is pending. */
  function Want(pc: Pc): int {
    match pc
    case AtHeader(buf) => HEADER_BYTES - |buf|
    case AtName(h, buf) => h.nameSize - |buf|
    case AtTarget(incoming, buf) => incoming.header.payloadSize - |buf|
    case AtBody(incoming, got) => Min(incoming.header.payloadSize - got, CHUNK_BYTES)
    case _ => 0
  }

  /** A read returned `data`, some of the bytes it asked for. */
  function OnReceive(pc: Pc, data: Bytes): Pc {
    match pc
    case AtHeader(buf) =>
      var b := buf + data;
      if |b| != HEADER_BYTES then AtHeader(b)
      else
        (match DecodeHeader(b)
         case Err(e) => Stopped(Protocol(Malformed(e)))
         case Ok(h) => AtName(h, []))
    case AtName(h, buf) =>
      if |buf + data| < h.nameSize then AtName(h, buf + data) else Dispatch(Incoming(h, buf + data))
    case AtTarget(incoming, buf) =>
      if |buf + data| < incoming.header.payloadSize then AtTarget(incoming, buf + data)
      else Link(incoming, buf + data)
    case AtBody(incoming, got) => Write(incoming, got, data)
    case _ => pc
  }

  /** A read found the end of the stream. */
  function OnEof(pc: Pc): Pc {
    match pc
    case AtHeader(buf) => if buf == [] then Finished else Stopped(Protocol(ClosedInHeader))
    case _ => Stopped(Protocol(ClosedEarly))
  }

  /** Is the next step an action on the shared state or the files? */
  predicate Acting(pc: Pc) {
    pc.Dispatch? || pc.Open? || pc.Link? || pc.Write? || pc.SetMode?
  }

  predicate IsPart(kind: U64) {
    kind == KIND_FILE || kind == KIND_FILE_PART
  }

  /** The loop over a payload: read on, or finish the record. */
  function BodyLoop(incoming: Incoming, got: nat): Pc {
    if got < incoming.header.payloadSize then AtBody(incoming, got)
    else if incoming.header.kind == KIND_DIRECTORY_FILE then SetMode(incoming)
    else AtHeader([])
  }

  /** Where an action that succeeds leads. */
  function NextPc(pc: Pc): Pc
    requires Acting(pc)
  {
    match pc
    case Dispatch(incoming) =>
      if incoming.header.kind == KIND_DIRECTORY_ENTRY then AtHeader([])
      else if incoming.header.kind == KIND_DIRECTORY_SYMLINK then
        if incoming.header.payloadSize == 0 then Link(incoming, []) else AtTarget(incoming, [])
      else Open(incoming)
    case Open(incoming) => BodyLoop(incoming, 0)
    case Link(_, _) => AtHeader([])
    case Write(incoming, got, chunk) => BodyLoop(incoming, got + |chunk|)
    case SetMode(_) => AtHeader([])
  }

  /** How many bytes the action adds to the thread's result. */
  function Counted(pc: Pc): nat {
    match pc
    case Link(incoming, _) => incoming.header.payloadSize
    case Write(_, _, chunk) => |chunk|
    case _ => 0
  }

  /** What an action does to the shared state and the files, and whether it throws. */
  datatype Effect = Effect(shared: Shared, files: Files, thrown: Option<ReceiveError>)

  function FromFiles(shared: Shared, files: Files, result: Option<Files>): Effect {
    match result
    case None => Effect(shared, files, Some(FileSystemFailed))
    case Some(files') => Effect(shared, files', None)
  }

  function ErrorOf(answer: Answer): Option<ReceiveError> {
    match answer
    case Done => None
    case Fails => Some(FileSystemFailed)
    case Leaves(_) => Some(LeavesThroughLink)
  }

  function FromAttempt(shared: Shared, attempt: Attempt): Effect {
    Effect(shared, attempt.files, ErrorOf(attempt.answer))
  }

  function Perform(pc: Pc, shared: Shared, files: Files): Effect
    requires Acting(pc)
  {
    match pc
    case Dispatch(incoming) => PerformDispatch(incoming, shared, files)
    case Open(incoming) =>
      if IsPart(incoming.header.kind) then PerformOpenPart(incoming, shared, files)
      else
        (match SafeRelativePath(incoming.name)
         case None => Effect(shared, files, Some(BadPath))
         case Some(path) => FromAttempt(shared, CreateFile(files, path)))
    case Link(incoming, target) =>
      (match SafeRelativePath(incoming.name)
       case None => Effect(shared, files, Some(BadPath))
       case Some(path) => FromAttempt(shared, LinkOrFallback(files, path, target)))
    case Write(incoming, got, chunk) => FromFiles(shared, files, PerformWrite(incoming, got, chunk, shared, files))
    case SetMode(incoming) => FromAttempt(shared, PerformSetMode(incoming, files))
  }

  /** The branch on the kind. Directory records create directories first; file parts are checked. */
  function PerformDispatch(incoming: Incoming, shared: Shared, files: Files): Effect {
    var h := incoming.header;
    if h.kind == KIND_DIRECTORY_ENTRY || h.kind == KIND_DIRECTORY_SYMLINK || h.kind == KIND_DIRECTORY_FILE then
      (match SafeRelativePath(incoming.name)
       case None => Effect(shared, files, Some(BadPath))
       case Some(path) =>
         var folder := if h.kind == KIND_DIRECTORY_ENTRY then path else Parent(path);
         FromAttempt(shared, CreateDirectories(files, folder)))
    else if !IsPart(h.kind) then Effect(shared, files, Some(Protocol(UnsupportedKind)))
    else if SafeFileName(incoming.name) == None then Effect(shared, files, Some(BadFileName))
    else if ExceedsTotal(h.offset, h.payloadSize, h.totalSize) then Effect(shared, files, Some(RangeExceedsTotal))
    else Effect(shared, files, None)
  }

  /** The section under the mutex, and opening the file after it: the first thread creates the file,
      empties it and gives it its final size; every other thread must describe the same file. */
  function PerformOpenPart(incoming: Incoming, shared: Shared, files: Files): Effect {
    var h := incoming.header;
    match SafeFileName(incoming.name)
    case None => Effect(shared, files, Some(BadFileName))
    case Some(name) =>
      if !shared.initialized then
        var shared' := Shared(true, name, h.totalSize);
        var created := CreateFile(files, [name]);
        if !created.answer.Done? then FromAttempt(shared', created)
        else if h.totalSize >= SIZE_LIMIT then Effect(shared', created.files, Some(FileSystemFailed))
        else
          var path := Locate([name]).value;
          var file := created.files[path];
          var sized := created.files[path := File(Resize(file.content, h.totalSize), file.mode)];
          Effect(shared', sized, SeekError(h.offset))
      else if shared.fileName != name || shared.totalSize != h.totalSize then
        Effect(shared, files, Some(DifferentFile))
      else
        var failure := ErrorOf(OpenExisting(files, [name]));
        Effect(shared, files, if failure == None then SeekError(h.offset) else failure)
  }

  /** The position to write at is a signed number. */
  function SeekError(offset: U64): Option<ReceiveError> {
    if offset >= SIZE_LIMIT then Some(FileSystemFailed) else None
  }

  /** The entry an open record writes to, and where in the file its payload starts. */
  function OutputPath(incoming: Incoming, shared: Shared): Option<Path> {
    if IsPart(incoming.header.kind) then Locate([shared.fileName])
    else
      match SafeRelativePath(incoming.name)
      case None => None
      case Some(path) => Locate(path)
  }

  function PayloadStart(h: Header): nat {
    if IsPart(h.kind) then h.offset else 0
  }

  function PerformWrite(incoming: Incoming, got: nat, chunk: Bytes, shared: Shared, files: Files): Option<Files> {
    var path := OutputPath(incoming, shared);
    if !IsFile(files, path) then None
    else
      var file := files[path.value];
      Some(files[path.value := File(WriteAt(file.content, PayloadStart(incoming.header) + got, chunk), file.mode)])
  }

  /** Errors in applying permissions are ignored. */
  function PerformSetMode(incoming: Incoming, files: Files): Attempt {
    match SafeRelativePath(incoming.name)
    case None => Attempt(Done, files)
    case Some(path) => ReplaceMode(files, path, incoming.header.offset)
  }
}
