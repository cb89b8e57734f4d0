/** receive_file_part as it is written: a loop over the connection and the shared state, while
    other threads may change that state between any two of its actions. Every run is a run of the
    step machine of Receiver. */
module ReceiverThread {
  import opened Basics
  import opened Wire
  import opened Transport
  import opened Framing
  import opened Paths
  import opened FileSystem
  import opened ByteRanges
  import opened Receiver

  /** One access to the shared state and the files: what it found and what it left. */
  datatype Access = Access(shared: Shared, files: Files, shared': Shared, files': Files)

  /** One step of a thread, with what it met: bytes, the end of the stream, or the shared state. */
  datatype Step = Read(data: Bytes) | SawEnd | Acted(shared: Shared, files: Files)

  /** The step machine after a thread's steps. */
  function After(trace: seq<Step>): Pc {
    if trace == [] then AtHeader([])
    else
      var pc := After(trace[..|trace| - 1]);
      match trace[|trace| - 1]
      case Read(data) => OnReceive(pc, data)
      case SawEnd => OnEof(pc)
      case Acted(shared, files) =>
        if !Acting(pc) then pc
        else
          match Perform(pc, shared, files).thrown
          case Some(error) => Stopped(error)
          case None => NextPc(pc)
  }

  predicate StepAllowed(pc: Pc, step: Step) {
    match step
    case Read(data) => 0 < |data| <= Want(pc)
    case SawEnd => Want(pc) > 0
    case Acted(_, _) => Acting(pc)
  }

  predicate Allowed(trace: seq<Step>) {
    trace == [] ||
    (Allowed(trace[..|trace| - 1]) && StepAllowed(After(trace[..|trace| - 1]), trace[|trace| - 1]))
  }

  /** The bytes the thread has read. */
  function Consumed(trace: seq<Step>): Bytes {
    if trace == [] then []
    else Consumed(trace[..|trace| - 1]) + if trace[|trace| - 1].Read? then trace[|trace| - 1].data else []
  }

  /** The bytes the thread reports. */
  function Reported(trace: seq<Step>): U64 {
    if trace == [] then 0
    else
      var front, last := trace[..|trace| - 1], trace[|trace| - 1];
      if last.Acted? && Acting(After(front)) && Perform(After(front), last.shared, last.files).thrown == None then
        (Reported(front) + Counted(After(front))) % U64_MODULUS
      else Reported(front)
  }

  /** The accesses the thread makes: each leaves what the step machine prescribes. */
  function Accesses(trace: seq<Step>): seq<Access> {
    if trace == [] then []
    else
      var front, last := trace[..|trace| - 1], trace[|trace| - 1];
      if last.Acted? && Acting(After(front)) then
        var effect := Perform(After(front), last.shared, last.files);
        Accesses(front) + [Access(last.shared, last.files, effect.shared, effect.files)]
      else Accesses(front)
  }

  /** A thread's steps on a connection that delivers `input`: all allowed, reading it in order, and
      meeting its end only after all of it. */
  ghost predicate ThreadTrace(input: Bytes, trace: seq<Step>) {
    && Allowed(trace)
    && Consumed(trace) <= input
    && (trace != [] && trace[|trace| - 1].SawEnd? ==> Consumed(trace) == input)
  }

  /** All that a trace determines. */
  datatype Point = Point(pc: Pc, consumed: Bytes, reported: U64, accesses: seq<Access>)

  ghost predicate At(trace: seq<Step>, p: Point) {
    && Allowed(trace)
    && After(trace) == p.pc
    && Consumed(trace) == p.consumed
    && Reported(trace) == p.reported
    && Accesses(trace) == p.accesses
  }

  lemma {:induction false} ReadStep(trace: seq<Step>, p: Point, data: Bytes)
    requires At(trace, p) && 0 < |data| <= Want(p.pc)
    ensures At(trace + [Read(data)], p.(pc := OnReceive(p.pc, data), consumed := p.consumed + data))
  {
    assert (trace + [Read(data)])[..|trace|] == trace;
  }

  lemma {:induction false} EndStep(trace: seq<Step>, p: Point)
    requires At(trace, p) && Want(p.pc) > 0
    ensures At(trace + [SawEnd], p.(pc := OnEof(p.pc)))
  {
    assert (trace + [SawEnd])[..|trace|] == trace;
    assert p.consumed + [] == p.consumed;
  }

  /** The point after an access that found `shared` and `files`. */
  function ActPoint(p: Point, shared: Shared, files: Files): Point
    requires Acting(p.pc)
  {
    var effect := Perform(p.pc, shared, files);
    p.(pc := if effect.thrown == None then NextPc(p.pc) else Stopped(effect.thrown.value),
       reported := if effect.thrown == None then (p.reported + Counted(p.pc)) % U64_MODULUS else p.reported,
       accesses := p.accesses + [Access(shared, files, effect.shared, effect.files)])
  }

  lemma {:induction false} ActStep(trace: seq<Step>, p: Point, shared: Shared, files: Files, rest: Bytes)
    requires At(trace, p) && Acting(p.pc)
    ensures At(trace + [Acted(shared, files)], ActPoint(p, shared, files))
    ensures ThreadTrace(p.consumed + rest, trace + [Acted(shared, files)])
  {
    hide Perform;
    assert (trace + [Acted(shared, files)])[..|trace|] == trace;
    assert p.consumed + [] == p.consumed;
  }

  // ----- The shared state and the files, with interference -----

  class Host {
    var shared: Shared
    var files: Files
    ghost var log: seq<Access>  // the accesses of this thread

    /** The log has grown by one access, which left the state as it is now. */
    twostate predicate Logged(entry: Access)
      reads this
    {
      log == old(log) + [entry] && shared == entry.shared' && files == entry.files'
    }

    constructor (files: Files)
      ensures this.shared == Shared(false, [], 0) && this.files == files && log == []
    {
      this.shared := Shared(false, [], 0);
      this.files := files;
      log := [];
    }

    /** Other threads run: anything may have changed. */
    method Interfere()
      modifies this`shared, this`files
    {
      shared, files := *, *;
    }

    /** A step that touches nothing, whether its checks succeed or not. */
    method Observe() returns (ghost s: Shared, ghost f: Files)
      modifies this
      ensures Logged(Access(s, f, s, f))
    {
      Interfere();
      s, f := shared, files;
      log := log + [Access(s, f, s, f)];
    }

    /** create_directories: makes what is missing on the way, and the path. */
    method CreateDirectories(path: Path) returns (thrown: Option<ReceiveError>, ghost s: Shared, ghost f: Files)
      modifies this
      ensures var attempt := FileSystem.CreateDirectories(f, path);
              thrown == ErrorOf(attempt.answer) && Logged(Access(s, f, s, attempt.files))
    {
      Interfere();
      s, f := shared, files;
      var attempt := FileSystem.CreateDirectories(files, path);
      files, thrown := attempt.files, ErrorOf(attempt.answer);
      log := log + [Access(s, f, shared, files)];
    }

    /** An output stream that empties what it opens. */
    method OpenForWriting(path: Path) returns (thrown: Option<ReceiveError>, ghost s: Shared, ghost f: Files)
      requires path != []
      modifies this
      ensures var attempt := CreateFile(f, path);
              thrown == ErrorOf(attempt.answer) && Logged(Access(s, f, s, attempt.files))
    {
      Interfere();
      s, f := shared, files;
      var attempt := CreateFile(files, path);
      files, thrown := attempt.files, ErrorOf(attempt.answer);
      log := log + [Access(s, f, shared, files)];
    }

    /** create_symlink_or_fallback: removes what is there, creates the link or, failing that, the text
        file. */
    method CreateSymlinkOrFallback(path: Path, target: Bytes)
      returns (thrown: Option<ReceiveError>, ghost s: Shared, ghost f: Files)
      requires path != []
      modifies this
      ensures var attempt := LinkOrFallback(f, path, target);
              thrown == ErrorOf(attempt.answer) && Logged(Access(s, f, s, attempt.files))
    {
      Interfere();
      s, f := shared, files;
      var lead, place := Reach(files, path, false), Locate(path);
      if lead.ThroughLink? {
        thrown := Some(LeavesThroughLink);
      } else if lead.Above? || place == None {
        thrown := Some(FileSystemFailed);
      } else {
        files := Remove(files, place.value);
        var linked := MakeSymlink(files, place.value, target);
        if linked.Some? {
          files, thrown := linked.value, None;
        } else {
          var fallback := CreateFile(files, FallbackPath(path));
          files, thrown := fallback.files, ErrorOf(fallback.answer);
          if thrown == None {
            var q := Locate(FallbackPath(path)).value;
            files := files[q := File(target, files[q].mode)];
          }
        }
      }
      log := log + [Access(s, f, shared, files)];
    }

    /** The section under the mutex, and the opening of the output file after it. */
    method OpenShared(incoming: Incoming, name: Bytes)
      returns (thrown: Option<ReceiveError>, ghost s: Shared, ghost f: Files)
      requires SafeFileName(incoming.name) == Some(name)
      modifies this
      ensures var effect := PerformOpenPart(incoming, s, f);
              thrown == effect.thrown && Logged(Access(s, f, effect.shared, effect.files))
    {
      Interfere();
      s, f := shared, files;
      if !shared.initialized {
        shared := Shared(true, name, incoming.header.totalSize);
        var created := CreateFile(files, [name]);
        files, thrown := created.files, ErrorOf(created.answer);
        if thrown == None && shared.totalSize >= SIZE_LIMIT {
          thrown := Some(FileSystemFailed);
        } else if thrown == None {
          var path := Locate([name]).value;
          files := files[path := File(Resize(files[path].content, shared.totalSize), files[path].mode)];
        }
      } else if shared.fileName != name || shared.totalSize != incoming.header.totalSize {
        thrown := Some(DifferentFile);
      } else {
        thrown := ErrorOf(OpenExisting(files, [name]));
      }
      if thrown == None {
        thrown := SeekError(incoming.header.offset);
      }
      log := log + [Access(s, f, shared, files)];
    }

    /** Writes one buffer at the current position of the open output file. */
    method WriteChunk(incoming: Incoming, got: nat, chunk: Bytes) returns (ok: bool, ghost s: Shared, ghost f: Files)
      modifies this
      ensures ok <==> PerformWrite(incoming, got, chunk, s, f).Some?
      ensures Logged(Access(s, f, s, if ok then PerformWrite(incoming, got, chunk, s, f).value else f))
    {
      Interfere();
      s, f := shared, files;
      var path := OutputPath(incoming, shared);
      ok := IsFile(files, path);
      if ok {
        var file := files[path.value];
        var content := WriteAt(file.content, PayloadStart(incoming.header) + got, chunk);
        files := files[path.value := File(content, file.mode)];
      }
      log := log + [Access(s, f, shared, files)];
    }

    /** Replaces the permissions; failures are ignored. */
    method ApplyPermissions(incoming: Incoming, path: Path)
      returns (thrown: Option<ReceiveError>, ghost s: Shared, ghost f: Files)
      requires SafeRelativePath(incoming.name) == Some(path)
      modifies this
      ensures var attempt := PerformSetMode(incoming, f);
              thrown == ErrorOf(attempt.answer) && Logged(Access(s, f, s, attempt.files))
    {
      Interfere();
      s, f := shared, files;
      var attempt := ReplaceMode(files, path, incoming.header.offset);
      files, thrown := attempt.files, ErrorOf(attempt.answer);
      log := log + [Access(s, f, shared, files)];
    }
  }

  // ----- The thread -----

  /** The thread runs: its steps so far account for its reads, its accesses and its result. */
  ghost predicate Running(session: TcpTransport, host: Host, whole: Bytes, base: seq<Access>, trace: seq<Step>,
                          p: Point, bytes: U64)
    reads session, host
  {
    && At(trace, p) && p.reported == bytes
    && p.consumed + session.input == whole
    && host.log == base + p.accesses
  }

  /** The thread has left its loop with this result. */
  ghost predicate Ended(host: Host, whole: Bytes, base: seq<Access>, trace: seq<Step>, bytes: U64,
                        error: Option<ReceiveError>)
    reads host
  {
    && ThreadTrace(whole, trace)
    && After(trace) == (match error case None => Finished case Some(e) => Stopped(e))
    && Reported(trace) == bytes
    && host.log == base + Accesses(trace)
  }

  /** After a part of the loop: it goes on at `pc`, or an exception has ended it. */
  ghost predicate Outcome(session: TcpTransport, host: Host, whole: Bytes, base: seq<Access>, trace: seq<Step>,
                          p: Point, bytes: U64, error: Option<ReceiveError>, pc: Pc)
    reads session, host
  {
    if error == None then Running(session, host, whole, base, trace, p, bytes) && p.pc == pc
    else Ended(host, whole, base, trace, bytes, error)
  }

  /** An access that leads to `pc`, or throws. */
  lemma {:induction false} AccessOutcome(session: TcpTransport, host: Host, whole: Bytes, base: seq<Access>,
                                         trace: seq<Step>, p: Point, bytes: U64, s: Shared, f: Files)
    requires At(trace, p) && Acting(p.pc) && p.consumed + session.input == whole
    requires host.log == base + p.accesses + [Access(s, f, Perform(p.pc, s, f).shared, Perform(p.pc, s, f).files)]
    requires bytes == ActPoint(p, s, f).reported
    ensures Outcome(session, host, whole, base, trace + [Acted(s, f)], ActPoint(p, s, f), bytes,
                    Perform(p.pc, s, f).thrown, NextPc(p.pc))
  {
    ActStep(trace, p, s, f, session.input);
    hide Perform, NextPc, ThreadTrace;
    var access := Access(s, f, Perform(p.pc, s, f).shared, Perform(p.pc, s, f).files);
    assert base + p.accesses + [access] == base + (p.accesses + [access]);
  }

  /** The reads behind a header and its name, or behind the failure to get them. */
  lemma {:induction false} HeaderSteps(trace: seq<Step>, p: Point, input: Bytes) returns (trace': seq<Step>, p': Point)
    requires At(trace, p) && p.pc == AtHeader([])
    ensures At(trace', p') && p'.reported == p.reported && p'.accesses == p.accesses
    ensures match NextIncoming(input)
            case NoMore => ThreadTrace(p.consumed + input, trace') && p'.pc == Finished
            case Failed(e) => ThreadTrace(p.consumed + input, trace') && p'.pc == Stopped(Protocol(e))
            case Received(incoming) =>
              HEADER_BYTES + |incoming.name| <= |input|
              && p'.pc == Dispatch(incoming) && p'.consumed == p.consumed + input[..HEADER_BYTES + |incoming.name|]
  {
    hide At, ThreadTrace, DecodeHeader;
    if |input| < HEADER_BYTES {
      trace', p' := CutShort(trace, p, input);
    } else {
      var header, rest := input[..HEADER_BYTES], input[HEADER_BYTES..];
      assert [] + header == header;
      ReadStep(trace, p, header);
      trace', p' := trace + [Read(header)], p.(pc := OnReceive(p.pc, header), consumed := p.consumed + header);
      Rejoin(p.consumed, input, HEADER_BYTES);
      match DecodeHeader(header) {
        case Err(_) =>
          ReadOnly(trace, p, header, rest);
        case Ok(h) =>
          AcceptedHeader(header);
          trace', p' := NameSteps(trace', p', h, rest);
          if h.nameSize <= |rest| {
            SliceOfRest(input, HEADER_BYTES, h.nameSize);
            Rejoin(p.consumed, input[..HEADER_BYTES + h.nameSize], HEADER_BYTES);
          }
      }
    }
  }

  lemma {:induction false} Rejoin(front: Bytes, s: Bytes, n: nat)
    requires n <= |s|
    ensures front + s[..n] + s[n..] == front + s
  {
    assert s == s[..n] + s[n..];
  }

  /** A read after which the thread may stop. */
  lemma {:induction false} ReadOnly(trace: seq<Step>, p: Point, data: Bytes, rest: Bytes)
    requires At(trace, p) && 0 < |data| <= Want(p.pc)
    ensures ThreadTrace(p.consumed + data + rest, trace + [Read(data)])
  {
    ReadStep(trace, p, data);
  }

  /** The read behind a name. */
  lemma {:induction false} NameSteps(trace: seq<Step>, p: Point, h: Header, rest: Bytes)
    returns (trace': seq<Step>, p': Point)
    requires At(trace, p) && p.pc == AtName(h, []) && h.nameSize > 0
    ensures At(trace', p') && p'.reported == p.reported && p'.accesses == p.accesses
    ensures |rest| < h.nameSize ==> ThreadTrace(p.consumed + rest, trace') && p'.pc == Stopped(Protocol(ClosedEarly))
    ensures h.nameSize <= |rest| ==>
              p'.pc == Dispatch(Incoming(h, rest[..h.nameSize])) && p'.consumed == p.consumed + rest[..h.nameSize]
  {
    if |rest| < h.nameSize {
      trace', p' := CutShort(trace, p, rest);
    } else {
      var name := rest[..h.nameSize];
      assert [] + name == name;
      ReadStep(trace, p, name);
      trace', p' := trace + [Read(name)], p.(pc := OnReceive(p.pc, name), consumed := p.consumed + name);
    }
  }

  /** The connection ends before a read into an empty buffer is complete. */
  lemma {:induction false} CutShort(trace: seq<Step>, p: Point, input: Bytes) returns (trace': seq<Step>, p': Point)
    requires At(trace, p) && |input| < Want(p.pc)
    requires p.pc == AtHeader([]) || (p.pc.AtName? && p.pc.buf == []) || (p.pc.AtTarget? && p.pc.buf == [])
    ensures At(trace', p') && p'.reported == p.reported && p'.accesses == p.accesses
    ensures ThreadTrace(p.consumed + input, trace')
    ensures p'.pc == if p.pc.AtHeader? && input == [] then Finished
                     else Stopped(Protocol(if p.pc.AtHeader? then ClosedInHeader else ClosedEarly))
  {
    trace', p' := trace, p;
    if input != [] {
      assert [] + input == input;
      ReadStep(trace, p, input);
      trace', p' := trace + [Read(input)], p.(pc := OnReceive(p.pc, input), consumed := p.consumed + input);
    } else {
      assert p.consumed + input == p.consumed;
    }
    EndStep(trace', p');
    trace', p' := trace' + [SawEnd], p'.(pc := OnEof(p'.pc));
  }

  lemma {:induction false} HeaderOutcome(host: Host, whole: Bytes, base: seq<Access>, trace: seq<Step>, p: Point,
                                         bytes: U64, input: Bytes)
    returns (trace': seq<Step>, p': Point)
    requires At(trace, p) && p.pc == AtHeader([]) && p.consumed + input == whole
    requires p.reported == bytes && host.log == base + p.accesses
    ensures match NextIncoming(input)
            case NoMore => Ended(host, whole, base, trace', bytes, None)
            case Failed(e) => Ended(host, whole, base, trace', bytes, Some(Protocol(e)))
            case Received(incoming) =>
              var n := HEADER_BYTES + |incoming.name|;
              && n <= |input| && At(trace', p') && p'.pc == Dispatch(incoming)
              && p'.consumed + input[n..] == whole
              && p'.reported == bytes && p'.accesses == p.accesses
  {
    trace', p' := HeaderSteps(trace, p, input);
    hide Allowed, NextIncoming, ThreadTrace;
    if NextIncoming(input).Received? {
      Rejoin(p.consumed, input, HEADER_BYTES + |NextIncoming(input).incoming.name|);
    }
  }

  /** A directory entry: create the directory. */
  method ReceiveEntry(session: TcpTransport, host: Host, incoming: Incoming, bytes: U64, ghost whole: Bytes,
                      ghost base: seq<Access>, ghost trace: seq<Step>, ghost p: Point)
    returns (error: Option<ReceiveError>, ghost trace': seq<Step>, ghost p': Point)
    requires Running(session, host, whole, base, trace, p, bytes) && p.pc == Dispatch(incoming)
    requires incoming.header.kind == KIND_DIRECTORY_ENTRY
    modifies host
    ensures Outcome(session, host, whole, base, trace', p', bytes, error, AtHeader([]))
  {
    hide Perform, SafeRelativePath, FileSystem.CreateDirectories, At, ThreadTrace, Ended;
    ghost var s, f;
    error := None;
    var path := SafeRelativePath(incoming.name);
    if path == None {
      s, f := host.Observe();
      error := Some(BadPath);
    } else {
      error, s, f := host.CreateDirectories(path.value);
    }
    DirectoryEffect(incoming, s, f);
    trace', p' := trace + [Acted(s, f)], ActPoint(p, s, f);
    AccessOutcome(session, host, whole, base, trace, p, bytes, s, f);
  }

  /** What the branch on the kind does for a directory record. */
  lemma {:induction false} DirectoryEffect(incoming: Incoming, shared: Shared, files: Files)
    requires incoming.header.kind == KIND_DIRECTORY_ENTRY || incoming.header.kind == KIND_DIRECTORY_SYMLINK
             || incoming.header.kind == KIND_DIRECTORY_FILE
    ensures var path := SafeRelativePath(incoming.name);
            Perform(Dispatch(incoming), shared, files) ==
            if path == None then Effect(shared, files, Some(BadPath))
            else
              var folder := if incoming.header.kind == KIND_DIRECTORY_ENTRY then path.value else Parent(path.value);
              FromAttempt(shared, FileSystem.CreateDirectories(files, folder))
  {
    hide SafeRelativePath, FileSystem.CreateDirectories;
  }

  /** A symbolic link: create its parent, receive the target, create the link. */
  method ReceiveLink(session: TcpTransport, host: Host, incoming: Incoming, bytes: U64, ghost whole: Bytes,
                     ghost base: seq<Access>, ghost trace: seq<Step>, ghost p: Point)
    returns (error: Option<ReceiveError>, bytes': U64, ghost trace': seq<Step>, ghost p': Point)
    requires Running(session, host, whole, base, trace, p, bytes) && p.pc == Dispatch(incoming)
    requires incoming.header.kind == KIND_DIRECTORY_SYMLINK
    modifies host, session`input
    ensures Outcome(session, host, whole, base, trace', p', bytes', error, AtHeader([]))
    ensures error == None ==> |session.input| <= old(|session.input|)
  {
    var path;
    error, path, trace', p' := CreateParent(session, host, incoming, bytes, whole, base, trace, p);
    bytes' := bytes;
    if error != None {
      return;
    }
    var target;
    error, target, trace', p' := ReceiveTarget(session, host, incoming, bytes, whole, base, trace', p');
    if error != None {
      return;
    }
    hide Running, Ended;
    error, bytes', trace', p' := MakeLink(session, host, incoming, path, target, bytes, whole, base, trace', p');
  }

  lemma {:induction false} LinkEffect(incoming: Incoming, path: Path, target: Bytes, shared: Shared, files: Files)
    requires SafeRelativePath(incoming.name) == Some(path)
    ensures Perform(Link(incoming, target), shared, files) ==
            FromAttempt(shared, LinkOrFallback(files, path, target))
  {
    hide LinkOrFallback, SafeRelativePath;
  }

  method MakeLink(session: TcpTransport, host: Host, incoming: Incoming, path: Path, target: Bytes, bytes: U64,
                  ghost whole: Bytes, ghost base: seq<Access>, ghost trace: seq<Step>, ghost p: Point)
    returns (error: Option<ReceiveError>, bytes': U64, ghost trace': seq<Step>, ghost p': Point)
    requires Running(session, host, whole, base, trace, p, bytes) && p.pc == Link(incoming, target)
    requires SafeRelativePath(incoming.name) == Some(path)
    modifies host
    ensures Outcome(session, host, whole, base, trace', p', bytes', error, AtHeader([]))
  {
    hide LinkOrFallback, SafeRelativePath, At, ThreadTrace, Perform, Ended;
    ghost var s, f;
    error, s, f := host.CreateSymlinkOrFallback(path, target);
    LinkEffect(incoming, path, target, s, f);
    bytes' := if error == None then (bytes + incoming.header.payloadSize) % U64_MODULUS else bytes;
    AccessOutcome(session, host, whole, base, trace, p, bytes', s, f);
    trace', p' := trace + [Acted(s, f)], ActPoint(p, s, f);
  }

  method ReceiveTarget(session: TcpTransport, host: Host, incoming: Incoming, bytes: U64, ghost whole: Bytes,
                       ghost base: seq<Access>, ghost trace: seq<Step>, ghost p: Point)
    returns (error: Option<ReceiveError>, target: Bytes, ghost trace': seq<Step>, ghost p': Point)
    requires Running(session, host, whole, base, trace, p, bytes)
    requires p.pc == if incoming.header.payloadSize == 0 then Link(incoming, []) else AtTarget(incoming, [])
    modifies session`input
    ensures Outcome(session, host, whole, base, trace', p', bytes, error, Link(incoming, target))
    ensures error == None ==> |session.input| <= old(|session.input|)
  {
    ghost var input := session.input;
    var received := ReceiveExact(session, incoming.header.payloadSize);
    if received == None {
      trace', p' := CutShort(trace, p, input);
      return Some(Protocol(ClosedEarly)), [], trace', p';
    }
    trace', p' := TargetRead(trace, p, incoming, input);
    Rejoin(p.consumed, input, incoming.header.payloadSize);
    return None, received.value, trace', p';
  }

  /** The read behind a link target; an empty target needs none. */
  lemma {:induction false} TargetRead(trace: seq<Step>, p: Point, incoming: Incoming, input: Bytes)
    returns (trace': seq<Step>, p': Point)
    requires At(trace, p) && incoming.header.payloadSize <= |input|
    requires p.pc == if incoming.header.payloadSize == 0 then Link(incoming, []) else AtTarget(incoming, [])
    ensures At(trace', p')
    ensures p' == p.(pc := Link(incoming, input[..incoming.header.payloadSize]),
                     consumed := p.consumed + input[..incoming.header.payloadSize])
  {
    var target := input[..incoming.header.payloadSize];
    if target == [] {
      assert p.consumed + target == p.consumed;
      return trace, p;
    }
    assert [] + target == target;
    ReadStep(trace, p, target);
    return trace + [Read(target)], p.(pc := Link(incoming, target), consumed := p.consumed + target);
  }

  /** The checked path of a link or a file, with its parent directories created. */
  method CreateParent(session: TcpTransport, host: Host, incoming: Incoming, bytes: U64, ghost whole: Bytes,
                      ghost base: seq<Access>, ghost trace: seq<Step>, ghost p: Point)
    returns (error: Option<ReceiveError>, path: Path, ghost trace': seq<Step>, ghost p': Point)
    requires Running(session, host, whole, base, trace, p, bytes) && p.pc == Dispatch(incoming)
    requires incoming.header.kind == KIND_DIRECTORY_SYMLINK || incoming.header.kind == KIND_DIRECTORY_FILE
    modifies host
    ensures Outcome(session, host, whole, base, trace', p', bytes, error, NextPc(Dispatch(incoming)))
    ensures error == None ==> SafeRelativePath(incoming.name) == Some(path)
  {
    hide Perform, SafeRelativePath, FileSystem.CreateDirectories, At, ThreadTrace, Ended;
    ghost var s, f;
    error, path := None, [];
    var checked := SafeRelativePath(incoming.name);
    if checked == None {
      s, f := host.Observe();
      error := Some(BadPath);
    } else {
      path := checked.value;
      error, s, f := host.CreateDirectories(Parent(path));
    }
    DirectoryEffect(incoming, s, f);
    trace', p' := trace + [Acted(s, f)], ActPoint(p, s, f);
    AccessOutcome(session, host, whole, base, trace, p, bytes, s, f);
  }

  /** The loop over a payload: each buffer that arrives is written at once. */
  method ReceiveBody(session: TcpTransport, host: Host, incoming: Incoming, bytes: U64, ghost whole: Bytes,
                     ghost base: seq<Access>, ghost trace: seq<Step>, ghost p: Point)
    returns (error: Option<ReceiveError>, bytes': U64, ghost trace': seq<Step>, ghost p': Point)
    requires Running(session, host, whole, base, trace, p, bytes) && p.pc == BodyLoop(incoming, 0)
    modifies host, session`input
    ensures Outcome(session, host, whole, base, trace', p', bytes', error,
                    BodyLoop(incoming, incoming.header.payloadSize))
    ensures error == None ==> |session.input| <= old(|session.input|)
  {
    var buffer := new Byte[CHUNK_BYTES];
    var got, size := 0, incoming.header.payloadSize;
    bytes', trace', p' := bytes, trace, p;
    hide At, Ended, ThreadTrace;
    while got < size
      invariant got <= size
      invariant Running(session, host, whole, base, trace', p', bytes') && p'.pc == BodyLoop(incoming, got)
      invariant |session.input| <= old(|session.input|)
    {
      var chunk;
      error, chunk, trace', p' := ReceiveChunk(session, host, incoming, got, buffer, bytes', whole, base, trace', p');
      if error != None {
        return;
      }
      error, bytes', trace', p' := WriteOut(session, host, incoming, got, chunk, bytes', whole, base, trace', p');
      if error != None {
        return;
      }
      got := got + |chunk|;
    }
    error := None;
  }

  /** One read into the buffer. */
  method ReceiveChunk(session: TcpTransport, host: Host, incoming: Incoming, got: nat, buffer: array<Byte>,
                      bytes: U64, ghost whole: Bytes, ghost base: seq<Access>, ghost trace: seq<Step>, ghost p: Point)
    returns (error: Option<ReceiveError>, chunk: Bytes, ghost trace': seq<Step>, ghost p': Point)
    requires Running(session, host, whole, base, trace, p, bytes) && p.pc == AtBody(incoming, got)
    requires got < incoming.header.payloadSize && buffer.Length == CHUNK_BYTES
    modifies session`input, buffer
    ensures Outcome(session, host, whole, base, trace', p', bytes, error, Write(incoming, got, chunk))
    ensures error == None ==> 0 < |chunk| <= incoming.header.payloadSize - got
    ensures error == None ==> |session.input| <= old(|session.input|)
  {
    hide At, Ended;
    var received := session.ReceiveInto(buffer, 0, Min(incoming.header.payloadSize - got, buffer.Length));
    if received == 0 {
      assert p.consumed + [] == p.consumed;
      trace', p' := EarlyEnd(host, whole, base, trace, p, bytes);
      return Some(Protocol(ClosedEarly)), [], trace', p';
    }
    chunk := buffer[0..received];
    trace', p' := ChunkRead(trace, p, incoming, got, chunk);
    assert p.consumed + chunk + session.input == p.consumed + (chunk + session.input);
    error := None;
  }

  lemma {:induction false} ChunkRead(trace: seq<Step>, p: Point, incoming: Incoming, got: nat, chunk: Bytes)
    returns (trace': seq<Step>, p': Point)
    requires At(trace, p) && p.pc == AtBody(incoming, got)
    requires 0 < |chunk| <= Min(incoming.header.payloadSize - got, CHUNK_BYTES)
    ensures At(trace', p') && p' == p.(pc := Write(incoming, got, chunk), consumed := p.consumed + chunk)
  {
    hide At;
    ReadStep(trace, p, chunk);
    trace', p' := trace + [Read(chunk)], p.(pc := Write(incoming, got, chunk), consumed := p.consumed + chunk);
  }

  /** One write of the buffer. */
  method WriteOut(session: TcpTransport, host: Host, incoming: Incoming, got: nat, chunk: Bytes, bytes: U64,
                  ghost whole: Bytes, ghost base: seq<Access>, ghost trace: seq<Step>, ghost p: Point)
    returns (error: Option<ReceiveError>, bytes': U64, ghost trace': seq<Step>, ghost p': Point)
    requires Running(session, host, whole, base, trace, p, bytes) && p.pc == Write(incoming, got, chunk)
    modifies host
    ensures Outcome(session, host, whole, base, trace', p', bytes', error, BodyLoop(incoming, got + |chunk|))
  {
    hide PerformWrite, At, ThreadTrace, BodyLoop, Ended;
    ghost var s, f;
    var ok;
    ok, s, f := host.WriteChunk(incoming, got, chunk);
    error := if ok then None else Some(FileSystemFailed);
    bytes' := if ok then (bytes + |chunk|) % U64_MODULUS else bytes;
    AccessOutcome(session, host, whole, base, trace, p, bytes', s, f);
    trace', p' := trace + [Acted(s, f)], ActPoint(p, s, f);
  }

  /** The connection has ended inside a payload. */
  lemma {:induction false} EarlyEnd(host: Host, whole: Bytes, base: seq<Access>, trace: seq<Step>, p: Point, bytes: U64)
    returns (trace': seq<Step>, p': Point)
    requires At(trace, p) && p.pc.AtBody? && Want(p.pc) > 0 && p.consumed == whole && p.reported == bytes
    requires host.log == base + p.accesses
    ensures Ended(host, whole, base, trace', bytes, Some(Protocol(ClosedEarly)))
  {
    EndStep(trace, p);
    trace', p' := trace + [SawEnd], p.(pc := OnEof(p.pc));
  }

  /** A file of a directory: create its parent, empty it, fill it, set its mode. */
  method ReceiveDirectoryFile(session: TcpTransport, host: Host, incoming: Incoming, bytes: U64, ghost whole: Bytes,
                              ghost base: seq<Access>, ghost trace: seq<Step>, ghost p: Point)
    returns (error: Option<ReceiveError>, bytes': U64, ghost trace': seq<Step>, ghost p': Point)
    requires Running(session, host, whole, base, trace, p, bytes) && p.pc == Dispatch(incoming)
    requires incoming.header.kind == KIND_DIRECTORY_FILE
    modifies host, session`input
    ensures Outcome(session, host, whole, base, trace', p', bytes', error, AtHeader([]))
    ensures error == None ==> |session.input| <= old(|session.input|)
  {
    var path;
    bytes' := bytes;
    error, path, trace', p' := CreateParent(session, host, incoming, bytes, whole, base, trace, p);
    if error != None {
      return;
    }
    error, trace', p' := OpenDirectoryFile(session, host, incoming, path, bytes, whole, base, trace', p');
    if error != None {
      return;
    }
    hide Running, Ended;
    error, bytes', trace', p' := ReceiveBody(session, host, incoming, bytes, whole, base, trace', p');
    if error != None {
      return;
    }
    error, trace', p' := FinishDirectoryFile(session, host, incoming, path, bytes', whole, base, trace', p');
  }

  lemma {:induction false} OpenFileEffect(incoming: Incoming, path: Path, shared: Shared, files: Files)
    requires incoming.header.kind == KIND_DIRECTORY_FILE && SafeRelativePath(incoming.name) == Some(path)
    ensures Perform(Open(incoming), shared, files) == FromAttempt(shared, CreateFile(files, path))
  {
    hide CreateFile, SafeRelativePath;
  }

  method OpenDirectoryFile(session: TcpTransport, host: Host, incoming: Incoming, path: Path, bytes: U64,
                           ghost whole: Bytes, ghost base: seq<Access>, ghost trace: seq<Step>, ghost p: Point)
    returns (error: Option<ReceiveError>, ghost trace': seq<Step>, ghost p': Point)
    requires Running(session, host, whole, base, trace, p, bytes) && p.pc == Open(incoming)
    requires incoming.header.kind == KIND_DIRECTORY_FILE && SafeRelativePath(incoming.name) == Some(path)
    modifies host
    ensures Outcome(session, host, whole, base, trace', p', bytes, error, BodyLoop(incoming, 0))
  {
    hide CreateFile, SafeRelativePath, At, ThreadTrace, BodyLoop, Perform, Ended;
    ghost var s, f;
    error, s, f := host.OpenForWriting(path);
    OpenFileEffect(incoming, path, s, f);
    AccessOutcome(session, host, whole, base, trace, p, bytes, s, f);
    trace', p' := trace + [Acted(s, f)], ActPoint(p, s, f);
  }

  method FinishDirectoryFile(session: TcpTransport, host: Host, incoming: Incoming, path: Path, bytes: U64,
                             ghost whole: Bytes, ghost base: seq<Access>, ghost trace: seq<Step>, ghost p: Point)
    returns (error: Option<ReceiveError>, ghost trace': seq<Step>, ghost p': Point)
    requires Running(session, host, whole, base, trace, p, bytes) && p.pc == SetMode(incoming)
    requires SafeRelativePath(incoming.name) == Some(path)
    modifies host
    ensures Outcome(session, host, whole, base, trace', p', bytes, error, AtHeader([]))
  {
    hide PerformSetMode, SafeRelativePath, At, ThreadTrace, Ended;
    ghost var s, f;
    error, s, f := host.ApplyPermissions(incoming, path);
    AccessOutcome(session, host, whole, base, trace, p, bytes, s, f);
    trace', p' := trace + [Acted(s, f)], ActPoint(p, s, f);
  }

  /** A part of the shared file: check it, open the file under the mutex, write the range. */
  method ReceivePart(session: TcpTransport, host: Host, incoming: Incoming, bytes: U64, ghost whole: Bytes,
                     ghost base: seq<Access>, ghost trace: seq<Step>, ghost p: Point)
    returns (error: Option<ReceiveError>, bytes': U64, ghost trace': seq<Step>, ghost p': Point)
    requires Running(session, host, whole, base, trace, p, bytes) && p.pc == Dispatch(incoming)
    requires IsPart(incoming.header.kind)
    modifies host, session`input
    ensures Outcome(session, host, whole, base, trace', p', bytes', error, AtHeader([]))
    ensures error == None ==> |session.input| <= old(|session.input|)
  {
    var name;
    bytes' := bytes;
    error, name, trace', p' := CheckPart(session, host, incoming, bytes, whole, base, trace, p);
    if error != None {
      return;
    }
    error, trace', p' := OpenOutput(session, host, incoming, name, bytes, whole, base, trace', p');
    if error != None {
      return;
    }
    hide Running, Ended;
    error, bytes', trace', p' := ReceiveBody(session, host, incoming, bytes, whole, base, trace', p');
  }

  /** The checks on the name and the range of a part. */
  method CheckPart(session: TcpTransport, host: Host, incoming: Incoming, bytes: U64, ghost whole: Bytes,
                   ghost base: seq<Access>, ghost trace: seq<Step>, ghost p: Point)
    returns (error: Option<ReceiveError>, name: Bytes, ghost trace': seq<Step>, ghost p': Point)
    requires Running(session, host, whole, base, trace, p, bytes) && p.pc == Dispatch(incoming)
    requires IsPart(incoming.header.kind)
    modifies host
    ensures Outcome(session, host, whole, base, trace', p', bytes, error, Open(incoming))
    ensures error == None ==> SafeFileName(incoming.name) == Some(name)
  {
    hide Perform, SafeFileName, ExceedsTotal, At, ThreadTrace, Ended;
    var checked, h := SafeFileName(incoming.name), incoming.header;
    error, name := None, [];
    if checked == None {
      error := Some(BadFileName);
    } else if ExceedsTotal(h.offset, h.payloadSize, h.totalSize) {
      error := Some(RangeExceedsTotal);
    } else {
      name := checked.value;
    }
    ghost var s, f := host.Observe();
    CheckEffect(incoming, s, f);
    AccessOutcome(session, host, whole, base, trace, p, bytes, s, f);
    trace', p' := trace + [Acted(s, f)], ActPoint(p, s, f);
  }

  lemma {:induction false} CheckEffect(incoming: Incoming, shared: Shared, files: Files)
    requires IsPart(incoming.header.kind)
    ensures var h := incoming.header;
            Perform(Dispatch(incoming), shared, files) ==
            Effect(shared, files,
                   if SafeFileName(incoming.name) == None then Some(BadFileName)
                   else if ExceedsTotal(h.offset, h.payloadSize, h.totalSize) then Some(RangeExceedsTotal)
                   else None)
    ensures NextPc(Dispatch(incoming)) == Open(incoming)
  {
    hide SafeFileName, SafeRelativePath, ExceedsTotal;
  }

  method OpenOutput(session: TcpTransport, host: Host, incoming: Incoming, name: Bytes, bytes: U64,
                    ghost whole: Bytes, ghost base: seq<Access>, ghost trace: seq<Step>, ghost p: Point)
    returns (error: Option<ReceiveError>, ghost trace': seq<Step>, ghost p': Point)
    requires Running(session, host, whole, base, trace, p, bytes) && p.pc == Open(incoming)
    requires IsPart(incoming.header.kind) && SafeFileName(incoming.name) == Some(name)
    modifies host
    ensures Outcome(session, host, whole, base, trace', p', bytes, error, BodyLoop(incoming, 0))
  {
    hide PerformOpenPart, SafeFileName, At, ThreadTrace, Ended, BodyLoop;
    ghost var s, f;
    error, s, f := host.OpenShared(incoming, name);
    AccessOutcome(session, host, whole, base, trace, p, bytes, s, f);
    trace', p' := trace + [Acted(s, f)], ActPoint(p, s, f);
  }

  /** The thread: whatever the other threads do between its actions, its run is a run of the step
      machine over the bytes of its connection, it reports what that run counts, and each of its
      accesses leaves the shared state and the files as that run prescribes. */
  method ReceiveFilePart(session: TcpTransport, host: Host)
    returns (error: Option<ReceiveError>, bytes: U64, ghost trace: seq<Step>)
    modifies host, session`input
    ensures Ended(host, old(session.input), old(host.log), trace, bytes, error)
  {
    ghost var whole, base := session.input, host.log;
    ghost var p := Point(AtHeader([]), [], 0, []);
    bytes, trace := 0, [];
    assert base + [] == base;
    while true
      invariant Running(session, host, whole, base, trace, p, bytes) && p.pc == AtHeader([])
      decreases |session.input|
    {
      hide At, Ended, NextIncoming;
      ghost var input := session.input;
      trace, p := HeaderOutcome(host, whole, base, trace, p, bytes, input);
      var result := ReceiveHeaderOptional(session);
      match result {
        case NoMore =>
          return None, bytes, trace;
        case Failed(e) =>
          return Some(Protocol(e)), bytes, trace;
        case Received(incoming) =>
          error, bytes, trace, p := ReceiveRecord(session, host, incoming, bytes, whole, base, trace, p);
          if error != None {
            return;
          }
      }
    }
  }

  /** The branch on the kind. */
  method ReceiveRecord(session: TcpTransport, host: Host, incoming: Incoming, bytes: U64, ghost whole: Bytes,
                       ghost base: seq<Access>, ghost trace: seq<Step>, ghost p: Point)
    returns (error: Option<ReceiveError>, bytes': U64, ghost trace': seq<Step>, ghost p': Point)
    requires Running(session, host, whole, base, trace, p, bytes) && p.pc == Dispatch(incoming)
    modifies host, session`input
    ensures Outcome(session, host, whole, base, trace', p', bytes', error, AtHeader([]))
    ensures error == None ==> |session.input| <= old(|session.input|)
  {
    var kind := incoming.header.kind;
    bytes' := bytes;
    if kind == KIND_DIRECTORY_ENTRY {
      error, trace', p' := ReceiveEntry(session, host, incoming, bytes, whole, base, trace, p);
    } else if kind == KIND_DIRECTORY_SYMLINK {
      error, bytes', trace', p' := ReceiveLink(session, host, incoming, bytes, whole, base, trace, p);
    } else if kind == KIND_DIRECTORY_FILE {
      error, bytes', trace', p' := ReceiveDirectoryFile(session, host, incoming, bytes, whole, base, trace, p);
    } else if !IsPart(kind) {
      ghost var s, f := host.Observe();
      error := Some(Protocol(UnsupportedKind));
      AccessOutcome(session, host, whole, base, trace, p, bytes, s, f);
      trace', p' := trace + [Acted(s, f)], ActPoint(p, s, f);
    } else {
      error, bytes', trace', p' := ReceivePart(session, host, incoming, bytes, whole, base, trace, p);
    }
  }
}
