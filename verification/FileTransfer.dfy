/** A single file over parallel streams: every interleaving reproduces the source. */
module FileTransfer {
  import opened Basics
  import opened Wire
  import opened Framing
  import opened Paths
  import opened FileSystem
  import opened ByteRanges
  import opened Receiver
  import opened Streams
  import opened StreamInvariant
  import opened SystemInvariant

  /** What the sender is given: the file, the checked remote name and the number of streams. */
  datatype Job = Job(source: Bytes, name: Bytes, parallel: nat)

  ghost predicate ValidJob(job: Job) {
    && |job.source| < SIZE_LIMIT  // as every file is
    && 0 < job.parallel < U32_MODULUS
    && SafeFileName(job.name) == Some(job.name) && |job.name| <= MAX_NAME_BYTES
    && NUL !in job.name  // it comes from a directory entry or the command line
  }

  function RangeStart(job: Job, s: nat): nat
    requires |job.source| < U64_MODULUS && s < job.parallel
  {
    ByteRangeForStream(|job.source|, s, job.parallel).0
  }

  function RangeSize(job: Job, s: nat): nat
    requires |job.source| < U64_MODULUS && s < job.parallel
  {
    ByteRangeForStream(|job.source|, s, job.parallel).1
  }

  lemma {:induction false} RangeInFile(job: Job, s: nat)
    requires ValidJob(job) && s < job.parallel
    ensures RangeStart(job, s) + RangeSize(job, s) <= |job.source|
    ensures !ExceedsTotal(RangeStart(job, s), RangeSize(job, s), |job.source|)
  {
    RangeIsExact(|job.source|, s, job.parallel);
  }

  /** The one record of stream `s`. */
  ghost function PartRecord(job: Job, s: nat): (r: Record)
    requires ValidJob(job) && s < job.parallel
    ensures ValidRecord(r) && |r.payload| == RangeSize(job, s)
  {
    RangeInFile(job, s);
    Record(if job.parallel > 1 then KIND_FILE_PART else KIND_FILE, job.name, RangeStart(job, s), |job.source|,
           job.source[RangeStart(job, s)..RangeStart(job, s) + RangeSize(job, s)])
  }

  ghost function PartScripts(job: Job): (scripts: seq<seq<Record>>)
    requires ValidJob(job)
    ensures |scripts| == job.parallel && ValidScripts(scripts)
    ensures forall s | 0 <= s < job.parallel :: scripts[s] == [PartRecord(job, s)]
  {
    seq(job.parallel, s requires 0 <= s < job.parallel => [PartRecord(job, s)])
  }

  function OutputFile(job: Job): Path {
    [job.name]
  }

  // ----- What holds in every reachable state -----

  /** Once initialised, the output file has its final size, and every byte of it is still zero or
      already the source byte at that offset. Before, nothing has happened to the files. */
  ghost predicate SharedFileSafe(job: Job, before: Files, shared: Shared, files: Files) {
    if shared.initialized then
      && shared.fileName == job.name && shared.totalSize == |job.source|
      && OutputFile(job) in files && files[OutputFile(job)].File?
      && files - {OutputFile(job)} == before - {OutputFile(job)}
      && var content := files[OutputFile(job)].content;
         && |content| == |job.source|
         && forall x | 0 <= x < |content| :: content[x] == 0 || content[x] == job.source[x]
    else files == before
  }

  ghost predicate Written(job: Job, files: Files, from: nat, to: nat) {
    && OutputFile(job) in files && files[OutputFile(job)].File?
    && var content := files[OutputFile(job)].content;
       && to <= |content| == |job.source|
       && forall x | from <= x < to :: content[x] == job.source[x]
  }

  ghost predicate Blank(job: Job, files: Files, from: nat, to: nat) {
    && OutputFile(job) in files && files[OutputFile(job)].File?
    && var content := files[OutputFile(job)].content;
       && to <= |content| == |job.source|
       && forall x | from <= x < to :: content[x] == 0
  }

  /** A stream's result counts the bytes it has written: a prefix of its range. It writes only
      after initialisation, and fails only with its connection. */
  ghost predicate PartSafe(job: Job, s: nat, st: Connection, shared: Shared, files: Files)
    requires ValidJob(job) && s < job.parallel
  {
    && (st.pc.Stopped? ==> st.pc.reason.Protocol?)
    && st.bytes <= RangeSize(job, s)
    && (st.completed > 0 ==> st.bytes == RangeSize(job, s))
    && (st.completed == 0 ==>
          match st.pc
          case AtBody(_, got) => st.bytes == got
          case Write(_, got, _) => st.bytes == got
          case Stopped(_) => true
          case _ => st.bytes == 0)
    && (st.bytes > 0 || st.completed > 0 || st.pc.AtBody? || st.pc.Write? ==> shared.initialized)
    && (shared.initialized ==>
          && Written(job, files, RangeStart(job, s), RangeStart(job, s) + st.bytes)
          && Blank(job, files, RangeStart(job, s) + st.bytes, RangeStart(job, s) + RangeSize(job, s)))
  }

  ghost predicate TransferSafe(job: Job, before: Files, sys: System)
    requires ValidJob(job)
  {
    && |sys.streams| == job.parallel
    && SharedFileSafe(job, before, sys.shared, sys.files)
    && forall s | 0 <= s < job.parallel :: PartSafe(job, s, sys.streams[s], sys.shared, sys.files)
  }

  // ----- The three actions on a file part -----

  lemma {:induction false} NameStays(job: Job)
    requires ValidJob(job)
    ensures Locate([job.name]) == Some([job.name])
  {
    SafeFileNameIdempotent(job.name);
    ValidPathStays([job.name]);
  }

  /** The system gets to the output file without following a link, unless it is one. */
  lemma {:induction false} NoLinkToFile(job: Job, files: Files)
    requires ValidJob(job) && (OutputFile(job) in files ==> files[OutputFile(job)].File?)
    ensures Reach(files, OutputFile(job), true) == Arrives(OutputFile(job))
  {
    var p := OutputFile(job);
    SafeFileNameIdempotent(job.name);
    NoCut(p);
    forall q | q in files && q != [] && q <= p
      ensures !files[q].Symlink?
    {
      assert q == p;
    }
    ArrivesAtItself(files, p, true);
  }

  /** A write inside the file replaces exactly its window. */
  lemma {:induction false} WriteInside(content: Bytes, at: nat, chunk: Bytes)
    requires at + |chunk| <= |content|
    ensures var after := WriteAt(content, at, chunk);
            && |after| == |content|
            && (forall x | 0 <= x < at :: after[x] == content[x])
            && (forall x | at <= x < at + |chunk| :: after[x] == chunk[x - at])
            && (forall x | at + |chunk| <= x < |content| :: after[x] == content[x])
  {
  }

  /** The mutex section: the first thread leaves a file of zeros, all others change nothing. */
  lemma {:induction false} OpenPart(job: Job, s: nat, before: Files, shared: Shared, files: Files)
    requires ValidJob(job) && s < job.parallel
    requires SharedFileSafe(job, before, shared, files)
    requires OutputFile(job) in before ==> before[OutputFile(job)].File?
    ensures var effect := PerformOpenPart(IncomingOf(PartRecord(job, s)), shared, files);
            && effect.thrown == None
            && effect.shared.initialized
            && SharedFileSafe(job, before, effect.shared, effect.files)
            && (shared.initialized ==> effect == Effect(shared, files, None))
            && (!shared.initialized ==> Blank(job, effect.files, 0, |job.source|))
  {
    hide Locate, Reach, ByteRangeForStream;
    RangeInFile(job, s);
    NameStays(job);
    NoLinkToFile(job, files);
    var path := OutputFile(job);
    if !shared.initialized {
      var created := OpenTruncate(files, path).value;
      assert created[path].content == [];
      assert Resize([], |job.source|) == Zeros(|job.source|);
    }
  }

  /** A write of stream `s` extends its own prefix by the chunk. */
  lemma {:induction false} WritePart(job: Job, s: nat, before: Files, shared: Shared, files: Files, got: nat,
                                     chunk: Bytes)
    requires ValidJob(job) && s < job.parallel
    requires shared.initialized && SharedFileSafe(job, before, shared, files)
    requires got + |chunk| <= RangeSize(job, s)
    requires chunk == PartRecord(job, s).payload[got..got + |chunk|]
    requires Written(job, files, RangeStart(job, s), RangeStart(job, s) + got)
    requires Blank(job, files, RangeStart(job, s) + got, RangeStart(job, s) + RangeSize(job, s))
    ensures var files' := PerformWrite(IncomingOf(PartRecord(job, s)), got, chunk, shared, files);
            && files'.Some?
            && SharedFileSafe(job, before, shared, files'.value)
            && Written(job, files'.value, RangeStart(job, s), RangeStart(job, s) + got + |chunk|)
            && Blank(job, files'.value, RangeStart(job, s) + got + |chunk|, RangeStart(job, s) + RangeSize(job, s))
            && SameOutside(job, files, files'.value, RangeStart(job, s) + got, RangeStart(job, s) + got + |chunk|)
  {
    hide ByteRangeForStream, WriteAt, Locate;
    RangeInFile(job, s);
    NameStays(job);
    var path := OutputFile(job);
    var content := files[path].content;
    var at := RangeStart(job, s) + got;
    WriteInside(content, at, chunk);
    var after := WriteAt(content, at, chunk);
    ChunkIsSource(job, s, got, chunk);
    var files' := files[path := File(after, files[path].mode)];
    assert files' - {path} == files - {path};
  }

  lemma {:induction false} ChunkIsSource(job: Job, s: nat, got: nat, chunk: Bytes)
    requires ValidJob(job) && s < job.parallel
    requires got + |chunk| <= RangeSize(job, s)
    requires chunk == PartRecord(job, s).payload[got..got + |chunk|]
    ensures RangeStart(job, s) + got + |chunk| <= |job.source|
    ensures forall i | 0 <= i < |chunk| :: chunk[i] == job.source[RangeStart(job, s) + got + i]
  {
    hide ByteRangeForStream;
    RangeInFile(job, s);
  }

  /** Only positions from `from` to `to` of the output file differ. */
  ghost predicate SameOutside(job: Job, files: Files, files': Files, from: nat, to: nat) {
    && OutputFile(job) in files && files[OutputFile(job)].File?
    && OutputFile(job) in files' && files'[OutputFile(job)].File?
    && var content, after := files[OutputFile(job)].content, files'[OutputFile(job)].content;
       && |after| == |content|
       && forall x | 0 <= x < |content| && !(from <= x < to) :: after[x] == content[x]
  }

  /** Ranges of different streams are disjoint, so a write of one leaves the prefix of another. */
  lemma {:induction false} OtherPart(job: Job, s: nat, t: nat, files: Files, files': Files, from: nat, to: nat,
                                     count: nat)
    requires ValidJob(job) && s < job.parallel && t < job.parallel && s != t
    requires RangeStart(job, s) <= from && to <= RangeStart(job, s) + RangeSize(job, s)
    requires SameOutside(job, files, files', from, to)
    requires count <= RangeSize(job, t)
    requires Written(job, files, RangeStart(job, t), RangeStart(job, t) + count)
    requires Blank(job, files, RangeStart(job, t) + count, RangeStart(job, t) + RangeSize(job, t))
    ensures Written(job, files', RangeStart(job, t), RangeStart(job, t) + count)
    ensures Blank(job, files', RangeStart(job, t) + count, RangeStart(job, t) + RangeSize(job, t))
  {
    hide ByteRangeForStream;
    if s < t {
      RangesTile(|job.source|, s, t, job.parallel);
    } else {
      RangesTile(|job.source|, t, s, job.parallel);
    }
  }

  // ----- Steps keep the invariant -----

  /** Reads, sends and closings do not touch what a stream has written. */
  lemma {:induction false} QuietStep(job: Job, s: nat, wire: Bytes, st: Connection, e: Event, shared: Shared,
                                     files: Files)
    requires ValidJob(job) && s < job.parallel && PartSafe(job, s, st, shared, files)
    requires !e.Act? && (e.Receive? ==> st.received + e.n <= |wire|)
    ensures PartSafe(job, s, StepStream(wire, st, e, None), shared, files)
  {
    hide ByteRangeForStream, DecodeHeader;
  }

  /** How an action of stream `s` may change what the other streams rely on. */
  ghost predicate ActionFrame(job: Job, s: nat, shared: Shared, files: Files, effect: Effect)
    requires ValidJob(job) && s < job.parallel
  {
    || (effect.shared == shared && effect.files == files)
    || (!shared.initialized && effect.shared.initialized && Blank(job, effect.files, 0, |job.source|))
    || (effect.shared == shared && exists from: nat, to: nat ::
          && RangeStart(job, s) <= from && to <= RangeStart(job, s) + RangeSize(job, s)
          && SameOutside(job, files, effect.files, from, to))
  }

  /** What an action of stream `s` ensures. */
  ghost predicate GoodAction(job: Job, s: nat, before: Files, wire: Bytes, st: Connection, shared: Shared,
                             effect: Effect, files: Files)
    requires ValidJob(job) && s < job.parallel && Acting(st.pc)
  {
    && effect.thrown == None
    && SharedFileSafe(job, before, effect.shared, effect.files)
    && PartSafe(job, s, StepStream(wire, st, Act(s), None), effect.shared, effect.files)
    && ActionFrame(job, s, shared, files, effect)
  }

  lemma {:induction false} DispatchAction(job: Job, s: nat, before: Files, wire: Bytes, st: Connection,
                                          shared: Shared, files: Files)
    requires ValidJob(job) && s < job.parallel
    requires SharedFileSafe(job, before, shared, files) && PartSafe(job, s, st, shared, files)
    requires st.completed == 0 && st.pc == Dispatch(IncomingOf(PartRecord(job, s)))
    ensures GoodAction(job, s, before, wire, st, shared, Perform(st.pc, shared, files), files)
  {
    hide ByteRangeForStream, SharedFileSafe, Written, Blank, ExceedsTotal;
    RangeInFile(job, s);
  }

  lemma {:induction false} OpenAction(job: Job, s: nat, before: Files, wire: Bytes, st: Connection, shared: Shared,
                                      files: Files)
    requires ValidJob(job) && s < job.parallel
    requires OutputFile(job) in before ==> before[OutputFile(job)].File?
    requires SharedFileSafe(job, before, shared, files) && PartSafe(job, s, st, shared, files)
    requires st.completed == 0 && st.pc == Open(IncomingOf(PartRecord(job, s)))
    ensures GoodAction(job, s, before, wire, st, shared, Perform(st.pc, shared, files), files)
  {
    hide ByteRangeForStream, PerformOpenPart;
    RangeInFile(job, s);
    OpenPart(job, s, before, shared, files);
  }

  lemma {:induction false} WriteAction(job: Job, s: nat, before: Files, wire: Bytes, st: Connection, shared: Shared,
                                       files: Files)
    requires ValidJob(job) && s < job.parallel
    requires SharedFileSafe(job, before, shared, files) && PartSafe(job, s, st, shared, files)
    requires st.completed == 0 && st.pc.Write? && st.pc.incoming == IncomingOf(PartRecord(job, s))
    requires st.pc.got + |st.pc.chunk| <= RangeSize(job, s)
    requires st.pc.chunk == PartRecord(job, s).payload[st.pc.got..st.pc.got + |st.pc.chunk|]
    ensures GoodAction(job, s, before, wire, st, shared, Perform(st.pc, shared, files), files)
  {
    hide ByteRangeForStream, PerformWrite, SharedFileSafe, SameOutside;
    RangeInFile(job, s);
    WritePart(job, s, before, shared, files, st.pc.got, st.pc.chunk);
    var effect := Perform(st.pc, shared, files);
    var from := RangeStart(job, s) + st.pc.got;
    assert SameOutside(job, files, effect.files, from, from + |st.pc.chunk|);
  }

  /** No action of a part stream throws, and each keeps the invariant of its own stream. */
  lemma {:induction false} PartAction(job: Job, s: nat, before: Files, wire: Bytes, st: Connection, shared: Shared,
                                      files: Files)
    requires ValidJob(job) && s < job.parallel && Acting(st.pc)
    requires OutputFile(job) in before ==> before[OutputFile(job)].File?
    requires SharedFileSafe(job, before, shared, files) && PartSafe(job, s, st, shared, files)
    requires FramedStream([PartRecord(job, s)], st)
    ensures GoodAction(job, s, before, wire, st, shared, Perform(st.pc, shared, files), files)
  {
    hide SharedFileSafe, PartSafe, Perform, GoodAction, EncodeRecord, FramedStream;
    var rs := [PartRecord(job, s)];
    CurrentRecord(rs, st);
    var into: nat :| Inside(rs[0], EncodeRecord(rs[0]), into, st.pc);
    if st.pc.Dispatch? {
      DispatchAction(job, s, before, wire, st, shared, files);
    } else if st.pc.Open? {
      OpenAction(job, s, before, wire, st, shared, files);
    } else {
      WriteAction(job, s, before, wire, st, shared, files);
    }
  }

  lemma {:induction false} OtherStream(job: Job, s: nat, t: nat, before: Files, st: Connection, shared: Shared,
                                       files: Files, effect: Effect)
    requires ValidJob(job) && s < job.parallel && t < job.parallel && s != t
    requires PartSafe(job, t, st, shared, files)
    requires SharedFileSafe(job, before, effect.shared, effect.files)
    requires ActionFrame(job, s, shared, files, effect)
    ensures PartSafe(job, t, st, effect.shared, effect.files)
  {
    hide ByteRangeForStream, SameOutside;
    RangeInFile(job, t);
    if shared.initialized && effect.files != files {
      var from: nat, to: nat :| RangeStart(job, s) <= from && to <= RangeStart(job, s) + RangeSize(job, s)
                      && SameOutside(job, files, effect.files, from, to);
      OtherPart(job, s, t, files, effect.files, from, to, st.bytes);
    }
  }

  lemma {:induction false} TransferStep(job: Job, before: Files, sys: System, e: Event)
    requires ValidJob(job)
    requires OutputFile(job) in before ==> before[OutputFile(job)].File?
    requires TransferSafe(job, before, sys) && Framed(PartScripts(job), sys.streams)
    requires Enabled(Wires(PartScripts(job)), sys, e)
    ensures TransferSafe(job, before, Apply(Wires(PartScripts(job)), sys, e))
  {
    hide PartSafe, SharedFileSafe, Perform, ActionFrame, StepStream, FramedStream;
    var wires, s := Wires(PartScripts(job)), e.s;
    var st := sys.streams[s];
    if e.Act? {
      assert FramedStream(PartScripts(job)[s], st);
      PartAction(job, s, before, wires[s], st, sys.shared, sys.files);
      var effect := Perform(st.pc, sys.shared, sys.files);
      assert e == Act(s);
      forall t | 0 <= t < job.parallel && t != s
        ensures PartSafe(job, t, sys.streams[t], effect.shared, effect.files)
      {
        OtherStream(job, s, t, before, sys.streams[t], sys.shared, sys.files, effect);
      }
    } else {
      QuietStep(job, s, wires[s], st, e, sys.shared, sys.files);
    }
  }

  /** Shared-file safety, in every reachable state of every schedule. */
  lemma {:induction false} AlwaysSafe(job: Job, before: Files, states: seq<System>, events: seq<Event>)
    requires ValidJob(job)
    requires OutputFile(job) in before ==> before[OutputFile(job)].File?
    requires Execution(Wires(PartScripts(job)), before, states, events)
    ensures TransferSafe(job, before, states[|events|])
  {
    if events != [] {
      var n := |events| - 1;
      ExecutionPrefix(Wires(PartScripts(job)), before, states, events);
      AlwaysSafe(job, before, states[..n + 1], events[..n]);
      AlwaysFramed(PartScripts(job), before, states[..n + 1], events[..n]);
      TransferStep(job, before, states[n], events[n]);
    }
  }

  // ----- Nothing is undone -----

  /** Once initialised, always initialised, for the same file; the length stays, and a byte of the
      output that is right stays right. */
  ghost predicate Persists(job: Job, shared: Shared, files: Files, shared': Shared, files': Files) {
    shared.initialized ==>
      && shared' == shared
      && OutputFile(job) in files && files[OutputFile(job)].File?
      && OutputFile(job) in files' && files'[OutputFile(job)].File?
      && var content, content' := files[OutputFile(job)].content, files'[OutputFile(job)].content;
         && |content| == |content'| == |job.source|
         && forall x | 0 <= x < |content| && content[x] == job.source[x] :: content'[x] == job.source[x]
  }

  lemma {:induction false} PersistsThrough(job: Job, shared: Shared, files: Files, shared1: Shared, files1: Files,
                                           shared2: Shared, files2: Files)
    requires Persists(job, shared, files, shared1, files1) && Persists(job, shared1, files1, shared2, files2)
    ensures Persists(job, shared, files, shared2, files2)
  {
  }

  lemma {:induction false} PersistsHere(job: Job, before: Files, sys: System)
    requires ValidJob(job) && TransferSafe(job, before, sys)
    ensures Persists(job, sys.shared, sys.files, sys.shared, sys.files)
  {
  }

  lemma {:induction false} ActionPersists(job: Job, s: nat, before: Files, st: Connection, shared: Shared, files: Files)
    requires ValidJob(job) && s < job.parallel && Acting(st.pc)
    requires OutputFile(job) in before ==> before[OutputFile(job)].File?
    requires SharedFileSafe(job, before, shared, files) && PartSafe(job, s, st, shared, files)
    requires FramedStream([PartRecord(job, s)], st)
    ensures var effect := Perform(st.pc, shared, files); Persists(job, shared, files, effect.shared, effect.files)
  {
    hide EncodeRecord, FramedStream, ByteRangeForStream, PerformOpenPart, PerformWrite;
    var rs := [PartRecord(job, s)];
    CurrentRecord(rs, st);
    var into: nat :| Inside(rs[0], EncodeRecord(rs[0]), into, st.pc);
    if st.pc.Open? {
      OpenPart(job, s, before, shared, files);
    } else if st.pc.Write? {
      RangeInFile(job, s);
      WritePart(job, s, before, shared, files, st.pc.got, st.pc.chunk);
    }
  }

  lemma {:induction false} StepPersists(job: Job, before: Files, sys: System, e: Event)
    requires ValidJob(job)
    requires OutputFile(job) in before ==> before[OutputFile(job)].File?
    requires TransferSafe(job, before, sys) && Framed(PartScripts(job), sys.streams)
    requires Enabled(Wires(PartScripts(job)), sys, e)
    ensures var next := Apply(Wires(PartScripts(job)), sys, e);
            Persists(job, sys.shared, sys.files, next.shared, next.files)
  {
    hide PartSafe, Perform, StepStream, FramedStream;
    if e.Act? {
      assert FramedStream(PartScripts(job)[e.s], sys.streams[e.s]);
      ActionPersists(job, e.s, before, sys.streams[e.s], sys.shared, sys.files);
    }
  }

  /** The file is emptied and sized exactly once: from any moment after it, to the end of any
      execution, nothing that was received is undone. */
  lemma {:induction false} NothingIsUndone(job: Job, before: Files, states: seq<System>, events: seq<Event>, i: nat)
    requires ValidJob(job) && i <= |events|
    requires OutputFile(job) in before ==> before[OutputFile(job)].File?
    requires Execution(Wires(PartScripts(job)), before, states, events)
    ensures Persists(job, states[i].shared, states[i].files, states[|events|].shared, states[|events|].files)
  {
    hide Persists, PartRecord, Enabled, Apply, Framed;
    AlwaysSafe(job, before, states, events);
    if i == |events| {
      PersistsHere(job, before, states[i]);
    } else {
      var n := |events| - 1;
      ExecutionPrefix(Wires(PartScripts(job)), before, states, events);
      NothingIsUndone(job, before, states[..n + 1], events[..n], i);
      AlwaysSafe(job, before, states[..n + 1], events[..n]);
      AlwaysFramed(PartScripts(job), before, states[..n + 1], events[..n]);
      StepPersists(job, before, states[n], events[n]);
      PersistsThrough(job, states[i].shared, states[i].files, states[n].shared, states[n].files,
                      states[n + 1].shared, states[n + 1].files);
    }
  }

  // ----- Results -----

  /** The output file is the source, byte for byte, and nothing else has changed. */
  ghost predicate Delivered(job: Job, before: Files, files: Files) {
    && OutputFile(job) in files && files[OutputFile(job)].File?
    && files[OutputFile(job)].content == job.source
    && files - {OutputFile(job)} == before - {OutputFile(job)}
  }

  lemma {:induction false} AllRangesWritten(job: Job, before: Files, sys: System)
    requires ValidJob(job) && TransferSafe(job, before, sys) && sys.shared.initialized
    requires forall s | 0 <= s < job.parallel :: sys.streams[s].bytes == RangeSize(job, s)
    ensures Delivered(job, before, sys.files)
  {
    var content := sys.files[OutputFile(job)].content;
    forall x | 0 <= x < |job.source|
      ensures content[x] == job.source[x]
    {
      BoundaryStep(|job.source|, 0, job.parallel);
      var s := RangeOf(|job.source|, x, job.parallel, job.parallel);
      RangeIsExact(|job.source|, s, job.parallel);
      assert PartSafe(job, s, sys.streams[s], sys.shared, sys.files);
    }
    assert content == job.source;
  }

  /** The main result: once every sender stream has delivered its record and every receiver thread
      has left its loop normally, the output file is the source, whatever the interleaving and
      whatever the sizes of reads and writes. */
  lemma {:induction false} ParallelTransferIsCorrect(job: Job, before: Files, states: seq<System>, events: seq<Event>)
    requires ValidJob(job)
    requires OutputFile(job) in before ==> before[OutputFile(job)].File?
    requires Execution(Wires(PartScripts(job)), before, states, events)
    requires AllSentAndFinished(PartScripts(job), states[|events|])
    ensures Delivered(job, before, states[|events|].files)
  {
    var sys, scripts := states[|events|], PartScripts(job);
    AlwaysSafe(job, before, states, events);
    TruncationSoundUnderConcurrency(scripts, before, states, events);
    forall s | 0 <= s < job.parallel
      ensures sys.streams[s].bytes == RangeSize(job, s) && sys.streams[s].completed > 0
    {
      assert CutReport(scripts[s], sys.streams[s]);
      assert PartSafe(job, s, sys.streams[s], sys.shared, sys.files);
    }
    assert PartSafe(job, 0, sys.streams[0], sys.shared, sys.files);
    AllRangesWritten(job, before, sys);
  }

  ghost predicate AllSentAndFinished(scripts: seq<seq<Record>>, sys: System)
    requires ValidScripts(scripts)
  {
    && |sys.streams| == |scripts|
    && forall s | 0 <= s < |scripts| ::
         sys.streams[s].pc.Finished? && sys.streams[s].sent == |EncodeAll(scripts[s])|
  }

  /** No thread ever reports an error unless its own connection was cut inside its record. */
  lemma {:induction false} NoSpuriousErrors(job: Job, before: Files, states: seq<System>, events: seq<Event>, s: nat)
    requires ValidJob(job) && s < job.parallel
    requires OutputFile(job) in before ==> before[OutputFile(job)].File?
    requires Execution(Wires(PartScripts(job)), before, states, events)
    ensures |states[|events|].streams| == job.parallel
    ensures states[|events|].streams[s].pc.Stopped? ==>
              states[|events|].streams[s].closed
              && 0 < states[|events|].streams[s].sent < |EncodeAll(PartScripts(job)[s])|
  {
    var sys, scripts := states[|events|], PartScripts(job);
    AlwaysSafe(job, before, states, events);
    TruncationSoundUnderConcurrency(scripts, before, states, events);
    var st := sys.streams[s];
    assert PartSafe(job, s, st, sys.shared, sys.files) && CutReport(scripts[s], st);
    if st.pc.Stopped? {
      assert scripts[s][..1] == scripts[s];
    }
  }

  /** total_bytes: the 64-bit sum of the thread results. */
  method TotalBytes(results: seq<U64>) returns (bytes: U64)
    ensures bytes == Sum(results) % U64_MODULUS
  {
    bytes := 0;
    for i := 0 to |results|
      invariant bytes == Sum(results[..i]) % U64_MODULUS
    {
      assert results[..i + 1][..i] == results[..i];
      bytes := (bytes + results[i]) % U64_MODULUS;
    }
    assert results[..|results|] == results;
  }

  function Results(sys: System): (results: seq<U64>)
    ensures |results| == |sys.streams|
  {
    seq(|sys.streams|, s requires 0 <= s < |sys.streams| => sys.streams[s].bytes)
  }

  ghost function Sizes(job: Job, k: nat): (sizes: seq<nat>)
    requires ValidJob(job) && k <= job.parallel
    ensures |sizes| == k && forall s | 0 <= s < k :: sizes[s] == RangeSize(job, s)
  {
    seq(k, s requires 0 <= s < k => RangeSize(job, s))
  }

  lemma {:induction false} SizesAddUp(job: Job, k: nat)
    requires ValidJob(job) && k <= job.parallel
    ensures Sum(Sizes(job, k)) == Boundary(|job.source|, k, job.parallel)
  {
    if k == 0 {
      BoundaryStep(|job.source|, 0, job.parallel);
    } else {
      SizesAddUp(job, k - 1);
      assert Sizes(job, k)[..k - 1] == Sizes(job, k - 1);
      RangeIsExact(|job.source|, k - 1, job.parallel);
    }
  }

  /** What the reported total says: in any reachable state the 64-bit total of all thread results does
      not wrap, and it equals the file size if and only if every stream has written its whole range.
      For a source that is not empty the output then is the source; for an empty one it is if some
      thread has opened the file. */
  lemma {:induction false} ReceivedTotalDecides(job: Job, before: Files, states: seq<System>, events: seq<Event>)
    requires ValidJob(job)
    requires OutputFile(job) in before ==> before[OutputFile(job)].File?
    requires Execution(Wires(PartScripts(job)), before, states, events)
    ensures var sys := states[|events|];
            && |sys.streams| == job.parallel
            && Sum(Results(sys)) <= |job.source|
            && (Sum(Results(sys)) == |job.source| <==>
                  forall s | 0 <= s < job.parallel :: sys.streams[s].bytes == RangeSize(job, s))
            && (Sum(Results(sys)) == |job.source| && (job.source != [] || sys.shared.initialized) ==>
                  Delivered(job, before, sys.files))
  {
    hide PartSafe, SharedFileSafe, Delivered, PartRecord, Enabled, Apply;
    var sys := states[|events|];
    AlwaysSafe(job, before, states, events);
    TotalOfParts(job, before, sys);
    if forall s | 0 <= s < job.parallel :: sys.streams[s].bytes == RangeSize(job, s) {
      if job.source != [] {
        SomethingWritten(job, before, sys);
      }
      if sys.shared.initialized {
        AllRangesWritten(job, before, sys);
      }
    }
  }

  lemma {:induction false} TotalOfParts(job: Job, before: Files, sys: System)
    requires ValidJob(job) && TransferSafe(job, before, sys)
    ensures Sum(Results(sys)) <= |job.source|
    ensures Sum(Results(sys)) == |job.source| <==>
            forall s | 0 <= s < job.parallel :: sys.streams[s].bytes == RangeSize(job, s)
  {
    hide Sum, SharedFileSafe;
    forall s | 0 <= s < job.parallel
      ensures Results(sys)[s] <= Sizes(job, job.parallel)[s]
    {
      assert PartSafe(job, s, sys.streams[s], sys.shared, sys.files);
    }
    SumBelow(Results(sys), Sizes(job, job.parallel));
    SizesAddUp(job, job.parallel);
    BoundaryStep(|job.source|, 0, job.parallel);
    if forall s | 0 <= s < job.parallel :: sys.streams[s].bytes == RangeSize(job, s) {
      assert Results(sys) == Sizes(job, job.parallel);
    } else {
      var s :| 0 <= s < job.parallel && sys.streams[s].bytes != RangeSize(job, s);
      assert Results(sys)[s] != Sizes(job, job.parallel)[s];
    }
  }

  lemma {:induction false} SomethingWritten(job: Job, before: Files, sys: System)
    requires ValidJob(job) && TransferSafe(job, before, sys) && job.source != []
    requires forall s | 0 <= s < job.parallel :: sys.streams[s].bytes == RangeSize(job, s)
    ensures sys.shared.initialized
  {
    hide ByteRangeForStream, SharedFileSafe;
    BoundaryStep(|job.source|, 0, job.parallel);
    var s := RangeOf(|job.source|, 0, job.parallel, job.parallel);
    RangeIsExact(|job.source|, s, job.parallel);
    assert PartSafe(job, s, sys.streams[s], sys.shared, sys.files);
  }

  // ----- The exact condition on the connections -----

  /** The thread has opened the output file, or was stopped. */
  predicate Opened(st: Connection) {
    st.completed > 0 || st.pc.AtBody? || st.pc.Write? || st.pc.SetMode? || st.pc.Stopped?
  }

  lemma {:induction false} OpenedStays(wire: Bytes, st: Connection, e: Event, thrown: Option<ReceiveError>)
    requires e.Receive? ==> st.received + e.n <= |wire| && Want(st.pc) > 0
    requires e.Eof? ==> Want(st.pc) > 0
    requires e.Act? ==> Acting(st.pc)
    requires Opened(st) || (e.Act? && st.pc.Open?)
    ensures Opened(StepStream(wire, st, e, thrown))
  {
    hide DecodeHeader;
  }

  lemma {:induction false} OnlyOpenInitialises(pc: Pc, shared: Shared, files: Files)
    requires Acting(pc) && !shared.initialized && Perform(pc, shared, files).shared.initialized
    ensures pc.Open?
  {
    hide LinkOrFallback, CreateDirectories, CreateFile, ReplaceMode, Locate, SafeRelativePath, SafeFileName;
  }

  /** The file has been initialised only if some thread has opened it. */
  ghost predicate OpenedBySome(sys: System) {
    sys.shared.initialized ==> exists s :: 0 <= s < |sys.streams| && Opened(sys.streams[s])
  }

  lemma {:induction false} OpenedBySomeStep(wires: seq<Bytes>, sys: System, e: Event)
    requires Enabled(wires, sys, e) && OpenedBySome(sys)
    ensures OpenedBySome(Apply(wires, sys, e))
  {
    hide Opened, Perform, StepStream;
    var next := Apply(wires, sys, e);
    var thrown := if e.Act? then Perform(sys.streams[e.s].pc, sys.shared, sys.files).thrown else None;
    assert next.streams[e.s] == StepStream(wires[e.s], sys.streams[e.s], e, thrown);
    if next.shared.initialized {
      if !sys.shared.initialized {
        OnlyOpenInitialises(sys.streams[e.s].pc, sys.shared, sys.files);
        OpenedStays(wires[e.s], sys.streams[e.s], e, thrown);
      } else {
        var s :| 0 <= s < |sys.streams| && Opened(sys.streams[s]);
        if s == e.s {
          OpenedStays(wires[s], sys.streams[s], e, thrown);
        }
        assert Opened(next.streams[s]);
      }
    }
  }

  lemma {:induction false} AlwaysOpenedBySome(wires: seq<Bytes>, before: Files, states: seq<System>, events: seq<Event>)
    requires Execution(wires, before, states, events)
    ensures OpenedBySome(states[|events|])
  {
    hide OpenedBySome, Enabled, Apply;
    if events == [] {
      StartUnopened(|wires|, before);
    } else {
      var n := |events| - 1;
      ExecutionPrefix(wires, before, states, events);
      AlwaysOpenedBySome(wires, before, states[..n + 1], events[..n]);
      OpenedBySomeStep(wires, states[n], events[n]);
    }
  }

  lemma {:induction false} StartUnopened(parallel: nat, before: Files)
    ensures OpenedBySome(Start(parallel, before))
  {
  }

  /** The part of the source that stream `s` carries is all zeros; an empty part is. */
  ghost predicate ZeroRange(job: Job, s: nat)
    requires |job.source| < U64_MODULUS && s < job.parallel
  {
    forall x | RangeStart(job, s) <= x < RangeStart(job, s) + RangeSize(job, s) && x < |job.source| ::
      job.source[x] == 0
  }

  ghost predicate AllFinished(sys: System) {
    forall s | 0 <= s < |sys.streams| :: sys.streams[s].pc.Finished?
  }

  /** Without an error a connection has carried nothing or everything. */
  lemma {:induction false} NothingOrAll(job: Job, s: nat, st: Connection)
    requires ValidJob(job) && s < job.parallel
    requires CutReport(PartScripts(job)[s], st) && st.pc.Finished?
    ensures st.sent == 0 || st.sent == |EncodeAll(PartScripts(job)[s])|
    ensures st.completed == if st.sent > 0 then 1 else 0
  {
    var rs := PartScripts(job)[s];
    assert |rs| == 1 && rs[..0] == [] && rs[..1] == rs;
    hide EncodeRecord;
    EncodeAllFirst(rs);
    assert EncodeEach([]) == [];
    RecordNotEmpty(rs[0]);
  }

  lemma {:induction false} RecordNotEmpty(r: Record)
    requires ValidRecord(r)
    ensures |EncodeRecord(r)| > 0
  {
  }

  /** What every thread's end without an error amounts to, in terms of the connections alone: each has
      carried nothing or everything. If some carried its record, the output is the source if and only
      if each of the others had only zeros to carry; if none did, no file was touched. In particular
      the output is the source if every connection carried something. */
  lemma {:induction false} ErrorFreeDeliversIff(job: Job, before: Files, states: seq<System>, events: seq<Event>)
    requires ValidJob(job)
    requires OutputFile(job) in before ==> before[OutputFile(job)].File?
    requires Execution(Wires(PartScripts(job)), before, states, events) && AllFinished(states[|events|])
    ensures |states[|events|].streams| == job.parallel
    ensures forall s | 0 <= s < job.parallel ::
              var sent := states[|events|].streams[s].sent; sent == 0 || sent == |EncodeAll(PartScripts(job)[s])|
    ensures Delivered(job, before, states[|events|].files) <==>
            if exists s :: 0 <= s < job.parallel && states[|events|].streams[s].sent > 0
            then forall s | 0 <= s < job.parallel :: states[|events|].streams[s].sent > 0 || ZeroRange(job, s)
            else Delivered(job, before, before)
    ensures (forall s | 0 <= s < job.parallel :: states[|events|].streams[s].sent == 0) ==>
              states[|events|].files == before
  {
    hide Delivered, SharedFileSafe, PartSafe, ZeroRange, PartRecord, EncodeAll, Enabled, Apply, CutReport;
    var sys, scripts := states[|events|], PartScripts(job);
    AlwaysSafe(job, before, states, events);
    AlwaysOpenedBySome(Wires(scripts), before, states, events);
    TruncationSoundUnderConcurrency(scripts, before, states, events);
    forall s | 0 <= s < job.parallel
      ensures sys.streams[s].sent == 0 || sys.streams[s].sent == |EncodeAll(scripts[s])|
      ensures sys.streams[s].completed == if sys.streams[s].sent > 0 then 1 else 0
    {
      NothingOrAll(job, s, sys.streams[s]);
    }
    InitialisedIffSent(job, before, sys);
    if sys.shared.initialized {
      ContentIsSourceIff(job, before, sys);
    } else {
      UntouchedFiles(job, before, sys);
    }
  }

  lemma {:induction false} UntouchedFiles(job: Job, before: Files, sys: System)
    requires ValidJob(job) && TransferSafe(job, before, sys) && !sys.shared.initialized
    ensures sys.files == before
  {
  }

  lemma {:induction false} InitialisedIffSent(job: Job, before: Files, sys: System)
    requires ValidJob(job) && TransferSafe(job, before, sys) && OpenedBySome(sys) && AllFinished(sys)
    requires forall s | 0 <= s < job.parallel :: sys.streams[s].completed == if sys.streams[s].sent > 0 then 1 else 0
    ensures sys.shared.initialized <==> exists s :: 0 <= s < job.parallel && sys.streams[s].sent > 0
  {
    hide SharedFileSafe, ByteRangeForStream;
    if sys.shared.initialized {
      var s :| 0 <= s < |sys.streams| && Opened(sys.streams[s]);
      assert sys.streams[s].sent > 0;
    } else {
      forall s | 0 <= s < job.parallel
        ensures sys.streams[s].sent == 0
      {
        assert PartSafe(job, s, sys.streams[s], sys.shared, sys.files);
      }
    }
  }

  lemma {:induction false} ContentIsSourceIff(job: Job, before: Files, sys: System)
    requires ValidJob(job) && TransferSafe(job, before, sys) && AllFinished(sys) && sys.shared.initialized
    requires forall s | 0 <= s < job.parallel :: sys.streams[s].completed == if sys.streams[s].sent > 0 then 1 else 0
    ensures Delivered(job, before, sys.files) <==>
            forall s | 0 <= s < job.parallel :: sys.streams[s].sent > 0 || ZeroRange(job, s)
  {
    var content := sys.files[OutputFile(job)].content;
    hide ByteRangeForStream, PartSafe, ZeroRange, RangeRight;
    forall s | 0 <= s < job.parallel
      ensures RangeRight(job, content, s) <==> sys.streams[s].sent > 0 || ZeroRange(job, s)
    {
      PartRightIff(job, s, sys.streams[s], sys.shared, sys.files);
    }
    RightIffRangesRight(job, content);
  }

  ghost predicate RangeRight(job: Job, content: Bytes, s: nat)
    requires |content| == |job.source| < U64_MODULUS && s < job.parallel
  {
    forall x | RangeStart(job, s) <= x < RangeStart(job, s) + RangeSize(job, s) && x < |content| ::
      content[x] == job.source[x]
  }

  lemma {:induction false} PartRightIff(job: Job, s: nat, st: Connection, shared: Shared, files: Files)
    requires ValidJob(job) && s < job.parallel && PartSafe(job, s, st, shared, files) && shared.initialized
    requires st.pc.Finished? && st.completed == if st.sent > 0 then 1 else 0
    ensures OutputFile(job) in files && files[OutputFile(job)].File? && |files[OutputFile(job)].content| == |job.source|
    ensures RangeRight(job, files[OutputFile(job)].content, s) <==> st.sent > 0 || ZeroRange(job, s)
  {
    hide ByteRangeForStream;
    RangeInFile(job, s);
  }

  lemma {:induction false} RightIffRangesRight(job: Job, content: Bytes)
    requires ValidJob(job) && |content| == |job.source|
    ensures content == job.source <==> forall s | 0 <= s < job.parallel :: RangeRight(job, content, s)
  {
    hide ByteRangeForStream;
    if forall s | 0 <= s < job.parallel :: RangeRight(job, content, s) {
      forall x | 0 <= x < |job.source|
        ensures content[x] == job.source[x]
      {
        BoundaryStep(|job.source|, 0, job.parallel);
        var s := RangeOf(|job.source|, x, job.parallel, job.parallel);
        RangeIsExact(|job.source|, s, job.parallel);
        assert RangeRight(job, content, s);
      }
    }
  }

  // ----- Connections that close before their first byte -----

  /** The first `k` of these connections have closed and their threads have ended. */
  function QuietStreams(parallel: nat, k: nat): (streams: seq<Connection>)
    ensures |streams| == parallel
  {
    seq(parallel, s requires 0 <= s < parallel =>
      Connection(0, s < k, 0, if s < k then Finished else AtHeader([]), 0, 0))
  }

  lemma {:induction false} QuietRun(wires: seq<Bytes>, before: Files, k: nat)
    returns (states: seq<System>, events: seq<Event>)
    requires k <= |wires|
    ensures Execution(wires, before, states, events)
    ensures states[|events|] == System(QuietStreams(|wires|, k), Shared(false, [], 0), before)
  {
    if k == 0 {
      states, events := [Start(|wires|, before)], [];
      assert Start(|wires|, before).streams == QuietStreams(|wires|, 0);
    } else {
      var s := k - 1;
      states, events := QuietRun(wires, before, s);
      Extend(wires, before, states, events, Close(s));
      states, events := states + [Apply(wires, states[|events|], Close(s))], events + [Close(s)];
      Extend(wires, before, states, events, Eof(s));
      states, events := states + [Apply(wires, states[|events|], Eof(s))], events + [Eof(s)];
      assert states[|events|].streams == QuietStreams(|wires|, k);
    }
  }

  /** The absence of errors alone promises nothing: if every connection closes before its first
      byte, all threads finish without an error and no file is touched. */
  lemma {:induction false} NoErrorIsNotEnough(job: Job, before: Files) returns (states: seq<System>, events: seq<Event>)
    requires ValidJob(job)
    ensures Execution(Wires(PartScripts(job)), before, states, events)
    ensures AllFinished(states[|events|]) && states[|events|].files == before
  {
    hide Execution, PartRecord, EncodeAll;
    states, events := QuietRun(Wires(PartScripts(job)), before, job.parallel);
  }

  /** Nor does the total help with an empty source: it is 0 from the start, and without a connection
      that carried something there is no file. */
  lemma {:induction false} TotalMissesTheEmptyFile(job: Job, before: Files)
    returns (states: seq<System>, events: seq<Event>)
    requires ValidJob(job) && job.source == [] && OutputFile(job) !in before
    ensures Execution(Wires(PartScripts(job)), before, states, events) && AllFinished(states[|events|])
    ensures Sum(Results(states[|events|])) == |job.source| && !Delivered(job, before, states[|events|].files)
  {
    hide PartRecord, EncodeAll, Enabled, Apply;
    states, events := NoErrorIsNotEnough(job, before);
    ReceivedTotalDecides(job, before, states, events);
  }

  /** Every execution in which all threads finish without an error and the total is the size of the
      source leaves the source. */
  ghost predicate TotalSuffices(job: Job, before: Files)
    requires ValidJob(job)
  {
    forall states: seq<System>, events: seq<Event> ::
      Execution(Wires(PartScripts(job)), before, states, events)
      && AllFinished(states[|events|]) && Sum(Results(states[|events|])) == |job.source| ==>
        Delivered(job, before, states[|events|].files)
  }

  /** Exactly when the total can be relied on: if the source is not empty, or the file was there before. */
  lemma {:induction false} TotalSufficesIff(job: Job, before: Files)
    requires ValidJob(job)
    requires OutputFile(job) in before ==> before[OutputFile(job)].File?
    ensures TotalSuffices(job, before) <==> job.source != [] || Delivered(job, before, before)
  {
    hide Delivered, PartRecord, EncodeAll, Enabled, Apply, Sum;
    if job.source != [] || Delivered(job, before, before) {
      forall states: seq<System>, events: seq<Event> |
        Execution(Wires(PartScripts(job)), before, states, events)
        && AllFinished(states[|events|]) && Sum(Results(states[|events|])) == |job.source|
        ensures Delivered(job, before, states[|events|].files)
      {
        if job.source != [] {
          ReceivedTotalDecides(job, before, states, events);
        } else {
          ErrorFreeDeliversIff(job, before, states, events);
        }
      }
    } else {
      var states, events := NoErrorIsNotEnough(job, before);
      ReceivedTotalDecides(job, before, states, events);
    }
  }
}
