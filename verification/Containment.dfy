/** Whether the receiver stays below its output directory, whatever records arrive: which system
    calls its actions make, and where these lead. */
module Containment {
  import opened Basics
  import opened Wire
  import opened Framing
  import opened Paths
  import opened FileSystem
  import opened ByteRanges
  import opened Receiver
  import opened Streams
  import opened StreamInvariant
  import opened SystemInvariant
  import opened FileTransfer
  import opened DirectoryTransfer
  import opened Completion

  /** A system call on a checked path: the files it finds, and whether it follows a link at the end. */
  datatype Call = Call(files: Files, path: Path, follows: bool)

  function LeadOf(call: Call): Lead {
    Reach(call.files, call.path, call.follows)
  }

  /** The system meets a link with the path of the call, on the way or at an end that is followed. */
  ghost predicate MeetsSomeLink(call: Call) {
    exists q :: MeetsLink(call.files, call.path, call.follows, q)
  }

  /** The calls that create, open or change something by its path. A write has none: its file is open. */
  function Calls(pc: Pc, shared: Shared, files: Files): seq<Call>
    requires Acting(pc)
  {
    match pc
    case Dispatch(incoming) => DispatchCalls(incoming, files)
    case Open(incoming) => OpenCalls(incoming, shared, files)
    case Link(incoming, target) =>
      (match SafeRelativePath(incoming.name)
       case None => []
       case Some(path) => LinkCalls(path, target, files))
    case Write(_, _, _) => []
    case SetMode(incoming) =>
      (match SafeRelativePath(incoming.name)
       case None => []
       case Some(path) => [Call(files, path, true)])
  }

  /** Records of a directory create the directory, or the one they need. */
  function DispatchCalls(incoming: Incoming, files: Files): seq<Call> {
    var kind := incoming.header.kind;
    if kind != KIND_DIRECTORY_ENTRY && kind != KIND_DIRECTORY_SYMLINK && kind != KIND_DIRECTORY_FILE then []
    else
      match SafeRelativePath(incoming.name)
      case None => []
      case Some(path) => [Call(files, if kind == KIND_DIRECTORY_ENTRY then path else Parent(path), true)]
  }

  /** A part of another file than the one that is received opens nothing. */
  function OpenCalls(incoming: Incoming, shared: Shared, files: Files): seq<Call> {
    var h := incoming.header;
    if IsPart(h.kind) then
      match SafeFileName(incoming.name)
      case None => []
      case Some(name) =>
        if shared.initialized && (shared.fileName != name || shared.totalSize != h.totalSize) then []
        else [Call(files, [name], true)]
    else
      match SafeRelativePath(incoming.name)
      case None => []
      case Some(path) => [Call(files, path, true)]
  }

  /** The link itself is never followed. Where it cannot be made, the text file beside it is opened,
      and a link there is followed. */
  function LinkCalls(path: Path, target: Bytes, files: Files): seq<Call>
    requires path != []
  {
    var place := Locate(path);
    [Call(files, path, false)] +
    if !Reach(files, path, false).Arrives? || place == None then []
    else
      var cleared := Remove(files, place.value);
      if MakeSymlink(cleared, place.value, target).Some? then [] else [Call(cleared, FallbackPath(path), true)]
  }

  /** The name from which the action takes its path. */
  function NameUsed(pc: Pc): Bytes
    requires Acting(pc)
  {
    if pc.Link? || pc.SetMode? || !IsPart(pc.incoming.header.kind) then pc.incoming.name
    else
      match SafeFileName(pc.incoming.name)
      case None => []
      case Some(name) => name
  }

  // ----- Each access -----

  /** The first component of an accepted path begins like its name. */
  lemma {:induction false} BeginsLikeName(name: Bytes)
    requires SafeRelativePath(name).Some?
    ensures var path := SafeRelativePath(name).value;
            (forall part | part in path :: Ordinary(part)) && (DotsAndNul(path[0]) <==> DotsAndNul(name))
  {
    hide SafeRelativePath;
    SafeRelativePathIsSafe(name);
    PartsOfName(name);
    var path := SafeRelativePath(name).value;
    if DotsAndNul(name) {
      assert name[0] == DOT && name[1] == DOT && name[2] == NUL;
    }
  }

  lemma {:induction false} ParentBeginsLike(path: Path)
    requires path != [] && forall part | part in path :: Ordinary(part)
    ensures forall part | part in Parent(path) :: Ordinary(part)
    ensures Parent(path) != [] ==> Parent(path)[0] == path[0]
  {
    assert forall part | part in Parent(path) :: part in path;
  }

  lemma {:induction false} FallbackBeginsLike(path: Path)
    requires path != [] && forall part | part in path :: Ordinary(part)
    ensures forall part | part in FallbackPath(path) :: Ordinary(part)
    ensures DotsAndNul(FallbackPath(path)[0]) <==> DotsAndNul(path[0])
  {
    ParentBeginsLike(path);
    var last := path[|path| - 1];
    assert last in path && path[0] in path;
    SuffixKeeps(last);
  }

  lemma {:induction false} SuffixKeeps(part: Bytes)
    requires Ordinary(part)
    ensures Ordinary(part + FALLBACK_SUFFIX)
    ensures DotsAndNul(part + FALLBACK_SUFFIX) <==> DotsAndNul(part)
  {
    var longer := part + FALLBACK_SUFFIX;
    OrdinarySuffix(part);
    assert FALLBACK_SUFFIX[0] == DOT && FALLBACK_SUFFIX[1] == 104;
    assert longer[|part|] == DOT && longer[|part| + 1] == 104;
    assert DotsAndNul(longer) ==> longer[2] == NUL;
  }

  lemma {:induction false} PathOfCall(pc: Pc, shared: Shared, files: Files, call: Call)
    requires Acting(pc) && call in Calls(pc, shared, files)
    ensures forall part | part in call.path :: Ordinary(part)
    ensures call.path != [] ==> (DotsAndNul(call.path[0]) <==> DotsAndNul(NameUsed(pc)))
  {
    hide SafeRelativePath, SafeFileName, DotsAndNul, Locate, Reach, MakeSymlink, Remove, FallbackPath, Ordinary;
    var name := pc.incoming.name;
    if SafeRelativePath(name).Some? {
      BeginsLikeName(name);
      ParentBeginsLike(SafeRelativePath(name).value);
      FallbackBeginsLike(SafeRelativePath(name).value);
    }
    if SafeFileName(name).Some? {
      SafeFileNameIdempotent(name);
    }
  }

  /** Exactly when an access stays below the output directory, for any record, shared state and files:
      if it meets no link and its name does not begin with ".." and a NUL. */
  lemma {:induction false} AccessStaysIff(pc: Pc, shared: Shared, files: Files, call: Call)
    requires Acting(pc) && call in Calls(pc, shared, files)
    ensures LeadOf(call).Arrives? <==> !MeetsSomeLink(call) && !(call.path != [] && DotsAndNul(NameUsed(pc)))
    ensures LeadOf(call).ThroughLink? <==> MeetsSomeLink(call)
  {
    hide Reach, MeetsLink, Calls, NameUsed;
    PathOfCall(pc, shared, files, call);
    StaysInsideIff(call.files, call.path, call.follows);
  }

  lemma {:induction false} LinkLeavesIffLed(path: Path, target: Bytes, files: Files)
    requires path != []
    ensures LinkOrFallback(files, path, target).answer.Leaves? <==>
            exists call :: call in LinkCalls(path, target, files) && LeadOf(call).ThroughLink?
  {
    hide Reach, Locate, MakeSymlink, Remove, FallbackPath, OpenTruncate;
    var calls := LinkCalls(path, target, files);
    assert calls[0] == Call(files, path, false) && calls[0] in calls;
    if |calls| > 1 {
      assert calls[1] in calls;
    }
  }

  /** An action leaves through a link exactly if one of its calls is led there. */
  lemma {:induction false} LeavesIffLed(pc: Pc, shared: Shared, files: Files)
    requires Acting(pc)
    ensures Perform(pc, shared, files).thrown == Some(LeavesThroughLink) <==>
            exists call :: call in Calls(pc, shared, files) && LeadOf(call).ThroughLink?
  {
    hide Reach, SafeRelativePath, SafeFileName, Locate, MakeSymlink, Remove, FallbackPath;
    hide ExceedsTotal, MakeDirectories, Folder, OpenTruncate, LinkOrFallback, LinkCalls;
    match pc
    case Dispatch(incoming) =>
      if DispatchCalls(incoming, files) != [] {
        assert Calls(pc, shared, files)[0] in Calls(pc, shared, files);
      }
    case Open(incoming) =>
      if OpenCalls(incoming, shared, files) != [] {
        assert Calls(pc, shared, files)[0] in Calls(pc, shared, files);
      }
    case Link(incoming, target) =>
      if SafeRelativePath(incoming.name).Some? {
        LinkLeavesIffLed(SafeRelativePath(incoming.name).value, target, files);
      }
    case Write(_, _, _) =>
    case SetMode(incoming) =>
      if SafeRelativePath(incoming.name).Some? {
        assert Calls(pc, shared, files)[0] in Calls(pc, shared, files);
      }
  }

  /** The action meets a link with one of its calls. */
  ghost predicate MeetsLinkIn(pc: Pc, shared: Shared, files: Files)
    requires Acting(pc)
  {
    exists call :: call in Calls(pc, shared, files) && MeetsSomeLink(call)
  }

  lemma {:induction false} LeavesIffLinkMet(pc: Pc, shared: Shared, files: Files)
    requires Acting(pc)
    ensures Perform(pc, shared, files).thrown == Some(LeavesThroughLink) <==> MeetsLinkIn(pc, shared, files)
  {
    hide Calls, LeadOf, MeetsSomeLink, Perform;
    LeavesIffLed(pc, shared, files);
    forall call | call in Calls(pc, shared, files)
      ensures LeadOf(call).ThroughLink? <==> MeetsSomeLink(call)
    {
      AccessStaysIff(pc, shared, files, call);
    }
  }

  /** Above the output directory the receiver finds nothing to create, open or change. */
  lemma {:induction false} NothingAbove(pc: Pc, shared: Shared, files: Files, call: Call)
    requires Acting(pc) && call in Calls(pc, shared, files) && LeadOf(call).Above?
    ensures var effect := Perform(pc, shared, files);
            && effect.files == files
            && effect.thrown == if pc.Dispatch? || pc.SetMode? then None else Some(FileSystemFailed)
  {
    hide Reach, SafeRelativePath, SafeFileName, Locate, MakeSymlink, Remove, FallbackPath;
    hide ExceedsTotal, MakeDirectories, Folder, OpenTruncate, DotsAndNul, MeetsSomeLink;
    AccessStaysIff(pc, shared, files, call);
    var first := Calls(pc, shared, files)[0];
    assert first in Calls(pc, shared, files);
    AccessStaysIff(pc, shared, files, first);
  }

  // ----- Each execution -----

  /** With this event stream `s` meets a link. */
  ghost predicate MeetsLinkAt(sys: System, e: Event, s: nat) {
    e == Act(s) && s < |sys.streams| && Acting(sys.streams[s].pc)
    && MeetsLinkIn(sys.streams[s].pc, sys.shared, sys.files)
  }

  lemma {:induction false} LeavesWithStep(wires: seq<Bytes>, sys: System, e: Event, s: nat)
    requires Enabled(wires, sys, e) && s < |wires|
    ensures |Apply(wires, sys, e).streams| == |wires|
    ensures Apply(wires, sys, e).streams[s].pc == Stopped(LeavesThroughLink) <==>
            sys.streams[s].pc == Stopped(LeavesThroughLink) || MeetsLinkAt(sys, e, s)
  {
    hide MeetsLinkIn, Perform, DecodeHeader;
    if e == Act(s) {
      LeavesIffLinkMet(sys.streams[s].pc, sys.shared, sys.files);
    }
  }

  /** Some access of stream `s` has met a link. */
  ghost predicate HasMetLink(states: seq<System>, events: seq<Event>, s: nat)
    requires |states| > |events|
  {
    exists i :: 0 <= i < |events| && MeetsLinkAt(states[i], events[i], s)
  }

  lemma {:induction false} HasMetStep(states: seq<System>, events: seq<Event>, s: nat)
    requires |states| > |events| && events != []
    ensures var n := |events| - 1;
            HasMetLink(states, events, s) <==>
            HasMetLink(states[..n + 1], events[..n], s) || MeetsLinkAt(states[n], events[n], s)
  {
    hide MeetsLinkAt;
    var n := |events| - 1;
    assert forall i | 0 <= i < n :: states[..n + 1][i] == states[i] && events[..n][i] == events[i];
    if HasMetLink(states, events, s) {
      var i :| 0 <= i < |events| && MeetsLinkAt(states[i], events[i], s);
      assert i < n ==> MeetsLinkAt(states[..n + 1][i], events[..n][i], s);
    }
    if HasMetLink(states[..n + 1], events[..n], s) {
      var i :| 0 <= i < n && MeetsLinkAt(states[..n + 1][i], events[..n][i], s);
      assert MeetsLinkAt(states[i], events[i], s);
    }
  }

  /** For any bytes on any number of connections, under any schedule: a thread has left through a link
      if and only if one of its accesses has met one. */
  lemma {:induction false} LeavesIffItMetALink(wires: seq<Bytes>, before: Files, states: seq<System>,
                                               events: seq<Event>, s: nat)
    requires Execution(wires, before, states, events) && s < |wires|
    ensures |states[|events|].streams| == |wires|
    ensures states[|events|].streams[s].pc == Stopped(LeavesThroughLink) <==> HasMetLink(states, events, s)
  {
    hide HasMetLink, MeetsLinkAt, Apply, Enabled;
    if events == [] {
      NothingMet(states, s);
    } else {
      var n := |events| - 1;
      ExecutionPrefix(wires, before, states, events);
      LeavesIffItMetALink(wires, before, states[..n + 1], events[..n], s);
      HasMetStep(states, events, s);
      LeavesWithStep(wires, states[n], events[n], s);
    }
  }

  lemma {:induction false} NothingMet(states: seq<System>, s: nat)
    requires |states| > 0
    ensures !HasMetLink(states, [], s)
  {
  }

  // ----- Where links come from -----

  ghost predicate NoLinks(files: Files) {
    forall p | p in files :: !files[p].Symlink?
  }

  lemma {:induction false} OnlyLinkMakesLinks(pc: Pc, shared: Shared, files: Files)
    requires Acting(pc) && !pc.Link? && NoLinks(files)
    ensures NoLinks(Perform(pc, shared, files).files)
  {
    hide Reach, SafeRelativePath, SafeFileName, Locate, MakeDirectories, Folder, ExceedsTotal, WriteAt, Resize;
    if pc.Dispatch? {
      forall path
        ensures MakeDirectories(files, path).Some? ==> NoLinks(MakeDirectories(files, path).value)
      {
        DirectoriesAreNoLinks(files, path);
      }
    }
  }

  lemma {:induction false} DirectoriesAreNoLinks(files: Files, path: Path)
    requires NoLinks(files)
    ensures MakeDirectories(files, path).Some? ==> NoLinks(MakeDirectories(files, path).value)
    decreases |path|
  {
    if path != [] {
      DirectoriesAreNoLinks(files, Parent(path));
    }
  }

  lemma {:induction false} NoLinkToMeet(pc: Pc, shared: Shared, files: Files)
    requires Acting(pc) && !pc.Link? && NoLinks(files)
    ensures !MeetsLinkIn(pc, shared, files)
  {
    hide Reach, SafeRelativePath, SafeFileName, Locate, OnDisk;
  }

  /** If there was no link and no thread gets to make one, no thread leaves, whatever the bytes. */
  lemma {:induction false} StaysWithoutLinks(wires: seq<Bytes>, before: Files, states: seq<System>,
                                             events: seq<Event>, s: nat)
    requires Execution(wires, before, states, events) && s < |wires| && NoLinks(before)
    requires forall i | 0 <= i < |events| && events[i].Act? && events[i].s < |states[i].streams| ::
               !states[i].streams[events[i].s].pc.Link?
    ensures NoLinks(states[|events|].files)
    ensures |states[|events|].streams| == |wires|
    ensures states[|events|].streams[s].pc != Stopped(LeavesThroughLink)
  {
    if events != [] {
      var n := |events| - 1;
      ExecutionPrefix(wires, before, states, events);
      var front, firsts := states[..n + 1], events[..n];
      assert forall i | 0 <= i < n :: front[i] == states[i] && firsts[i] == events[i];
      StaysWithoutLinks(wires, before, front, firsts, s);
      hide Execution, MeetsLinkIn, Perform, NoLinks, DecodeHeader;
      var sys, e := states[n], events[n];
      if e.Act? {
        OnlyLinkMakesLinks(sys.streams[e.s].pc, sys.shared, sys.files);
        NoLinkToMeet(sys.streams[e.s].pc, sys.shared, sys.files);
      }
      LeavesWithStep(wires, sys, e, s);
    }
  }

  // ----- Two records that lead out -----

  /** The only connection stands before record `k`, and everything has been sent. */
  ghost predicate AtRecord(rs: seq<Record>, k: nat, sys: System)
    requires ValidRecords(rs) && k <= |rs|
  {
    && |sys.streams| == 1
    && sys.streams[0].pc == AtHeader([]) && sys.streams[0].sent == |EncodeAll(rs)|
    && sys.streams[0].received == Offset(EncodeEach(rs), k)
  }

  lemma {:induction false} RecordWindow(rs: seq<Record>, k: nat, from: nat, n: nat)
    requires ValidRecords(rs) && k < |rs| && from + n <= |EncodeRecord(rs[k])|
    ensures var at := Offset(EncodeEach(rs), k) + from;
            at + n <= |EncodeAll(rs)| && EncodeAll(rs)[at..at + n] == EncodeRecord(rs[k])[from..from + n]
  {
    hide EncodeRecord, Offset, Flatten;
    var messages := EncodeEach(rs);
    MessageInStream(messages, k);
    Window(EncodeAll(rs), Offset(messages, k), Offset(messages, k) + |messages[k]|, from, n);
  }

  /** One event on the only connection. */
  lemma {:induction false} OneRead(wire: Bytes, before: Files, states: seq<System>, events: seq<Event>, data: Bytes)
    returns (states': seq<System>, events': seq<Event>)
    requires Execution([wire], before, states, events) && |states[|events|].streams| == 1
    requires var st := states[|events|].streams[0];
             && 0 < |data| <= Want(st.pc) && st.received + |data| <= st.sent == |wire|
             && data == wire[st.received..st.received + |data|]
    ensures Execution([wire], before, states', events')
    ensures var sys := states[|events|];
            var st := sys.streams[0];
            states'[|events'|] ==
            sys.(streams := [st.(received := st.received + |data|, pc := OnReceive(st.pc, data))])
  {
    hide Execution, OnReceive, Want;
    states', events' := Continue([wire], before, states, events, Receive(0, |data|));
  }

  lemma {:induction false} OneAct(wire: Bytes, before: Files, states: seq<System>, events: seq<Event>)
    returns (states': seq<System>, events': seq<Event>)
    requires Execution([wire], before, states, events) && |states[|events|].streams| == 1
    requires Acting(states[|events|].streams[0].pc)
    ensures Execution([wire], before, states', events')
    ensures var sys := states[|events|];
            var st := sys.streams[0];
            var effect := Perform(st.pc, sys.shared, sys.files);
            states'[|events'|] == System([StepStream(wire, st, Act(0), effect.thrown)], effect.shared, effect.files)
  {
    hide Execution, Perform, StepStream, Acting;
    states', events' := Continue([wire], before, states, events, Act(0));
  }

  lemma {:induction false} HeadReads(r: Record)
    requires ValidRecord(r)
    ensures |EncodeRecord(r)| >= HEADER_BYTES + |r.name|
    ensures OnReceive(AtHeader([]), EncodeRecord(r)[0..HEADER_BYTES]) == AtName(HeaderOf(r), [])
    ensures EncodeRecord(r)[HEADER_BYTES..HEADER_BYTES + |r.name|] == r.name
    ensures OnReceive(AtName(HeaderOf(r), []), r.name) == Dispatch(IncomingOf(r))
  {
    hide EncodeRecord, DecodeHeader;
    HeaderOfMessage(r);
    NameWindow(r, 0, |r.name|);
    var m := EncodeRecord(r);
    assert [] + m[..HEADER_BYTES] == m[0..HEADER_BYTES];
    assert [] + r.name == r.name && r.name[0..|r.name|] == r.name;
  }

  /** The thread reads the header and the name of the next record. */
  lemma {:induction false} ReadHead(rs: seq<Record>, k: nat, before: Files, states: seq<System>, events: seq<Event>)
    returns (states': seq<System>, events': seq<Event>)
    requires ValidRecords(rs) && k < |rs|
    requires Execution([EncodeAll(rs)], before, states, events) && AtRecord(rs, k, states[|events|])
    ensures Execution([EncodeAll(rs)], before, states', events')
    ensures var sys := states[|events|];
            var st := sys.streams[0];
            var received := st.received + HEADER_BYTES + |rs[k].name|;
            states'[|events'|] == sys.(streams := [st.(pc := Dispatch(IncomingOf(rs[k])), received := received)])
  {
    hide Execution, EncodeAll, EncodeRecord, OnReceive, Offset;
    var r := rs[k];
    HeadReads(r);
    RecordWindow(rs, k, 0, HEADER_BYTES);
    RecordWindow(rs, k, HEADER_BYTES, |r.name|);
    states', events' := OneRead(EncodeAll(rs), before, states, events, EncodeRecord(r)[0..HEADER_BYTES]);
    states', events' := OneRead(EncodeAll(rs), before, states', events', r.name);
  }

  /** What a sender could send for one path; NUL-free names and targets of at most 64 bits of length. */
  ghost predicate Sendable(p: Path, source: Source) {
    ValidPath(p) && |WirePath(p)| <= MAX_NAME_BYTES && ValidSource(source) && !source.SourceOther?
  }

  lemma {:induction false} NameOfRecord(p: Path, source: Source)
    requires Sendable(p, source)
    ensures SafeRelativePath(ItemRecord(p, source).name) == Some(p)
    ensures Locate(p) == Some(p) && Folder(p) == p && Folder(Parent(p)) == Parent(p)
    ensures forall part | part in p :: Ordinary(part) && NUL !in part
  {
    WirePathRoundTrip(p);
    ValidPathStays(p);
  }

  /** At the top of the output directory no directory has to be made first. */
  lemma {:induction false} DispatchAtTop(name: Bytes, source: Source, shared: Shared, files: Files)
    requires Sendable([name], source) && !source.SourceDirectory?
    ensures Perform(Dispatch(IncomingOf(ItemRecord([name], source))), shared, files) == Effect(shared, files, None)
  {
    hide SafeRelativePath, Locate, WirePath;
    NameOfRecord([name], source);
    assert Parent([name]) == [];
    EmptyOnDisk();
  }

  lemma {:induction false} LinkAtTop(name: Bytes, target: Bytes, shared: Shared, files: Files)
    requires Sendable([name], SourceSymlink(target)) && [name] !in files
    ensures Perform(Link(IncomingOf(ItemRecord([name], SourceSymlink(target))), target), shared, files) ==
            Effect(shared, files[[name] := Symlink(target)], None)
  {
    hide SafeRelativePath, Locate, LinkOrFallback, Reach;
    NameOfRecord([name], SourceSymlink(target));
    NoCut([name]);
    ArrivesAtItself(files, [name], false);
    LinkPlaced(files, [name], target);
  }

  /** The link is received and placed. */
  lemma {:induction false} LinkReceived(rs: seq<Record>, name: Bytes, target: Bytes, before: Files,
                                        states: seq<System>, events: seq<Event>)
    returns (states': seq<System>, events': seq<Event>)
    requires ValidRecords(rs) && |rs| > 0
    requires Sendable([name], SourceSymlink(target)) && rs[0] == ItemRecord([name], SourceSymlink(target))
    requires Execution([EncodeAll(rs)], before, states, events) && AtRecord(rs, 0, states[|events|])
    requires [name] !in states[|events|].files
    ensures Execution([EncodeAll(rs)], before, states', events')
    ensures |states'| > |events'| && AtRecord(rs, 1, states'[|events'|])
    ensures states'[|events'|].files == states[|events|].files[[name] := Symlink(target)]
  {
    hide Execution, EncodeAll, EncodeRecord, Perform, DecodeHeader, ItemRecord;
    Aligned([EncodeAll(rs)], before, states, events);
    var wire, r, sys := EncodeAll(rs), rs[0], states[|events|];
    LinkFields(name, target);
    states', events' := ReadHead(rs, 0, before, states, events);
    DispatchAtTop(name, SourceSymlink(target), sys.shared, sys.files);
    states', events' := OneAct(wire, before, states', events');
    PayloadWindow(r, 0, |target|);
    RecordWindow(rs, 0, HEADER_BYTES + |r.name|, |target|);
    assert r.payload[0..|target|] == target;
    states', events' := OneRead(wire, before, states', events', target);
    LinkAtTop(name, target, sys.shared, sys.files);
    assert [] + target == target;
    states', events' := OneAct(wire, before, states', events');
    Aligned([wire], before, states', events');
    MessageSize(r);
  }

  lemma {:induction false} LinkFields(name: Bytes, target: Bytes)
    requires Sendable([name], SourceSymlink(target))
    ensures var r := ItemRecord([name], SourceSymlink(target));
            r.kind == KIND_DIRECTORY_SYMLINK && r.payload == target && HeaderOf(r).payloadSize == |target|
  {
  }

  /** Whatever is received below the link or in its place is received through it. */
  lemma {:induction false} LeavesBehindLink(rs: seq<Record>, name: Bytes, p: Path, source: Source, before: Files,
                                            states: seq<System>, events: seq<Event>)
    returns (states': seq<System>, events': seq<Event>)
    requires ValidRecords(rs) && |rs| > 1
    requires Sendable(p, source) && p[0] == name && rs[1] == ItemRecord(p, source)
    requires source.SourceFile?
    requires Execution([EncodeAll(rs)], before, states, events) && AtRecord(rs, 1, states[|events|])
    requires [name] in states[|events|].files && states[|events|].files[[name]].Symlink?
    ensures Execution([EncodeAll(rs)], before, states', events')
    ensures |states'| > |events'| && |states'[|events'|].streams| == 1
    ensures states'[|events'|].streams[0].pc == Stopped(LeavesThroughLink)
  {
    hide Execution, EncodeAll, EncodeRecord, Perform, DecodeHeader, ItemRecord, MeetsLinkIn;
    Aligned([EncodeAll(rs)], before, states, events);
    var wire, sys := EncodeAll(rs), states[|events|];
    var incoming := IncomingOf(rs[1]);
    states', events' := ReadHead(rs, 1, before, states, events);
    FileMeetsLink(name, p, source, sys.shared, sys.files);
    LeavesIffLinkMet(Dispatch(incoming), sys.shared, sys.files);
    LeavesIffLinkMet(Open(incoming), sys.shared, sys.files);
    if |p| == 1 {
      assert p == [name];
      DispatchAtTop(name, source, sys.shared, sys.files);
      states', events' := OneAct(wire, before, states', events');
    }
    states', events' := OneAct(wire, before, states', events');
    Aligned([wire], before, states', events');
  }

  lemma {:induction false} FileMeetsLink(name: Bytes, p: Path, source: Source, shared: Shared, files: Files)
    requires Sendable(p, source) && p[0] == name && source.SourceFile?
    requires [name] in files && files[[name]].Symlink?
    ensures var incoming := IncomingOf(ItemRecord(p, source));
            && incoming.header.kind == KIND_DIRECTORY_FILE
            && if |p| == 1 then MeetsLinkIn(Open(incoming), shared, files)
               else MeetsLinkIn(Dispatch(incoming), shared, files)
  {
    hide SafeRelativePath, Locate, OnDisk, WirePath, MeetsLink;
    NameOfRecord(p, source);
    var incoming := IncomingOf(ItemRecord(p, source));
    var pc, reached := if |p| == 1 then Open(incoming) else Dispatch(incoming), if |p| == 1 then p else Parent(p);
    var call := Call(files, reached, true);
    FollowedAtTop(files, name, reached);
    assert MeetsSomeLink(call);
    assert Calls(pc, shared, files) == [call] && [call][0] in [call];
  }

  lemma {:induction false} FollowedAtTop(files: Files, name: Bytes, p: Path)
    requires p != [] && p[0] == name && forall part | part in p :: Ordinary(part) && NUL !in part
    requires [name] in files && files[[name]].Symlink?
    ensures MeetsLink(files, p, true, [name])
  {
    NoCut(p);
    assert name in p && [name] <= p;
  }

  /** Two records on one connection, each of which a sender could send: a symbolic link, and then a file
      at the link or below it. Wherever the link points, the receiver follows it. */
  lemma {:induction false} LinkThenFileLeaves(name: Bytes, target: Bytes, p: Path, content: Bytes, mode: U64,
                                              before: Files)
    returns (rs: seq<Record>, states: seq<System>, events: seq<Event>)
    requires Sendable([name], SourceSymlink(target)) && Sendable(p, SourceFile(content, mode)) && p[0] == name
    requires [name] !in before
    ensures rs == [ItemRecord([name], SourceSymlink(target)), ItemRecord(p, SourceFile(content, mode))]
    ensures ValidRecords(rs) && Execution([EncodeAll(rs)], before, states, events)
    ensures |states| > |events| && |states[|events|].streams| == 1
    ensures states[|events|].streams[0].pc == Stopped(LeavesThroughLink)
  {
    hide EncodeRecord, ItemRecord;
    rs := [ItemRecord([name], SourceSymlink(target)), ItemRecord(p, SourceFile(content, mode))];
    var wires := [EncodeAll(rs)];
    states, events := [Start(1, before)], [];
    assert Execution(wires, before, states, events);
    MessageSize(rs[0]);
    MessageInStream(EncodeEach(rs), 0);
    hide Execution, EncodeAll;
    states, events := Continue(wires, before, states, events, Send(0, |wires[0]|));
    states, events := LinkReceived(rs, name, target, before, states, events);
    states, events := LeavesBehindLink(rs, name, p, SourceFile(content, mode), before, states, events);
  }

  // ----- What a sender sends stays below -----

  ghost predicate StaysBelow(pc: Pc, shared: Shared, files: Files)
    requires Acting(pc)
  {
    forall call | call in Calls(pc, shared, files) :: LeadOf(call).Arrives?
  }

  /** An action that does not leave through a link, on a name without a NUL. */
  lemma {:induction false} CleanActionStays(pc: Pc, shared: Shared, files: Files)
    requires Acting(pc) && Perform(pc, shared, files).thrown != Some(LeavesThroughLink)
    requires NUL !in NameUsed(pc)
    ensures StaysBelow(pc, shared, files)
  {
    hide Calls, LeadOf, MeetsSomeLink, Perform, NameUsed;
    LeavesIffLinkMet(pc, shared, files);
    NoDotsAndNul(NameUsed(pc));
    forall call | call in Calls(pc, shared, files)
      ensures LeadOf(call).Arrives?
    {
      AccessStaysIff(pc, shared, files, call);
    }
  }

  /** No thread that receives a directory of a real tree ever meets a link, under any schedule and
      wherever the connections are cut: every access stays below the output directory. */
  lemma {:induction false} TreeStaysBelow(tree: Tree, root: Bytes, lists: seq<seq<Path>>, before: Files,
                                          states: seq<System>, events: seq<Event>, s: nat)
    requires ValidTree(tree, root) && Spreads(tree, lists) && s < |lists|
    requires forall p | p in before :: !Below(root, p)
    requires Execution(Wires(ItemScripts(tree, root, lists)), before, states, events)
    ensures |states[|events|].streams| == |lists|
    ensures var sys := states[|events|];
            && sys.streams[s].pc != Stopped(LeavesThroughLink)
            && (Acting(sys.streams[s].pc) ==> StaysBelow(sys.streams[s].pc, sys.shared, sys.files))
  {
    hide Execution, SubtreeSafe, Perform, StaysBelow, FramedStream, ItemOpen, ValidTree, ItemRecord;
    Aligned(Wires(ItemScripts(tree, root, lists)), before, states, events);
    var scripts, sys := ItemScripts(tree, root, lists), states[|events|];
    AlwaysTreeSafe(tree, root, lists, before, states, events);
    AlwaysFramed(scripts, before, states, events);
    var st := sys.streams[s];
    assert ListSafe(tree, lists[s], st, sys.files) && FramedStream(scripts[s], st);
    if Acting(st.pc) {
      OwnList(tree, root, lists[s], before, [], st, s, sys.shared, sys.files);
      NameInTree(tree, root, lists[s], st);
      CleanActionStays(st.pc, sys.shared, sys.files);
    }
  }

  lemma {:induction false} NameInTree(tree: Tree, root: Bytes, list: seq<Path>, st: Connection)
    requires ValidTree(tree, root)
    requires forall i | 0 <= i < |list| :: list[i] in tree && !tree[list[i]].SourceOther?
    requires Acting(st.pc) && FramedStream(ItemScript(tree, root, list), st)
    ensures NUL !in NameUsed(st.pc)
  {
    hide FramedStream, EncodeRecord, WirePath;
    var rs, c := ItemScript(tree, root, list), st.completed;
    CurrentRecord(rs, st);
    var into: nat :| Inside(rs[c], EncodeRecord(rs[c]), into, st.pc);
    NulInJoin(list[c]);
  }

  /** Nor does a thread that receives a file. */
  lemma {:induction false} FileStaysBelow(job: Job, before: Files, states: seq<System>, events: seq<Event>, s: nat)
    requires ValidJob(job) && s < job.parallel
    requires OutputFile(job) in before ==> before[OutputFile(job)].File?
    requires Execution(Wires(PartScripts(job)), before, states, events)
    ensures |states[|events|].streams| == job.parallel
    ensures var sys := states[|events|];
            && sys.streams[s].pc != Stopped(LeavesThroughLink)
            && (Acting(sys.streams[s].pc) ==> StaysBelow(sys.streams[s].pc, sys.shared, sys.files))
  {
    hide Execution, SharedFileSafe, Perform, StaysBelow, FramedStream, PartRecord, Written, Blank;
    Aligned(Wires(PartScripts(job)), before, states, events);
    var scripts, sys := PartScripts(job), states[|events|];
    AlwaysSafe(job, before, states, events);
    AlwaysFramed(scripts, before, states, events);
    var st := sys.streams[s];
    assert PartSafe(job, s, st, sys.shared, sys.files) && FramedStream(scripts[s], st);
    if Acting(st.pc) {
      PartAction(job, s, before, [], st, sys.shared, sys.files);
      NameOfPart(job, s, st);
      CleanActionStays(st.pc, sys.shared, sys.files);
    }
  }

  lemma {:induction false} NameOfPart(job: Job, s: nat, st: Connection)
    requires ValidJob(job) && s < job.parallel && Acting(st.pc) && FramedStream([PartRecord(job, s)], st)
    ensures NUL !in NameUsed(st.pc)
  {
    hide FramedStream, EncodeRecord, SafeFileName, RangeStart, RangeSize;
    var rs := [PartRecord(job, s)];
    CurrentRecord(rs, st);
    var into: nat :| Inside(rs[0], EncodeRecord(rs[0]), into, st.pc);
  }
}
