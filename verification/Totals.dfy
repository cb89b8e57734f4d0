/** What the threads report: each result counts the payload bytes of the records it has completed, so
    the totals of sender and receiver agree. */
module Totals {
  import opened Basics
  import opened Wire
  import opened Framing
  import opened Paths
  import opened FileSystem
  import opened Receiver
  import opened Streams
  import opened StreamInvariant
  import opened SystemInvariant
  import opened FileTransfer
  import opened DirectoryTransfer

  function PayloadTotal(rs: seq<Record>): nat {
    if rs == [] then 0 else PayloadTotal(rs[..|rs| - 1]) + |rs[|rs| - 1].payload|
  }

  /** The part of the current payload that has been counted. */
  function Partial(pc: Pc): nat {
    match pc
    case AtBody(_, got) => got
    case Write(_, got, _) => got
    case SetMode(incoming) => incoming.header.payloadSize
    case _ => 0
  }

  /** The result counts the completed payloads and what has been written of the current one. */
  ghost predicate Counting(rs: seq<Record>, st: Connection) {
    && st.completed <= |rs|
    && (!st.pc.Stopped? ==> st.bytes == (PayloadTotal(rs[..st.completed]) + Partial(st.pc)) % U64_MODULUS)
  }

  lemma {:induction false} AddModulo(x: nat, y: nat)
    ensures (x % U64_MODULUS + y) % U64_MODULUS == (x + y) % U64_MODULUS
  {
  }

  lemma {:induction false} OneMorePayload(rs: seq<Record>, k: nat)
    requires k < |rs|
    ensures PayloadTotal(rs[..k + 1]) == PayloadTotal(rs[..k]) + |rs[k].payload|
  {
    assert rs[..k + 1][..k] == rs[..k];
  }

  /** An action counts what it adds to the current payload, or completes it. */
  lemma {:induction false} ActCounts(r: Record, message: Bytes, into: nat, pc: Pc)
    requires ValidRecord(r) && Inside(r, message, into, pc) && Acting(pc)
    ensures Partial(pc) + Counted(pc) == if NextPc(pc).AtHeader? then |r.payload| else Partial(NextPc(pc))
  {
    hide ValidKind;
  }

  lemma {:induction false} ReadKeepsPartial(pc: Pc, data: Bytes)
    requires Want(pc) > 0
    ensures OnReceive(pc, data).Stopped? || Partial(OnReceive(pc, data)) == Partial(pc)
    ensures OnEof(pc).Stopped? || Partial(OnEof(pc)) == Partial(pc)
  {
    hide DecodeHeader;
  }

  lemma {:induction false} CountingAct(rs: seq<Record>, wire: Bytes, st: Connection, s: nat,
                                       thrown: Option<ReceiveError>)
    requires ValidRecords(rs) && FramedStream(rs, st) && Counting(rs, st) && Acting(st.pc)
    ensures Counting(rs, StepStream(wire, st, Act(s), thrown))
  {
    hide FramedStream, Inside, EncodeRecord, NextPc, Counted, Partial, PayloadTotal;
    CurrentRecord(rs, st);
    var c := st.completed;
    var into: nat :| Inside(rs[c], EncodeRecord(rs[c]), into, st.pc);
    ActCounts(rs[c], EncodeRecord(rs[c]), into, st.pc);
    OneMorePayload(rs, c);
    AddModulo(PayloadTotal(rs[..c]) + Partial(st.pc), Counted(st.pc));
    PartialAtHeader(NextPc(st.pc));
  }

  lemma {:induction false} PartialAtHeader(pc: Pc)
    ensures pc.AtHeader? ==> Partial(pc) == 0
  {
  }

  lemma {:induction false} CountingQuiet(rs: seq<Record>, wire: Bytes, st: Connection, e: Event)
    requires Counting(rs, st) && !e.Act?
    requires e.Receive? ==> st.received + e.n <= |wire| && Want(st.pc) > 0
    requires e.Eof? ==> Want(st.pc) > 0
    ensures Counting(rs, StepStream(wire, st, e, None))
  {
    hide OnReceive, OnEof, Want, Partial, PayloadTotal;
    WantingIsRunning(st.pc);
    if e.Receive? {
      ReadKeepsPartial(st.pc, wire[st.received..st.received + e.n]);
    } else if e.Eof? {
      ReadKeepsPartial(st.pc, []);
    }
  }

  lemma {:induction false} WantingIsRunning(pc: Pc)
    ensures Want(pc) > 0 ==> !pc.Stopped?
  {
  }

  ghost predicate AllCounting(scripts: seq<seq<Record>>, streams: seq<Connection>) {
    && |streams| == |scripts|
    && forall s | 0 <= s < |scripts| :: Counting(scripts[s], streams[s])
  }

  lemma {:induction false} CountingStep(scripts: seq<seq<Record>>, sys: System, e: Event)
    requires ValidScripts(scripts) && Framed(scripts, sys.streams) && AllCounting(scripts, sys.streams)
    requires Enabled(Wires(scripts), sys, e)
    ensures AllCounting(scripts, Apply(Wires(scripts), sys, e).streams)
  {
    hide Counting, FramedStream, Perform, StepStream, EncodeAll, Want;
    var st := sys.streams[e.s];
    assert FramedStream(scripts[e.s], st) && Counting(scripts[e.s], st);
    if e.Act? {
      CountingAct(scripts[e.s], Wires(scripts)[e.s], st, e.s, Perform(st.pc, sys.shared, sys.files).thrown);
      assert e == Act(e.s);
    } else {
      CountingQuiet(scripts[e.s], Wires(scripts)[e.s], st, e);
    }
  }

  lemma {:induction false} CountingStart(scripts: seq<seq<Record>>, before: Files)
    ensures AllCounting(scripts, Start(|scripts|, before).streams)
  {
  }

  /** In every reachable state of every schedule each result counts what the thread has received. */
  lemma {:induction false} AlwaysCounting(scripts: seq<seq<Record>>, before: Files, states: seq<System>,
                                          events: seq<Event>)
    requires ValidScripts(scripts) && Execution(Wires(scripts), before, states, events)
    ensures AllCounting(scripts, states[|events|].streams)
  {
    hide AllCounting, Framed, Enabled, Apply, EncodeAll;
    if events == [] {
      CountingStart(scripts, before);
    } else {
      var n := |events| - 1;
      ExecutionPrefix(Wires(scripts), before, states, events);
      AlwaysCounting(scripts, before, states[..n + 1], events[..n]);
      AlwaysFramed(scripts, before, states[..n + 1], events[..n]);
      CountingStep(scripts, states[n], events[n]);
    }
  }

  /** A thread that has finished on a connection that carried everything reports all its payloads. */
  lemma {:induction false} FinishedTotal(scripts: seq<seq<Record>>, before: Files, states: seq<System>,
                                         events: seq<Event>, s: nat)
    requires ValidScripts(scripts) && Execution(Wires(scripts), before, states, events) && s < |scripts|
    requires |states[|events|].streams| == |scripts| && states[|events|].streams[s].pc.Finished?
    requires states[|events|].streams[s].sent == |EncodeAll(scripts[s])|
    ensures states[|events|].streams[s].bytes == PayloadTotal(scripts[s]) % U64_MODULUS
  {
    hide EncodeAll, PayloadTotal, Counting, CutReport, Enabled, Apply;
    AlwaysCounting(scripts, before, states, events);
    TruncationSoundUnderConcurrency(scripts, before, states, events);
    CountOfAll(scripts[s], states[|events|].streams[s]);
  }

  lemma {:induction false} CountOfAll(rs: seq<Record>, st: Connection)
    requires ValidRecords(rs) && CutReport(rs, st) && Counting(rs, st)
    requires st.pc.Finished? && st.sent == |EncodeAll(rs)|
    ensures st.bytes == PayloadTotal(rs) % U64_MODULUS
  {
    hide EncodeAll, PayloadTotal;
    assert rs[..|rs|] == rs;
  }

  lemma {:induction false} ScriptTotal(tree: Tree, root: Bytes, list: seq<Path>)
    requires ValidTree(tree, root)
    requires forall i | 0 <= i < |list| :: list[i] in tree && !tree[list[i]].SourceOther?
    ensures PayloadTotal(ItemScript(tree, root, list)) == SourceBytes(tree, list)
  {
    hide ValidTree, WirePath;
    if list != [] {
      var n := |list| - 1;
      ScriptTotal(tree, root, list[..n]);
      var script := ItemScript(tree, root, list);
      assert script[..n] == ItemScript(tree, root, list[..n]);
    }
  }

  /** Each thread of a delivered directory reports the bytes of the files and link targets of its list,
      which is what the sender of that list reports. */
  lemma {:induction false} TotalsAgree(tree: Tree, root: Bytes, lists: seq<seq<Path>>, before: Files,
                                       states: seq<System>, events: seq<Event>)
    requires ValidTree(tree, root) && Spreads(tree, lists)
    requires AllDelivered(tree, root, lists, before, states, events)
    ensures |states| > |events| && |states[|events|].streams| == |lists|
    ensures forall s | 0 <= s < |lists| ::
              Results(states[|events|])[s] == SourceBytes(tree, lists[s]) % U64_MODULUS
  {
    hide ValidTree, EncodeAll, PayloadTotal, SourceBytes;
    forall s | 0 <= s < |lists|
      ensures Results(states[|events|])[s] == SourceBytes(tree, lists[s]) % U64_MODULUS
    {
      FinishedTotal(ItemScripts(tree, root, lists), before, states, events, s);
      ScriptTotal(tree, root, lists[s]);
    }
  }
}
