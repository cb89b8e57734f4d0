/** The stream invariant for all streams at once, kept by every schedule. `scripts` are the
    records each sender stream sends. */
module SystemInvariant {
  import opened Basics
  import opened Framing
  import opened FileSystem
  import opened Receiver
  import opened Streams
  import opened StreamInvariant

  ghost predicate ValidScripts(scripts: seq<seq<Record>>) {
    forall s | 0 <= s < |scripts| :: ValidRecords(scripts[s])
  }

  /** The byte stream of each sender. */
  ghost function Wires(scripts: seq<seq<Record>>): (wires: seq<Bytes>)
    requires ValidScripts(scripts)
    ensures |wires| == |scripts|
    ensures forall s | 0 <= s < |scripts| :: wires[s] == EncodeAll(scripts[s])
  {
    seq(|scripts|, s requires 0 <= s < |scripts| => EncodeAll(scripts[s]))
  }

  ghost predicate FramedStream(rs: seq<Record>, st: Connection)
    requires ValidRecords(rs)
  {
    EncodingsSized(rs);
    ConnectionInv(rs, EncodeEach(rs), st)
  }

  ghost predicate Framed(scripts: seq<seq<Record>>, streams: seq<Connection>)
    requires ValidScripts(scripts)
  {
    && |streams| == |scripts|
    && forall s | 0 <= s < |scripts| :: FramedStream(scripts[s], streams[s])
  }

  /** The record a thread is in. */
  lemma {:induction false} CurrentRecord(rs: seq<Record>, st: Connection)
    requires ValidRecords(rs) && FramedStream(rs, st) && Acting(st.pc)
    ensures st.completed < |rs|
    ensures exists into: nat :: Inside(rs[st.completed], EncodeRecord(rs[st.completed]), into, st.pc)
  {
    EncodingsSized(rs);
    hide Inside;
    var into := st.received - Offset(EncodeEach(rs), st.completed);
    assert Inside(rs[st.completed], EncodeRecord(rs[st.completed]), into, st.pc);
  }

  /** On the records a sender produces, no action throws a framing error. */
  lemma {:induction false} ActionsThrowNoFramingError(r: Record, message: Bytes, into: nat, pc: Pc, shared: Shared,
                                                      files: Files)
    requires ValidRecord(r) && Inside(r, message, into, pc) && Acting(pc)
    ensures var thrown := Perform(pc, shared, files).thrown; thrown.Some? ==> !thrown.value.Protocol?
  {
  }

  function ThrownBy(st: Connection, e: Event, shared: Shared, files: Files): Option<ReceiveError>
    requires e.Act? ==> Acting(st.pc)
  {
    if e.Act? then Perform(st.pc, shared, files).thrown else None
  }

  lemma {:induction false} FramedStep(rs: seq<Record>, st: Connection, e: Event, shared: Shared, files: Files)
    requires ValidRecords(rs) && FramedStream(rs, st)
    requires e.Send? ==> !st.closed && st.sent + e.n <= |EncodeAll(rs)|
    requires e.Close? ==> !st.closed
    requires e.Receive? ==> 0 < e.n <= Want(st.pc) && st.received + e.n <= st.sent
    requires e.Eof? ==> Want(st.pc) > 0 && st.closed && st.received == st.sent
    requires e.Act? ==> Acting(st.pc)
    ensures e.Receive? ==> st.received + e.n <= |EncodeAll(rs)|
    ensures FramedStream(rs, StepStream(EncodeAll(rs), st, e, ThrownBy(st, e, shared, files)))
  {
    hide ConnectionInv, Perform, StepStream, Inside, EncodeRecord;
    EncodingsSized(rs);
    if e.Act? {
      CurrentRecord(rs, st);
      var into: nat :| Inside(rs[st.completed], EncodeRecord(rs[st.completed]), into, st.pc);
      ActionsThrowNoFramingError(rs[st.completed], EncodeRecord(rs[st.completed]), into, st.pc, shared, files);
    }
    ConnectionStep(rs, EncodeEach(rs), st, e, ThrownBy(st, e, shared, files));
  }

  lemma {:induction false} FramedApply(scripts: seq<seq<Record>>, sys: System, e: Event)
    requires ValidScripts(scripts) && Framed(scripts, sys.streams) && Enabled(Wires(scripts), sys, e)
    ensures Framed(scripts, Apply(Wires(scripts), sys, e).streams)
  {
    hide FramedStream, Perform, StepStream;
    FramedStep(scripts[e.s], sys.streams[e.s], e, sys.shared, sys.files);
  }

  lemma {:induction false} FramedStart(scripts: seq<seq<Record>>, files: Files)
    requires ValidScripts(scripts)
    ensures Framed(scripts, Start(|scripts|, files).streams)
  {
    forall s | 0 <= s < |scripts|
      ensures FramedStream(scripts[s], Start(|scripts|, files).streams[s])
    {
      EncodingsSized(scripts[s]);
      StartInv(scripts[s], EncodeEach(scripts[s]));
    }
  }

  /** For all record lists, all schedules and all initial files, every thread is at all times
      exactly where the bytes it has received say, and never takes a wrong record. */
  lemma {:induction false} AlwaysFramed(scripts: seq<seq<Record>>, files: Files, states: seq<System>,
                                        events: seq<Event>)
    requires ValidScripts(scripts) && Execution(Wires(scripts), files, states, events)
    ensures Framed(scripts, states[|events|].streams)
  {
    if events == [] {
      FramedStart(scripts, files);
    } else {
      var n := |events| - 1;
      ExecutionPrefix(Wires(scripts), files, states, events);
      AlwaysFramed(scripts, files, states[..n + 1], events[..n]);
      FramedApply(scripts, states[n], events[n]);
    }
  }

  /** No schedule gets stuck: an execution can always be continued until every connection is
      closed and every thread has left its loop. */
  lemma {:induction false} NoDeadlock(scripts: seq<seq<Record>>, files: Files, states: seq<System>, events: seq<Event>)
    returns (e: Event)
    requires ValidScripts(scripts) && Execution(Wires(scripts), files, states, events)
    requires !Quiescent(Wires(scripts), states[|events|])
    ensures Enabled(Wires(scripts), states[|events|], e)
  {
    var sys := states[|events|];
    AlwaysFramed(scripts, files, states, events);
    ExecutionsTerminate(Wires(scripts), files, states, events);
    forall s | 0 <= s < |scripts|
      ensures ReadsSomething(sys.streams[s].pc)
    {
      EncodingsSized(scripts[s]);
      PendingReads(scripts[s], EncodeEach(scripts[s]), sys.streams[s]);
    }
    e := Progress(Wires(scripts), sys);
  }

  /** What the end of a thread tells about the point where its connection was cut. */
  ghost predicate CutReport(rs: seq<Record>, st: Connection)
    requires ValidRecords(rs)
  {
    && st.completed <= |rs|
    && (st.pc.Finished? ==> st.sent == |EncodeAll(rs[..st.completed])|)
    && (st.pc.Finished? && st.sent == |EncodeAll(rs)| ==> st.completed == |rs|)
    && (st.pc.Stopped? && st.pc.reason.Protocol? ==>
          && st.closed && st.completed < |rs|
          && |EncodeAll(rs[..st.completed])| < st.sent < |EncodeAll(rs[..st.completed + 1])|)
  }

  lemma {:induction false} CutStream(rs: seq<Record>, st: Connection)
    requires ValidRecords(rs) && FramedStream(rs, st)
    ensures CutReport(rs, st)
  {
    hide AtPoint, EncodeAll, Sized, Offset;
    EncodingsSized(rs);
    EndOfStream(rs, EncodeEach(rs), st);
    OffsetOfRecords(rs, st.completed);
    OffsetOfRecords(rs, |rs|);
    assert rs[..|rs|] == rs;
    if st.completed < |rs| {
      OffsetOfRecords(rs, st.completed + 1);
    }
  }

  /** Truncation soundness under concurrency: wherever each connection is cut, a thread that ends
      cleanly has completed exactly the records whose bytes were sent, and one that reports a
      broken stream was cut inside a record. */
  lemma {:induction false} TruncationSoundUnderConcurrency(scripts: seq<seq<Record>>, files: Files,
                                                           states: seq<System>, events: seq<Event>)
    requires ValidScripts(scripts) && Execution(Wires(scripts), files, states, events)
    ensures |states[|events|].streams| == |scripts|
    ensures forall s | 0 <= s < |scripts| :: CutReport(scripts[s], states[|events|].streams[s])
  {
    AlwaysFramed(scripts, files, states, events);
    forall s | 0 <= s < |scripts|
      ensures CutReport(scripts[s], states[|events|].streams[s])
    {
      CutStream(scripts[s], states[|events|].streams[s]);
    }
  }

  lemma {:induction false} OffsetOfRecords(rs: seq<Record>, k: nat)
    requires ValidRecords(rs) && k <= |rs|
    ensures Offset(EncodeEach(rs), k) == |EncodeAll(rs[..k])|
  {
    OffsetIsLength(EncodeEach(rs), k);
    assert EncodeEach(rs[..k]) == EncodeEach(rs)[..k];
  }
}
