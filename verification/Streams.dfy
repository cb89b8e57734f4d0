/** The whole transfer: `parallel` sender streams, one byte pipe each, and one receiver thread
    each, over one shared state and one file system. A schedule is any sequence of events. */
module Streams {
  import opened Basics
  import opened FileSystem
  import opened Receiver

  /** One connection. `sent` and `received` count bytes of the sender's message; `completed` is a
      history variable counting the records the receiver has finished. */
  datatype Connection = Connection(sent: nat, closed: bool, received: nat, pc: Pc, completed: nat, bytes: U64)

  datatype System = System(streams: seq<Connection>, shared: Shared, files: Files)

  datatype Event =
    | Send(s: nat, n: nat)     // the sender of stream s gets n more bytes accepted
    | Close(s: nat)            // its connection closes, at the end or by a failure
    | Receive(s: nat, n: nat)  // a pending read returns n bytes
    | Eof(s: nat)              // a pending read finds the closed and drained connection
    | Act(s: nat)              // the thread performs its next action

  function Start(parallel: nat, files: Files): System {
    System(seq(parallel, i => Connection(0, false, 0, AtHeader([]), 0, 0)), Shared(false, [], 0), files)
  }

  predicate Enabled(wires: seq<Bytes>, sys: System, e: Event) {
    && |wires| == |sys.streams|
    && e.s < |sys.streams|
    && var st := sys.streams[e.s];
       match e
       case Send(s, n) => !st.closed && 0 < n && st.sent + n <= |wires[s]|
       case Close(s) => !st.closed
       case Receive(s, n) => 0 < n <= Want(st.pc) && st.received + n <= st.sent <= |wires[s]|
       case Eof(s) => Want(st.pc) > 0 && st.closed && st.received == st.sent
       case Act(s) => Acting(st.pc)
  }

  /** The thread's own part of an event. */
  function StepStream(wire: Bytes, st: Connection, e: Event, thrown: Option<ReceiveError>): Connection
    requires e.Receive? ==> st.received + e.n <= |wire|
    requires e.Act? ==> Acting(st.pc)
  {
    match e
    case Send(_, n) => st.(sent := st.sent + n)
    case Close(_) => st.(closed := true)
    case Receive(_, n) =>
      st.(received := st.received + n, pc := OnReceive(st.pc, wire[st.received..st.received + n]))
    case Eof(_) => st.(pc := OnEof(st.pc))
    case Act(_) =>
      match thrown
      case Some(error) => st.(pc := Stopped(error))
      case None =>
        st.(pc := NextPc(st.pc),
            completed := st.completed + if NextPc(st.pc).AtHeader? then 1 else 0,
            bytes := (st.bytes + Counted(st.pc)) % U64_MODULUS)
  }

  function Apply(wires: seq<Bytes>, sys: System, e: Event): System
    requires Enabled(wires, sys, e)
  {
    var st := sys.streams[e.s];
    if e.Act? then
      var effect := Perform(st.pc, sys.shared, sys.files);
      System(sys.streams[e.s := StepStream(wires[e.s], st, e, effect.thrown)], effect.shared, effect.files)
    else
      sys.(streams := sys.streams[e.s := StepStream(wires[e.s], st, e, None)])
  }

  /** `states` is an execution from the start under the schedule `events`: any interleaving, any
      split of the byte streams into reads and writes, any moment at which a connection closes. */
  ghost predicate Execution(wires: seq<Bytes>, files: Files, states: seq<System>, events: seq<Event>) {
    && |states| == |events| + 1
    && states[0] == Start(|wires|, files)
    && forall i | 0 <= i < |events| ::
         Enabled(wires, states[i], events[i]) && states[i + 1] == Apply(wires, states[i], events[i])
  }

  /** An execution without its last step. */
  lemma {:induction false} ExecutionPrefix(wires: seq<Bytes>, files: Files, states: seq<System>, events: seq<Event>)
    requires Execution(wires, files, states, events) && events != []
    ensures var n := |events| - 1;
            && Execution(wires, files, states[..n + 1], events[..n])
            && Enabled(wires, states[n], events[n])
            && states[n + 1] == Apply(wires, states[n], events[n])
  {
  }

  /** An execution goes on with any event that is possible in its last state. */
  lemma {:induction false} Extend(wires: seq<Bytes>, before: Files, states: seq<System>, events: seq<Event>, e: Event)
    requires Execution(wires, before, states, events) && Enabled(wires, states[|events|], e)
    ensures Execution(wires, before, states + [Apply(wires, states[|events|], e)], events + [e])
  {
    hide Apply, Enabled;
  }

  // ----- Every schedule terminates, and stops only when all threads are done -----

  function Rank(pc: Pc): nat {
    match pc
    case Finished | Stopped(_) => 0
    case AtHeader(_) | AtName(_, _) => 1
    case SetMode(_) | Link(_, _) => 2
    case AtTarget(_, _) | AtBody(_, _) => 3
    case Write(_, _, _) => 4
    case Open(_) => 5
    case Dispatch(_) => 6
  }

  function StreamMeasure(wire: Bytes, st: Connection): int {
    6 * (|wire| - st.received) + (|wire| - st.sent) + (if st.closed then 0 else 1) + Rank(st.pc)
  }

  function Measure(wires: seq<Bytes>, streams: seq<Connection>): int
    requires |wires| == |streams|
  {
    if |wires| == 0 then 0
    else StreamMeasure(wires[0], streams[0]) + Measure(wires[1..], streams[1..])
  }

  lemma {:induction false} MeasureUpdate(wires: seq<Bytes>, streams: seq<Connection>, s: nat, st: Connection)
    requires |wires| == |streams| && s < |streams|
    ensures Measure(wires, streams[s := st]) ==
            Measure(wires, streams) - StreamMeasure(wires[s], streams[s]) + StreamMeasure(wires[s], st)
  {
    if s == 0 {
      assert streams[s := st][1..] == streams[1..];
    } else {
      MeasureUpdate(wires[1..], streams[1..], s - 1, st);
      assert streams[s := st][1..] == streams[1..][s - 1 := st];
    }
  }

  lemma {:induction false} StepDecreases(wires: seq<Bytes>, sys: System, e: Event)
    requires Enabled(wires, sys, e)
    ensures Measure(wires, Apply(wires, sys, e).streams) < Measure(wires, sys.streams)
  {
    var st' := Apply(wires, sys, e).streams[e.s];
    MeasureUpdate(wires, sys.streams, e.s, st');
    RankOfStep(wires[e.s], sys.streams[e.s], e,
               if e.Act? then Perform(sys.streams[e.s].pc, sys.shared, sys.files).thrown else None);
  }

  lemma {:induction false} RankOfStep(wire: Bytes, st: Connection, e: Event, thrown: Option<ReceiveError>)
    requires e.Receive? ==> 0 < e.n && st.received + e.n <= |wire| && Want(st.pc) > 0
    requires e.Send? ==> e.n > 0
    requires e.Close? ==> !st.closed
    requires e.Eof? ==> Want(st.pc) > 0
    requires e.Act? ==> Acting(st.pc)
    ensures StreamMeasure(wire, StepStream(wire, st, e, thrown)) < StreamMeasure(wire, st)
  {
  }

  predicate Counts(wires: seq<Bytes>, streams: seq<Connection>) {
    && |wires| == |streams|
    && forall i | 0 <= i < |streams| :: streams[i].received <= streams[i].sent <= |wires[i]|
  }

  lemma {:induction false} MeasureNonNegative(wires: seq<Bytes>, streams: seq<Connection>)
    requires Counts(wires, streams)
    ensures Measure(wires, streams) >= 0
  {
    if |wires| > 0 {
      MeasureNonNegative(wires[1..], streams[1..]);
    }
  }

  lemma {:induction false} MeasureOfStart(wires: seq<Bytes>, streams: seq<Connection>)
    requires |wires| == |streams|
    requires forall i | 0 <= i < |streams| :: streams[i] == Connection(0, false, 0, AtHeader([]), 0, 0)
    ensures Measure(wires, streams) == 7 * |Flatten(wires)| + 2 * |wires|
  {
    if |wires| > 0 {
      MeasureOfStart(wires[1..], streams[1..]);
    }
  }

  lemma {:induction false} CountsKept(wires: seq<Bytes>, sys: System, e: Event)
    requires Counts(wires, sys.streams) && Enabled(wires, sys, e)
    ensures Counts(wires, Apply(wires, sys, e).streams)
  {
  }

  /** No execution is longer than seven steps per byte and two per stream. */
  lemma {:induction false} ExecutionsTerminate(wires: seq<Bytes>, files: Files, states: seq<System>, events: seq<Event>)
    requires Execution(wires, files, states, events)
    ensures Counts(wires, states[|events|].streams)
    ensures |events| + Measure(wires, states[|events|].streams) <= 7 * |Flatten(wires)| + 2 * |wires|
    ensures |events| <= 7 * |Flatten(wires)| + 2 * |wires|
  {
    if events == [] {
      MeasureOfStart(wires, states[0].streams);
    } else {
      var n := |events| - 1;
      ExecutionPrefix(wires, files, states, events);
      ExecutionsTerminate(wires, files, states[..n + 1], events[..n]);
      CountsKept(wires, states[n], events[n]);
      StepDecreases(wires, states[n], events[n]);
    }
    MeasureNonNegative(wires, states[|events|].streams);
  }

  /** A pending read is for at least one byte. */
  predicate ReadsSomething(pc: Pc) {
    pc.AtHeader? || pc.AtName? || pc.AtTarget? || pc.AtBody? ==> Want(pc) > 0
  }

  predicate Quiescent(wires: seq<Bytes>, sys: System) {
    && |wires| == |sys.streams|
    && forall s | 0 <= s < |wires| ::
         sys.streams[s].closed && (sys.streams[s].pc.Finished? || sys.streams[s].pc.Stopped?)
  }

  /** No deadlock: as long as some stream is open or some thread still runs, a step is possible. */
  lemma {:induction false} Progress(wires: seq<Bytes>, sys: System) returns (e: Event)
    requires Counts(wires, sys.streams) && !Quiescent(wires, sys)
    requires forall s | 0 <= s < |wires| :: ReadsSomething(sys.streams[s].pc)
    ensures Enabled(wires, sys, e)
  {
    var s :| 0 <= s < |wires| &&
             !(sys.streams[s].closed && (sys.streams[s].pc.Finished? || sys.streams[s].pc.Stopped?));
    var st := sys.streams[s];
    if !st.closed {
      e := Close(s);
    } else if Acting(st.pc) {
      e := Act(s);
    } else if st.received < st.sent {
      e := Receive(s, 1);
    } else {
      e := Eof(s);
    }
  }
}
