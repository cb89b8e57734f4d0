/** The threads together: any interleaving of receive_file_part runs over the same shared state and
    files is an execution of the transfer model, so the results about executions hold for them. */
module ThreadRuns {
  import opened Basics
  import opened Framing
  import opened FileSystem
  import opened Receiver
  import opened ReceiverThread
  import opened Streams
  import opened SystemInvariant
  import opened FileTransfer
  import opened DirectoryTransfer
  import opened Paths

  /** Thread `s` makes a step. */
  datatype Move = Move(s: nat, step: Step)

  /** The steps of one thread. */
  function Own(run: seq<Move>, s: nat): seq<Step> {
    if run == [] then []
    else
      var n := |run| - 1;
      Own(run[..n], s) + if run[n].s == s then [run[n].step] else []
  }

  /** The shared state and the files as the last access left them. */
  function Left(before: Files, run: seq<Move>): (Shared, Files) {
    if run == [] then (Shared(false, [], 0), before)
    else
      var front, last := run[..|run| - 1], run[|run| - 1];
      var pc := After(Own(front, last.s));
      if last.step.Acted? && Acting(pc) then
        var effect := Perform(pc, last.step.shared, last.step.files);
        (effect.shared, effect.files)
      else Left(before, front)
  }

  ghost predicate Chained(before: Files, run: seq<Move>) {
    forall k | 0 <= k < |run| && run[k].step.Acted? ::
      (run[k].step.shared, run[k].step.files) == Left(before, run[..k])
  }

  /** Each thread runs as receive_file_part promises on its own connection, and every access finds
      what the access before it, of whatever thread, has left. */
  ghost predicate Interleaved(inputs: seq<Bytes>, before: Files, run: seq<Move>) {
    && (forall k | 0 <= k < |run| :: run[k].s < |inputs|)
    && (forall s | 0 <= s < |inputs| :: ThreadTrace(inputs[s], Own(run, s)))
    && Chained(before, run)
  }

  lemma {:induction false} TracePrefix(input: Bytes, trace: seq<Step>, step: Step)
    requires ThreadTrace(input, trace + [step])
    ensures ThreadTrace(input, trace)
    ensures StepAllowed(After(trace), step)
    ensures step.Read? ==> Consumed(trace) + step.data <= input
    ensures step.SawEnd? ==> Consumed(trace) == input
  {
    assert (trace + [step])[..|trace|] == trace;
    if trace != [] && trace[|trace| - 1].SawEnd? {
      EndedNotWanting(trace);
    }
  }

  /** After it has seen the end, a thread does nothing. */
  lemma {:induction false} EndedNotWanting(trace: seq<Step>)
    requires trace != [] && trace[|trace| - 1].SawEnd?
    ensures forall step :: !StepAllowed(After(trace), step)
  {
  }

  lemma {:induction false} InterleavedPrefix(inputs: seq<Bytes>, before: Files, run: seq<Move>)
    requires Interleaved(inputs, before, run) && run != []
    ensures var front, last := run[..|run| - 1], run[|run| - 1];
            && Interleaved(inputs, before, front)
            && last.s < |inputs|
            && ThreadTrace(inputs[last.s], Own(front, last.s) + [last.step])
            && (last.step.Acted? ==> (last.step.shared, last.step.files) == Left(before, front))
  {
    hide ThreadTrace, Left;
    var front, last := run[..|run| - 1], run[|run| - 1];
    forall s | 0 <= s < |inputs|
      ensures ThreadTrace(inputs[s], Own(front, s))
    {
      if s == last.s {
        TracePrefix(inputs[s], Own(front, s), last.step);
      } else {
        assert Own(front, s) + [] == Own(front, s);
      }
    }
    assert forall k | 0 <= k < |front| :: front[..k] == run[..k] && front[k] == run[k];
  }

  /** A connection of the model stands where the thread stands. */
  ghost predicate Stands(st: Connection, input: Bytes, trace: seq<Step>) {
    && st.sent == |input| && st.closed
    && st.received == |Consumed(trace)| && Consumed(trace) <= input
    && st.pc == After(trace) && st.bytes == Reported(trace)
  }

  ghost predicate Matches(inputs: seq<Bytes>, before: Files, run: seq<Move>, sys: System) {
    && |sys.streams| == |inputs|
    && (sys.shared, sys.files) == Left(before, run)
    && forall s | 0 <= s < |inputs| :: Stands(sys.streams[s], inputs[s], Own(run, s))
  }

  // ----- The senders -----

  ghost predicate Delivering(wires: seq<Bytes>, inputs: seq<Bytes>) {
    |inputs| == |wires| && forall s | 0 <= s < |wires| :: inputs[s] <= wires[s]
  }

  /** The connections after the first `k` senders have sent their input and closed. */
  function Loaded(inputs: seq<Bytes>, k: nat): (streams: seq<Connection>)
    ensures |streams| == |inputs|
  {
    seq(|inputs|, s requires 0 <= s < |inputs| =>
      Connection(if s < k then |inputs[s]| else 0, s < k, 0, AtHeader([]), 0, 0))
  }

  lemma {:induction false} Load(wires: seq<Bytes>, inputs: seq<Bytes>, before: Files, k: nat)
    returns (states: seq<System>, events: seq<Event>)
    requires Delivering(wires, inputs) && k <= |wires|
    ensures Execution(wires, before, states, events)
    ensures states[|events|] == System(Loaded(inputs, k), Shared(false, [], 0), before)
  {
    if k == 0 {
      states, events := [Start(|wires|, before)], [];
      assert Start(|wires|, before).streams == Loaded(inputs, 0);
    } else {
      var s := k - 1;
      states, events := Load(wires, inputs, before, s);
      if inputs[s] != [] {
        var e := Event.Send(s, |inputs[s]|);
        Extend(wires, before, states, events, e);
        states, events := states + [Apply(wires, states[|events|], e)], events + [e];
      }
      var e := Event.Close(s);
      Extend(wires, before, states, events, e);
      states, events := states + [Apply(wires, states[|events|], e)], events + [e];
      assert states[|events|].streams == Loaded(inputs, k);
    }
  }

  // ----- The threads -----

  /** The event of a thread's step. */
  function EventOf(s: nat, step: Step): Event {
    match step
    case Read(data) => Event.Receive(s, |data|)
    case SawEnd => Event.Eof(s)
    case Acted(_, _) => Event.Act(s)
  }

  lemma {:induction false} StepStands(wire: Bytes, input: Bytes, st: Connection, trace: seq<Step>, s: nat, step: Step,
                                      thrown: Option<ReceiveError>)
    requires Stands(st, input, trace) && input <= wire && ThreadTrace(input, trace + [step])
    requires step.Acted? ==> (Acting(After(trace)) && thrown == Perform(After(trace), step.shared, step.files).thrown)
    ensures step.Read? ==> 0 < |step.data| <= Want(st.pc) && st.received + |step.data| <= |input|
    ensures step.SawEnd? ==> Want(st.pc) > 0 && st.received == |input|
    ensures step.Acted? ==> Acting(st.pc)
    ensures Stands(StepStream(wire, st, EventOf(s, step), thrown), input, trace + [step])
  {
    hide Stands, ThreadTrace, Perform, StepStream, After, Want, Acting;
    TracePrefix(input, trace, step);
    StandsAt(st, input, trace);
    match step {
      case Read(data) => ReadStands(wire, input, st, trace, s, data, thrown);
      case SawEnd => EndStands(wire, input, st, trace, s, thrown);
      case Acted(shared, files) => ActStands(wire, input, st, trace, s, shared, files);
    }
  }

  lemma {:induction false} ReadStands(wire: Bytes, input: Bytes, st: Connection, trace: seq<Step>, s: nat,
                                      data: Bytes, thrown: Option<ReceiveError>)
    requires Stands(st, input, trace) && input <= wire && Consumed(trace) + data <= input
    ensures st.received + |data| <= |input|
    ensures Stands(StepStream(wire, st, Event.Receive(s, |data|), thrown), input, trace + [Read(data)])
  {
    hide OnReceive, After, Reported, Consumed;
    AfterRead(trace, data);
    NextOnWire(wire, input, Consumed(trace), data);
  }

  lemma {:induction false} NextOnWire(wire: Bytes, input: Bytes, read: Bytes, data: Bytes)
    requires input <= wire && read + data <= input
    ensures |read| + |data| <= |input| && wire[|read|..|read| + |data|] == data
  {
    assert (read + data)[|read|..] == data;
  }

  lemma {:induction false} EndStands(wire: Bytes, input: Bytes, st: Connection, trace: seq<Step>, s: nat,
                                     thrown: Option<ReceiveError>)
    requires Stands(st, input, trace) && Consumed(trace) == input
    ensures st.received == |input|
    ensures Stands(StepStream(wire, st, Event.Eof(s), thrown), input, trace + [SawEnd])
  {
    hide OnEof;
    AfterEnd(trace);
  }

  lemma {:induction false} ActStands(wire: Bytes, input: Bytes, st: Connection, trace: seq<Step>, s: nat,
                                     shared: Shared, files: Files)
    requires Stands(st, input, trace) && Acting(After(trace))
    ensures Acting(st.pc)
    ensures Stands(StepStream(wire, st, Event.Act(s), Perform(After(trace), shared, files).thrown), input,
                   trace + [Acted(shared, files)])
  {
    hide Perform, NextPc, Counted;
    AfterAct(trace, shared, files);
  }

  lemma {:induction false} AfterRead(trace: seq<Step>, data: Bytes)
    ensures var t := trace + [Read(data)];
            After(t) == OnReceive(After(trace), data) && Consumed(t) == Consumed(trace) + data
            && Reported(t) == Reported(trace)
  {
    assert (trace + [Read(data)])[..|trace|] == trace;
  }

  lemma {:induction false} AfterEnd(trace: seq<Step>)
    ensures var t := trace + [SawEnd];
            After(t) == OnEof(After(trace)) && Consumed(t) == Consumed(trace) && Reported(t) == Reported(trace)
  {
    assert (trace + [SawEnd])[..|trace|] == trace;
    assert Consumed(trace) + [] == Consumed(trace);
  }

  lemma {:induction false} AfterAct(trace: seq<Step>, shared: Shared, files: Files)
    requires Acting(After(trace))
    ensures var t, pc := trace + [Acted(shared, files)], After(trace);
            && Consumed(t) == Consumed(trace)
            && match Perform(pc, shared, files).thrown
               case None => After(t) == NextPc(pc) && Reported(t) == (Reported(trace) + Counted(pc)) % U64_MODULUS
               case Some(e) => After(t) == Stopped(e) && Reported(t) == Reported(trace)
  {
    hide Perform;
    assert (trace + [Acted(shared, files)])[..|trace|] == trace;
    assert Consumed(trace) + [] == Consumed(trace);
  }

  lemma {:induction false} MoveMatches(wires: seq<Bytes>, inputs: seq<Bytes>, before: Files, run: seq<Move>,
                                       sys: System)
    returns (e: Event)
    requires Delivering(wires, inputs) && Interleaved(inputs, before, run) && run != []
    requires Matches(inputs, before, run[..|run| - 1], sys)
    ensures Enabled(wires, sys, e) && Matches(inputs, before, run, Apply(wires, sys, e))
  {
    hide Stands, ThreadTrace, Perform, After, Interleaved, StepStream, Want;
    var front, last := run[..|run| - 1], run[|run| - 1];
    var s, trace := last.s, Own(front, last.s);
    InterleavedPrefix(inputs, before, run);
    assert Stands(sys.streams[s], inputs[s], trace);
    e := EventOf(s, last.step);
    AllowedToAct(inputs[s], trace, last.step);
    var thrown := if last.step.Acted? then Perform(After(trace), last.step.shared, last.step.files).thrown else None;
    StandsAt(sys.streams[s], inputs[s], trace);
    StepStands(wires[s], inputs[s], sys.streams[s], trace, s, last.step, thrown);
    assert Own(run, s) == trace + [last.step];
    forall t | 0 <= t < |inputs|
      ensures Stands(Apply(wires, sys, e).streams[t], inputs[t], Own(run, t))
    {
      if t != s {
        assert Own(run, t) == Own(front, t);
      }
    }
  }

  lemma {:induction false} StandsAt(st: Connection, input: Bytes, trace: seq<Step>)
    requires Stands(st, input, trace)
    ensures st.pc == After(trace) && st.closed && st.sent == |input|
  {
  }

  lemma {:induction false} AllowedToAct(input: Bytes, trace: seq<Step>, step: Step)
    requires ThreadTrace(input, trace + [step])
    ensures step.Acted? ==> Acting(After(trace))
  {
    TracePrefix(input, trace, step);
  }

  /** Refinement: an interleaving of thread runs is an execution of the model in which the threads
      stand, and the shared state and the files are, as after that interleaving. */
  lemma {:induction false} RunsAreExecutions(wires: seq<Bytes>, inputs: seq<Bytes>, before: Files, run: seq<Move>)
    returns (states: seq<System>, events: seq<Event>)
    requires Delivering(wires, inputs) && Interleaved(inputs, before, run)
    ensures Execution(wires, before, states, events)
    ensures Matches(inputs, before, run, states[|events|])
  {
    if run == [] {
      states, events := Load(wires, inputs, before, |wires|);
    } else {
      InterleavedPrefix(inputs, before, run);
      states, events := RunsAreExecutions(wires, inputs, before, run[..|run| - 1]);
      hide Execution, Interleaved, Matches, Enabled, Apply;
      var e := MoveMatches(wires, inputs, before, run, states[|events|]);
      Extend(wires, before, states, events, e);
      states, events := states + [Apply(wires, states[|events|], e)], events + [e];
    }
  }

  // ----- What the threads deliver -----

  /** Any interleaving of complete receive threads over the connections of a file's senders leaves
      the file equal to the source, byte for byte. */
  lemma {:induction false} ThreadsReproduceTheFile(job: Job, before: Files, run: seq<Move>)
    requires ValidJob(job)
    requires OutputFile(job) in before ==> before[OutputFile(job)].File?
    requires Interleaved(Wires(PartScripts(job)), before, run)
    requires forall s | 0 <= s < job.parallel :: After(Own(run, s)).Finished?
    ensures Delivered(job, before, Left(before, run).1)
  {
    hide Interleaved, Execution, Delivered, After, EncodeAll, PartRecord;
    var wires := Wires(PartScripts(job));
    var states, events := RunsAreExecutions(wires, wires, before, run);
    ParallelTransferIsCorrect(job, before, states, events);
  }

  /** The same for a directory: exactly the source tree is added. */
  lemma {:induction false} ThreadsReproduceTheTree(tree: Tree, root: Bytes, lists: seq<seq<Path>>, before: Files,
                                                   run: seq<Move>)
    requires ValidTree(tree, root) && Spreads(tree, lists)
    requires forall p | p in before :: !Below(root, p)
    requires Interleaved(Wires(ItemScripts(tree, root, lists)), before, run)
    requires forall s | 0 <= s < |lists| :: After(Own(run, s)).Finished?
    ensures Left(before, run).1 == before + Images(tree)
    ensures TreeArrived(tree, before, Left(before, run).1)
  {
    hide TreeArrived, Interleaved, Execution, ValidTree, Spreads, After, EncodeAll, ItemScript, Images;
    var wires := Wires(ItemScripts(tree, root, lists));
    var states, events := RunsAreExecutions(wires, wires, before, run);
    ParallelDirectoryIsCorrect(tree, root, lists, before, states, events);
  }
}
