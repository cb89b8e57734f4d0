/** Transfers can complete: every execution in which no connection has been cut can be continued to
    one that has delivered everything. */
module Completion {
  import opened Basics
  import opened Framing
  import opened Paths
  import opened FileSystem
  import opened Receiver
  import opened Streams
  import opened SystemInvariant
  import opened FileTransfer
  import opened DirectoryTransfer

  /** Each closed connection has carried its whole message. */
  ghost predicate Uncut(wires: seq<Bytes>, streams: seq<Connection>) {
    && |streams| == |wires|
    && forall s | 0 <= s < |wires| ::
         streams[s].sent <= |wires[s]| && (streams[s].closed ==> streams[s].sent == |wires[s]|)
  }

  /** The first `k` senders are done. */
  ghost predicate SendersDone(wires: seq<Bytes>, streams: seq<Connection>, k: nat)
    requires k <= |wires|
  {
    && |streams| == |wires|
    && forall s | 0 <= s < k :: streams[s].closed && streams[s].sent == |wires[s]|
  }

  /** One event more. */
  lemma {:induction false} Continue(wires: seq<Bytes>, files: Files, states: seq<System>, events: seq<Event>, e: Event)
    returns (states': seq<System>, events': seq<Event>)
    requires Execution(wires, files, states, events) && Enabled(wires, states[|events|], e)
    ensures Execution(wires, files, states', events') && events' == events + [e] && states <= states'
    ensures states'[|events'|] == Apply(wires, states[|events|], e)
  {
    Extend(wires, files, states, events, e);
    states', events' := states + [Apply(wires, states[|events|], e)], events + [e];
  }

  /** The senders finish, one after the other. */
  lemma {:induction false} FinishSending(wires: seq<Bytes>, files: Files, states: seq<System>, events: seq<Event>,
                                         k: nat)
    returns (states': seq<System>, events': seq<Event>)
    requires Execution(wires, files, states, events) && k <= |wires|
    requires Uncut(wires, states[|events|].streams)
    ensures Execution(wires, files, states', events') && states <= states' && events <= events'
    ensures Uncut(wires, states'[|events'|].streams) && SendersDone(wires, states'[|events'|].streams, k)
  {
    if k == 0 {
      return states, events;
    }
    hide Execution, Uncut, SendersDone, Enabled, Apply;
    var s := k - 1;
    states', events' := FinishSending(wires, files, states, events, s);
    Aligned(wires, files, states', events');
    var e := SendRest(wires, states'[|events'|], s);
    if e.Some? {
      states', events' := Continue(wires, files, states', events', e.value);
      Aligned(wires, files, states', events');
    }
    e := CloseSent(wires, states'[|events'|], s);
    if e.Some? {
      states', events' := Continue(wires, files, states', events', e.value);
    }
  }

  /** Sender `s` sends what is left. */
  lemma {:induction false} SendRest(wires: seq<Bytes>, sys: System, s: nat) returns (e: Option<Event>)
    requires Uncut(wires, sys.streams) && s < |wires| && SendersDone(wires, sys.streams, s)
    ensures e.Some? ==>
              && Enabled(wires, sys, e.value)
              && var next := Apply(wires, sys, e.value).streams;
                 Uncut(wires, next) && SendersDone(wires, next, s) && next[s].sent == |wires[s]|
    ensures e == None ==> sys.streams[s].sent == |wires[s]|
  {
    var sent := sys.streams[s].sent;
    e := if sent < |wires[s]| then Some(Event.Send(s, |wires[s]| - sent)) else None;
  }

  /** And closes its connection. */
  lemma {:induction false} CloseSent(wires: seq<Bytes>, sys: System, s: nat) returns (e: Option<Event>)
    requires Uncut(wires, sys.streams) && s < |wires| && SendersDone(wires, sys.streams, s)
    requires sys.streams[s].sent == |wires[s]|
    ensures e.Some? ==>
              && Enabled(wires, sys, e.value)
              && var next := Apply(wires, sys, e.value).streams; Uncut(wires, next) && SendersDone(wires, next, s + 1)
    ensures e == None ==> SendersDone(wires, sys.streams, s + 1)
  {
    e := if sys.streams[s].closed then None else Some(Event.Close(s));
  }

  lemma {:induction false} Aligned(wires: seq<Bytes>, files: Files, states: seq<System>, events: seq<Event>)
    requires Execution(wires, files, states, events)
    ensures |states| == |events| + 1
  {
  }

  /** An event leaves finished senders as they are. */
  lemma {:induction false} SendersStay(wires: seq<Bytes>, sys: System, e: Event)
    requires Enabled(wires, sys, e) && SendersDone(wires, sys.streams, |wires|)
    ensures SendersDone(wires, Apply(wires, sys, e).streams, |wires|)
  {
    hide Perform;
  }

  /** Once the senders are done, some continuation lets every thread leave its loop. */
  lemma {:induction false} RunToEnd(scripts: seq<seq<Record>>, files: Files, states: seq<System>, events: seq<Event>)
    returns (states': seq<System>, events': seq<Event>)
    requires ValidScripts(scripts) && Execution(Wires(scripts), files, states, events)
    requires SendersDone(Wires(scripts), states[|events|].streams, |scripts|)
    ensures Execution(Wires(scripts), files, states', events') && states <= states' && events <= events'
    ensures SendersDone(Wires(scripts), states'[|events'|].streams, |scripts|)
    ensures Quiescent(Wires(scripts), states'[|events'|])
    decreases 7 * |Flatten(Wires(scripts))| + 2 * |scripts| - |events|
  {
    var wires := Wires(scripts);
    ExecutionsTerminate(wires, files, states, events);
    if Quiescent(wires, states[|events|]) {
      return states, events;
    }
    hide Execution, Quiescent, SendersDone, Enabled;
    var e := NoDeadlock(scripts, files, states, events);
    SendersStay(wires, states[|events|], e);
    states', events' := Continue(wires, files, states, events, e);
    ExecutionsTerminate(wires, files, states', events');
    states', events' := RunToEnd(scripts, files, states', events');
  }

  lemma {:induction false} CanFinish(scripts: seq<seq<Record>>, files: Files, states: seq<System>, events: seq<Event>)
    returns (states': seq<System>, events': seq<Event>)
    requires ValidScripts(scripts) && Execution(Wires(scripts), files, states, events)
    requires Uncut(Wires(scripts), states[|events|].streams)
    ensures Execution(Wires(scripts), files, states', events') && states <= states' && events <= events'
    ensures SendersDone(Wires(scripts), states'[|events'|].streams, |scripts|)
    ensures Quiescent(Wires(scripts), states'[|events'|])
  {
    hide Execution, Quiescent, SendersDone, Uncut;
    states', events' := FinishSending(Wires(scripts), files, states, events, |scripts|);
    states', events' := RunToEnd(scripts, files, states', events');
  }

  /** Whatever has happened so far in the transfer of a file, as long as no connection has been cut
      it can still complete, and then the output is the source. From the start, in particular, a
      complete execution exists. */
  lemma {:induction false} FileTransferCanComplete(job: Job, before: Files, states: seq<System>, events: seq<Event>)
    returns (states': seq<System>, events': seq<Event>)
    requires ValidJob(job)
    requires OutputFile(job) in before ==> before[OutputFile(job)].File?
    requires Execution(Wires(PartScripts(job)), before, states, events)
    requires Uncut(Wires(PartScripts(job)), states[|events|].streams)
    ensures Execution(Wires(PartScripts(job)), before, states', events') && states <= states' && events <= events'
    ensures AllSentAndFinished(PartScripts(job), states'[|events'|])
    ensures Delivered(job, before, states'[|events'|].files)
  {
    hide Execution, Delivered, PartRecord, EncodeAll;
    var scripts := PartScripts(job);
    states', events' := CanFinish(scripts, before, states, events);
    Aligned(Wires(scripts), before, states', events');
    var sys := states'[|events'|];
    forall s | 0 <= s < |scripts|
      ensures sys.streams[s].pc.Finished?
    {
      FileTransfer.NoSpuriousErrors(job, before, states', events', s);
    }
    ParallelTransferIsCorrect(job, before, states', events');
  }

  /** The same for a directory. */
  lemma {:induction false} DirectoryTransferCanComplete(tree: Tree, root: Bytes, lists: seq<seq<Path>>, before: Files,
                                                        states: seq<System>, events: seq<Event>)
    returns (states': seq<System>, events': seq<Event>)
    requires ValidTree(tree, root) && Spreads(tree, lists)
    requires forall p | p in before :: !Below(root, p)
    requires Execution(Wires(ItemScripts(tree, root, lists)), before, states, events)
    requires Uncut(Wires(ItemScripts(tree, root, lists)), states[|events|].streams)
    ensures states <= states' && events <= events'
    ensures AllDelivered(tree, root, lists, before, states', events')
    ensures |states'| > |events'| && states'[|events'|].files == before + Images(tree)
    ensures TreeArrived(tree, before, states'[|events'|].files)
  {
    hide TreeArrived, Execution, ValidTree, Spreads, EncodeAll, ItemScript, Images;
    var scripts := ItemScripts(tree, root, lists);
    states', events' := CanFinish(scripts, before, states, events);
    Aligned(Wires(scripts), before, states', events');
    var sys := states'[|events'|];
    forall s | 0 <= s < |lists|
      ensures sys.streams[s].pc.Finished?
    {
      DirectoryTransfer.NoSpuriousErrors(tree, root, lists, before, states', events', s);
    }
    ParallelDirectoryIsCorrect(tree, root, lists, before, states', events');
  }

  /** At the start nothing has been cut. */
  lemma {:induction false} StartIsUncut(wires: seq<Bytes>, before: Files)
    ensures Execution(wires, before, [Start(|wires|, before)], [])
    ensures Uncut(wires, Start(|wires|, before).streams)
  {
  }

  /** For every job there is an execution that delivers its file. */
  lemma {:induction false} FileTransferExists(job: Job, before: Files) returns (states: seq<System>, events: seq<Event>)
    requires ValidJob(job)
    requires OutputFile(job) in before ==> before[OutputFile(job)].File?
    ensures Execution(Wires(PartScripts(job)), before, states, events)
    ensures AllSentAndFinished(PartScripts(job), states[|events|])
    ensures Delivered(job, before, states[|events|].files)
  {
    hide Execution, Uncut, Delivered, PartRecord, EncodeAll;
    var wires := Wires(PartScripts(job));
    StartIsUncut(wires, before);
    states, events := FileTransferCanComplete(job, before, [Start(|wires|, before)], []);
  }

  /** For every tree, however its items are spread over the streams, there is an execution that delivers
      it. */
  lemma {:induction false} DirectoryTransferExists(tree: Tree, root: Bytes, lists: seq<seq<Path>>, before: Files)
    returns (states: seq<System>, events: seq<Event>)
    requires ValidTree(tree, root) && Spreads(tree, lists)
    requires forall p | p in before :: !Below(root, p)
    ensures AllDelivered(tree, root, lists, before, states, events)
    ensures |states| > |events| && states[|events|].files == before + Images(tree)
    ensures TreeArrived(tree, before, states[|events|].files)
  {
    hide TreeArrived, Execution, Uncut, ValidTree, Spreads, EncodeAll, ItemScript, Images;
    var wires := Wires(ItemScripts(tree, root, lists));
    StartIsUncut(wires, before);
    states, events := DirectoryTransferCanComplete(tree, root, lists, before, [Start(|wires|, before)], []);
  }
}
