/** A directory transfer whose connections were cut between records: no thread reports an error, and
    the output is exactly what the completed items call for. */
module CutDirectory {
  import opened Basics
  import opened Framing
  import opened Paths
  import opened FileSystem
  import opened Receiver
  import opened Streams
  import opened StreamInvariant
  import opened SystemInvariant
  import opened DirectoryTransfer
  import opened FileTransfer

  // ----- Why a node is there -----

  /** The thread has begun to create the entries of its current item. */
  predicate Begun(pc: Pc) {
    pc.Open? || pc.AtTarget? || pc.Link? || pc.AtBody? || pc.Write? || pc.SetMode? || pc.Stopped?
  }

  /** `p` leads to an item that the stream has completed or begun. */
  ghost predicate CalledFor(list: seq<Path>, st: Connection, p: Path) {
    exists i :: 0 <= i < |list| && i <= st.completed && (i < st.completed || Begun(st.pc)) && p <= list[i]
  }

  ghost predicate Justified(lists: seq<seq<Path>>, before: Files, sys: System) {
    && |sys.streams| == |lists|
    && forall p | p in sys.files ::
         p in before || exists s :: 0 <= s < |lists| && CalledFor(lists[s], sys.streams[s], p)
  }

  lemma {:induction false} DirectoriesAdded(files: Files, p: Path)
    requires MakeDirectories(files, p).Some?
    ensures forall q | q in MakeDirectories(files, p).value :: q in files || q <= p
    decreases |p|
  {
    if p != [] {
      DirectoriesAdded(files, Parent(p));
    }
  }

  /** An action on the item at `p` adds only paths that lead to it. */
  lemma {:induction false} ActionAdds(tree: Tree, root: Bytes, before: Files, p: Path, message: Bytes, into: nat,
                                      pc: Pc, shared: Shared, files: Files)
    requires ValidTree(tree, root) && SubtreeSafe(tree, root, before, files) && p in tree && !tree[p].SourceOther?
    requires ValidPath(p) && |WirePath(p)| <= Wire.MAX_NAME_BYTES && ValidSource(tree[p])
    requires Acting(pc) && Inside(ItemRecord(p, tree[p]), message, into, pc) && ItemOpen(files, p, tree[p], pc)
    ensures forall q | q in Perform(pc, shared, files).files :: q in files || q <= p
  {
    hide Reach, SafeRelativePath, Locate, Folder, WirePath, ValidTree, SubtreeSafe, MakeDirectories;
    hide LinkOrFallback, WriteAt;
    NameOfItem(tree, root, p);
    match pc
    case Dispatch(incoming) =>
      NoLinkToParent(tree, root, before, files, p);
      if MakeDirectories(files, p).Some? {
        DirectoriesAdded(files, p);
      }
      if MakeDirectories(files, Parent(p)).Some? {
        DirectoriesAdded(files, Parent(p));
      }
    case Open(_) =>
    case Link(_, target) =>
      if p in files {
        PartialAt(tree, root, before, files, p);
      }
      NoLinkOnTheWay(tree, root, before, files, p, false);
      LinkPlaced(files, p, target);
    case Write(_, _, _) =>
    case SetMode(_) =>
  }

  lemma {:induction false} KeptByAct(list: seq<Path>, wire: Bytes, st: Connection, s: nat, p: Path)
    requires Acting(st.pc) && CalledFor(list, st, p)
    ensures CalledFor(list, StepStream(wire, st, Act(s), None), p)
  {
    var i :| 0 <= i < |list| && i <= st.completed && (i < st.completed || Begun(st.pc)) && p <= list[i];
    assert NextPc(st.pc).AtHeader? || Begun(NextPc(st.pc));
  }

  /** A stream that acts keeps its reasons, and has one for each path it adds. */
  lemma {:induction false} ActCallsFor(tree: Tree, root: Bytes, list: seq<Path>, before: Files, wire: Bytes,
                                       st: Connection, s: nat, shared: Shared, files: Files, p: Path)
    requires ValidTree(tree, root) && SubtreeSafe(tree, root, before, files)
    requires forall i | 0 <= i < |list| :: list[i] in tree && !tree[list[i]].SourceOther?
    requires ListSafe(tree, list, st, files)
    requires Acting(st.pc) && FramedStream(ItemScript(tree, root, list), st)
    requires var effect := Perform(st.pc, shared, files);
             effect.thrown == None && p in effect.files && (p in files ==> CalledFor(list, st, p))
    ensures CalledFor(list, StepStream(wire, st, Act(s), None), p)
  {
    hide SubtreeSafe, Perform, Inside, EncodeRecord, ItemOpen, FramedStream, ItemRecord, ValidTree, CalledFor;
    var rs := ItemScript(tree, root, list);
    CurrentRecord(rs, st);
    var c := st.completed;
    var into: nat :| Inside(rs[c], EncodeRecord(rs[c]), into, st.pc);
    if p in files {
      KeptByAct(list, wire, st, s, p);
    } else {
      NameOfItem(tree, root, list[c]);
      ActionAdds(tree, root, before, list[c], EncodeRecord(rs[c]), into, st.pc, shared, files);
      BegunByAct(list, wire, st, s, p);
    }
  }

  /** An action begins the item, goes on with it or completes it. */
  lemma {:induction false} BegunByAct(list: seq<Path>, wire: Bytes, st: Connection, s: nat, p: Path)
    requires Acting(st.pc) && st.completed < |list| && p <= list[st.completed]
    ensures CalledFor(list, StepStream(wire, st, Act(s), None), p)
  {
    assert NextPc(st.pc).AtHeader? || Begun(NextPc(st.pc));
    assert p <= list[st.completed];
  }

  /** A quiet step of a stream keeps its reasons. */
  lemma {:induction false} QuietCallsFor(list: seq<Path>, wire: Bytes, st: Connection, e: Event, p: Path)
    requires CalledFor(list, st, p)
    requires !e.Act? && (e.Receive? ==> st.received + e.n <= |wire|)
    ensures CalledFor(list, StepStream(wire, st, e, None), p)
  {
    hide Wire.DecodeHeader;
    var i :| 0 <= i < |list| && i <= st.completed && (i < st.completed || Begun(st.pc)) && p <= list[i];
  }

  lemma {:induction false} StepJustified(tree: Tree, root: Bytes, lists: seq<seq<Path>>, before: Files, sys: System,
                                         e: Event)
    requires ValidTree(tree, root) && Spreads(tree, lists)
    requires TreeSafe(tree, root, lists, before, sys) && Justified(lists, before, sys)
    requires Framed(ItemScripts(tree, root, lists), sys.streams)
    requires Enabled(Wires(ItemScripts(tree, root, lists)), sys, e)
    ensures Justified(lists, before, Apply(Wires(ItemScripts(tree, root, lists)), sys, e))
  {
    hide SubtreeSafe, ListSafe, Perform, StepStream, FramedStream, ValidTree, CalledFor;
    var scripts := ItemScripts(tree, root, lists);
    var wires, s := Wires(scripts), e.s;
    var st, next := sys.streams[s], Apply(wires, sys, e);
    if e.Act? {
      assert FramedStream(scripts[s], st) && ListSafe(tree, lists[s], st, sys.files);
      OwnList(tree, root, lists[s], before, wires[s], st, s, sys.shared, sys.files);
      assert e == Act(s);
    }
    forall p | p in next.files && p !in before
      ensures exists t :: 0 <= t < |lists| && CalledFor(lists[t], next.streams[t], p)
    {
      if p in sys.files {
        var t :| 0 <= t < |lists| && CalledFor(lists[t], sys.streams[t], p);
        if t != s {
          assert CalledFor(lists[t], next.streams[t], p);
        } else if e.Act? {
          KeptByAct(lists[s], wires[s], st, s, p);
          assert CalledFor(lists[s], next.streams[s], p);
        } else {
          QuietCallsFor(lists[s], wires[s], st, e, p);
          assert CalledFor(lists[s], next.streams[s], p);
        }
      } else {
        ActCallsFor(tree, root, lists[s], before, wires[s], st, s, sys.shared, sys.files, p);
        assert CalledFor(lists[s], next.streams[s], p);
      }
    }
  }

  lemma {:induction false} AlwaysJustified(tree: Tree, root: Bytes, lists: seq<seq<Path>>, before: Files,
                                           states: seq<System>, events: seq<Event>)
    requires ValidTree(tree, root) && Spreads(tree, lists)
    requires forall p | p in before :: !Below(root, p)
    requires Execution(Wires(ItemScripts(tree, root, lists)), before, states, events)
    ensures Justified(lists, before, states[|events|])
  {
    hide TreeSafe, ValidTree, Spreads, Framed, Enabled, Apply;
    if events == [] {
    } else {
      var scripts, n := ItemScripts(tree, root, lists), |events| - 1;
      ExecutionPrefix(Wires(scripts), before, states, events);
      AlwaysJustified(tree, root, lists, before, states[..n + 1], events[..n]);
      AlwaysTreeSafe(tree, root, lists, before, states[..n + 1], events[..n]);
      AlwaysFramed(scripts, before, states[..n + 1], events[..n]);
      StepJustified(tree, root, lists, before, states[n], events[n]);
    }
  }

  // ----- The result -----

  /** `p` is one of the first `counts[s]` items of some stream `s`, or a directory on the way to one. */
  ghost predicate Reached(lists: seq<seq<Path>>, counts: seq<nat>, p: Path)
    requires |counts| == |lists|
  {
    exists s, i :: 0 <= s < |lists| && 0 <= i < |lists[s]| && i < counts[s] && p <= lists[s][i]
  }

  ghost function ReachedImages(tree: Tree, lists: seq<seq<Path>>, counts: seq<nat>): Files
    requires |counts| == |lists|
  {
    map p | p in tree && !tree[p].SourceOther? && p != [] && Reached(lists, counts, p) :: Image(tree[p])
  }

  function Counts(sys: System): (counts: seq<nat>)
    ensures |counts| == |sys.streams|
  {
    seq(|sys.streams|, s requires 0 <= s < |sys.streams| => sys.streams[s].completed)
  }

  /** Every path on the way to an existing one exists. */
  lemma {:induction false} WayExists(tree: Tree, root: Bytes, before: Files, files: Files, p: Path, q: Path)
    requires SubtreeSafe(tree, root, before, files) && q in files && Below(root, q) && p <= q && p != []
    ensures p in files
    decreases |q|
  {
    if p != q {
      assert HasParent(files, q) && p <= Parent(q);
      WayExists(tree, root, before, files, p, Parent(q));
    }
  }

  /** Each stream has carried exactly the items it has completed. */
  ghost predicate CutBetweenItems(tree: Tree, root: Bytes, lists: seq<seq<Path>>, sys: System)
    requires ValidTree(tree, root) && Spreads(tree, lists)
  {
    && |sys.streams| == |lists|
    && forall s | 0 <= s < |lists| ::
         && sys.streams[s].completed <= |lists[s]|
         && sys.streams[s].sent == |EncodeAll(ItemScripts(tree, root, lists)[s][..sys.streams[s].completed])|
  }

  /** What every thread's end without an error amounts to, wherever the connections were cut: each
      stream has carried a number of whole items, and the output is the old output plus exactly those
      items and the directories on the way to them. */
  lemma {:induction false} ErrorFreeDirectory(tree: Tree, root: Bytes, lists: seq<seq<Path>>, before: Files,
                                              states: seq<System>, events: seq<Event>)
    requires ValidTree(tree, root) && Spreads(tree, lists)
    requires forall p | p in before :: !Below(root, p)
    requires Execution(Wires(ItemScripts(tree, root, lists)), before, states, events)
    requires AllFinished(states[|events|])
    ensures CutBetweenItems(tree, root, lists, states[|events|])
    ensures states[|events|].files == before + ReachedImages(tree, lists, Counts(states[|events|]))
  {
    hide SubtreeSafe, ListSafe, ValidTree, EncodeAll, ItemScripts, CutReport, Justified, Spreads, ReachedImages;
    var sys, scripts := states[|events|], ItemScripts(tree, root, lists);
    AlwaysTreeSafe(tree, root, lists, before, states, events);
    AlwaysJustified(tree, root, lists, before, states, events);
    TruncationSoundUnderConcurrency(scripts, before, states, events);
    forall s | 0 <= s < |lists|
      ensures sys.streams[s].completed <= |lists[s]|
      ensures sys.streams[s].sent == |EncodeAll(scripts[s][..sys.streams[s].completed])|
    {
      WholeItems(scripts[s], sys.streams[s]);
    }
    FilesAreReached(tree, root, lists, before, sys);
  }

  lemma {:induction false} WholeItems(rs: seq<Record>, st: Connection)
    requires ValidRecords(rs) && CutReport(rs, st) && st.pc.Finished?
    ensures st.completed <= |rs| && st.sent == |EncodeAll(rs[..st.completed])|
  {
  }

  lemma {:induction false} FilesAreReached(tree: Tree, root: Bytes, lists: seq<seq<Path>>, before: Files, sys: System)
    requires ValidTree(tree, root) && Spreads(tree, lists)
    requires TreeSafe(tree, root, lists, before, sys) && Justified(lists, before, sys)
    requires forall s | 0 <= s < |lists| :: sys.streams[s].pc.Finished? && sys.streams[s].completed <= |lists[s]|
    ensures sys.files == before + ReachedImages(tree, lists, Counts(sys))
  {
    hide ListSafe, ValidTree, Reached, Image, Spreads;
    var images := ReachedImages(tree, lists, Counts(sys));
    forall p | p in sys.files && p !in before
      ensures p in images && sys.files[p] == images[p]
    {
      PresentIsReached(tree, root, lists, before, sys, p);
    }
    forall p | p in images
      ensures p in sys.files && p !in before
    {
      ReachedIsPresent(tree, root, lists, before, sys, p);
    }
    KeptBefore(tree, root, before, sys.files);
    hide TreeSafe, SubtreeSafe, ReachedImages, Justified;
    Together(before, images, sys.files);
  }

  lemma {:induction false} KeptBefore(tree: Tree, root: Bytes, before: Files, files: Files)
    requires SubtreeSafe(tree, root, before, files)
    ensures forall p | p in before :: p in files && files[p] == before[p]
  {
  }

  lemma {:induction false} Together(before: Files, added: Files, files: Files)
    requires forall p | p in before :: p in files && files[p] == before[p]
    requires forall p | p in added :: p in files && p !in before
    requires forall p | p in files && p !in before :: p in added && files[p] == added[p]
    ensures files == before + added
  {
  }

  lemma {:induction false} PresentIsReached(tree: Tree, root: Bytes, lists: seq<seq<Path>>, before: Files,
                                            sys: System, p: Path)
    requires ValidTree(tree, root) && Spreads(tree, lists)
    requires TreeSafe(tree, root, lists, before, sys) && Justified(lists, before, sys)
    requires forall s | 0 <= s < |lists| :: sys.streams[s].pc.Finished? && sys.streams[s].completed <= |lists[s]|
    requires p in sys.files && p !in before
    ensures p in tree && !tree[p].SourceOther? && p != [] && Reached(lists, Counts(sys), p)
    ensures sys.files[p] == Image(tree[p])
  {
    hide ValidTree, ListSafe, CalledFor, SubtreeSafe, Partial, Image;
    var s :| 0 <= s < |lists| && CalledFor(lists[s], sys.streams[s], p);
    var i := CompletedFor(lists[s], sys.streams[s], p);
    assert Counts(sys)[s] == sys.streams[s].completed;
    PresentNode(tree, root, before, sys.files, p);
    OnTheWay(tree, root, p, lists[s][i]);
    assert ListSafe(tree, lists[s], sys.streams[s], sys.files);
    NodeIsImage(tree, lists[s], sys.streams[s], sys.files, i, p);
  }

  lemma {:induction false} CompletedFor(list: seq<Path>, st: Connection, p: Path) returns (i: nat)
    requires CalledFor(list, st, p) && st.pc.Finished?
    ensures i < |list| && i < st.completed && p <= list[i]
  {
    i :| 0 <= i < |list| && i <= st.completed && (i < st.completed || Begun(st.pc)) && p <= list[i];
  }

  lemma {:induction false} NodeIsImage(tree: Tree, list: seq<Path>, st: Connection, files: Files, i: nat, p: Path)
    requires forall i | 0 <= i < |list| :: list[i] in tree && !tree[list[i]].SourceOther?
    requires ListSafe(tree, list, st, files) && i < |list| && i < st.completed && p in files
    requires p in tree && Partial(files[p], tree[p]) && (p != list[i] ==> IsDirectory(tree, p))
    ensures !tree[p].SourceOther? && files[p] == Image(tree[p])
  {
    hide ItemOpen;
    assert Holds(files, list[i], Image(tree[list[i]]));
  }

  lemma {:induction false} PresentNode(tree: Tree, root: Bytes, before: Files, files: Files, p: Path)
    requires SubtreeSafe(tree, root, before, files) && p in files && p !in before
    ensures p != [] && p in tree && Partial(files[p], tree[p])
  {
  }

  lemma {:induction false} ReachedIsPresent(tree: Tree, root: Bytes, lists: seq<seq<Path>>, before: Files,
                                            sys: System, p: Path)
    requires ValidTree(tree, root) && Spreads(tree, lists)
    requires TreeSafe(tree, root, lists, before, sys)
    requires p != [] && Reached(lists, Counts(sys), p)
    ensures p in sys.files && p !in before
  {
    var s, i :| 0 <= s < |lists| && 0 <= i < |lists[s]| && i < sys.streams[s].completed && p <= lists[s][i];
    var q := lists[s][i];
    assert ListSafe(tree, lists[s], sys.streams[s], sys.files) && Holds(sys.files, q, Image(tree[q]));
    assert q in tree && Below(root, q) && Below(root, p);
    WayExists(tree, root, before, sys.files, p, q);
  }
}
