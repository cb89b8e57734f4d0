/** A directory tree over parallel streams: every interleaving reproduces the tree. */
module DirectoryTransfer {
  import opened Basics
  import opened Wire
  import opened Framing
  import opened Paths
  import Sequences
  import opened FileSystem
  import opened Receiver
  import opened Streams
  import opened StreamInvariant
  import opened SystemInvariant

  /** A node of the source tree. Other nodes (sockets, devices) are not transferred. */
  datatype Source =
    | SourceDirectory(mode: U64)
    | SourceFile(content: Bytes, mode: U64)
    | SourceSymlink(target: Bytes)
    | SourceOther

  type Tree = map<Path, Source>

  /** A file of a 64-bit size; a link as read_symlink yields it, with a target that is not empty and
      has no NUL. */
  ghost predicate ValidSource(source: Source) {
    match source
    case SourceFile(content, _) => |content| < U64_MODULUS
    case SourceSymlink(target) => 0 < |target| < U64_MODULUS && NUL !in target
    case _ => true
  }

  /** The permission bits that travel: 07777. */
  function PermissionsValue(mode: U64): U64 {
    mode % 4096
  }

  /** `value` are the twelve low bits of `mode`. */
  predicate LowBits(mode: U64, value: U64) {
    value < 4096 && mode == value + 4096 * (mode / 4096)
  }

  predicate IsDirectory(tree: Tree, p: Path) {
    p in tree && tree[p].SourceDirectory?
  }

  /** A real directory `root` with everything below it; every parent is a directory. */
  ghost predicate ValidTree(tree: Tree, root: Bytes) {
    && IsDirectory(tree, [root])
    && forall p | p in tree ::
         && ValidPath(p) && p[0] == root && |WirePath(p)| <= MAX_NAME_BYTES
         && ValidSource(tree[p])
         && (|p| > 1 ==> IsDirectory(tree, Parent(p)))
  }

  /** The record a sender produces for one path. Modes travel in the offset field. */
  ghost function ItemRecord(p: Path, source: Source): (r: Record)
    requires ValidPath(p) && |WirePath(p)| <= MAX_NAME_BYTES && ValidSource(source) && !source.SourceOther?
    ensures ValidRecord(r)
  {
    var name := WirePath(p);
    assert p[0] in p;
    FirstOfJoin(p);
    match source
    case SourceDirectory(mode) => Record(KIND_DIRECTORY_ENTRY, name, PermissionsValue(mode), 0, [])
    case SourceFile(content, mode) => Record(KIND_DIRECTORY_FILE, name, PermissionsValue(mode), 0, content)
    case SourceSymlink(target) => Record(KIND_DIRECTORY_SYMLINK, name, 0, 0, target)
  }

  /** How the paths of the tree are spread over the streams: every transferred path occurs in
      exactly one place of one list. */
  ghost predicate Spreads(tree: Tree, lists: seq<seq<Path>>) {
    && (forall s, i | 0 <= s < |lists| && 0 <= i < |lists[s]| :: lists[s][i] in tree && !tree[lists[s][i]].SourceOther?)
    && (forall s, i, t, j | 0 <= s < |lists| && 0 <= i < |lists[s]| && 0 <= t < |lists| && 0 <= j < |lists[t]|
                            && lists[s][i] == lists[t][j] :: s == t && i == j)
    && (forall p | p in tree && !tree[p].SourceOther? ::
          exists s, i :: 0 <= s < |lists| && 0 <= i < |lists[s]| && lists[s][i] == p)
  }

  ghost function ItemScript(tree: Tree, root: Bytes, list: seq<Path>): (rs: seq<Record>)
    requires ValidTree(tree, root)
    requires forall i | 0 <= i < |list| :: list[i] in tree && !tree[list[i]].SourceOther?
    ensures |rs| == |list| && ValidRecords(rs)
    ensures forall i | 0 <= i < |list| :: rs[i] == ItemRecord(list[i], tree[list[i]])
  {
    seq(|list|, i requires 0 <= i < |list| => ItemRecord(list[i], tree[list[i]]))
  }

  ghost function ItemScripts(tree: Tree, root: Bytes, lists: seq<seq<Path>>): (scripts: seq<seq<Record>>)
    requires ValidTree(tree, root) && Spreads(tree, lists)
    ensures |scripts| == |lists| && ValidScripts(scripts)
    ensures forall s | 0 <= s < |lists| :: scripts[s] == ItemScript(tree, root, lists[s])
  {
    seq(|lists|, s requires 0 <= s < |lists| => ItemScript(tree, root, lists[s]))
  }

  /** What the nodes of a list hold: the bytes of the files and of the link targets. */
  function SourceBytes(tree: Tree, list: seq<Path>): nat
    requires forall i | 0 <= i < |list| :: list[i] in tree
  {
    if list == [] then 0
    else
      var n := |list| - 1;
      SourceBytes(tree, list[..n]) +
      match tree[list[n]]
      case SourceFile(content, _) => |content|
      case SourceSymlink(target) => |target|
      case _ => 0
  }

  // ----- What holds in every reachable state -----

  /** The received form of a node: directory modes are not transferred. */
  function Image(source: Source): Node
    requires !source.SourceOther?
  {
    match source
    case SourceDirectory(_) => Directory
    case SourceFile(content, mode) => File(content, PermissionsValue(mode))
    case SourceSymlink(target) => Symlink(target)
  }

  /** A node on its way to being the image of `source`: a file may still lack its tail. */
  ghost predicate Partial(node: Node, source: Source) {
    match source
    case SourceDirectory(_) => node == Directory
    case SourceFile(content, _) => node.File? && node.content <= content
    case SourceSymlink(target) => node == Symlink(target)
    case SourceOther => false
  }

  predicate Below(root: Bytes, p: Path) {
    p != [] && p[0] == root
  }

  /** Below the root there is a parent-closed part of the tree, with files complete up to some
      prefix; everything else is as it was. */
  ghost predicate SubtreeSafe(tree: Tree, root: Bytes, before: Files, files: Files) {
    && (forall p | p in files && Below(root, p) ::
          && p in tree && Partial(files[p], tree[p])
          && HasParent(files, p))
    && (forall p | p in before :: !Below(root, p) && p in files && files[p] == before[p])
    && (forall p | p in files && !Below(root, p) :: p in before)
  }

  ghost predicate Holds(files: Files, p: Path, node: Node) {
    p in files && files[p] == node
  }

  /** What the action pending in `pc` relies on, for the item at `p`. */
  ghost predicate ItemOpen(files: Files, p: Path, source: Source, pc: Pc) {
    match pc
    case Open(_) => p != [] && HasParent(files, p)
    case AtTarget(_, _) => p != [] && HasParent(files, p)
    case Link(_, _) => p != [] && HasParent(files, p)
    case AtBody(_, got) => source.SourceFile? && got <= |source.content| && FileHolds(files, p, source.content[..got])
    case Write(_, got, _) => source.SourceFile? && got <= |source.content| && FileHolds(files, p, source.content[..got])
    case SetMode(_) => source.SourceFile? && FileHolds(files, p, source.content)
    case _ => true
  }

  ghost predicate FileHolds(files: Files, p: Path, content: Bytes) {
    p in files && files[p].File? && files[p].content == content
  }

  /** All items a stream has completed are in place, and the current one is under way. */
  ghost predicate ListSafe(tree: Tree, list: seq<Path>, st: Connection, files: Files)
    requires forall i | 0 <= i < |list| :: list[i] in tree && !tree[list[i]].SourceOther?
  {
    && (st.pc.Stopped? ==> st.pc.reason.Protocol?)
    && st.completed <= |list|
    && (forall i | 0 <= i < st.completed :: Holds(files, list[i], Image(tree[list[i]])))
    && (st.completed < |list| ==> ItemOpen(files, list[st.completed], tree[list[st.completed]], st.pc))
  }

  ghost predicate TreeSafe(tree: Tree, root: Bytes, lists: seq<seq<Path>>, before: Files, sys: System)
    requires Spreads(tree, lists)
  {
    && |sys.streams| == |lists|
    && SubtreeSafe(tree, root, before, sys.files)
    && forall s | 0 <= s < |lists| :: ListSafe(tree, lists[s], sys.streams[s], sys.files)
  }

  // ----- Effects on the files -----

  /** `files'` keeps all nodes of `files`, except possibly a file or link at `p`. */
  ghost predicate KeepsOthers(files: Files, files': Files, p: Path) {
    forall q | q in files && (q != p || files[q].Directory?) :: q in files' && files'[q] == files[q]
  }

  /** Creating the directories on the way to a directory of the tree succeeds, adds only
      directories of the tree, and changes no existing node. */
  lemma {:induction false} MakeTreeDirectories(tree: Tree, root: Bytes, before: Files, files: Files, p: Path)
    requires ValidTree(tree, root) && SubtreeSafe(tree, root, before, files)
    requires p == [] || IsDirectory(tree, p)
    ensures var made := MakeDirectories(files, p);
            && made.Some?
            && SubtreeSafe(tree, root, before, made.value)
            && (forall q | q in files :: q in made.value && made.value[q] == files[q])
            && (p != [] ==> Holds(made.value, p, Directory))
    decreases |p|
  {
    if p != [] {
      assert |p| > 1 ==> IsDirectory(tree, Parent(p));
      MakeTreeDirectories(tree, root, before, files, Parent(p));
      var made := MakeDirectories(files, Parent(p)).value;
      if p !in made {
        AddNode(tree, root, before, made, p, Directory);
      } else {
        assert Partial(made[p], tree[p]);
      }
    }
  }

  /** Putting a partial node at a path of the tree whose parent is there keeps the subtree safe. */
  lemma {:induction false} AddNode(tree: Tree, root: Bytes, before: Files, files: Files, p: Path, node: Node)
    requires ValidTree(tree, root) && SubtreeSafe(tree, root, before, files)
    requires p in tree && Partial(node, tree[p]) && HasParent(files, p)
    ensures SubtreeSafe(tree, root, before, files[p := node])
    ensures HasParent(files[p := node], p)
    ensures KeepsOthers(files, files[p := node], p)
  {
    var files' := files[p := node];
    forall q | q in files' && Below(root, q)
      ensures q in tree && Partial(files'[q], tree[q]) && HasParent(files', q)
    {
      if q != p {
        assert HasParent(files, q);
      }
      if |q| > 1 && Parent(q) == p {
        assert IsDirectory(tree, p);
      }
    }
    forall q | q in before
      ensures !Below(root, q) && q in files' && files'[q] == before[q]
    {
      assert Below(root, p);
    }
  }

  /** What an action on the item at `p` ensures. */
  ghost predicate GoodItemAction(tree: Tree, root: Bytes, before: Files, p: Path, source: Source, pc: Pc,
                                 files: Files, effect: Effect)
    requires Acting(pc) && !source.SourceOther?
  {
    && effect.thrown == None
    && SubtreeSafe(tree, root, before, effect.files)
    && KeepsOthers(files, effect.files, p)
    && if NextPc(pc).AtHeader? then Holds(effect.files, p, Image(source))
       else ItemOpen(effect.files, p, source, NextPc(pc))
  }

  lemma {:induction false} NameOfItem(tree: Tree, root: Bytes, p: Path)
    requires ValidTree(tree, root) && p in tree && !tree[p].SourceOther?
    ensures ValidPath(p) && |WirePath(p)| <= MAX_NAME_BYTES && ValidSource(tree[p])
    ensures SafeRelativePath(ItemRecord(p, tree[p]).name) == Some(p)
    ensures Locate(p) == Some(p) && Folder(p) == p && Folder(Parent(p)) == Parent(p)
    ensures |p| > 1 ==> IsDirectory(tree, Parent(p))
  {
    WirePathRoundTrip(p);
    ValidPathStays(p);
  }

  /** Every path on the way to a path of the tree is a directory of the tree. */
  lemma {:induction false} OnTheWay(tree: Tree, root: Bytes, p: Path, q: Path)
    requires ValidTree(tree, root) && q in tree && p <= q && p != []
    ensures p in tree && (p != q ==> IsDirectory(tree, p))
    decreases |q|
  {
    if p != q {
      assert p <= Parent(q);
      OnTheWay(tree, root, p, Parent(q));
    }
  }

  /** The system gets to a path of the tree without following a link: on the way there are only
      directories of the tree. */
  lemma {:induction false} NoLinkOnTheWay(tree: Tree, root: Bytes, before: Files, files: Files, p: Path, last: bool)
    requires ValidTree(tree, root) && SubtreeSafe(tree, root, before, files)
    requires p == [] || (p in tree && (last ==> !tree[p].SourceSymlink?))
    ensures Reach(files, p, last) == Arrives(p)
  {
    assert p != [] ==> ValidPath(p);
    NoCut(p);
    forall q | q != [] && q <= p && q in files && (q != p || last)
      ensures !files[q].Symlink?
    {
      OnTheWay(tree, root, q, p);
      assert Below(root, q) && Partial(files[q], tree[q]);
    }
    ArrivesAtItself(files, p, last);
  }

  lemma {:induction false} NoLinkToParent(tree: Tree, root: Bytes, before: Files, files: Files, p: Path)
    requires ValidTree(tree, root) && SubtreeSafe(tree, root, before, files) && p in tree
    ensures p != [] && Reach(files, Parent(p), true) == Arrives(Parent(p))
  {
    assert |p| > 1 ==> IsDirectory(tree, Parent(p));
    NoLinkOnTheWay(tree, root, before, files, Parent(p), true);
  }

  lemma {:induction false} DispatchDirectory(tree: Tree, root: Bytes, before: Files, p: Path, shared: Shared,
                                             files: Files)
    requires ValidTree(tree, root) && SubtreeSafe(tree, root, before, files) && p in tree && tree[p].SourceDirectory?
    requires ValidPath(p) && |WirePath(p)| <= MAX_NAME_BYTES && ValidSource(tree[p])
    ensures var pc := Dispatch(IncomingOf(ItemRecord(p, tree[p])));
            GoodItemAction(tree, root, before, p, tree[p], pc, files, Perform(pc, shared, files))
  {
    hide Reach, Locate, Folder, SafeRelativePath, MakeDirectories, SubtreeSafe, ValidTree, Perform;
    NameOfItem(tree, root, p);
    MakeTreeDirectories(tree, root, before, files, p);
    NoLinkOnTheWay(tree, root, before, files, p, true);
    DispatchMakes(IncomingOf(ItemRecord(p, tree[p])), p, shared, files);
  }

  lemma {:induction false} DispatchMakes(incoming: Incoming, p: Path, shared: Shared, files: Files)
    requires SafeRelativePath(incoming.name) == Some(p) && Folder(p) == p
    requires Reach(files, p, true).Arrives?
    requires incoming.header.kind == KIND_DIRECTORY_ENTRY
    ensures Perform(Dispatch(incoming), shared, files) ==
            FromAttempt(shared, Tried(files, MakeDirectories(files, p)))
  {
    hide Reach, Locate, Folder, SafeRelativePath, MakeDirectories;
  }

  lemma {:induction false} DispatchPayload(tree: Tree, root: Bytes, before: Files, p: Path, shared: Shared,
                                           files: Files)
    requires ValidTree(tree, root) && SubtreeSafe(tree, root, before, files) && p in tree
    requires tree[p].SourceFile? || tree[p].SourceSymlink?
    requires ValidPath(p) && |WirePath(p)| <= MAX_NAME_BYTES && ValidSource(tree[p])
    ensures var pc := Dispatch(IncomingOf(ItemRecord(p, tree[p])));
            GoodItemAction(tree, root, before, p, tree[p], pc, files, Perform(pc, shared, files))
  {
    hide Reach, Locate, Folder, SafeRelativePath, MakeDirectories, SubtreeSafe, ValidTree, Perform;
    NameOfItem(tree, root, p);
    NoLinkToParent(tree, root, before, files, p);
    DispatchMakesParent(IncomingOf(ItemRecord(p, tree[p])), p, shared, files);
    MakeTreeDirectories(tree, root, before, files, Parent(p));
  }

  lemma {:induction false} DispatchMakesParent(incoming: Incoming, p: Path, shared: Shared, files: Files)
    requires SafeRelativePath(incoming.name) == Some(p) && p != [] && Folder(Parent(p)) == Parent(p)
    requires Reach(files, Parent(p), true).Arrives?
    requires incoming.header.kind == KIND_DIRECTORY_FILE || incoming.header.kind == KIND_DIRECTORY_SYMLINK
    ensures Perform(Dispatch(incoming), shared, files) ==
            FromAttempt(shared, Tried(files, MakeDirectories(files, Parent(p))))
  {
    hide Reach, Locate, Folder, SafeRelativePath, MakeDirectories;
  }

  lemma {:induction false} OpenItem(tree: Tree, root: Bytes, before: Files, p: Path, shared: Shared, files: Files)
    requires ValidTree(tree, root) && SubtreeSafe(tree, root, before, files) && p in tree && tree[p].SourceFile?
    requires ValidPath(p) && |WirePath(p)| <= MAX_NAME_BYTES && ValidSource(tree[p])
    requires HasParent(files, p)
    ensures var pc := Open(IncomingOf(ItemRecord(p, tree[p])));
            GoodItemAction(tree, root, before, p, tree[p], pc, files, Perform(pc, shared, files))
  {
    hide Reach, Locate, Folder, SafeRelativePath, SubtreeSafe;
    NameOfItem(tree, root, p);
    NoLinkOnTheWay(tree, root, before, files, p, true);
    if p in files {
      PartialAt(tree, root, before, files, p);
    }
    var mode := if p in files then files[p].mode else DEFAULT_MODE;
    AddNode(tree, root, before, files, p, File([], mode));
    assert tree[p].content[..0] == [];
  }

  lemma {:induction false} PartialAt(tree: Tree, root: Bytes, before: Files, files: Files, p: Path)
    requires ValidTree(tree, root) && SubtreeSafe(tree, root, before, files) && p in tree && p in files
    ensures Partial(files[p], tree[p]) && HasParent(files, p)
  {
    assert Below(root, p);
  }

  lemma {:induction false} LinkItem(tree: Tree, root: Bytes, before: Files, p: Path, shared: Shared, files: Files)
    requires ValidTree(tree, root) && SubtreeSafe(tree, root, before, files) && p in tree && tree[p].SourceSymlink?
    requires ValidPath(p) && |WirePath(p)| <= MAX_NAME_BYTES && ValidSource(tree[p])
    requires HasParent(files, p)
    ensures var pc := Link(IncomingOf(ItemRecord(p, tree[p])), tree[p].target);
            GoodItemAction(tree, root, before, p, tree[p], pc, files, Perform(pc, shared, files))
  {
    hide Reach, Locate, Folder, SafeRelativePath, SubtreeSafe, LinkOrFallback;
    NameOfItem(tree, root, p);
    NoLinkOnTheWay(tree, root, before, files, p, false);
    if p in files {
      PartialAt(tree, root, before, files, p);
    }
    AddNode(tree, root, before, files, p, Symlink(tree[p].target));
    LinkPlaced(files, p, tree[p].target);
  }

  lemma {:induction false} LinkPlaced(files: Files, p: Path, target: Bytes)
    requires p != [] && Locate(p) == Some(p) && HasParent(files, p) && target != [] && NUL !in target
    requires Reach(files, p, false).Arrives?
    requires p in files ==> files[p].Symlink?
    ensures LinkOrFallback(files, p, target) == Attempt(Done, files[p := Symlink(target)])
  {
    hide Reach, Locate;
    Sequences.BeforeNone(target, NUL);
    assert (files - {p})[p := Symlink(target)] == files[p := Symlink(target)];
  }

  lemma {:induction false} WriteAtEnd(content: Bytes, chunk: Bytes)
    ensures WriteAt(content, |content|, chunk) == content + chunk
  {
  }

  lemma {:induction false} WriteItem(tree: Tree, root: Bytes, before: Files, p: Path, shared: Shared, files: Files,
                                     got: nat, chunk: Bytes)
    requires ValidTree(tree, root) && SubtreeSafe(tree, root, before, files) && p in tree && tree[p].SourceFile?
    requires ValidPath(p) && |WirePath(p)| <= MAX_NAME_BYTES && ValidSource(tree[p])
    requires got + |chunk| <= |tree[p].content| && chunk == tree[p].content[got..got + |chunk|]
    requires FileHolds(files, p, tree[p].content[..got])
    ensures var pc := Write(IncomingOf(ItemRecord(p, tree[p])), got, chunk);
            GoodItemAction(tree, root, before, p, tree[p], pc, files, Perform(pc, shared, files))
  {
    hide Reach, Locate, Folder, SafeRelativePath, SubtreeSafe, WriteAt, ValidTree, WirePath;
    NameOfItem(tree, root, p);
    PartialAt(tree, root, before, files, p);
    var content := tree[p].content;
    WriteAtEnd(content[..got], chunk);
    LongerPrefix(content, got, |chunk|);
    AddNode(tree, root, before, files, p, File(content[..got + |chunk|], files[p].mode));
  }

  lemma {:induction false} SetModeItem(tree: Tree, root: Bytes, before: Files, p: Path, shared: Shared, files: Files)
    requires ValidTree(tree, root) && SubtreeSafe(tree, root, before, files) && p in tree && tree[p].SourceFile?
    requires ValidPath(p) && |WirePath(p)| <= MAX_NAME_BYTES && ValidSource(tree[p])
    requires FileHolds(files, p, tree[p].content)
    ensures var pc := SetMode(IncomingOf(ItemRecord(p, tree[p])));
            GoodItemAction(tree, root, before, p, tree[p], pc, files, Perform(pc, shared, files))
  {
    hide Reach, Locate, Folder, SafeRelativePath, SubtreeSafe;
    NameOfItem(tree, root, p);
    NoLinkOnTheWay(tree, root, before, files, p, true);
    PartialAt(tree, root, before, files, p);
    AddNode(tree, root, before, files, p, File(tree[p].content, PermissionsValue(tree[p].mode)));
  }

  /** Every action on an item of the tree succeeds and does its part of the item. */
  lemma {:induction false} ItemAction(tree: Tree, root: Bytes, before: Files, p: Path, message: Bytes, into: nat,
                                      pc: Pc, shared: Shared, files: Files)
    requires ValidTree(tree, root) && SubtreeSafe(tree, root, before, files) && p in tree && !tree[p].SourceOther?
    requires ValidPath(p) && |WirePath(p)| <= MAX_NAME_BYTES && ValidSource(tree[p])
    requires Acting(pc) && Inside(ItemRecord(p, tree[p]), message, into, pc) && ItemOpen(files, p, tree[p], pc)
    ensures GoodItemAction(tree, root, before, p, tree[p], pc, files, Perform(pc, shared, files))
  {
    hide SubtreeSafe, Perform, GoodItemAction, ValidTree;
    match pc
    case Dispatch(_) =>
      if tree[p].SourceDirectory? {
        DispatchDirectory(tree, root, before, p, shared, files);
      } else {
        DispatchPayload(tree, root, before, p, shared, files);
      }
    case Open(_) => OpenItem(tree, root, before, p, shared, files);
    case Link(_, _) => LinkItem(tree, root, before, p, shared, files);
    case Write(_, got, chunk) => WriteItem(tree, root, before, p, shared, files, got, chunk);
    case SetMode(_) => SetModeItem(tree, root, before, p, shared, files);
  }

  // ----- Steps keep the invariant -----

  lemma {:induction false} QuietItemStep(tree: Tree, list: seq<Path>, wire: Bytes, st: Connection, e: Event,
                                         files: Files)
    requires forall i | 0 <= i < |list| :: list[i] in tree && !tree[list[i]].SourceOther?
    requires ListSafe(tree, list, st, files)
    requires !e.Act? && (e.Receive? ==> st.received + e.n <= |wire|)
    ensures ListSafe(tree, list, StepStream(wire, st, e, None), files)
  {
    hide DecodeHeader;
  }

  lemma {:induction false} OtherList(tree: Tree, list: seq<Path>, st: Connection, files: Files, files': Files, p: Path)
    requires forall i | 0 <= i < |list| :: list[i] in tree && !tree[list[i]].SourceOther?
    requires ListSafe(tree, list, st, files)
    requires KeepsOthers(files, files', p) && p !in list
    ensures ListSafe(tree, list, st, files')
  {
  }

  lemma {:induction false} OtherLists(tree: Tree, lists: seq<seq<Path>>, s: nat, streams: seq<Connection>, files: Files,
                                      files': Files)
    requires Spreads(tree, lists) && |streams| == |lists| && s < |lists| && streams[s].completed < |lists[s]|
    requires forall t | 0 <= t < |lists| :: ListSafe(tree, lists[t], streams[t], files)
    requires KeepsOthers(files, files', lists[s][streams[s].completed])
    ensures forall t | 0 <= t < |lists| && t != s :: ListSafe(tree, lists[t], streams[t], files')
  {
    hide ListSafe, KeepsOthers;
    forall t | 0 <= t < |lists| && t != s
      ensures ListSafe(tree, lists[t], streams[t], files')
    {
      OtherList(tree, lists[t], streams[t], files, files', lists[s][streams[s].completed]);
    }
  }

  lemma {:induction false} OwnListAfter(tree: Tree, list: seq<Path>, wire: Bytes, st: Connection, s: nat,
                                        files: Files, files': Files)
    requires forall i | 0 <= i < |list| :: list[i] in tree && !tree[list[i]].SourceOther?
    requires forall i, j | 0 <= i < j < |list| :: list[i] != list[j]
    requires ListSafe(tree, list, st, files) && Acting(st.pc) && st.completed < |list|
    requires KeepsOthers(files, files', list[st.completed])
    requires var p := list[st.completed];
             if NextPc(st.pc).AtHeader? then Holds(files', p, Image(tree[p]))
             else ItemOpen(files', p, tree[p], NextPc(st.pc))
    ensures ListSafe(tree, list, StepStream(wire, st, Act(s), None), files')
  {
    hide ItemOpen, Image;
    var c := st.completed;
    NextHeader(st.pc);
    if c + 1 < |list| {
      FreshItem(files', list[c + 1], tree[list[c + 1]]);
    }
    assert forall i | 0 <= i < c :: Holds(files, list[i], Image(tree[list[i]])) && list[i] != list[c];
  }

  lemma {:induction false} FreshItem(files: Files, p: Path, source: Source)
    ensures ItemOpen(files, p, source, AtHeader([]))
  {
  }

  lemma {:induction false} NextHeader(pc: Pc)
    requires Acting(pc)
    ensures NextPc(pc).AtHeader? ==> NextPc(pc) == AtHeader([])
    ensures !NextPc(pc).Stopped?
  {
  }

  lemma {:induction false} OwnList(tree: Tree, root: Bytes, list: seq<Path>, before: Files, wire: Bytes,
                                   st: Connection, s: nat, shared: Shared, files: Files)
    requires ValidTree(tree, root) && SubtreeSafe(tree, root, before, files)
    requires forall i | 0 <= i < |list| :: list[i] in tree && !tree[list[i]].SourceOther?
    requires forall i, j | 0 <= i < j < |list| :: list[i] != list[j]
    requires ListSafe(tree, list, st, files)
    requires Acting(st.pc) && FramedStream(ItemScript(tree, root, list), st)
    ensures st.completed < |list|
    ensures var effect := Perform(st.pc, shared, files);
            && effect.thrown == None
            && SubtreeSafe(tree, root, before, effect.files)
            && KeepsOthers(files, effect.files, list[st.completed])
            && ListSafe(tree, list, StepStream(wire, st, Act(s), None), effect.files)
  {
    hide SubtreeSafe, Perform, Inside, EncodeRecord, ItemOpen, FramedStream, ItemRecord;
    hide StepStream, NextPc, KeepsOthers, Image;
    var rs := ItemScript(tree, root, list);
    CurrentRecord(rs, st);
    var c := st.completed;
    var into: nat :| Inside(rs[c], EncodeRecord(rs[c]), into, st.pc);
    NameOfItem(tree, root, list[c]);
    ItemAction(tree, root, before, list[c], EncodeRecord(rs[c]), into, st.pc, shared, files);
    OwnListAfter(tree, list, wire, st, s, files, Perform(st.pc, shared, files).files);
  }

  lemma {:induction false} TreeStep(tree: Tree, root: Bytes, lists: seq<seq<Path>>, before: Files, sys: System,
                                    e: Event)
    requires ValidTree(tree, root) && Spreads(tree, lists)
    requires TreeSafe(tree, root, lists, before, sys)
    requires Framed(ItemScripts(tree, root, lists), sys.streams)
    requires Enabled(Wires(ItemScripts(tree, root, lists)), sys, e)
    ensures TreeSafe(tree, root, lists, before, Apply(Wires(ItemScripts(tree, root, lists)), sys, e))
  {
    hide SubtreeSafe, ListSafe, Perform, StepStream, FramedStream, KeepsOthers, ValidTree, EncodeAll;
    var scripts := ItemScripts(tree, root, lists);
    var wires, s := Wires(scripts), e.s;
    var st := sys.streams[s];
    if e.Act? {
      assert FramedStream(scripts[s], st);
      OwnList(tree, root, lists[s], before, wires[s], st, s, sys.shared, sys.files);
      var effect := Perform(st.pc, sys.shared, sys.files);
      assert e == Act(s) && effect.thrown == None;
      OtherLists(tree, lists, s, sys.streams, sys.files, effect.files);
    } else {
      QuietItemStep(tree, lists[s], wires[s], st, e, sys.files);
    }
  }

  lemma {:induction false} StartTreeSafe(tree: Tree, root: Bytes, lists: seq<seq<Path>>, before: Files)
    requires ValidTree(tree, root) && Spreads(tree, lists)
    requires forall p | p in before :: !Below(root, p)
    ensures TreeSafe(tree, root, lists, before, Start(|lists|, before))
  {
  }

  /** In every reachable state of every schedule the output below the root is a parent-closed part
      of the tree with prefix-complete files, and nothing else has changed. */
  lemma {:induction false} AlwaysTreeSafe(tree: Tree, root: Bytes, lists: seq<seq<Path>>, before: Files,
                                          states: seq<System>, events: seq<Event>)
    requires ValidTree(tree, root) && Spreads(tree, lists)
    requires forall p | p in before :: !Below(root, p)
    requires Execution(Wires(ItemScripts(tree, root, lists)), before, states, events)
    ensures TreeSafe(tree, root, lists, before, states[|events|])
  {
    hide TreeSafe, ValidTree, Spreads, Framed;
    if events == [] {
      StartTreeSafe(tree, root, lists, before);
    } else {
      var scripts, n := ItemScripts(tree, root, lists), |events| - 1;
      ExecutionPrefix(Wires(scripts), before, states, events);
      AlwaysTreeSafe(tree, root, lists, before, states[..n + 1], events[..n]);
      AlwaysFramed(scripts, before, states[..n + 1], events[..n]);
      TreeStep(tree, root, lists, before, states[n], events[n]);
    }
  }

  // ----- Results -----

  /** The source tree as it should arrive. */
  ghost function Images(tree: Tree): Files {
    map p | p in tree && !tree[p].SourceOther? :: Image(tree[p])
  }

  /** What a transfer promises of one node: the content and the permission bits of a file, the target of
      a link. */
  ghost predicate Arrived(source: Source, node: Node) {
    match source
    case SourceDirectory(_) => node.Directory?
    case SourceFile(content, mode) => node.File? && node.content == content && LowBits(mode, node.mode)
    case SourceSymlink(target) => node.Symlink? && node.target == target
    case SourceOther => false
  }

  /** Every node of the tree has arrived at its path, what was there before is as it was, and there is
      nothing else. */
  ghost predicate TreeArrived(tree: Tree, before: Files, files: Files) {
    && (forall p | p in tree && !tree[p].SourceOther? :: p in files && Arrived(tree[p], files[p]))
    && (forall p | p in before :: p in files && files[p] == before[p])
    && (forall p | p in files && p !in before :: p in tree && !tree[p].SourceOther?)
  }

  lemma {:induction false} ImagesArrive(tree: Tree, root: Bytes, before: Files)
    requires ValidTree(tree, root) && forall p | p in before :: !Below(root, p)
    ensures TreeArrived(tree, before, before + Images(tree))
  {
    hide ValidSource, WirePath;
    forall p | p in before
      ensures p !in tree
    {
      assert !Below(root, p);
    }
  }

  /** A run in which every sender stream has delivered its items and every receiver thread has left
      its loop normally. */
  ghost predicate AllDelivered(tree: Tree, root: Bytes, lists: seq<seq<Path>>, before: Files, states: seq<System>,
                               events: seq<Event>)
    requires ValidTree(tree, root) && Spreads(tree, lists)
  {
    && Execution(Wires(ItemScripts(tree, root, lists)), before, states, events)
    && var sys := states[|events|];
       && |sys.streams| == |lists|
       && forall s | 0 <= s < |lists| ::
            sys.streams[s].pc.Finished?
            && sys.streams[s].sent == |EncodeAll(ItemScript(tree, root, lists[s]))|
  }

  /** The main result: once every sender stream has delivered its items and every receiver thread
      has left its loop normally, the output is the old output plus exactly the source tree:
      paths, file contents, file modes and link targets. */
  lemma {:induction false} ParallelDirectoryIsCorrect(tree: Tree, root: Bytes, lists: seq<seq<Path>>, before: Files,
                                                      states: seq<System>, events: seq<Event>)
    requires ValidTree(tree, root) && Spreads(tree, lists)
    requires forall p | p in before :: !Below(root, p)
    requires AllDelivered(tree, root, lists, before, states, events)
    ensures |states| > |events| && states[|events|].files == before + Images(tree)
    ensures TreeArrived(tree, before, states[|events|].files)
  {
    hide TreeArrived;
    var sys, scripts := states[|events|], ItemScripts(tree, root, lists);
    AlwaysTreeSafe(tree, root, lists, before, states, events);
    TruncationSoundUnderConcurrency(scripts, before, states, events);
    forall p | p in tree && !tree[p].SourceOther?
      ensures Holds(sys.files, p, Image(tree[p]))
    {
      var s, i :| 0 <= s < |lists| && 0 <= i < |lists[s]| && lists[s][i] == p;
      assert CutReport(scripts[s], sys.streams[s]) && ListSafe(tree, lists[s], sys.streams[s], sys.files);
    }
    SameFiles(tree, root, before, sys.files);
    ImagesArrive(tree, root, before);
  }

  lemma {:induction false} SameFiles(tree: Tree, root: Bytes, before: Files, files: Files)
    requires ValidTree(tree, root) && SubtreeSafe(tree, root, before, files)
    requires forall p | p in tree && !tree[p].SourceOther? :: Holds(files, p, Image(tree[p]))
    ensures files == before + Images(tree)
  {
    var expected := before + Images(tree);
    forall p
      ensures p in files <==> p in expected
    {
      if p in files && Below(root, p) {
        assert Partial(files[p], tree[p]);
      }
    }
    forall p | p in files
      ensures files[p] == expected[p]
    {
      if p in tree {
        assert Below(root, p) && Holds(files, p, Image(tree[p]));
      }
    }
  }

  /** No thread ever reports an error unless its own connection was cut inside a record. */
  lemma {:induction false} NoSpuriousErrors(tree: Tree, root: Bytes, lists: seq<seq<Path>>, before: Files,
                                            states: seq<System>, events: seq<Event>, s: nat)
    requires ValidTree(tree, root) && Spreads(tree, lists) && s < |lists|
    requires forall p | p in before :: !Below(root, p)
    requires Execution(Wires(ItemScripts(tree, root, lists)), before, states, events)
    ensures |states[|events|].streams| == |lists|
    ensures states[|events|].streams[s].pc.Stopped? ==>
              states[|events|].streams[s].closed
              && states[|events|].streams[s].sent < |EncodeAll(ItemScript(tree, root, lists[s]))|
  {
    hide ValidTree, ListSafe, SubtreeSafe, CutReport, EncodeAll, Enabled, Apply;
    var sys, scripts := states[|events|], ItemScripts(tree, root, lists);
    AlwaysTreeSafe(tree, root, lists, before, states, events);
    TruncationSoundUnderConcurrency(scripts, before, states, events);
    var st := sys.streams[s];
    assert ListSafe(tree, lists[s], st, sys.files) && CutReport(scripts[s], st);
    StoppedByCut(tree, lists[s], scripts[s], st, sys.files);
  }

  lemma {:induction false} StoppedByCut(tree: Tree, list: seq<Path>, rs: seq<Record>, st: Connection, files: Files)
    requires forall i | 0 <= i < |list| :: list[i] in tree && !tree[list[i]].SourceOther?
    requires ListSafe(tree, list, st, files) && ValidRecords(rs) && CutReport(rs, st)
    ensures st.pc.Stopped? ==> st.closed && st.sent < |EncodeAll(rs)|
  {
    hide EncodeAll, ItemOpen;
    if st.pc.Stopped? {
      PrefixIsShorter(rs, st.completed + 1);
    }
  }

  lemma {:induction false} PrefixIsShorter(rs: seq<Record>, k: nat)
    requires ValidRecords(rs) && k <= |rs|
    ensures |EncodeAll(rs[..k])| <= |EncodeAll(rs)|
  {
    hide EncodeAll;
    OffsetOfRecords(rs, k);
    OffsetOfRecords(rs, |rs|);
    OffsetMonotone(EncodeEach(rs), k, |rs|);
    assert rs[..|rs|] == rs;
  }
}
