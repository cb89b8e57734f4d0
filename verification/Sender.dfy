/** The sending side: what the two sender loops put on a connection, for any partial writes, any
    failure, and any file that is read. */
module Sender {
  import opened Basics
  import opened Wire
  import opened Transport
  import opened Framing
  import opened Paths
  import opened Partition
  import opened FileTransfer
  import opened DirectoryTransfer
  import opened SourceTree
  import opened ByteRanges

  /** An input file stream: reads stop short at the end of the file. */
  class InputFile {
    const content: Bytes
    var position: nat

    constructor (content: Bytes, position: nat)
      ensures this.content == content && this.position == position
    {
      this.content := content;
      this.position := position;
    }

    method Read(count: nat) returns (data: Bytes)
      modifies this`position
      ensures position == old(position) + |data|
      ensures |data| == Min(count, if old(position) < |content| then |content| - old(position) else 0)
      ensures old(position) <= |content| ==> data == content[old(position)..position]
    {
      data := [];
      if position < |content| {
        data := content[position..Min(position + count, |content|)];
      }
      position := position + |data|;
    }
  }

  /** `after` is `before` with all of `message` added or, after a failure, a proper part of it. */
  ghost predicate Sent(before: Bytes, after: Bytes, message: Bytes, whole: bool) {
    if whole then after == before + message
    else exists n: nat | n < |message| :: after == before + message[..n]
  }

  lemma {:induction false} SentThen(a: Bytes, b: Bytes, c: Bytes, first: Bytes, second: Bytes, whole: bool)
    requires Sent(a, b, first, true) && Sent(b, c, second, whole)
    ensures Sent(a, c, first + second, whole)
  {
    if whole {
      assert a + first + second == a + (first + second);
    } else {
      var n: nat :| n < |second| && c == b + second[..n];
      assert (first + second)[..|first| + n] == first + second[..n];
      assert a + first + second[..n] == a + (first + second)[..|first| + n];
    }
  }

  lemma {:induction false} SentCut(a: Bytes, b: Bytes, first: Bytes, second: Bytes)
    requires Sent(a, b, first, false)
    ensures Sent(a, b, first + second, false)
  {
    var n: nat :| n < |first| && b == a + first[..n];
    assert (first + second)[..n] == first[..n];
  }

  /** Some first part of the message has been added, possibly all of it. */
  ghost predicate Within(before: Bytes, after: Bytes, message: Bytes) {
    before <= after <= before + message
  }

  lemma {:induction false} SentWithin(before: Bytes, after: Bytes, message: Bytes, whole: bool)
    requires Sent(before, after, message, whole)
    ensures Within(before, after, message)
  {
  }

  lemma {:induction false} WithinAfter(a: Bytes, b: Bytes, c: Bytes, first: Bytes, second: Bytes)
    requires Sent(a, b, first, true) && Within(b, c, second)
    ensures Within(a, c, first + second)
  {
    assert a + first + second == a + (first + second);
  }

  lemma {:induction false} WithinLonger(before: Bytes, after: Bytes, message: Bytes, all: Bytes)
    requires Within(before, after, message) && message <= all
    ensures Within(before, after, all)
  {
    assert all == message + all[|message|..];
  }

  /** The head of a record: the header and the name. */
  function Head(h: Header, name: Bytes): Bytes {
    EncodeHeader(h) + name
  }

  method SendHead(session: TcpTransport, h: Header, name: Bytes) returns (ok: bool)
    modifies session`output
    ensures Sent(old(session.output), session.output, Head(h, name), ok)
  {
    ghost var start := session.output;
    var header := MakeHeader(h.kind, h.payloadSize, h.nameSize, h.offset, h.totalSize);
    ok := session.Send(header[..]);
    if !ok {
      SentCut(start, session.output, EncodeHeader(h), name);
      return false;
    }
    ghost var middle := session.output;
    ok := session.Send(name);
    SentThen(start, middle, session.output, EncodeHeader(h), name, ok);
  }

  /** What a read loop for `size` bytes from `offset` finds in a file. */
  function Available(content: Bytes, offset: nat, size: nat): Bytes {
    if offset >= |content| then [] else content[offset..Min(offset + size, |content|)]
  }

  lemma {:induction false} AvailableAt(content: Bytes, offset: nat, size: nat, sent: nat, count: nat)
    requires sent + count <= size && offset + sent + count <= |content| && count > 0
    ensures var all := Available(content, offset, size);
            sent + count <= |all| && all[sent..sent + count] == content[offset + sent..offset + sent + count]
  {
  }

  /** Copies `size` bytes from the file to the connection, one buffer at a time. It fails if the
      connection does or if the file ends first. */
  method SendFromFile(session: TcpTransport, input: InputFile, size: nat) returns (ok: bool, sent: nat)
    modifies session`output, input`position
    ensures ok ==> |Available(input.content, old(input.position), size)| == size == sent
    ensures |Available(input.content, old(input.position), size)| == size ==>
              Sent(old(session.output), session.output, Available(input.content, old(input.position), size), ok)
    ensures old(session.output) <= session.output
            <= old(session.output) + Available(input.content, old(input.position), size)
    ensures sent <= size
  {
    ghost var start, from := session.output, input.position;
    ghost var all := Available(input.content, from, size);
    AvailableLength(input.content, from, size);
    hide Available, Sent;
    sent := 0;
    while sent < size
      invariant sent <= size && sent <= |all| && input.position == from + sent
      invariant session.output == start + all[..sent]
    {
      var chunk := Min(size - sent, CHUNK_BYTES);
      ghost var before := session.output;
      var data := input.Read(chunk);
      if |data| == 0 {
        assert |all| == sent < size && all[..sent] == all;
        return false, sent;
      }
      AvailableAt(input.content, from, size, sent, |data|);
      ok := session.Send(data);
      SentBy(before, session.output, data, ok);
      if !ok {
        CutInside(start, session.output, all, sent, data);
        return false, sent;
      }
      SentMore(start, session.output, all, sent, data);
      sent := sent + |data|;
    }
    assert all[..sent] == all;
    SentAll(start, session.output, all);
    return true, sent;
  }

  lemma {:induction false} SentMore(start: Bytes, after: Bytes, all: Bytes, sent: nat, data: Bytes)
    requires sent + |data| <= |all| && data == all[sent..sent + |data|]
    requires Sent(start + all[..sent], after, data, true)
    ensures after == start + all[..sent + |data|]
  {
    assert all[..sent] + data == all[..sent + |data|];
  }

  lemma {:induction false} SentAll(start: Bytes, after: Bytes, all: Bytes)
    requires after == start + all
    ensures Sent(start, after, all, true)
  {
  }

  lemma {:induction false} SentBy(before: Bytes, after: Bytes, data: Bytes, ok: bool)
    requires ok ==> after == before + data
    requires !ok ==> exists n: nat | n < |data| :: after == before + data[..n]
    ensures Sent(before, after, data, ok)
  {
  }

  lemma {:induction false} AvailableLength(content: Bytes, offset: nat, size: nat)
    ensures |Available(content, offset, size)| == if offset >= |content| then 0 else Min(size, |content| - offset)
  {
  }

  lemma {:induction false} CutInside(start: Bytes, after: Bytes, all: Bytes, sent: nat, data: Bytes)
    requires sent + |data| <= |all| && data == all[sent..sent + |data|]
    requires Sent(start + all[..sent], after, data, false)
    ensures Sent(start, after, all, false)
    ensures start <= after <= start + all
  {
    var n: nat :| n < |data| && after == start + all[..sent] + data[..n];
    assert all[..sent] + data[..n] == all[..sent + n];
    assert start + all[..sent] + data[..n] == start + (all[..sent] + data[..n]);
  }

  /** One stream of a single file. `content` is the input file, if it can be opened. */
  method SendFileRange(session: TcpTransport, content: Option<Bytes>, name: Bytes, parallel: nat, totalSize: U64,
                       offset: U64, payloadSize: U64) returns (ok: bool, bytes: U64)
    modifies session`output
    ensures ok ==> content.Some? && |Available(content.value, offset, payloadSize)| == payloadSize == bytes
    ensures content == None ==> !ok && session.output == old(session.output)
    ensures content.Some? && |Available(content.value, offset, payloadSize)| == payloadSize ==>
              Sent(old(session.output), session.output,
                   Head(RangeHeader(name, parallel, totalSize, offset, payloadSize), name)
                   + Available(content.value, offset, payloadSize), ok)
    ensures content.Some? ==>
              Within(old(session.output), session.output,
                     Head(RangeHeader(name, parallel, totalSize, offset, payloadSize), name)
                     + Available(content.value, offset, payloadSize))
    ensures bytes <= payloadSize
  {
    if content == None {
      return false, 0;
    }
    var input := new InputFile(content.value, offset);
    var h := RangeHeader(name, parallel, totalSize, offset, payloadSize);
    ghost var start, payload := session.output, Available(content.value, offset, payloadSize);
    ok := SendHead(session, h, name);
    if !ok {
      SentCut(start, session.output, Head(h, name), payload);
      SentWithin(start, session.output, Head(h, name) + payload, false);
      return false, 0;
    }
    ghost var middle := session.output;
    ok, bytes := SendFromFile(session, input, payloadSize);
    WithinAfter(start, middle, session.output, Head(h, name), payload);
    if |payload| == payloadSize {
      SentThen(start, middle, session.output, Head(h, name), payload, ok);
    }
  }

  function RangeHeader(name: Bytes, parallel: nat, totalSize: U64, offset: U64, payloadSize: U64): Header {
    Header(if parallel > 1 then KIND_FILE_PART else KIND_FILE, payloadSize, |name| % U64_MODULUS, offset, totalSize)
  }

  /** Stream `s` of a job sends exactly the record of its range, or a proper part of it when its
      connection fails: the events of the transfer model are the ones this loop produces. */
  method SendPart(session: TcpTransport, job: Job, s: nat) returns (ok: bool, bytes: U64)
    requires ValidJob(job) && s < job.parallel
    modifies session`output
    ensures Sent(old(session.output), session.output, EncodeAll(PartScripts(job)[s]), ok)
    ensures ok ==> bytes == RangeSize(job, s)
  {
    var range := ByteRangeForStream(|job.source|, s, job.parallel);
    PartMessage(job, s);
    ok, bytes := SendFileRange(session, Some(job.source), job.name, job.parallel, |job.source|, range.0, range.1);
  }

  lemma {:induction false} PartMessage(job: Job, s: nat)
    requires ValidJob(job) && s < job.parallel
    ensures var payload := Available(job.source, RangeStart(job, s), RangeSize(job, s));
            && |payload| == RangeSize(job, s)
            && EncodeAll(PartScripts(job)[s]) ==
               Head(RangeHeader(job.name, job.parallel, |job.source|, RangeStart(job, s), RangeSize(job, s)), job.name)
               + payload
  {
    RangeInFile(job, s);
    PartFields(job, s);
    var r := PartRecord(job, s);
    hide *;
    EncodeAllOne(r);
    RecordMessage(r);
    assert PartScripts(job)[s] == [r];
  }

  lemma {:induction false} RecordMessage(r: Record)
    requires ValidRecord(r)
    ensures EncodeRecord(r) == Head(HeaderOf(r), r.name) + r.payload
  {
    hide EncodeHeader;
  }

  lemma {:induction false} PartFields(job: Job, s: nat)
    requires ValidJob(job) && s < job.parallel
    ensures var r := PartRecord(job, s);
            && r.name == job.name
            && r.payload == Available(job.source, RangeStart(job, s), RangeSize(job, s))
            && |r.payload| == RangeSize(job, s)
            && HeaderOf(r) == RangeHeader(job.name, job.parallel, |job.source|, RangeStart(job, s), RangeSize(job, s))
  {
    hide RangeStart, RangeSize, ByteRangeForStream;
    RangeInFile(job, s);
    var from, size := RangeStart(job, s), RangeSize(job, s);
    WholeSlice(job.source, from, size);
  }

  lemma {:induction false} WholeSlice(content: Bytes, offset: nat, size: nat)
    requires offset + size <= |content|
    ensures Available(content, offset, size) == content[offset..offset + size]
  {
  }

  lemma {:induction false} EncodeAllOne(r: Record)
    requires ValidRecord(r)
    ensures EncodeAll([r]) == EncodeRecord(r)
  {
    hide EncodeRecord, ValidRecord;
    EncodeAllFirst([r]);
    assert [r][1..] == [];
    assert EncodeEach([]) == [];
  }

  // ----- Directories -----

  /** What the sender still finds on disk for an item: it may be shorter than collected. */
  function Found(disk: Tree, item: DirectoryItem): Bytes {
    if item.source !in disk then []
    else if item.kind == KIND_DIRECTORY_FILE && disk[item.source].SourceFile? then
      Available(disk[item.source].content, 0, item.payloadSize)
    else if item.kind == KIND_DIRECTORY_SYMLINK && disk[item.source].SourceSymlink? then disk[item.source].target
    else []
  }

  /** Can the sender read all it announced? */
  predicate Readable(disk: Tree, item: DirectoryItem) {
    if item.kind == KIND_DIRECTORY_FILE then
      item.source in disk && disk[item.source].SourceFile? && |disk[item.source].content| >= item.payloadSize
    else if item.kind == KIND_DIRECTORY_SYMLINK then item.source in disk && disk[item.source].SourceSymlink?
    else true
  }

  function ItemHeader(item: DirectoryItem): Header {
    Header(item.kind, item.payloadSize, |item.relativePath| % U64_MODULUS, item.mode, 0)
  }

  function ItemMessage(disk: Tree, item: DirectoryItem): Bytes {
    Head(ItemHeader(item), item.relativePath) + Found(disk, item)
  }

  function ItemMessages(disk: Tree, items: seq<DirectoryItem>): Bytes {
    if items == [] then []
    else ItemMessages(disk, items[..|items| - 1]) + ItemMessage(disk, items[|items| - 1])
  }

  method SendItem(session: TcpTransport, disk: Tree, item: DirectoryItem) returns (ok: bool, bytes: nat)
    modifies session`output
    ensures ok ==> Readable(disk, item) && bytes == |Found(disk, item)|
    ensures Readable(disk, item) ==> Sent(old(session.output), session.output, ItemMessage(disk, item), ok)
    ensures Within(old(session.output), session.output, ItemMessage(disk, item))
  {
    hide EncodeHeader, Sent, Within, Available;
    ghost var start := session.output;
    var h := ItemHeader(item);
    ok := SendHead(session, h, item.relativePath);
    if !ok {
      SentCut(start, session.output, Head(h, item.relativePath), Found(disk, item));
      SentWithin(start, session.output, ItemMessage(disk, item), false);
      return false, 0;
    }
    ghost var middle := session.output;
    ok, bytes := SendBody(session, disk, item);
    WithinAfter(start, middle, session.output, Head(h, item.relativePath), Found(disk, item));
    if Readable(disk, item) {
      SentThen(start, middle, session.output, Head(h, item.relativePath), Found(disk, item), ok);
    }
  }

  /** What follows the name: the bytes of a file, the target of a link, nothing for a directory. */
  method SendBody(session: TcpTransport, disk: Tree, item: DirectoryItem) returns (ok: bool, bytes: nat)
    modifies session`output
    ensures ok ==> Readable(disk, item) && bytes == |Found(disk, item)|
    ensures Readable(disk, item) ==> Sent(old(session.output), session.output, Found(disk, item), ok)
    ensures Within(old(session.output), session.output, Found(disk, item))
  {
    hide Available;
    bytes, ok := 0, true;
    if item.kind == KIND_DIRECTORY_FILE {
      if !(item.source in disk && disk[item.source].SourceFile?) {
        return false, 0;
      }
      AvailableLength(disk[item.source].content, 0, item.payloadSize);
      var input := new InputFile(disk[item.source].content, 0);
      ok, bytes := SendFromFile(session, input, item.payloadSize);
    } else if item.kind == KIND_DIRECTORY_SYMLINK {
      if !(item.source in disk && disk[item.source].SourceSymlink?) {
        return false, 0;
      }
      var target := disk[item.source].target;
      ok := session.Send(target);
      bytes := |target|;
    }
  }

  method SendDirectoryItems(session: TcpTransport, disk: Tree, items: seq<DirectoryItem>) returns (ok: bool, bytes: U64)
    modifies session`output
    ensures ok ==> forall item | item in items :: Readable(disk, item)
    ensures (forall item | item in items :: Readable(disk, item)) ==>
              Sent(old(session.output), session.output, ItemMessages(disk, items), ok)
    ensures Within(old(session.output), session.output, ItemMessages(disk, items))
    ensures ok ==> bytes == FoundBytes(disk, items) % U64_MODULUS
  {
    hide Sent, Within, ItemMessage, ItemMessages, FoundBytes, Readable, Found;
    ghost var start := session.output;
    bytes := 0;
    NothingSent(start, disk);
    for k := 0 to |items|
      invariant forall item | item in items[..k] :: Readable(disk, item)
      invariant Sent(start, session.output, ItemMessages(disk, items[..k]), true)
      invariant bytes == FoundBytes(disk, items[..k]) % U64_MODULUS
    {
      ghost var middle := session.output;
      var sent;
      OneMoreItem(disk, items, k);
      ok, sent := SendItem(session, disk, items[k]);
      if !ok {
        PartOfItems(start, middle, session.output, disk, items, k);
        if forall item | item in items :: Readable(disk, item) {
          assert items[k] in items;
          CutAtItem(start, middle, session.output, disk, items, k);
        }
        return false, bytes;
      }
      SentThen(start, middle, session.output, ItemMessages(disk, items[..k]), ItemMessage(disk, items[k]), true);
      bytes := (bytes + sent) % U64_MODULUS;
    }
    assert items[..|items|] == items;
    SentWithin(start, session.output, ItemMessages(disk, items), true);
    ok := true;
  }

  lemma {:induction false} PartOfItems(start: Bytes, middle: Bytes, end: Bytes, disk: Tree, items: seq<DirectoryItem>,
                                       k: nat)
    requires k < |items|
    requires Sent(start, middle, ItemMessages(disk, items[..k]), true)
    requires Within(middle, end, ItemMessage(disk, items[k]))
    ensures Within(start, end, ItemMessages(disk, items))
  {
    hide Sent, Within, ItemMessage, ItemMessages;
    WithinAfter(start, middle, end, ItemMessages(disk, items[..k]), ItemMessage(disk, items[k]));
    OneMoreItem(disk, items, k);
    MessagesPrefix(disk, items, k + 1);
    WithinLonger(start, end, ItemMessages(disk, items[..k + 1]), ItemMessages(disk, items));
  }

  lemma {:induction false} NothingSent(start: Bytes, disk: Tree)
    ensures Sent(start, start, ItemMessages(disk, []), true) && FoundBytes(disk, []) == 0
  {
  }

  lemma {:induction false} OneMoreItem(disk: Tree, items: seq<DirectoryItem>, k: nat)
    requires k < |items|
    ensures items[..k + 1] == items[..k] + [items[k]]
    ensures ItemMessages(disk, items[..k + 1]) == ItemMessages(disk, items[..k]) + ItemMessage(disk, items[k])
    ensures FoundBytes(disk, items[..k + 1]) == FoundBytes(disk, items[..k]) + |Found(disk, items[k])|
  {
    hide ItemMessage, Found;
    assert items[..k + 1][..k] == items[..k];
  }

  lemma {:induction false} CutAtItem(start: Bytes, middle: Bytes, end: Bytes, disk: Tree, items: seq<DirectoryItem>,
                                     k: nat)
    requires k < |items|
    requires Sent(start, middle, ItemMessages(disk, items[..k]), true)
    requires Sent(middle, end, ItemMessage(disk, items[k]), false)
    ensures Sent(start, end, ItemMessages(disk, items), false)
  {
    hide Sent, ItemMessage;
    SentThen(start, middle, end, ItemMessages(disk, items[..k]), ItemMessage(disk, items[k]), false);
    assert items[..k + 1][..k] == items[..k];
    MessagesPrefix(disk, items, k + 1);
    SentCutAt(start, end, ItemMessages(disk, items[..k + 1]), ItemMessages(disk, items));
  }

  function FoundBytes(disk: Tree, items: seq<DirectoryItem>): nat {
    if items == [] then 0
    else FoundBytes(disk, items[..|items| - 1]) + |Found(disk, items[|items| - 1])|
  }

  lemma {:induction false} SentCutAt(a: Bytes, b: Bytes, first: Bytes, all: Bytes)
    requires Sent(a, b, first, false) && first <= all
    ensures Sent(a, b, all, false)
  {
    SentCut(a, b, first, all[|first|..]);
    assert first + all[|first|..] == all;
  }

  lemma {:induction false} MessagesPrefix(disk: Tree, items: seq<DirectoryItem>, k: nat)
    requires k <= |items|
    ensures ItemMessages(disk, items[..k]) <= ItemMessages(disk, items)
    decreases |items| - k
  {
    if k == |items| {
      assert items[..k] == items;
    } else {
      assert items[..k + 1][..k] == items[..k];
      MessagesPrefix(disk, items, k + 1);
    }
  }

  /** The items of a partition are those of its path list. */
  ghost predicate ItemsOfList(tree: Tree, list: seq<Path>, items: seq<DirectoryItem>) {
    && |items| == |list|
    && forall i | 0 <= i < |list| ::
         list[i] in tree && list[i] != [] && !tree[list[i]].SourceOther? && items[i] == ItemFor(list[i], tree[list[i]])
  }

  lemma {:induction false} ItemIsRecord(tree: Tree, root: Bytes, p: Path)
    requires ValidTree(tree, root) && p in tree && p != [] && !tree[p].SourceOther?
    ensures ItemMessage(tree, ItemFor(p, tree[p])) == EncodeRecord(ItemRecord(p, tree[p]))
    ensures Readable(tree, ItemFor(p, tree[p]))
  {
    ItemFields(tree, root, p);
    RecordMessage(ItemRecord(p, tree[p]));
    hide Head, ItemHeader, HeaderOf, Found, Readable, EncodeRecord, ItemRecord, ItemFor;
  }

  lemma {:induction false} ItemFields(tree: Tree, root: Bytes, p: Path)
    requires ValidTree(tree, root) && p in tree && p != [] && !tree[p].SourceOther?
    ensures var item, r := ItemFor(p, tree[p]), ItemRecord(p, tree[p]);
            && item.relativePath == r.name
            && ItemHeader(item) == HeaderOf(r)
            && Found(tree, item) == r.payload
            && Readable(tree, item)
  {
    hide WirePath;
  }

  lemma {:induction false} ItemsAreRecords(tree: Tree, root: Bytes, list: seq<Path>, items: seq<DirectoryItem>)
    requires ValidTree(tree, root) && ItemsOfList(tree, list, items)
    ensures ItemMessages(tree, items) == EncodeAll(ItemScript(tree, root, list))
  {
    hide ItemMessage, EncodeRecord, ItemRecord, EncodeAll, ValidTree, ItemFor;
    if items == [] {
      NoRecords(ItemScript(tree, root, list));
    } else {
      var n := |items| - 1;
      ItemsAreRecords(tree, root, list[..n], items[..n]);
      ItemIsRecord(tree, root, list[n]);
      LastRecord(tree, root, list);
    }
  }

  lemma {:induction false} NoRecords(rs: seq<Record>)
    requires rs == []
    ensures EncodeAll(rs) == []
  {
    assert EncodeEach(rs) == [];
  }

  lemma {:induction false} LastRecord(tree: Tree, root: Bytes, list: seq<Path>)
    requires ValidTree(tree, root) && list != []
    requires forall i | 0 <= i < |list| :: list[i] in tree && list[i] != [] && !tree[list[i]].SourceOther?
    ensures var n := |list| - 1;
            EncodeAll(ItemScript(tree, root, list)) ==
            EncodeAll(ItemScript(tree, root, list[..n])) + EncodeRecord(ItemRecord(list[n], tree[list[n]]))
  {
    hide EncodeRecord, ItemRecord, ValidTree, ValidRecord;
    var n, script := |list| - 1, ItemScript(tree, root, list);
    assert script[..n] == ItemScript(tree, root, list[..n]);
    EncodeAllLast(script);
  }

  lemma {:induction false} EncodeAllLast(rs: seq<Record>)
    requires ValidRecords(rs) && rs != []
    ensures EncodeAll(rs) == EncodeAll(rs[..|rs| - 1]) + EncodeRecord(rs[|rs| - 1])
  {
    hide EncodeRecord, Flatten;
    var n, each := |rs| - 1, EncodeEach(rs);
    FlattenAt(each, n);
    assert each[..n] == EncodeEach(rs[..n]) && each[..n + 1] == each;
  }

  lemma {:induction false} FoundIsSource(tree: Tree, root: Bytes, list: seq<Path>, items: seq<DirectoryItem>)
    requires ValidTree(tree, root) && ItemsOfList(tree, list, items)
    ensures FoundBytes(tree, items) == SourceBytes(tree, list)
  {
    hide ItemRecord, ValidTree, WirePath;
    if items != [] {
      var n := |items| - 1;
      FoundIsSource(tree, root, list[..n], items[..n]);
      FoundOfNode(tree, root, list[n]);
      hide ItemFor, Found;
    }
  }

  lemma {:induction false} FoundOfNode(tree: Tree, root: Bytes, p: Path)
    requires ValidTree(tree, root) && p in tree && p != [] && !tree[p].SourceOther?
    ensures |Found(tree, ItemFor(p, tree[p]))| ==
            match tree[p]
            case SourceFile(content, _) => |content|
            case SourceSymlink(target) => |target|
            case _ => 0
  {
    ItemFields(tree, root, p);
    hide Found, ItemFor, WirePath;
  }

  /** A stream of a directory sends exactly the records of its list, or a proper part of them, and
      reports the bytes of the files and link targets. */
  method SendPartition(session: TcpTransport, tree: Tree, ghost root: Bytes, ghost list: seq<Path>,
                       items: seq<DirectoryItem>)
    returns (ok: bool, bytes: U64)
    requires ValidTree(tree, root) && ItemsOfList(tree, list, items)
    modifies session`output
    ensures Sent(old(session.output), session.output, EncodeAll(ItemScript(tree, root, list)), ok)
    ensures ok ==> bytes == SourceBytes(tree, list) % U64_MODULUS
  {
    FoundIsSource(tree, root, list, items);
    ItemsAreRecords(tree, root, list, items);
    forall item | item in items
      ensures Readable(tree, item)
    {
      var i :| 0 <= i < |items| && items[i] == item;
      ItemIsRecord(tree, root, list[i]);
    }
    ok, bytes := SendDirectoryItems(session, tree, items);
  }
}
