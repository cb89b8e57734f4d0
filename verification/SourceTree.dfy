/** From a source directory to the item lists of the streams: collect and partition. */
module SourceTree {
  import opened Basics
  import opened Wire
  import opened Paths
  import opened Partition
  import opened DirectoryTransfer

  /** The item for one path, if it is of a kind that is transferred. */
  function ItemFor(p: Path, source: Source): DirectoryItem
    requires p != [] && !source.SourceOther?
  {
    match source
    case SourceSymlink(target) => DirectoryItem(KIND_DIRECTORY_SYMLINK, p, WirePath(p), |target| % U64_MODULUS, 0)
    case SourceDirectory(mode) => DirectoryItem(KIND_DIRECTORY_ENTRY, p, WirePath(p), 0, PermissionsValue(mode))
    case SourceFile(content, mode) =>
      DirectoryItem(KIND_DIRECTORY_FILE, p, WirePath(p), |content| % U64_MODULUS, PermissionsValue(mode))
  }

  /** `listing` is a walk over the tree: the root first, then every other path once, in any order. */
  ghost predicate Walk(tree: Tree, root: Bytes, listing: seq<Path>) {
    && listing != [] && listing[0] == [root]
    && (forall i | 0 <= i < |listing| :: listing[i] in tree && listing[i] != [])
    && (forall i, j | 0 <= i < j < |listing| :: listing[i] != listing[j])
    && (forall p | p in tree :: p in listing)
  }

  /** The items of a walk, in its order. */
  function Collected(tree: Tree, listing: seq<Path>): seq<DirectoryItem>
    requires forall i | 0 <= i < |listing| :: listing[i] in tree && listing[i] != []
  {
    if listing == [] then []
    else
      var n := |listing| - 1;
      var p := listing[n];
      Collected(tree, listing[..n]) + if tree[p].SourceOther? then [] else [ItemFor(p, tree[p])]
  }

  /** The item says of its path what a sender has to announce: kind, name, size and permission bits. */
  ghost predicate Describes(tree: Tree, item: DirectoryItem) {
    && item.source in tree && item.source != [] && item.relativePath == WirePath(item.source)
    && match tree[item.source]
       case SourceDirectory(mode) =>
         item.kind == KIND_DIRECTORY_ENTRY && item.payloadSize == 0 && LowBits(mode, item.mode)
       case SourceFile(content, mode) =>
         && item.kind == KIND_DIRECTORY_FILE && LowBits(mode, item.mode)
         && (|content| < U64_MODULUS ==> item.payloadSize == |content|)
       case SourceSymlink(target) =>
         && item.kind == KIND_DIRECTORY_SYMLINK && item.mode == 0
         && (|target| < U64_MODULUS ==> item.payloadSize == |target|)
       case SourceOther => false
  }

  lemma {:induction false} ItemDescribes(tree: Tree, p: Path)
    requires p in tree && p != [] && !tree[p].SourceOther?
    ensures Describes(tree, ItemFor(p, tree[p]))
  {
    hide WirePath;
  }

  lemma {:induction false} CollectedDescribe(tree: Tree, listing: seq<Path>)
    requires forall i | 0 <= i < |listing| :: listing[i] in tree && listing[i] != []
    ensures forall item | item in Collected(tree, listing) :: Describes(tree, item)
  {
    hide Describes, ItemFor;
    if listing != [] {
      var n := |listing| - 1;
      CollectedDescribe(tree, listing[..n]);
      if !tree[listing[n]].SourceOther? {
        ItemDescribes(tree, listing[n]);
      }
    }
  }

  /** Adds the item of each path of the walk that is a link, a directory or a regular file. */
  method CollectDirectoryItems(tree: Tree, listing: seq<Path>) returns (items: seq<DirectoryItem>)
    requires forall i | 0 <= i < |listing| :: listing[i] in tree && listing[i] != []
    ensures items == Collected(tree, listing)
    ensures forall item | item in items :: Describes(tree, item)
  {
    items := [];
    for k := 0 to |listing|
      invariant items == Collected(tree, listing[..k])
    {
      var p := listing[k];
      assert listing[..k + 1][..k] == listing[..k];
      if !tree[p].SourceOther? {
        items := items + [ItemFor(p, tree[p])];
      }
    }
    assert listing[..|listing|] == listing;
    CollectedDescribe(tree, listing);
  }

  lemma {:induction false} CollectedItem(tree: Tree, listing: seq<Path>, k: nat) returns (i: nat)
    requires forall i | 0 <= i < |listing| :: listing[i] in tree && listing[i] != []
    requires k < |Collected(tree, listing)|
    ensures i < |listing| && !tree[listing[i]].SourceOther?
    ensures Collected(tree, listing)[k] == ItemFor(listing[i], tree[listing[i]])
  {
    var n := |listing| - 1;
    if k < |Collected(tree, listing[..n])| {
      i := CollectedItem(tree, listing[..n], k);
    } else {
      i := n;
    }
  }

  lemma {:induction false} CollectedOnce(tree: Tree, listing: seq<Path>)
    requires forall i | 0 <= i < |listing| :: listing[i] in tree && listing[i] != []
    requires forall i, j | 0 <= i < j < |listing| :: listing[i] != listing[j]
    ensures forall item | item in Collected(tree, listing) :: multiset(Collected(tree, listing))[item] == 1
    ensures forall item | item in Collected(tree, listing) :: item.source in listing
  {
    if listing != [] {
      var n := |listing| - 1;
      CollectedOnce(tree, listing[..n]);
      assert listing[n] !in listing[..n];
    }
  }

  lemma {:induction false} AllCollected(tree: Tree, listing: seq<Path>, p: Path)
    requires forall i | 0 <= i < |listing| :: listing[i] in tree && listing[i] != []
    requires p in listing && !tree[p].SourceOther?
    ensures p != [] && ItemFor(p, tree[p]) in Collected(tree, listing)
  {
    var n := |listing| - 1;
    if p != listing[n] {
      assert p in listing[..n];
      AllCollected(tree, listing[..n], p);
    }
  }

  // ----- The lists of the streams -----

  function PathsOf(items: seq<DirectoryItem>): (paths: seq<Path>)
    ensures |paths| == |items|
  {
    seq(|items|, i requires 0 <= i < |items| => items[i].source)
  }

  function PathLists(partitions: seq<DirectoryPartition>): (lists: seq<seq<Path>>)
    ensures |lists| == |partitions|
    ensures forall s | 0 <= s < |partitions| :: lists[s] == PathsOf(partitions[s].items)
  {
    seq(|partitions|, s requires 0 <= s < |partitions| => PathsOf(partitions[s].items))
  }

  /** An item at two places counts twice. */
  lemma {:induction false} TwoPlaces<T>(ss: seq<seq<T>>, s: nat, i: nat, t: nat, j: nat)
    requires s < |ss| && t < |ss| && i < |ss[s]| && j < |ss[t]|
    requires ss[s][i] == ss[t][j] && (s < t || (s == t && i < j))
    ensures multiset(Flatten(ss))[ss[s][i]] >= 2
  {
    hide Flatten;
    var x := ss[s][i];
    FlattenAround(ss, s);
    assert multiset(Flatten(ss))[x] ==
           multiset(Flatten(ss[..s]))[x] + multiset(ss[s])[x] + multiset(Flatten(ss[s + 1..]))[x];
    if s == t {
      assert ss[s] == ss[s][..j] + [x] + ss[s][j + 1..];
      assert ss[s][..j][i] == x;
      assert x in ss[s][..j] && multiset(ss[s][..j])[x] >= 1;
    } else {
      FlattenAround(ss[s + 1..], t - s - 1);
      assert x in ss[s] && multiset(ss[s])[x] >= 1;
      assert x in ss[s + 1..][t - s - 1];
      assert multiset(ss[s + 1..][t - s - 1])[x] >= 1;
    }
  }

  /** The lists together hold the items, each an item of the tree and each once. */
  ghost predicate ListsItems(tree: Tree, items: seq<DirectoryItem>, lists: seq<seq<DirectoryItem>>) {
    && multiset(Flatten(lists)) == multiset(items)
    && (forall item | item in items ::
          && item.source in tree && item.source != [] && !tree[item.source].SourceOther?
          && item == ItemFor(item.source, tree[item.source])
          && multiset(items)[item] == 1)
    && (forall p | p in tree && !tree[p].SourceOther? :: p != [] && ItemFor(p, tree[p]) in items)
  }

  lemma {:induction false} PlacedItem(tree: Tree, items: seq<DirectoryItem>, lists: seq<seq<DirectoryItem>>, s: nat,
                                      i: nat)
    requires ListsItems(tree, items, lists) && s < |lists| && i < |lists[s]|
    ensures lists[s][i] in items
  {
    FlattenAround(lists, s);
    assert lists[s][i] in Flatten(lists);
    assert lists[s][i] in multiset(Flatten(lists));
  }

  lemma {:induction false} PlacedOnce(tree: Tree, items: seq<DirectoryItem>, lists: seq<seq<DirectoryItem>>, s: nat,
                                      i: nat, t: nat, j: nat)
    requires ListsItems(tree, items, lists) && s < |lists| && i < |lists[s]| && t < |lists| && j < |lists[t]|
    requires lists[s][i].source == lists[t][j].source
    ensures s == t && i == j
  {
    PlacedItem(tree, items, lists, s, i);
    PlacedItem(tree, items, lists, t, j);
    assert lists[s][i] == lists[t][j];
    if s < t || (s == t && i < j) {
      TwoPlaces(lists, s, i, t, j);
    } else if t < s || (s == t && j < i) {
      TwoPlaces(lists, t, j, s, i);
    }
  }

  lemma {:induction false} ItemOfTree(tree: Tree, items: seq<DirectoryItem>, lists: seq<seq<DirectoryItem>>,
                                      item: DirectoryItem)
    requires ListsItems(tree, items, lists) && item in items
    ensures item.source in tree && item.source != [] && !tree[item.source].SourceOther?
    ensures item == ItemFor(item.source, tree[item.source])
  {
  }

  lemma {:induction false} PlaceOf(tree: Tree, items: seq<DirectoryItem>, lists: seq<seq<DirectoryItem>>, p: Path)
    returns (s: nat, i: nat)
    requires ListsItems(tree, items, lists) && p in tree && !tree[p].SourceOther?
    ensures s < |lists| && i < |lists[s]| && lists[s][i].source == p
  {
    assert ItemFor(p, tree[p]) in multiset(Flatten(lists));
    s, i := FlattenFind(lists, ItemFor(p, tree[p]));
  }

  lemma {:induction false} ItemsSpread(tree: Tree, items: seq<DirectoryItem>, partitions: seq<DirectoryPartition>)
    requires ListsItems(tree, items, AllItems(partitions))
    ensures Spreads(tree, PathLists(partitions))
  {
    hide ListsItems, ItemFor;
    var all, lists := AllItems(partitions), PathLists(partitions);
    forall s, i | 0 <= s < |lists| && 0 <= i < |lists[s]|
      ensures lists[s][i] in tree && !tree[lists[s][i]].SourceOther?
    {
      PlacedItem(tree, items, all, s, i);
      ItemOfTree(tree, items, all, all[s][i]);
    }
    forall s, i, t, j | 0 <= s < |lists| && 0 <= i < |lists[s]| && 0 <= t < |lists| && 0 <= j < |lists[t]|
                        && lists[s][i] == lists[t][j]
      ensures s == t && i == j
    {
      PlacedOnce(tree, items, all, s, i, t, j);
    }
    forall p | p in tree && !tree[p].SourceOther?
      ensures exists s, i :: 0 <= s < |lists| && 0 <= i < |lists[s]| && lists[s][i] == p
    {
      var s, i := PlaceOf(tree, items, all, p);
      assert lists[s][i] == p;
    }
  }

  /** The partitions of a collected walk hold its items, each once. */
  lemma {:induction false} CollectedLists(tree: Tree, root: Bytes, listing: seq<Path>, parallel: nat,
                                          partitions: seq<DirectoryPartition>, order: seq<DirectoryItem>,
                                          a: seq<nat>)
    requires Walk(tree, root, listing) && parallel > 0
    requires Partitions(Collected(tree, listing), parallel, partitions, order, a)
    ensures ListsItems(tree, Collected(tree, listing), AllItems(partitions))
  {
    hide Partitions;
    var items := Collected(tree, listing);
    PartitionsConserve(items, parallel, partitions, order, a);
    CollectedOnce(tree, listing);
    forall item | item in items
      ensures item.source in tree && item.source != [] && !tree[item.source].SourceOther?
      ensures item == ItemFor(item.source, tree[item.source])
    {
      var k :| 0 <= k < |items| && items[k] == item;
      var i := CollectedItem(tree, listing, k);
    }
    forall p | p in tree && !tree[p].SourceOther?
      ensures p != [] && ItemFor(p, tree[p]) in items
    {
      AllCollected(tree, listing, p);
    }
  }

  /** Collecting a walk and partitioning the items puts every transferred path on exactly one
      stream, at one place. */
  lemma {:induction false} CollectAndPartition(tree: Tree, root: Bytes, listing: seq<Path>, parallel: nat,
                                               partitions: seq<DirectoryPartition>, order: seq<DirectoryItem>,
                                               a: seq<nat>)
    requires Walk(tree, root, listing) && parallel > 0
    requires Partitions(Collected(tree, listing), parallel, partitions, order, a)
    ensures Spreads(tree, PathLists(partitions))
  {
    hide Partitions, ListsItems, Spreads;
    CollectedLists(tree, root, listing, parallel, partitions, order, a);
    ItemsSpread(tree, Collected(tree, listing), partitions);
  }

  /** The load balancer's guarantee for a directory, by sizes alone: each byte count is the size of all
      items of its partition, and no partition exceeds (4/3 - 1/(3 parallel)) times the largest one of
      any other spread of all the items. */
  lemma {:induction false} CollectedNearOptimal(tree: Tree, root: Bytes, listing: seq<Path>, parallel: nat,
                                                partitions: seq<DirectoryPartition>, order: seq<DirectoryItem>,
                                                a: seq<nat>, other: seq<seq<DirectoryItem>>, t: nat, i: nat)
    requires Walk(tree, root, listing) && i < parallel
    requires Partitions(Collected(tree, listing), parallel, partitions, order, a)
    requires Sum(Sizes(Collected(tree, listing))) < U64_MODULUS
    requires AllSpreadWithin(Collected(tree, listing), parallel, other, t)
    ensures partitions[i].bytes == Sum(Sizes(partitions[i].items))
    ensures 3 * parallel * Sum(Sizes(partitions[i].items)) <= (4 * parallel - 1) * t
  {
    hide Partitions, Collected, Sizes, Sum, AllSpreadWithin, LowBits, WirePath;
    CollectedDescribe(tree, listing);
    SizesNearOptimal(Collected(tree, listing), parallel, partitions, order, a, other, t, i);
  }

  /** Every item on a stream other than the first is a file or a link, and the first begins with exactly
      the directories. */
  lemma {:induction false} CollectedKindsInPlace(tree: Tree, root: Bytes, listing: seq<Path>, parallel: nat,
                                                 partitions: seq<DirectoryPartition>, order: seq<DirectoryItem>,
                                                 a: seq<nat>)
    requires Walk(tree, root, listing) && parallel > 0
    requires Partitions(Collected(tree, listing), parallel, partitions, order, a)
    ensures |partitions| == parallel
    ensures var entries := OfKinds(Collected(tree, listing), {KIND_DIRECTORY_ENTRY});
            && entries <= partitions[0].items
            && (forall item | item in partitions[0].items[|entries|..] :: item.kind in PAYLOAD_KINDS)
            && (forall i, item | 0 < i < parallel && item in partitions[i].items :: item.kind in PAYLOAD_KINDS)
  {
    hide Collected, LowBits, WirePath, OfKinds;
    CollectedDescribe(tree, listing);
    KindsInPlace(Collected(tree, listing), parallel, partitions, order, a);
  }
}
