/** A directory from end to end: collect, partition, send each part over its own connection, receive
    under any schedule. */
module EndToEnd {
  import opened Basics
  import opened Paths
  import opened FileSystem
  import opened Streams
  import opened SystemInvariant
  import opened DirectoryTransfer
  import opened Partition
  import opened SourceTree
  import opened Sender

  /** What the partitioner gives to a stream is what its sender loop demands: the items of its paths. */
  lemma {:induction false} PartitionIsItsList(tree: Tree, root: Bytes, listing: seq<Path>, parallel: nat,
                                              partitions: seq<DirectoryPartition>, order: seq<DirectoryItem>,
                                              a: seq<nat>, s: nat)
    requires SourceTree.Walk(tree, root, listing) && parallel > 0 && s < |partitions|
    requires Partitions(Collected(tree, listing), parallel, partitions, order, a)
    ensures ItemsOfList(tree, PathLists(partitions)[s], partitions[s].items)
  {
    hide Partitions, ItemFor, ListsItems;
    CollectedLists(tree, root, listing, parallel, partitions, order, a);
    var items, lists := Collected(tree, listing), AllItems(partitions);
    var mine, list := partitions[s].items, PathLists(partitions)[s];
    forall i | 0 <= i < |mine|
      ensures list[i] in tree && list[i] != [] && !tree[list[i]].SourceOther?
      ensures mine[i] == ItemFor(list[i], tree[list[i]])
    {
      PlacedItem(tree, items, lists, s, i);
      ItemOfTree(tree, items, lists, mine[i]);
    }
  }

  /** Each connection carries the messages that the sender loop makes of one partition. */
  ghost predicate CarriesPartitions(tree: Tree, partitions: seq<DirectoryPartition>, wires: seq<Bytes>) {
    && |wires| == |partitions|
    && forall s | 0 <= s < |wires| :: wires[s] == ItemMessages(tree, partitions[s].items)
  }

  lemma {:induction false} PartitionsAreScripts(tree: Tree, root: Bytes, listing: seq<Path>, parallel: nat,
                                                partitions: seq<DirectoryPartition>, order: seq<DirectoryItem>,
                                                a: seq<nat>, wires: seq<Bytes>)
    requires ValidTree(tree, root) && SourceTree.Walk(tree, root, listing) && parallel > 0
    requires Partitions(Collected(tree, listing), parallel, partitions, order, a)
    requires CarriesPartitions(tree, partitions, wires)
    ensures Spreads(tree, PathLists(partitions))
    ensures wires == Wires(ItemScripts(tree, root, PathLists(partitions)))
  {
    hide Partitions, SourceTree.Walk, Spreads, ValidTree, ItemMessages, ItemsOfList, ItemScript;
    CollectAndPartition(tree, root, listing, parallel, partitions, order, a);
    forall s | 0 <= s < |wires|
      ensures wires[s] == Wires(ItemScripts(tree, root, PathLists(partitions)))[s]
    {
      PartitionIsItsList(tree, root, listing, parallel, partitions, order, a, s);
      ItemsAreRecords(tree, root, PathLists(partitions)[s], partitions[s].items);
    }
  }

  /** If the connections carry the partitions of a collected directory, every sender has delivered its
      part and every thread has finished, then, under any schedule, the output holds exactly the source
      tree, and nothing else has changed. */
  lemma {:induction false} DirectoryEndToEnd(tree: Tree, root: Bytes, listing: seq<Path>, parallel: nat,
                                             partitions: seq<DirectoryPartition>, order: seq<DirectoryItem>,
                                             a: seq<nat>, wires: seq<Bytes>, before: Files, states: seq<System>,
                                             events: seq<Event>)
    requires ValidTree(tree, root) && SourceTree.Walk(tree, root, listing) && parallel > 0
    requires Partitions(Collected(tree, listing), parallel, partitions, order, a)
    requires forall p | p in before :: !Below(root, p)
    requires CarriesPartitions(tree, partitions, wires)
    requires Execution(wires, before, states, events) && |states[|events|].streams| == |wires|
    requires forall s | 0 <= s < |wires| ::
               states[|events|].streams[s].pc.Finished? && states[|events|].streams[s].sent == |wires[s]|
    ensures states[|events|].files == before + Images(tree)
    ensures TreeArrived(tree, before, states[|events|].files)
  {
    hide TreeArrived, Partitions, SourceTree.Walk, Spreads, ValidTree, ItemMessages, Execution, Images;
    PartitionsAreScripts(tree, root, listing, parallel, partitions, order, a, wires);
    ParallelDirectoryIsCorrect(tree, root, PathLists(partitions), before, states, events);
  }
}
