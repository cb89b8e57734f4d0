/** Spreading the items of a directory over the streams: metadata to the first stream, payloads
    by longest processing time first. */
module Partition {
  import opened Basics
  import opened Wire
  import opened Paths
  import opened Sorting
  import opened Scheduling

  datatype DirectoryItem =
    DirectoryItem(kind: U64, source: Path, relativePath: Bytes, payloadSize: U64, mode: U64)

  datatype DirectoryPartition = DirectoryPartition(items: seq<DirectoryItem>, bytes: U64)

  predicate HasPayload(item: DirectoryItem) {
    item.kind == KIND_DIRECTORY_FILE || item.kind == KIND_DIRECTORY_SYMLINK
  }

  /** The items with (or without) a payload, in order. */
  function Select(items: seq<DirectoryItem>, payload: bool): seq<DirectoryItem> {
    if items == [] then []
    else
      var n := |items| - 1;
      Select(items[..n], payload) + if HasPayload(items[n]) == payload then [items[n]] else []
  }

  /** The items of some kinds, in order. */
  function OfKinds(items: seq<DirectoryItem>, kinds: set<U64>): seq<DirectoryItem> {
    if items == [] then []
    else
      var n := |items| - 1;
      OfKinds(items[..n], kinds) + if items[n].kind in kinds then [items[n]] else []
  }

  const PAYLOAD_KINDS: set<U64> := {KIND_DIRECTORY_FILE, KIND_DIRECTORY_SYMLINK}

  lemma {:induction false} SelectIsOfKinds(items: seq<DirectoryItem>)
    ensures Select(items, true) == OfKinds(items, PAYLOAD_KINDS)
    ensures (forall item | item in items :: item.kind in PAYLOAD_KINDS + {KIND_DIRECTORY_ENTRY}) ==>
              Select(items, false) == OfKinds(items, {KIND_DIRECTORY_ENTRY})
  {
    if items != [] {
      var n := |items| - 1;
      SelectIsOfKinds(items[..n]);
      assert items[n] in items && forall item | item in items[..n] :: item in items;
    }
  }

  function Sizes(items: seq<DirectoryItem>): (sizes: seq<nat>)
    ensures |sizes| == |items|
  {
    seq(|items|, i requires 0 <= i < |items| => items[i].payloadSize)
  }

  /** The items that assignment `a` puts on stream `i`, in order. */
  function ItemsOn(order: seq<DirectoryItem>, a: seq<nat>, i: nat): seq<DirectoryItem>
    requires |order| == |a|
  {
    if order == [] then []
    else
      var n := |order| - 1;
      ItemsOn(order[..n], a[..n], i) + if a[n] == i then [order[n]] else []
  }

  predicate Larger(left: DirectoryItem, right: DirectoryItem) {
    left.payloadSize > right.payloadSize
  }

  /** Partition `i` when the payloads in the order `order` are assigned by `a`. The byte count is
      a 64-bit sum. */
  function PartitionFor(metadata: seq<DirectoryItem>, order: seq<DirectoryItem>, a: seq<nat>,
                        i: nat): DirectoryPartition
    requires |order| == |a|
  {
    DirectoryPartition((if i == 0 then metadata else []) + ItemsOn(order, a, i),
                       Load(Sizes(order), a, i) % U64_MODULUS)
  }

  /** `partitions` comes from assigning the payloads of `items`, sorted into `order`, by `a`. */
  ghost predicate Partitions(items: seq<DirectoryItem>, parallel: nat, partitions: seq<DirectoryPartition>,
                             order: seq<DirectoryItem>, a: seq<nat>) {
    && multiset(order) == multiset(Select(items, true))
    && Descending(Sizes(order))
    && Assigns(a, |order|, parallel)
    && |partitions| == parallel
    && (forall i | 0 <= i < parallel :: partitions[i] == PartitionFor(Select(items, false), order, a, i))
    && (Sum(Sizes(order)) < U64_MODULUS ==> IsGreedy(Sizes(order), a, parallel))
  }

  lemma {:induction false} LargerIsStrictWeakOrder(items: seq<DirectoryItem>)
    ensures StrictWeakOrder(Larger, items)
  {
  }

  /** The partitions come from some assignment of the payloads in descending order, always to a
      partition with the fewest bytes. */
  method PartitionDirectoryItems(items: seq<DirectoryItem>, parallel: nat) returns (partitions: seq<DirectoryPartition>)
    requires parallel > 0
    ensures exists order, a :: Partitions(items, parallel, partitions, order, a)
    ensures |partitions| == parallel
    ensures forall i | 0 <= i < parallel ::
              partitions[i].bytes == Sum(Sizes(OfKinds(partitions[i].items, PAYLOAD_KINDS))) % U64_MODULUS
  {
    partitions := seq(parallel, i => DirectoryPartition([], 0));
    var metadata, payload := SplitItems(items);
    for k := 0 to |metadata|
      invariant |partitions| == parallel
      invariant partitions[0] == DirectoryPartition(metadata[..k], 0)
      invariant forall i | 0 < i < parallel :: partitions[i] == DirectoryPartition([], 0)
    {
      partitions := partitions[0 := DirectoryPartition(partitions[0].items + [metadata[k]], partitions[0].bytes)];
    }
    assert metadata[..|metadata|] == metadata;

    LargerIsStrictWeakOrder(payload);
    payload := Sort(payload, Larger);
    DescendingSizes(payload);

    ghost var a;
    partitions, a := PlacePayload(metadata, payload, partitions);
    assert Partitions(items, parallel, partitions, payload, a);
    forall i | 0 <= i < parallel
      ensures partitions[i].bytes == Sum(Sizes(OfKinds(partitions[i].items, PAYLOAD_KINDS))) % U64_MODULUS
    {
      BytesByKind(items, parallel, partitions, payload, a, i);
    }
  }

  /** The loop over the sorted payload: each item goes to the partition with the fewest bytes. */
  method PlacePayload(ghost metadata: seq<DirectoryItem>, payload: seq<DirectoryItem>, empty: seq<DirectoryPartition>)
    returns (partitions: seq<DirectoryPartition>, ghost a: seq<nat>)
    requires empty != []
    requires forall i | 0 <= i < |empty| :: empty[i] == PartitionFor(metadata, [], [], i)
    ensures |partitions| == |empty| && Assigns(a, |payload|, |empty|)
    ensures forall i | 0 <= i < |empty| :: partitions[i] == PartitionFor(metadata, payload, a, i)
    ensures Sum(Sizes(payload)) < U64_MODULUS ==> IsGreedy(Sizes(payload), a, |empty|)
  {
    hide PartitionFor, IsGreedy, Sizes;
    ghost var parallel := |empty|;
    partitions, a := empty, [];
    NothingPlaced(parallel);
    for k := 0 to |payload|
      invariant |partitions| == parallel && Assigns(a, k, parallel)
      invariant forall i | 0 <= i < parallel :: partitions[i] == PartitionFor(metadata, payload[..k], a, i)
      invariant Sum(Sizes(payload[..k])) < U64_MODULUS ==> IsGreedy(Sizes(payload[..k]), a, parallel)
    {
      var counts := seq(|partitions|, i requires 0 <= i < |partitions| => partitions[i].bytes);
      assert forall i | 0 <= i < parallel :: counts[i] == partitions[i].bytes;
      var target := MinElement(counts);
      var bytes := (partitions[target].bytes + payload[k].payloadSize) % U64_MODULUS;
      PlaceItem(metadata, payload[..k], a, payload[k], target, parallel, partitions);
      assert payload[..k + 1] == payload[..k] + [payload[k]];
      partitions := partitions[target := DirectoryPartition(partitions[target].items + [payload[k]], bytes)];
      a := a + [target];
    }
    assert payload[..|payload|] == payload;
  }

  lemma {:induction false} NothingPlaced(parallel: nat)
    ensures IsGreedy(Sizes([]), [], parallel)
  {
  }

  /** Separates the items with a payload from the others, keeping the order. */
  method SplitItems(items: seq<DirectoryItem>) returns (metadata: seq<DirectoryItem>, payload: seq<DirectoryItem>)
    ensures metadata == Select(items, false)
    ensures payload == Select(items, true) == OfKinds(items, PAYLOAD_KINDS)
  {
    metadata, payload := [], [];
    for k := 0 to |items|
      invariant metadata == Select(items[..k], false) && payload == Select(items[..k], true)
    {
      assert items[..k + 1][..k] == items[..k];
      if HasPayload(items[k]) {
        payload := payload + [items[k]];
      } else {
        metadata := metadata + [items[k]];
      }
    }
    assert items[..|items|] == items;
    SelectIsOfKinds(items);
  }

  lemma {:induction false} DescendingSizes(order: seq<DirectoryItem>)
    requires Sorted(Larger, order)
    ensures Descending(Sizes(order))
  {
    forall i, j | 0 <= i < j < |order|
      ensures Sizes(order)[i] >= Sizes(order)[j]
    {
      assert !Larger(order[j], order[i]);
    }
  }

  lemma {:induction false} SizesOfAppend(order: seq<DirectoryItem>, item: DirectoryItem)
    ensures Sizes(order + [item]) == Sizes(order) + [item.payloadSize]
    ensures Sum(Sizes(order + [item])) == Sum(Sizes(order)) + item.payloadSize
  {
    var sizes := Sizes(order + [item]);
    assert sizes == Sizes(order) + [item.payloadSize];
    assert sizes[..|sizes| - 1] == Sizes(order);
  }

  /** No load exceeds all the work. */
  lemma {:induction false} LoadBelowSum(p: seq<nat>, a: seq<nat>, i: nat)
    requires |p| == |a|
    ensures Load(p, a, i) <= Sum(p)
  {
    if |p| > 0 {
      LoadBelowSum(p[..|p| - 1], a[..|a| - 1], i);
    }
  }

  /** Placing one more item on the partition with the smallest byte count. */
  lemma {:induction false} PlaceItem(metadata: seq<DirectoryItem>, order: seq<DirectoryItem>, a: seq<nat>,
                                     item: DirectoryItem, target: nat, parallel: nat,
                                     partitions: seq<DirectoryPartition>)
    requires |partitions| == parallel && Assigns(a, |order|, parallel) && target < parallel
    requires forall i | 0 <= i < parallel :: partitions[i] == PartitionFor(metadata, order, a, i)
    requires forall i | 0 <= i < parallel :: partitions[target].bytes <= partitions[i].bytes
    requires forall i | 0 <= i < target :: partitions[target].bytes < partitions[i].bytes
    requires Sum(Sizes(order)) < U64_MODULUS ==> IsGreedy(Sizes(order), a, parallel)
    ensures forall i | 0 <= i < parallel ::
              PartitionFor(metadata, order + [item], a + [target], i) ==
              if i == target then
                DirectoryPartition(partitions[i].items + [item], (partitions[i].bytes + item.payloadSize) % U64_MODULUS)
              else partitions[i]
    ensures Sum(Sizes(order + [item])) < U64_MODULUS ==> IsGreedy(Sizes(order + [item]), a + [target], parallel)
  {
    SizesOfAppend(order, item);
    forall i | 0 <= i < parallel
      ensures PartitionFor(metadata, order + [item], a + [target], i) ==
              if i == target then
                DirectoryPartition(partitions[i].items + [item], (partitions[i].bytes + item.payloadSize) % U64_MODULUS)
              else partitions[i]
    {
      AppendToPartition(metadata, order, a, item, target, i);
    }
    if Sum(Sizes(order + [item])) < U64_MODULUS {
      LeastBytesIsLeastLoad(metadata, order, a, target, parallel, partitions);
      GreedyAppend(Sizes(order), a, parallel, item.payloadSize, target);
    }
  }

  lemma {:induction false} AppendToPartition(metadata: seq<DirectoryItem>, order: seq<DirectoryItem>, a: seq<nat>,
                                             item: DirectoryItem, target: nat, i: nat)
    requires |order| == |a|
    ensures var before := PartitionFor(metadata, order, a, i);
            PartitionFor(metadata, order + [item], a + [target], i) ==
            if i == target then
              DirectoryPartition(before.items + [item], (before.bytes + item.payloadSize) % U64_MODULUS)
            else before
  {
    SizesOfAppend(order, item);
    var sizes := Sizes(order) + [item.payloadSize];
    assert sizes[..|order|] == Sizes(order) && (a + [target])[..|a|] == a && (order + [item])[..|order|] == order;
    var load := Load(Sizes(order), a, i);
    AddModulo(load, item.payloadSize);
  }

  lemma {:induction false} AddModulo(x: nat, y: nat)
    ensures (x % U64_MODULUS + y) % U64_MODULUS == (x + y) % U64_MODULUS
  {
  }

  /** Without overflow the byte counts are the loads, so the choice is the greedy one. */
  lemma {:induction false} LeastBytesIsLeastLoad(metadata: seq<DirectoryItem>, order: seq<DirectoryItem>, a: seq<nat>,
                                                 target: nat, parallel: nat, partitions: seq<DirectoryPartition>)
    requires |partitions| == parallel && |order| == |a| && target < parallel
    requires forall i | 0 <= i < parallel :: partitions[i] == PartitionFor(metadata, order, a, i)
    requires forall i | 0 <= i < parallel :: partitions[target].bytes <= partitions[i].bytes
    requires forall i | 0 <= i < target :: partitions[target].bytes < partitions[i].bytes
    requires Sum(Sizes(order)) < U64_MODULUS
    ensures FirstLeastLoaded(Sizes(order), a, parallel, target)
  {
    forall i | 0 <= i < parallel
      ensures partitions[i].bytes == Load(Sizes(order), a, i)
    {
      LoadBelowSum(Sizes(order), a, i);
    }
  }

  lemma {:induction false} GreedyAppend(p: seq<nat>, a: seq<nat>, m: nat, size: nat, target: nat)
    requires IsGreedy(p, a, m) && FirstLeastLoaded(p, a, m, target)
    ensures IsGreedy(p + [size], a + [target], m)
  {
    var p', a' := p + [size], a + [target];
    forall k | 0 <= k < |a'|
      ensures FirstLeastLoaded(p'[..k], a'[..k], m, a'[k])
    {
      assert p'[..k] == p[..k] && a'[..k] == a[..k];
      if k == |a| {
        assert p[..k] == p && a[..k] == a;
      }
    }
  }

  // ----- Conservation -----

  function AllItems(partitions: seq<DirectoryPartition>): seq<seq<DirectoryItem>> {
    seq(|partitions|, i requires 0 <= i < |partitions| => partitions[i].items)
  }

  lemma {:induction false} SelectNone()
    ensures Select([], false) == [] && Select([], true) == []
  {
  }

  lemma {:induction false} SelectStep(front: seq<DirectoryItem>, last: DirectoryItem)
    ensures forall payload ::
              Select(front + [last], payload) ==
              Select(front, payload) + if HasPayload(last) == payload then [last] else []
  {
    assert (front + [last])[..|front|] == front;
  }

  lemma {:induction false} SelectBoth(items: seq<DirectoryItem>)
    ensures multiset(Select(items, false)) + multiset(Select(items, true)) == multiset(items)
  {
    hide Select, HasPayload;
    if items == [] {
      SelectNone();
    } else {
      var front, last := items[..|items| - 1], items[|items| - 1];
      SelectBoth(front);
      assert items == front + [last];
      SelectStep(front, last);
    }
  }

  ghost function Lists(order: seq<DirectoryItem>, a: seq<nat>, parallel: nat): (lists: seq<seq<DirectoryItem>>)
    requires |order| == |a|
    ensures |lists| == parallel && forall i | 0 <= i < parallel :: lists[i] == ItemsOn(order, a, i)
  {
    seq(parallel, i requires 0 <= i < parallel => ItemsOn(order, a, i))
  }

  lemma {:induction false} FlattenEmpty<T>(n: nat)
    ensures Flatten(seq<seq<T>>(n, i => [])) == []
  {
    if n > 0 {
      FlattenEmpty<T>(n - 1);
      assert seq<seq<T>>(n, i => [])[1..] == seq<seq<T>>(n - 1, i => []);
    }
  }

  lemma {:induction false} ListsAppend(order: seq<DirectoryItem>, a: seq<nat>, parallel: nat,
                                       before: seq<seq<DirectoryItem>>)
    requires Assigns(a, |order|, parallel) && order != []
    requires before == Lists(order[..|order| - 1], a[..|order| - 1], parallel)
    ensures Lists(order, a, parallel) == before[a[|order| - 1] := before[a[|order| - 1]] + [order[|order| - 1]]]
  {
    var n := |order| - 1;
    var after := before[a[n] := before[a[n]] + [order[n]]];
    forall i | 0 <= i < parallel
      ensures Lists(order, a, parallel)[i] == after[i]
    {
      assert before[i] == ItemsOn(order[..n], a[..n], i);
    }
  }

  lemma {:induction false} AssignedItems(order: seq<DirectoryItem>, a: seq<nat>, parallel: nat)
    requires Assigns(a, |order|, parallel)
    ensures multiset(Flatten(Lists(order, a, parallel))) == multiset(order)
  {
    if order == [] {
      FlattenEmpty<DirectoryItem>(parallel);
      assert Lists(order, a, parallel) == seq<seq<DirectoryItem>>(parallel, i => []);
    } else {
      hide Flatten, ItemsOn;
      var n := |order| - 1;
      AssignedItems(order[..n], a[..n], parallel);
      var before, t, item := Lists(order[..n], a[..n], parallel), a[n], order[n];
      ListsAppend(order, a, parallel, before);
      FlattenExtend(before, t, before[t] + [item], multiset{item});
      LastApart(order);
    }
  }

  lemma {:induction false} LastApart(order: seq<DirectoryItem>)
    requires order != []
    ensures multiset(order) == multiset(order[..|order| - 1]) + multiset{order[|order| - 1]}
  {
    assert order == order[..|order| - 1] + [order[|order| - 1]];
  }

  /** Every item of the directory is in exactly one partition, once; the first partition starts
      with all metadata items in their original order. */
  lemma {:induction false} PartitionsConserve(items: seq<DirectoryItem>, parallel: nat,
                                              partitions: seq<DirectoryPartition>, order: seq<DirectoryItem>,
                                              a: seq<nat>)
    requires parallel > 0 && Partitions(items, parallel, partitions, order, a)
    ensures multiset(Flatten(AllItems(partitions))) == multiset(items)
    ensures Select(items, false) <= partitions[0].items
    ensures forall i, item | 0 < i < parallel && item in partitions[i].items :: HasPayload(item)
  {
    hide Select, ItemsOn, Load, IsGreedy, HasPayload, Flatten;
    var metadata, lists := Select(items, false), Lists(order, a, parallel);
    forall i | 0 <= i < parallel
      ensures AllItems(partitions)[i] == lists[0 := metadata + lists[0]][i]
    {
      assert partitions[i] == PartitionFor(metadata, order, a, i);
    }
    assert AllItems(partitions) == lists[0 := metadata + lists[0]];
    FlattenExtend(lists, 0, metadata + lists[0], multiset(metadata));
    AssignedItems(order, a, parallel);
    SelectBoth(items);
    forall i, item | 0 < i < parallel && item in partitions[i].items
      ensures HasPayload(item)
    {
      OnlyPayload(items, order, a, i, item);
    }
  }

  lemma {:induction false} OnlyPayload(items: seq<DirectoryItem>, order: seq<DirectoryItem>, a: seq<nat>, i: nat,
                                       item: DirectoryItem)
    requires |order| == |a| && multiset(order) == multiset(Select(items, true))
    requires item in [] + ItemsOn(order, a, i)
    ensures HasPayload(item)
  {
    assert [] + ItemsOn(order, a, i) == ItemsOn(order, a, i);
    AssignedItem(order, a, i, item);
    assert item in multiset(order);
    SelectedItem(items, true, item);
  }

  lemma {:induction false} AssignedItem(order: seq<DirectoryItem>, a: seq<nat>, i: nat, item: DirectoryItem)
    requires |order| == |a| && item in ItemsOn(order, a, i)
    ensures item in order
  {
    var n := |order| - 1;
    if item in ItemsOn(order[..n], a[..n], i) {
      AssignedItem(order[..n], a[..n], i, item);
    }
  }

  lemma {:induction false} SelectedItem(items: seq<DirectoryItem>, payload: bool, item: DirectoryItem)
    requires item in Select(items, payload)
    ensures HasPayload(item) == payload
  {
    var n := |items| - 1;
    if item in Select(items[..n], payload) {
      SelectedItem(items[..n], payload, item);
    }
  }

  // ----- Balance and the approximation bound -----

  /** Each byte count is the payload size of its partition, as long as all payloads together stay
      below 2^64; the counts differ by at most the largest payload. */
  lemma {:induction false} PartitionsBalanced(items: seq<DirectoryItem>, parallel: nat,
                                              partitions: seq<DirectoryPartition>, order: seq<DirectoryItem>,
                                              a: seq<nat>, i: nat, j: nat, largest: nat)
    requires Partitions(items, parallel, partitions, order, a) && Sum(Sizes(order)) < U64_MODULUS
    requires i < parallel && j < parallel
    requires forall item | item in items && HasPayload(item) :: item.payloadSize <= largest
    ensures partitions[i].bytes == Sum(Sizes(Select(partitions[i].items, true)))
    ensures partitions[i].bytes <= partitions[j].bytes + largest
  {
    hide IsGreedy, Sum, Descending, Select, ItemsOn;
    forall k | 0 <= k < |order|
      ensures Sizes(order)[k] <= largest && HasPayload(order[k])
    {
      OrderedItem(items, order, k);
    }
    LoadBelowSum(Sizes(order), a, i);
    LoadBelowSum(Sizes(order), a, j);
    GreedyBalance(Sizes(order), a, parallel, i, j, largest);
    BytesAreSizes(items, order, a, i);
  }

  lemma {:induction false} OrderedItem(items: seq<DirectoryItem>, order: seq<DirectoryItem>, k: nat)
    requires multiset(order) == multiset(Select(items, true)) && k < |order|
    ensures HasPayload(order[k]) && order[k] in items
  {
    assert order[k] in multiset(order);
    SelectedItem(items, true, order[k]);
    SelectBoth(items);
    assert order[k] in multiset(items);
  }

  lemma {:induction false} BytesAreSizes(items: seq<DirectoryItem>, order: seq<DirectoryItem>, a: seq<nat>, i: nat)
    requires |order| == |a| && forall k | 0 <= k < |order| :: HasPayload(order[k])
    ensures var metadata := if i == 0 then Select(items, false) else [];
            Sum(Sizes(Select(metadata + ItemsOn(order, a, i), true))) == Load(Sizes(order), a, i)
  {
    hide ItemsOn, Sizes, Load;
    var metadata := if i == 0 then Select(items, false) else [];
    LoadOfItems(order, a, i);
    forall item | item in metadata
      ensures !HasPayload(item)
    {
      SelectedItem(items, false, item);
    }
    forall item | item in ItemsOn(order, a, i)
      ensures HasPayload(item)
    {
      AssignedItem(order, a, i, item);
    }
    SelectAppend(metadata, ItemsOn(order, a, i));
    SelectAll(metadata, false);
    SelectAll(ItemsOn(order, a, i), true);
    assert [] + ItemsOn(order, a, i) == ItemsOn(order, a, i);
  }

  lemma {:induction false} SelectAll(items: seq<DirectoryItem>, payload: bool)
    requires forall item | item in items :: HasPayload(item) == payload
    ensures Select(items, payload) == items && Select(items, !payload) == []
  {
    hide Select, HasPayload;
    if items == [] {
      SelectNone();
    } else {
      var front, last := items[..|items| - 1], items[|items| - 1];
      assert forall item | item in front :: item in items;
      SelectAll(front, payload);
      assert items == front + [last] && last in items;
      SelectStep(front, last);
    }
  }

  lemma {:induction false} SelectAppend(x: seq<DirectoryItem>, y: seq<DirectoryItem>)
    ensures Select(x + y, true) == Select(x, true) + Select(y, true)
  {
    if y == [] {
      assert x + y == x;
    } else {
      var n := |y| - 1;
      SelectAppend(x, y[..n]);
      assert (x + y)[..|x + y| - 1] == x + y[..n];
    }
  }

  lemma {:induction false} SizesPrefix(order: seq<DirectoryItem>)
    requires order != []
    ensures var n := |order| - 1; Sizes(order)[..n] == Sizes(order[..n]) && Sizes(order)[n] == order[n].payloadSize
  {
  }

  lemma {:induction false} LoadOfItems(order: seq<DirectoryItem>, a: seq<nat>, i: nat)
    requires |order| == |a|
    ensures Load(Sizes(order), a, i) == Sum(Sizes(ItemsOn(order, a, i)))
  {
    if order != [] {
      var n := |order| - 1;
      LoadOfItems(order[..n], a[..n], i);
      SizesPrefix(order);
      var before := ItemsOn(order[..n], a[..n], i);
      SizesOfAppend(before, order[n]);
      assert before + [] == before;
      hide Sizes, Sum;
    }
  }

  /** Any other way to spread the payloads of `items` over `parallel` streams with at most `t`
      bytes on each. */
  ghost predicate SpreadWithin(items: seq<DirectoryItem>, parallel: nat, other: seq<seq<DirectoryItem>>, t: nat) {
    && |other| == parallel
    && multiset(Flatten(other)) == multiset(Select(items, true))
    && forall i | 0 <= i < parallel :: Sum(Sizes(other[i])) <= t
  }

  lemma {:induction false} RemoveAt(s: seq<DirectoryItem>, k: nat) returns (rest: seq<DirectoryItem>)
    requires k < |s|
    ensures multiset(rest) == multiset(s) - multiset{s[k]}
    ensures Sum(Sizes(rest)) == Sum(Sizes(s)) - s[k].payloadSize
  {
    rest := s[..k] + s[k + 1..];
    assert s == s[..k] + [s[k]] + s[k + 1..];
    assert Sizes(rest) == Sizes(s[..k]) + Sizes(s[k + 1..]);
    assert Sizes(s) == Sizes(s[..k]) + [s[k].payloadSize] + Sizes(s[k + 1..]);
    SumAppend(Sizes(s[..k]), Sizes(s[k + 1..]));
    SumAppend(Sizes(s[..k]) + [s[k].payloadSize], Sizes(s[k + 1..]));
    SumAppend(Sizes(s[..k]), [s[k].payloadSize]);
    assert Sum([s[k].payloadSize]) == s[k].payloadSize;
  }

  /** Taking one occurrence of `x` out of a spread. */
  lemma {:induction false} TakeOut(other: seq<seq<DirectoryItem>>, x: DirectoryItem)
    returns (t: nat, rest: seq<DirectoryItem>)
    requires x in Flatten(other)
    ensures t < |other|
    ensures multiset(Flatten(other[t := rest])) == multiset(Flatten(other)) - multiset{x}
    ensures Sum(Sizes(rest)) + x.payloadSize == Sum(Sizes(other[t]))
  {
    hide Sizes, Sum, Flatten;
    var k;
    t, k := FlattenFind(other, x);
    rest := RemoveAt(other[t], k);
    FlattenUpdate(other, t, rest);
    FlattenAround(other, t);
    Without(multiset(Flatten(other)), multiset(other[t]), multiset(rest), x,
            multiset(Flatten(other[..t])) + multiset(Flatten(other[t + 1..])));
  }

  lemma {:induction false} Without<T>(all: multiset<T>, part: multiset<T>, left: multiset<T>, x: T, others: multiset<T>)
    requires x in part && left == part - multiset{x} && all == part + others
    ensures all - part + left == all - multiset{x}
  {
  }

  lemma {:induction false} LastOfBoth<T>(s: seq<T>, t: seq<T>)
    requires s != [] && multiset(t) == multiset(s)
    ensures s[|s| - 1] in t
    ensures multiset(s[..|s| - 1]) == multiset(t) - multiset{s[|s| - 1]}
  {
    var n := |s| - 1;
    assert s == s[..n] + [s[n]];
    assert s[n] in multiset(t);
  }

  /** Assignment `b` of the items in `order` loads no machine more than the list of `other` there. */
  ghost predicate LoadedWithin(order: seq<DirectoryItem>, b: seq<nat>, other: seq<seq<DirectoryItem>>) {
    && Assigns(b, |order|, |other|)
    && forall i | 0 <= i < |other| :: Load(Sizes(order), b, i) <= Sum(Sizes(other[i]))
  }

  lemma {:induction false} NothingLoaded(other: seq<seq<DirectoryItem>>)
    ensures LoadedWithin([], [], other)
  {
  }

  /** A spread of the same items is an assignment of them with the same loads. */
  lemma {:induction false} AssignmentOfSpread(order: seq<DirectoryItem>, other: seq<seq<DirectoryItem>>)
    returns (b: seq<nat>)
    requires multiset(Flatten(other)) == multiset(order)
    ensures LoadedWithin(order, b, other)
    decreases |order|
  {
    hide LoadedWithin, Sizes, Sum, Flatten;
    if order == [] {
      NothingLoaded(other);
      return [];
    }
    var front, last := order[..|order| - 1], order[|order| - 1];
    LastOfBoth(order, Flatten(other));
    var t, rest := TakeOut(other, last);
    var b' := AssignmentOfSpread(front, other[t := rest]);
    assert order == front + [last];
    AssignOneMore(front, last, other, t, rest, b');
    b := b' + [t];
  }

  lemma {:induction false} AssignOneMore(front: seq<DirectoryItem>, last: DirectoryItem, other: seq<seq<DirectoryItem>>,
                                         t: nat, rest: seq<DirectoryItem>, b: seq<nat>)
    requires t < |other| && LoadedWithin(front, b, other[t := rest])
    requires Sum(Sizes(rest)) + last.payloadSize == Sum(Sizes(other[t]))
    ensures LoadedWithin(front + [last], b + [t], other)
  {
    hide Sizes, Sum;
    SizesPrefix(front + [last]);
    assert (front + [last])[..|front|] == front && (b + [t])[..|front|] == b;
    forall i | 0 <= i < |other|
      ensures Load(Sizes(front + [last]), b + [t], i) <= Sum(Sizes(other[i]))
    {
      assert Load(Sizes(front), b, i) <= Sum(Sizes(other[t := rest][i]));
    }
  }

  /** The load balancer's guarantee: no stream carries more than (4/3 - 1/(3 parallel)) times the
      heaviest stream of any other way to spread the same payloads. */
  lemma {:induction false} PartitionsNearOptimal(items: seq<DirectoryItem>, parallel: nat,
                                                 partitions: seq<DirectoryPartition>, order: seq<DirectoryItem>,
                                                 a: seq<nat>, other: seq<seq<DirectoryItem>>, t: nat, i: nat)
    requires Partitions(items, parallel, partitions, order, a) && Sum(Sizes(order)) < U64_MODULUS
    requires SpreadWithin(items, parallel, other, t) && i < parallel
    ensures 3 * parallel * partitions[i].bytes <= (4 * parallel - 1) * t
  {
    var b := AssignmentOfSpread(order, other);
    LoadBelowSum(Sizes(order), a, i);
    LptBound(Sizes(order), a, b, parallel, t, i);
  }

  // ----- The same by kinds and sizes alone -----

  /** Files and links count, and nothing else: each byte count is the 64-bit sum of the sizes of the
      files and links of its partition. */
  lemma {:induction false} BytesByKind(items: seq<DirectoryItem>, parallel: nat, partitions: seq<DirectoryPartition>,
                                       order: seq<DirectoryItem>, a: seq<nat>, i: nat)
    requires Partitions(items, parallel, partitions, order, a) && i < parallel
    ensures partitions[i].bytes == Sum(Sizes(OfKinds(partitions[i].items, PAYLOAD_KINDS))) % U64_MODULUS
  {
    hide IsGreedy, Sum, Descending, Select, ItemsOn, OfKinds;
    forall k | 0 <= k < |order|
      ensures HasPayload(order[k])
    {
      OrderedItem(items, order, k);
    }
    BytesAreSizes(items, order, a, i);
    SelectIsOfKinds(partitions[i].items);
  }

  /** Of directories, files and links, a partition other than the first gets only files and links, and
      the first begins with exactly the directories, in order. */
  lemma {:induction false} KindsInPlace(items: seq<DirectoryItem>, parallel: nat, partitions: seq<DirectoryPartition>,
                                        order: seq<DirectoryItem>, a: seq<nat>)
    requires parallel > 0 && Partitions(items, parallel, partitions, order, a)
    requires forall item | item in items :: item.kind in PAYLOAD_KINDS + {KIND_DIRECTORY_ENTRY}
    ensures var entries := OfKinds(items, {KIND_DIRECTORY_ENTRY});
            && entries <= partitions[0].items
            && (forall item | item in partitions[0].items[|entries|..] :: item.kind in PAYLOAD_KINDS)
            && (forall i, item | 0 < i < parallel && item in partitions[i].items :: item.kind in PAYLOAD_KINDS)
  {
    hide Select, ItemsOn, OfKinds, IsGreedy, Descending, Load;
    SelectIsOfKinds(items);
    var entries := OfKinds(items, {KIND_DIRECTORY_ENTRY});
    assert partitions[0] == PartitionFor(entries, order, a, 0);
    assert partitions[0].items[|entries|..] == ItemsOn(order, a, 0);
    forall i, item | 0 <= i < parallel && item in ItemsOn(order, a, i)
      ensures item.kind in PAYLOAD_KINDS
    {
      assert [] + ItemsOn(order, a, i) == ItemsOn(order, a, i);
      OnlyPayload(items, order, a, i, item);
    }
    forall i, item | 0 < i < parallel && item in partitions[i].items
      ensures item.kind in PAYLOAD_KINDS
    {
      assert partitions[i] == PartitionFor(entries, order, a, i);
      assert [] + ItemsOn(order, a, i) == ItemsOn(order, a, i);
    }
  }

  /** Selection counts each item as often as the list does, or not at all. */
  lemma {:induction false} SelectCount(items: seq<DirectoryItem>, payload: bool, item: DirectoryItem)
    ensures multiset(Select(items, payload))[item] == if HasPayload(item) == payload then multiset(items)[item] else 0
  {
    if items != [] {
      var n := |items| - 1;
      SelectCount(items[..n], payload, item);
      assert items == items[..n] + [items[n]];
    }
  }

  lemma {:induction false} SelectSame(x: seq<DirectoryItem>, y: seq<DirectoryItem>)
    requires multiset(x) == multiset(y)
    ensures multiset(Select(x, true)) == multiset(Select(y, true))
  {
    hide Select;
    forall item
      ensures multiset(Select(x, true))[item] == multiset(Select(y, true))[item]
    {
      SelectCount(x, true, item);
      SelectCount(y, true, item);
    }
  }

  function SelectEach(lists: seq<seq<DirectoryItem>>): (selected: seq<seq<DirectoryItem>>)
    ensures |selected| == |lists| && forall i | 0 <= i < |lists| :: selected[i] == Select(lists[i], true)
  {
    seq(|lists|, i requires 0 <= i < |lists| => Select(lists[i], true))
  }

  lemma {:induction false} SelectFlatten(lists: seq<seq<DirectoryItem>>)
    ensures Flatten(SelectEach(lists)) == Select(Flatten(lists), true)
  {
    hide Select;
    if lists == [] {
      SelectNone();
    } else {
      SelectFlatten(lists[1..]);
      assert SelectEach(lists)[1..] == SelectEach(lists[1..]);
      SelectAppend(lists[0], Flatten(lists[1..]));
    }
  }

  /** Leaving out the directories leaves out no bytes if they have none, and adds none in any case. */
  lemma {:induction false} SelectedSum(items: seq<DirectoryItem>)
    ensures Sum(Sizes(Select(items, true))) <= Sum(Sizes(items))
    ensures (forall item | item in items && !HasPayload(item) :: item.payloadSize == 0) ==>
              Sum(Sizes(Select(items, true))) == Sum(Sizes(items))
  {
    hide HasPayload, Sizes;
    if items == [] {
      SelectNone();
    } else {
      var front, last := items[..|items| - 1], items[|items| - 1];
      SelectedSum(front);
      assert items == front + [last] && last in items && forall item | item in front :: item in items;
      SizesOfAppend(front, last);
      SizesOfAppend(Select(front, true), last);
      assert Select(front, true) + [] == Select(front, true);
    }
  }

  lemma {:induction false} SameSum(x: seq<DirectoryItem>, y: seq<DirectoryItem>)
    requires multiset(x) == multiset(y)
    ensures Sum(Sizes(x)) == Sum(Sizes(y))
    decreases |x|
  {
    hide Sizes, Sum;
    if x == [] {
      assert y == [] by {
        assert |multiset(y)| == |y| == 0;
      }
    } else {
      LastOfBoth(x, y);
      var front, last := x[..|x| - 1], x[|x| - 1];
      var k :| 0 <= k < |y| && y[k] == last;
      var rest := RemoveAt(y, k);
      SameSum(front, rest);
      assert x == front + [last];
      SizesOfAppend(front, last);
    }
  }

  /** Any other way to spread all the items over `parallel` streams with at most `t` bytes on each. */
  ghost predicate AllSpreadWithin(items: seq<DirectoryItem>, parallel: nat, other: seq<seq<DirectoryItem>>, t: nat) {
    && |other| == parallel
    && multiset(Flatten(other)) == multiset(items)
    && forall i | 0 <= i < parallel :: Sum(Sizes(other[i])) <= t
  }

  /** If directories have no bytes, the byte counts are the sizes of the partitions, and no partition
      exceeds (4/3 - 1/(3 parallel)) times the largest one of any other spread of all the items. */
  lemma {:induction false} SizesNearOptimal(items: seq<DirectoryItem>, parallel: nat,
                                            partitions: seq<DirectoryPartition>, order: seq<DirectoryItem>,
                                            a: seq<nat>, other: seq<seq<DirectoryItem>>, t: nat, i: nat)
    requires Partitions(items, parallel, partitions, order, a) && Sum(Sizes(items)) < U64_MODULUS
    requires forall item | item in items && item.kind !in PAYLOAD_KINDS :: item.payloadSize == 0
    requires AllSpreadWithin(items, parallel, other, t) && i < parallel
    ensures partitions[i].bytes == Sum(Sizes(partitions[i].items))
    ensures 3 * parallel * Sum(Sizes(partitions[i].items)) <= (4 * parallel - 1) * t
  {
    hide Select, Sizes, Sum, IsGreedy, Descending, ItemsOn, Load, Flatten, OfKinds;
    PayloadTotal(items, parallel, partitions, order, a);
    BytesByKind(items, parallel, partitions, order, a, i);
    SelectIsOfKinds(partitions[i].items);
    PartitionSum(items, parallel, partitions, order, a, i);
    SelectFlatten(other);
    SelectSame(Flatten(other), items);
    forall k | 0 <= k < parallel
      ensures Sum(Sizes(SelectEach(other)[k])) <= t
    {
      SelectedSum(other[k]);
    }
    PartitionsNearOptimal(items, parallel, partitions, order, a, SelectEach(other), t, i);
  }

  lemma {:induction false} PayloadTotal(items: seq<DirectoryItem>, parallel: nat, partitions: seq<DirectoryPartition>,
                                        order: seq<DirectoryItem>, a: seq<nat>)
    requires Partitions(items, parallel, partitions, order, a)
    ensures Sum(Sizes(order)) <= Sum(Sizes(items))
  {
    hide Select, Sizes, Sum, IsGreedy, Descending;
    SameSum(order, Select(items, true));
    SelectedSum(items);
  }

  lemma {:induction false} PartitionSum(items: seq<DirectoryItem>, parallel: nat, partitions: seq<DirectoryPartition>,
                                        order: seq<DirectoryItem>, a: seq<nat>, i: nat)
    requires Partitions(items, parallel, partitions, order, a) && i < parallel
    requires forall item | item in items && item.kind !in PAYLOAD_KINDS :: item.payloadSize == 0
    ensures Sum(Sizes(Select(partitions[i].items, true))) == Sum(Sizes(partitions[i].items)) <= Sum(Sizes(items))
  {
    hide Select, Sizes, Sum, IsGreedy, Descending, ItemsOn, Load, Flatten;
    PartitionsConserve(items, parallel, partitions, order, a);
    var all := AllItems(partitions);
    FlattenAround(all, i);
    forall item | item in partitions[i].items
      ensures item in items
    {
      assert item in Flatten(all) && item in multiset(Flatten(all));
    }
    SelectedSum(partitions[i].items);
    SameSum(Flatten(all), items);
    SumOfParts(Flatten(all[..i]), partitions[i].items, Flatten(all[i + 1..]));
  }

  lemma {:induction false} SumOfParts(x: seq<DirectoryItem>, y: seq<DirectoryItem>, z: seq<DirectoryItem>)
    ensures Sum(Sizes(y)) <= Sum(Sizes(x + y + z))
  {
    assert Sizes(x + y + z) == Sizes(x) + Sizes(y) + Sizes(z);
    SumAppend(Sizes(x) + Sizes(y), Sizes(z));
    SumAppend(Sizes(x), Sizes(y));
  }
}
