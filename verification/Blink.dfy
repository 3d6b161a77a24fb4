/** The blink list as stored: a static pool of structs linked through next (fish/blink.S, fish/fish.c). */
module Blink {
  import opened BlinkSpec

  /** struct mp1_blink_struct. */
  class Node {
    var item: Item
    var next: Node?

    constructor ()
      ensures item == FREE && next == null
    {
      item, next := FREE, null;
    }
  }

  class BlinkList {
    const pool: seq<Node>
    var head: Node?
    ghost var list: seq<Entry>

    ghost predicate Separate() {
      |pool| == POOL && forall i, j :: 0 <= i < j < POOL ==> pool[i] != pool[j]
    }

    /** The node at position k of a list; null past its end. */
    ghost function NodeAt(l: seq<Entry>, k: nat): Node?
      requires Separate() && k <= |l| && (k < |l| ==> l[k].slot < POOL)
    {
      if k == |l| then null else pool[l[k].slot]
    }

    /** The node at position k links to the next one. */
    ghost predicate LinkAt(l: seq<Entry>, k: nat)
      requires Separate() && k < |l| && l[k].slot < POOL && (k + 1 < |l| ==> l[k + 1].slot < POOL)
      reads pool
    {
      pool[l[k].slot].next == NodeAt(l, k + 1)
    }

    /** Every node off the list is free. */
    ghost predicate RestIsFree(l: seq<Entry>)
      requires Separate()
      reads pool
    {
      forall i :: 0 <= i < POOL && !HasSlot(l, i) ==> pool[i].item.location == 0
    }

    /** The nodes hold a list: its items, linked in order from the head, and nothing else with a location. */
    ghost predicate Stores(l: seq<Entry>)
      reads `head, pool
    {
      && Separate() && Proper(l)
      && head == NodeAt(l, 0)
      && (forall k :: 0 <= k < |l| ==> pool[l[k].slot].item == l[k].item)
      && (forall k :: 0 <= k < |l| ==> LinkAt(l, k))
      && RestIsFree(l)
    }

    ghost predicate Valid()
      reads this, pool
    {
      Stores(list)
    }

    /** Take a new list as the ghost value once the nodes hold it. */
    ghost method Adopt(after: seq<Entry>)
      requires Separate() && Proper(after) && head == NodeAt(after, 0)
      requires forall k :: 0 <= k < |after| ==> pool[after[k].slot].item == after[k].item
      requires forall k :: 0 <= k < |after| ==> LinkAt(after, k)
      requires RestIsFree(after)
      modifies `list
      ensures Valid() && list == after
    {
      list := after;
    }

    lemma OtherSlots(l: seq<Entry>, k: nat)
      requires Proper(l) && k < |l|
      ensures forall j :: 0 <= j < |l| ==> l[j].slot < POOL
      ensures forall j :: 0 <= j < |l| && j != k ==> l[j].slot != l[k].slot
    {
    }

    constructor (nodes: seq<Node>)
      requires |nodes| == POOL && forall i, j :: 0 <= i < j < POOL ==> nodes[i] != nodes[j]
      requires forall i :: 0 <= i < POOL ==> nodes[i].item == FREE
      ensures Valid() && list == [] && pool == nodes
    {
      pool, head, list := nodes, null, [];
    }

    /** The list is exactly the nodes with a location. */
    lemma OnListIffLocated(i: nat)
      requires Valid() && i < POOL
      ensures HasSlot(list, i) <==> pool[i].item.location != 0
    {
      if HasSlot(list, i) {
        var k :| 0 <= k < |list| && list[k].slot == i;
      }
    }

    /** mp1_malloc: the lowest node with location 0. */
    method Malloc() returns (slot: int)
      requires Separate()
      ensures -1 <= slot < POOL
      ensures slot == -1 ==> forall i :: 0 <= i < POOL ==> pool[i].item.location != 0
      ensures slot >= 0 ==> pool[slot].item.location == 0 && forall i :: 0 <= i < slot ==> pool[i].item.location != 0
    {
      var i := 0;
      while i < POOL
        invariant 0 <= i <= POOL && forall j :: 0 <= j < i ==> pool[j].item.location != 0
      {
        if pool[i].item.location == 0 {
          return i;
        }
        i := i + 1;
      }
      return -1;
    }

    /** The writes of mp1_ioctl_add: a started item in front when a node was found, none otherwise. */
    twostate predicate Wrote(slot: int)
      requires Separate() && slot < POOL
      reads `head, pool
    {
      && (forall j :: 0 <= j < POOL && j != slot ==>
            pool[j].item == old(pool[j].item) && pool[j].next == old(pool[j].next))
      && if slot < 0 then head == old(head)
         else head == pool[slot] && pool[slot].next == old(head)
    }

    /** mp1_ioctl_add on the fields: what it does whatever the location, and whatever state the list is in. */
    method AddNode(i: Item) returns (slot: int)
      requires Separate()
      modifies `head, pool
      ensures -1 <= slot < POOL && Wrote(slot) && (slot >= 0 ==> pool[slot].item == Started(i))
      ensures i.location >= POOL ==> slot == -1
      ensures slot == -1 && i.location < POOL ==> forall j :: 0 <= j < POOL ==> old(pool[j].item.location) != 0
      ensures slot >= 0 ==>
        old(pool[slot].item.location) == 0 && forall j :: 0 <= j < slot ==> old(pool[j].item.location) != 0
    {
      if i.location >= POOL {
        return -1;
      }
      var started := i.(on := true, countdown := i.onLength);
      slot := Malloc();
      if slot == -1 {
        return;
      }
      pool[slot].item := started;
      pool[slot].next := head;
      head := pool[slot];
    }

    /** Location 0 is accepted, but its node still looks free: the next add, of any item on the screen, takes it
        again and links it to itself. */
    method AddAfterZeroLoops(i: Item, j: Item)
      requires Valid() && i.location == 0 && FreeSlot(list, 0).Some? && j.location < POOL
      modifies `head, pool
      ensures head != null && head.next == head && head.item == Started(j)
    {
      FreeSlotLocated();
      var a := AddNode(i);
      var b := AddNode(j);
    }

    lemma FreeSlotLocated()
      requires Valid()
      ensures FreeSlot(list, 0).None? ==> forall j :: 0 <= j < POOL ==> pool[j].item.location != 0
      ensures var free := FreeSlot(list, 0);
        free.Some? ==>
          pool[free.value].item.location == 0 && forall j :: 0 <= j < free.value ==> pool[j].item.location != 0
    {
      forall j | 0 <= j < POOL ensures HasSlot(list, j) <==> pool[j].item.location != 0 {
        OnListIffLocated(j);
      }
    }

    /** mp1_ioctl_add. Afterwards the nodes store a list exactly unless a node was taken for location 0; then the
        new head still looks free. */
    method Add(i: Item) returns (ok: bool)
      requires Valid()
      modifies this, pool
      ensures ok <==> i.location < POOL && FreeSlot(old(list), 0).Some?
      ensures !AddsZero(old(list), BlinkSpec.Add(i)) ==> Valid() && list == Step(old(list), BlinkSpec.Add(i))
      ensures AddsZero(old(list), BlinkSpec.Add(i)) ==>
        Separate() && head != null && head.item == Started(i) && head.next == old(head)
      ensures (exists l :: Stores(l)) <==> !AddsZero(old(list), BlinkSpec.Add(i))
    {
      ghost var after := Step(list, BlinkSpec.Add(i));
      AddCases(list, i);
      hide FreeSlot, Step, Started, Stores, HasSlot, Proper, Added;
      var slot := AddStored(i);
      if i.location == 0 && slot != -1 {
        FreeHeadIsNoList();
      } else {
        list := after;
      }
      return slot != -1;
    }

    /** A head that looks free belongs to no list. */
    lemma FreeHeadIsNoList()
      requires head != null && head.item.location == 0
      ensures forall l :: !Stores(l)
    {
    }

    /** The list with a started item in front, once a slot was found. */
    ghost function Added(l: seq<Entry>, slot: int, i: Item): seq<Entry> {
      if slot >= 0 then [Entry(slot, Started(i))] + l else l
    }

    lemma AddCases(l: seq<Entry>, i: Item)
      ensures Started(i).location == i.location
      ensures var free := FreeSlot(l, 0);
        Step(l, BlinkSpec.Add(i))
        == Added(l, if i.location < POOL && free.Some? then free.value else -1, i)
    {
    }

    /** The same, in terms of what the nodes store. */
    method AddStored(i: Item) returns (slot: int)
      requires Valid()
      modifies `head, pool
      ensures Separate() && -1 <= slot < POOL
      ensures slot == if i.location < POOL && FreeSlot(list, 0).Some? then FreeSlot(list, 0).value else -1
      ensures slot >= 0 ==> head == pool[slot] && pool[slot].item == Started(i) && pool[slot].next == old(head)
      ensures i.location != 0 || slot == -1 ==> Stores(Added(list, slot, i))
    {
      FreeSlotLocated();
      hide FreeSlot, Proper, HasSlot, RestIsFree, LinkAt, Wrote;
      slot := AddNode(i);
      if i.location != 0 || slot == -1 {
        StoredAfterAdd(slot);
      }
    }

    twostate lemma StoredAfterAdd(slot: int)
      requires Separate() && old(Valid()) && list == old(list) && slot < POOL && Wrote(slot)
      requires slot >= 0 ==> 0 < pool[slot].item.location < POOL && old(pool[slot].item.location) == 0
      ensures Stores(if slot >= 0 then [Entry(slot, pool[slot].item)] + list else list)
    {
      if slot >= 0 {
        StoredInFront(slot);
      } else {
        SamePlaces(list);
      }
    }

    twostate lemma StoredInFront(slot: nat)
      requires Separate() && old(Valid()) && list == old(list) && slot < POOL && Wrote(slot)
      requires 0 < pool[slot].item.location < POOL && old(pool[slot].item.location) == 0
      ensures Stores([Entry(slot, pool[slot].item)] + list)
    {
      hide Proper, HasSlot;
      var after := [Entry(slot, pool[slot].item)] + list;
      OldNodes();
      AddedInFront(list, slot, pool[slot].item);
      Slots(after);
      forall k | 0 <= k < |after| ensures LinkAt(after, k) && pool[after[k].slot].item == after[k].item {
        if k > 0 {
          assert after[k] == list[k - 1] && old(LinkAt(list, k - 1));
        }
      }
      forall j | 0 <= j < POOL && !HasSlot(after, j) ensures pool[j].item.location == 0 {
        assert !HasSlot(list, j) && j != slot;
      }
    }

    lemma Slots(l: seq<Entry>)
      requires Proper(l)
      ensures forall k :: 0 <= k < |l| ==> l[k].slot < POOL
    {
    }

    twostate lemma OldNodes()
      requires Separate() && old(Valid()) && list == old(list)
      ensures forall k :: 0 <= k < |list| ==> list[k].slot < POOL && old(pool[list[k].slot].item.location) != 0
    {
    }

    lemma AddedInFront(l: seq<Entry>, slot: nat, i: Item)
      requires Proper(l) && slot < POOL && 0 < i.location < POOL && forall k :: 0 <= k < |l| ==> l[k].slot != slot
      ensures Proper([Entry(slot, i)] + l)
      ensures forall j :: HasSlot([Entry(slot, i)] + l, j) <==> j == slot || HasSlot(l, j)
    {
      LongerHasMore(Entry(slot, i), l);
      AddKeepsProper(l, slot, i);
    }

    lemma LongerHasMore(e: Entry, l: seq<Entry>)
      ensures forall i :: HasSlot([e] + l, i) <==> i == e.slot || HasSlot(l, i)
    {
      forall i: nat ensures HasSlot([e] + l, i) <==> i == e.slot || HasSlot(l, i) {
        assert ([e] + l)[0] == e;
        if HasSlot(l, i) {
          var k :| 0 <= k < |l| && l[k].slot == i;
          assert ([e] + l)[k + 1].slot == i;
        }
      }
    }

    /** mp1_find_helper: the first node at a location. */
    method FindNode(location: word) returns (n: Node?)
      requires Valid()
      ensures match Find(list, location)
        case None => n == null
        case Some(k) => n == pool[list[k].slot]
    {
      hide Find, HasSlot, RestIsFree;
      n := head;
      ghost var k := 0;
      while n != null && n.item.location != location
        invariant 0 <= k <= |list| && n == NodeAt(list, k)
        invariant forall j :: 0 <= j < k ==> list[j].item.location != location
        decreases |list| - k
      {
        assert LinkAt(list, k);
        n, k := n.next, k + 1;
      }
    }

    /** The search of mp1_ioctl_remove for the link that points to a node: null stands for the list head. */
    method FindLink(target: Node, ghost k: nat) returns (prev: Node?)
      requires Valid() && k < |list| && target == pool[list[k].slot]
      ensures if k == 0 then prev == null else prev == pool[list[k - 1].slot]
    {
      prev := null;
      var at := head;
      ghost var j := 0;
      while at != target
        invariant 0 <= j <= k && at == pool[list[j].slot]
        invariant if j == 0 then prev == null else prev == pool[list[j - 1].slot]
        decreases k - j
      {
        assert LinkAt(list, j);
        prev, at, j := at, at.next, j + 1;
      }
    }

    /** The removal proper: the link to a node is redirected to its successor. */
    method Unlink(n: Node, ghost gone: nat)
      requires Valid() && gone < |list| && n == pool[list[gone].slot]
      modifies `head, pool
      ensures forall i :: 0 <= i < POOL ==> pool[i].item == old(pool[i].item)
      ensures var after := Without(list, gone);
        Proper(after) && head == NodeAt(after, 0) && forall k :: 0 <= k < |after| ==> LinkAt(after, k)
    {
      hide Proper, HasSlot, Find, Without;
      var prev := FindLink(n, gone);
      Slots(list);
      if prev == null {
        head := n.next;
      } else {
        prev.next := n.next;
      }
      LinksAround(gone);
    }

    /** The links of the list without one of its entries, once the link to it is redirected. */
    twostate lemma LinksAround(gone: nat)
      requires Separate() && old(Valid()) && list == old(list) && gone < |list| && list[gone].slot < POOL
      requires gone > 0 ==> list[gone - 1].slot < POOL && head == old(head)
      requires gone == 0 ==> head == old(pool[list[0].slot].next)
      requires forall j :: 0 <= j < POOL ==>
        pool[j].next == old(if gone > 0 && j == list[gone - 1].slot then pool[list[gone].slot].next else pool[j].next)
      ensures var after := Without(list, gone);
        Proper(after) && head == NodeAt(after, 0) && forall k :: 0 <= k < |after| ==> LinkAt(after, k)
    {
      var after := Without(list, gone);
      WithoutKeepsProper(list, gone);
      Slots(list);
      Slots(after);
      if gone > 0 {
        OtherSlots(list, gone - 1);
      }
      hide Proper, HasSlot, Find;
      assert old(LinkAt(list, gone));
      forall k | 0 <= k < |after| ensures LinkAt(after, k) {
        var k' := if k < gone then k else k + 1;
        assert after[k] == list[k'];
        assert k + 1 < |after| ==> after[k + 1] == list[if k + 1 < gone then k + 1 else k + 2];
        assert old(LinkAt(list, k'));
      }
    }

    /** mp1_ioctl_remove: unlink the first node at a location and clear it. */
    method Remove(location: word) returns (ok: bool)
      requires Valid()
      modifies this, pool
      ensures Valid() && list == Step(old(list), BlinkSpec.Remove(location))
      ensures ok <==> Find(old(list), location).Some?
    {
      var n := FindNode(location);
      if n == null {
        return false;
      }
      ghost var was, gone := list, Find(list, location).value;
      ghost var after := Without(was, gone);
      assert after == Step(was, BlinkSpec.Remove(location));
      OtherSlots(was, gone);
      ShorterHasLess(was, gone);
      Unlink(n, gone);
      hide Proper, HasSlot, Find, Step, Without;
      FreeNode(n, after);
      Adopt(after);
      return true;
    }

    /** mp1_free of a node that is off the list by now. */
    method FreeNode(n: Node, ghost after: seq<Entry>)
      requires Separate() && n in pool && Proper(after) && head == NodeAt(after, 0)
      requires forall k :: 0 <= k < |after| ==> pool[after[k].slot].item == after[k].item && pool[after[k].slot] != n
      requires forall k :: 0 <= k < |after| ==> LinkAt(after, k)
      requires forall i :: 0 <= i < POOL && !HasSlot(after, i) ==> pool[i] == n || pool[i].item.location == 0
      modifies n
      ensures Stores(after)
    {
      hide HasSlot;
      n.item := FREE;
      n.next := null;
      forall k | 0 <= k < |after| ensures LinkAt(after, k) {
        assert old(LinkAt(after, k));
      }
    }

    lemma ShorterHasLess(l: seq<Entry>, gone: nat)
      requires Proper(l) && gone < |l|
      ensures forall i :: HasSlot(Without(l, gone), i) <==> i != l[gone].slot && HasSlot(l, i)
    {
      forall i: nat ensures HasSlot(Without(l, gone), i) <==> i != l[gone].slot && HasSlot(l, i) {
        if HasSlot(l, i) && i != l[gone].slot {
          var k :| 0 <= k < |l| && l[k].slot == i;
          assert Without(l, gone)[if k < gone then k else k - 1].slot == i;
        }
      }
    }

    /** mp1_ioctl_sync: copy the timing fields of the first item at source to the first at target. */
    method Sync(source: word, target: word) returns (ok: bool)
      requires Valid()
      modifies this, pool
      ensures Valid() && list == Step(old(list), BlinkSpec.Sync(source, target))
      ensures ok <==> Find(old(list), source).Some? && Find(old(list), target).Some?
    {
      var a := FindNode(source);
      if a == null {
        return false;
      }
      var b := FindNode(target);
      if b == null {
        return false;
      }
      hide Proper, HasSlot;
      CopyItem(a, b, Find(list, source).value, Find(list, target).value);
      return true;
    }

    /** The copy between two nodes of the list, and what it makes of the list. */
    method CopyItem(a: Node, b: Node, ghost s: nat, ghost t: nat)
      requires Valid() && s < |list| && t < |list| && a == pool[list[s].slot] && b == pool[list[t].slot]
      modifies `list, b`item
      ensures Valid() && list == Timed(old(list), s, t)
    {
      ghost var after := Timed(list, s, t);
      OtherSlots(list, t);
      TimedKeepsProper(list, s, t);
      hide Proper, HasSlot;
      CopyTiming(a, b);
      SamePlaces(after);
      Adopt(after);
    }

    /** The list with the timing of entry s copied to entry t. */
    ghost function Timed(l: seq<Entry>, s: nat, t: nat): seq<Entry>
      requires s < |l| && t < |l|
    {
      l[t := l[t].(item := SameTiming(l[t].item, l[s].item))]
    }

    lemma TimedKeepsProper(l: seq<Entry>, s: nat, t: nat)
      requires Proper(l) && s < |l| && t < |l|
      ensures Proper(Timed(l, s, t))
    {
    }

    /** Nodes that keep link and location, whatever else of them changes, still hold a list on the same slots. */
    twostate lemma SamePlaces(after: seq<Entry>)
      requires Separate() && old(Valid()) && list == old(list) && head == old(head)
      requires |after| == |list| && forall k :: 0 <= k < |after| ==> after[k].slot == list[k].slot < POOL
      requires forall j :: 0 <= j < POOL ==>
        pool[j].next == old(pool[j].next) && pool[j].item.location == old(pool[j].item.location)
      ensures head == NodeAt(after, 0) && forall k :: 0 <= k < |after| ==> LinkAt(after, k)
      ensures RestIsFree(after)
    {
      SameSlots(list, after);
      hide Proper, HasSlot;
      forall k | 0 <= k < |after| ensures LinkAt(after, k) {
        assert old(LinkAt(list, k));
      }
      forall j | 0 <= j < POOL && !HasSlot(after, j) ensures pool[j].item.location == 0 {
        assert !HasSlot(list, j) && old(pool[j].item.location) == 0;
      }
    }

    lemma TickStep(l: seq<Entry>)
      ensures var after := Step(l, BlinkSpec.Tick);
        |after| == |l| && forall k :: 0 <= k < |l| ==> after[k] == l[k].(item := TickItem(l[k].item))
    {
    }

    lemma SameSlots(a: seq<Entry>, b: seq<Entry>)
      requires |a| == |b| && forall k :: 0 <= k < |a| ==> a[k].slot == b[k].slot
      ensures forall i :: HasSlot(a, i) <==> HasSlot(b, i)
    {
      forall i: nat ensures HasSlot(a, i) <==> HasSlot(b, i) {
        if HasSlot(a, i) { var k :| 0 <= k < |a| && a[k].slot == i; assert b[k].slot == i; }
        if HasSlot(b, i) { var k :| 0 <= k < |b| && b[k].slot == i; assert a[k].slot == i; }
      }
    }

    /** mp1_rtc_tasklet: every item on the list ticks once. */
    method Tasklet()
      requires Valid()
      modifies this, pool
      ensures Valid() && list == Step(old(list), BlinkSpec.Tick)
    {
      ghost var was, after := list, Step(list, BlinkSpec.Tick);
      StepKeepsProper(was, BlinkSpec.Tick);
      TickStep(was);
      Slots(was);
      TickNodes();
      hide Proper, HasSlot, Step, TickItem;
      SamePlaces(after);
      Adopt(after);
    }

    /** The tasklet's walk. */
    method TickNodes()
      requires Valid()
      modifies pool
      ensures forall k :: 0 <= k < |list| ==> pool[list[k].slot].item == TickItem(list[k].item)
      ensures forall j :: 0 <= j < POOL ==>
        pool[j].next == old(pool[j].next) && pool[j].item.location == old(pool[j].item.location)
    {
      var n := head;
      ghost var k := 0;
      hide HasSlot, TickItem;
      while n != null
        invariant 0 <= k <= |list| && n == NodeAt(list, k)
        invariant forall j :: 0 <= j < k ==> pool[list[j].slot].item == TickItem(list[j].item)
        invariant forall j :: k <= j < |list| ==> pool[list[j].slot].item == list[j].item
        invariant forall j :: 0 <= j < POOL ==>
          pool[j].next == old(pool[j].next) && pool[j].item.location == old(pool[j].item.location)
        decreases |list| - k
      {
        OtherSlots(list, k);
        assert old(LinkAt(list, k));
        TickNode(n);
        n, k := n.next, k + 1;
      }
    }

  }

  /** sync_copy_loop, field by field. */
  method CopyTiming(a: Node, b: Node)
    modifies b`item
    ensures b.item == SameTiming(old(b.item), old(a.item))
  {
    b.item := b.item.(onLength := a.item.onLength);
    b.item := b.item.(offLength := a.item.offLength);
    b.item := b.item.(countdown := a.item.countdown);
    b.item := b.item.(on := a.item.on);
  }

  /** The body of the tasklet's loop. */
  method TickNode(n: Node)
    modifies n`item
    ensures n.item == TickItem(old(n.item)) && n.item.location == old(n.item.location)
  {
    n.item := n.item.(countdown := Dec(n.item.countdown));
    if !Positive(n.item.countdown) {
      var length := if n.item.on then n.item.offLength else n.item.onLength;
      n.item := n.item.(countdown := length);
      n.item := n.item.(on := !n.item.on);
    }
  }
}
