/** The blink list as a value (fish/blink.S): items in list order, each in a slot of the static pool. */
module BlinkSpec {
  import opened Basics

  const POOL: nat := 2000          // 80*25
  const WORD: nat := 0x1_0000
  const TOP: nat := 0x8000

  type word = x: int | 0 <= x < 0x1_0000

  datatype Item = Item(location: word, onChar: byte, offChar: byte, onLength: word, offLength: word,
                       countdown: word, on: bool)

  /** A struct cleared by mp1_free. */
  const FREE := Item(0, 0, 0, 0, 0, 0, false)

  datatype Entry = Entry(slot: nat, item: Item)

  /** A 16-bit decrement. */
  function Dec(w: word): word {
    if w == 0 then WORD - 1 else w - 1
  }

  /** jg after cmpw $0: positive as a signed word. */
  predicate Positive(w: word) {
    0 < w < TOP
  }

  /** The part of mp1_rtc_tasklet that one item sees. */
  function TickItem(i: Item): Item {
    var c := Dec(i.countdown);
    if Positive(c) then i.(countdown := c)
    else if i.on then i.(countdown := i.offLength, on := false)
    else i.(countdown := i.onLength, on := true)
  }

  /** The first entry at a location, by its position in the list. */
  function Find(list: seq<Entry>, location: word): (r: Option<nat>)
    ensures r.Some? ==> r.value < |list| && list[r.value].item.location == location
                        && forall j :: 0 <= j < r.value ==> list[j].item.location != location
    ensures r.None? ==> forall j :: 0 <= j < |list| ==> list[j].item.location != location
  {
    if list == [] then None
    else if list[0].item.location == location then Some(0)
    else match Find(list[1..], location) case None => None case Some(k) => Some(k + 1)
  }

  ghost predicate HasSlot(list: seq<Entry>, slot: nat) {
    exists k :: 0 <= k < |list| && list[k].slot == slot
  }

  /** No slot twice, every slot in the pool, every location on the screen and not zero. */
  ghost predicate Proper(list: seq<Entry>) {
    && (forall i, j :: 0 <= i < j < |list| ==> list[i].slot != list[j].slot)
    && (forall i :: 0 <= i < |list| ==> list[i].slot < POOL && 0 < list[i].item.location < POOL)
  }

  /** The lowest slot at or after i that the list does not use. */
  ghost function FreeSlot(list: seq<Entry>, i: nat): (r: Option<nat>)
    requires i <= POOL
    ensures r.Some? ==>
      i <= r.value < POOL && !HasSlot(list, r.value) && forall j :: i <= j < r.value ==> HasSlot(list, j)
    ensures r.None? ==> forall j :: i <= j < POOL ==> HasSlot(list, j)
    decreases POOL - i
  {
    if i == POOL then None
    else if !HasSlot(list, i) then Some(i)
    else FreeSlot(list, i + 1)
  }

  /** What mp1_ioctl_add stores of the user's struct. */
  function Started(i: Item): Item {
    i.(countdown := i.onLength, on := true)
  }

  datatype Op = Add(item: Item) | Remove(location: word) | Sync(source: word, target: word) | Tick

  /** The timing fields that sync copies. */
  function SameTiming(to: Item, from: Item): Item {
    to.(onLength := from.onLength, offLength := from.offLength, countdown := from.countdown, on := from.on)
  }

  function TickAll(list: seq<Entry>): (r: seq<Entry>)
    ensures |r| == |list|
    ensures forall k :: 0 <= k < |list| ==> r[k] == list[k].(item := TickItem(list[k].item))
  {
    seq(|list|, k requires 0 <= k < |list| => list[k].(item := TickItem(list[k].item)))
  }

  /** The list with the entry at position gone taken out. */
  function Without(list: seq<Entry>, gone: nat): (r: seq<Entry>)
    requires gone < |list|
    ensures |r| == |list| - 1
    ensures forall i :: 0 <= i < |r| ==> r[i] == list[if i < gone then i else i + 1]
  {
    list[..gone] + list[gone + 1..]
  }

  /** One call. A call that fails leaves the list alone. */
  ghost function Step(list: seq<Entry>, op: Op): seq<Entry> {
    match op
    case Add(item) =>
      if item.location >= POOL then list
      else
        (match FreeSlot(list, 0)
         case None => list
         case Some(slot) => [Entry(slot, Started(item))] + list)
    case Remove(location) =>
      (match Find(list, location)
       case None => list
       case Some(k) => Without(list, k))
    case Sync(source, target) =>
      (match (Find(list, source), Find(list, target))
       case (Some(s), Some(t)) => list[t := list[t].(item := SameTiming(list[t].item, list[s].item))]
       case _ => list)
    case Tick => TickAll(list)
  }

  ghost function Run(list: seq<Entry>, ops: seq<Op>): seq<Entry>
    decreases |ops|
  {
    if ops == [] then list else Run(Step(list, ops[0]), ops[1..])
  }

  /** An add at location 0 that finds a node. */
  ghost predicate AddsZero(list: seq<Entry>, op: Op) {
    op.Add? && op.item.location == 0 && FreeSlot(list, 0).Some?
  }

  /** No call of a run is one. */
  ghost predicate NonZero(list: seq<Entry>, ops: seq<Op>)
    decreases |ops|
  {
    ops == [] || (!AddsZero(list, ops[0]) && NonZero(Step(list, ops[0]), ops[1..]))
  }

  /** The list is proper all along a run. */
  ghost predicate ProperAlong(list: seq<Entry>, ops: seq<Op>)
    decreases |ops|
  {
    Proper(list) && (ops != [] ==> ProperAlong(Step(list, ops[0]), ops[1..]))
  }

  lemma WithoutKeepsProper(list: seq<Entry>, gone: nat)
    requires Proper(list) && gone < |list|
    ensures Proper(Without(list, gone))
  {
  }

  lemma AddKeepsProper(list: seq<Entry>, slot: nat, item: Item)
    requires Proper(list) && !HasSlot(list, slot) && slot < POOL && 0 < item.location < POOL
    ensures Proper([Entry(slot, item)] + list)
  {
    assert forall k :: 0 <= k < |list| ==> list[k].slot != slot;
  }

  /** Same slots and locations, whatever happens to the timers. */
  lemma SamePlacesKeepProper(list: seq<Entry>, after: seq<Entry>)
    requires Proper(list) && |after| == |list|
    requires forall k :: 0 <= k < |list| ==>
      after[k].slot == list[k].slot && after[k].item.location == list[k].item.location
    ensures Proper(after)
  {
  }

  lemma StepKeepsProper(list: seq<Entry>, op: Op)
    requires Proper(list) && !AddsZero(list, op)
    ensures Proper(Step(list, op))
  {
    match op
    case Add(item) =>
      if item.location < POOL && FreeSlot(list, 0).Some? {
        AddKeepsProper(list, FreeSlot(list, 0).value, Started(item));
      }
    case Remove(location) =>
      if Find(list, location).Some? {
        WithoutKeepsProper(list, Find(list, location).value);
      }
    case Sync(_, _) => SamePlacesKeepProper(list, Step(list, op));
    case Tick => SamePlacesKeepProper(list, TickAll(list));
  }

  /** A call keeps the list proper exactly when it is not an add at location 0 that finds a node. */
  lemma StepKeepsProperIff(list: seq<Entry>, op: Op)
    requires Proper(list)
    ensures Proper(Step(list, op)) <==> !AddsZero(list, op)
  {
    if AddsZero(list, op) {
      assert Step(list, op)[0].item.location == 0;
    } else {
      StepKeepsProper(list, op);
    }
  }

  /** A run keeps it proper all along exactly when no call of it is one. */
  lemma {:induction false} RunKeepsProperIff(list: seq<Entry>, ops: seq<Op>)
    requires Proper(list)
    ensures ProperAlong(list, ops) <==> NonZero(list, ops)
    decreases |ops|
  {
    hide Step, Proper, AddsZero;
    if ops != [] {
      StepKeepsProperIff(list, ops[0]);
      if !AddsZero(list, ops[0]) {
        RunKeepsProperIff(Step(list, ops[0]), ops[1..]);
      }
    }
  }

  // ---------- timers ----------

  /** How many ticks a length lasts: itself, up to 32768; zero and anything longer last one tick. */
  function Lasts(length: word): (n: nat)
    ensures n > 0
  {
    if 0 < length <= TOP then length else 1
  }

  function Ticked(i: Item, n: nat): Item {
    if n == 0 then i else TickItem(Ticked(i, n - 1))
  }

  function Period(i: Item): (p: nat)
    ensures p > 0
  {
    Lasts(i.onLength) + Lasts(i.offLength)
  }

  /** The item is p ticks into its period. */
  ghost predicate AtPhase(i: Item, p: nat) {
    && p < Period(i) && (i.on <==> p < Lasts(i.onLength))
    && Lasts(i.countdown) == if i.on then Lasts(i.onLength) - p else Period(i) - p
  }

  lemma TickMovesPhase(i: Item, p: nat)
    requires AtPhase(i, p)
    ensures AtPhase(TickItem(i), if p + 1 == Period(i) then 0 else p + 1)
    ensures TickItem(i) == i.(countdown := TickItem(i).countdown, on := TickItem(i).on)
  {
  }

  lemma {:induction false} PhaseAfter(i: Item, n: nat)
    requires AtPhase(i, 0)
    ensures AtPhase(Ticked(i, n), n % Period(i)) && Period(Ticked(i, n)) == Period(i)
    ensures Ticked(i, n).onLength == i.onLength
  {
    hide TickItem, Lasts, AtPhase;
    if n > 0 {
      PhaseAfter(i, n - 1);
      TickMovesPhase(Ticked(i, n - 1), (n - 1) % Period(i));
      NextRemainder(n - 1, Period(i));
    }
  }

  lemma OnAfter(item: Item, n: nat)
    ensures Ticked(Started(item), n).on <==> n % Period(item) < Lasts(item.onLength)
  {
    PhaseAfter(Started(item), n);
  }

  lemma NextRemainder(n: nat, p: nat)
    requires p > 0
    ensures (n + 1) % p == if n % p + 1 == p then 0 else n % p + 1
  {
    var q, r := n / p, n % p;
    assert n == p * q + r;
    if r + 1 == p {
      assert n + 1 == p * (q + 1);
      RemainderIs(n + 1, p, q + 1, 0);
    } else {
      RemainderIs(n + 1, p, q, r + 1);
    }
  }

  lemma RemainderIs(n: nat, p: nat, q: int, r: nat)
    requires p > 0 && r < p && n == p * q + r
    ensures n % p == r
  {
    var d := q - n / p;
    assert p * d == n % p - r;
    Multiple(d, p);
  }

  // ---------- following one item through a run ----------

  ghost function SlotItem(list: seq<Entry>, slot: nat): (i: Item)
    requires HasSlot(list, slot)
  {
    var k :| 0 <= k < |list| && list[k].slot == slot;
    list[k].item
  }

  lemma SlotItemIs(list: seq<Entry>, k: nat)
    requires Proper(list) && k < |list|
    ensures HasSlot(list, list[k].slot) && SlotItem(list, list[k].slot) == list[k].item
  {
  }

  /** The call removes the item in a slot or makes it the target of a sync. */
  ghost predicate Disturbs(list: seq<Entry>, op: Op, slot: nat) {
    match op
    case Remove(location) => var f := Find(list, location); f.Some? && list[f.value].slot == slot
    case Sync(_, target) => var f := Find(list, target); f.Some? && list[f.value].slot == slot
    case _ => false
  }

  ghost predicate Undisturbed(list: seq<Entry>, ops: seq<Op>, slot: nat)
    decreases |ops|
  {
    ops == [] || (!Disturbs(list, ops[0], slot) && Undisturbed(Step(list, ops[0]), ops[1..], slot))
  }

  function Ticks(ops: seq<Op>): nat {
    if ops == [] then 0 else (if ops[0].Tick? then 1 else 0) + Ticks(ops[1..])
  }

  /** Where a call moves the entry at position k that it does not disturb. */
  ghost function Moved(list: seq<Entry>, op: Op, k: nat): int {
    match op
    case Add(_) => k + |Step(list, op)| - |list|
    case Remove(location) =>
      (match Find(list, location) case Some(f) => (if f < k then k - 1 else k) case None => k)
    case _ => k
  }

  lemma MovedEntry(list: seq<Entry>, op: Op, k: nat)
    requires k < |list| && !Disturbs(list, op, list[k].slot)
    ensures var k', after := Moved(list, op, k), Step(list, op);
      0 <= k' < |after| && after[k'] == if op.Tick? then list[k].(item := TickItem(list[k].item)) else list[k]
  {
    if op.Remove? && Find(list, op.location).Some? && Find(list, op.location).value < k {
      assert Without(list, Find(list, op.location).value)[k - 1] == list[k];
    }
  }

  /** A call that does not disturb an item leaves it alone, or ticks it. */
  lemma StepOnItem(list: seq<Entry>, op: Op, slot: nat)
    requires Proper(list) && HasSlot(list, slot) && !Disturbs(list, op, slot) && !AddsZero(list, op)
    ensures HasSlot(Step(list, op), slot)
    ensures SlotItem(Step(list, op), slot) == if op.Tick? then TickItem(SlotItem(list, slot)) else SlotItem(list, slot)
  {
    StepKeepsProper(list, op);
    var k :| 0 <= k < |list| && list[k].slot == slot;
    SlotItemIs(list, k);
    MovedEntry(list, op, k);
    hide Step, Moved, Disturbs, Proper;
    SlotItemIs(Step(list, op), Moved(list, op, k));
  }

  lemma {:induction false} TickedShift(i: Item, n: nat)
    ensures Ticked(TickItem(i), n) == Ticked(i, n + 1)
  {
    if n > 0 {
      TickedShift(i, n - 1);
    }
  }

  /** Through any run that neither removes nor re-synchronises it, an item just ticks. */
  lemma {:induction false} UndisturbedItemTicks(list: seq<Entry>, ops: seq<Op>, slot: nat)
    requires Proper(list) && NonZero(list, ops) && HasSlot(list, slot) && Undisturbed(list, ops, slot)
    ensures HasSlot(Run(list, ops), slot)
    ensures SlotItem(Run(list, ops), slot) == Ticked(SlotItem(list, slot), Ticks(ops))
    decreases |ops|
  {
    hide Step, Proper, HasSlot, SlotItem, Disturbs, TickItem, AddsZero;
    if ops != [] {
      StepKeepsProper(list, ops[0]);
      StepOnItem(list, ops[0], slot);
      UndisturbedItemTicks(Step(list, ops[0]), ops[1..], slot);
      if ops[0].Tick? {
        TickedShift(SlotItem(list, slot), Ticks(ops[1..]));
      }
    }
  }

  /** An item that is never a sync target is on n ticks after its add exactly when n modulo its period is
      within its on-length. */
  lemma BlinksPeriodically(list: seq<Entry>, item: Item, ops: seq<Op>)
    requires Proper(list) && 0 < item.location < POOL && FreeSlot(list, 0).Some?
    requires NonZero(Step(list, Add(item)), ops) && Undisturbed(Step(list, Add(item)), ops, FreeSlot(list, 0).value)
    ensures var slot, end := FreeSlot(list, 0).value, Run(Step(list, Add(item)), ops);
      HasSlot(end, slot)
      && (SlotItem(end, slot).on <==> Ticks(ops) % Period(item) < Lasts(item.onLength))
  {
    var slot, list1 := FreeSlot(list, 0).value, Step(list, Add(item));
    StepKeepsProper(list, Add(item));
    assert list1[0] == Entry(slot, Started(item));
    SlotItemIs(list1, 0);
    OnAfter(item, Ticks(ops));
    hide Started, Ticked, Period, Lasts, Step, FreeSlot, Proper, HasSlot, Run, Undisturbed;
    UndisturbedItemTicks(list1, ops, slot);
  }

  /** Same lengths, same countdown, same state. */
  ghost predicate InStep(a: Item, b: Item) {
    a.onLength == b.onLength && a.offLength == b.offLength && a.countdown == b.countdown && a.on == b.on
  }

  /** What an add stores in front: the caller's location, characters and lengths, switched on for a whole
      on-length. The rest of the list stays. */
  lemma AddStores(list: seq<Entry>, item: Item)
    requires item.location < POOL && FreeSlot(list, 0).Some?
    ensures var after := Step(list, Add(item));
      && |after| == |list| + 1 && after[1..] == list && !HasSlot(list, after[0].slot)
      && var i := after[0].item;
         && i.location == item.location && i.onChar == item.onChar && i.offChar == item.offChar
         && i.onLength == item.onLength && i.offLength == item.offLength
         && i.countdown == item.onLength && i.on
  {
  }

  /** What a sync writes: the target keeps its location and characters and takes over the source's timing. Every
      other entry stays; and without a source or a target nothing changes. */
  lemma SyncCopies(list: seq<Entry>, source: word, target: word)
    ensures var s, t, after := Find(list, source), Find(list, target), Step(list, Sync(source, target));
      if s.Some? && t.Some? then
        && |after| == |list| && (forall k :: 0 <= k < |list| && k != t.value ==> after[k] == list[k])
        && after[t.value].slot == list[t.value].slot
        && var was, now, from := list[t.value].item, after[t.value].item, list[s.value].item;
           && now.location == was.location && now.onChar == was.onChar && now.offChar == was.offChar
           && now.onLength == from.onLength && now.offLength == from.offLength
           && now.countdown == from.countdown && now.on == from.on
      else after == list
  {
  }

  lemma {:induction false} TickedInStep(a: Item, b: Item, n: nat)
    requires InStep(a, b)
    ensures InStep(Ticked(a, n), Ticked(b, n))
  {
    if n > 0 {
      TickedInStep(a, b, n - 1);
    }
  }

  lemma {:induction false} TickedKeepsLengths(i: Item, n: nat)
    ensures Ticked(i, n).onLength == i.onLength && Ticked(i, n).offLength == i.offLength
    ensures Ticked(i, n).location == i.location && Ticked(i, n).onChar == i.onChar && Ticked(i, n).offChar == i.offChar
  {
    if n > 0 {
      TickedKeepsLengths(i, n - 1);
    }
  }

  /** After a sync the two items stay in lockstep until one of them is removed or synchronised again. */
  lemma SyncedItemsStayInStep(list: seq<Entry>, source: word, target: word, ops: seq<Op>)
    requires Proper(list) && Find(list, source).Some? && Find(list, target).Some?
    requires var list1 := Step(list, Sync(source, target));
      && NonZero(list1, ops)
      && Undisturbed(list1, ops, list[Find(list, source).value].slot)
      && Undisturbed(list1, ops, list[Find(list, target).value].slot)
    ensures var a, b := list[Find(list, source).value].slot, list[Find(list, target).value].slot;
      var end := Run(Step(list, Sync(source, target)), ops);
      HasSlot(end, a) && HasSlot(end, b)
      && SlotItem(end, a).on == SlotItem(end, b).on
      && SlotItem(end, a).countdown == SlotItem(end, b).countdown
      && SlotItem(end, a).onLength == SlotItem(end, b).onLength == list[Find(list, source).value].item.onLength
      && SlotItem(end, a).offLength == SlotItem(end, b).offLength == list[Find(list, source).value].item.offLength
  {
    var list1, s, t := Step(list, Sync(source, target)), Find(list, source).value, Find(list, target).value;
    StepKeepsProper(list, Sync(source, target));
    SlotItemIs(list1, s);
    SlotItemIs(list1, t);
    UndisturbedItemTicks(list1, ops, list[s].slot);
    UndisturbedItemTicks(list1, ops, list[t].slot);
    TickedInStep(list1[s].item, list1[t].item, Ticks(ops));
    TickedKeepsLengths(list1[s].item, Ticks(ops));
  }
}
