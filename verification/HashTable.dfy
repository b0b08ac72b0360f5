/** The hash table: its state, the insertion loop, the resize, and the deep counts. */
module HashTable {
  import opened Wrappers
  import opened Words
  import opened Cyclic
  import opened RobinHood
  import opened Slots
  import opened Emplacing

  /** The fields of a hash_table_state, as a value. */
  datatype Table = Table(slots: seq<Entry>, size: Word, mask: Word, entryCount: Word, maxLoad: Word) {
    ghost predicate Valid() {
      && size >= 2 && IsPowerOfTwo(size) && entryCount <= maxLoad < size
      && mask == size - 1 && |slots| == size
    }
  }

  /** aws_mul_size_checked, by contract. */
  function MulSizeChecked(a: Word, b: Word): (r: Option<Word>)
    ensures r.None? <==> a * b > SIZE_MAX
    ensures r.Some? ==> r.value == a * b
  {
    if a * b < WORD then Some(a * b) else None
  }

  /** The smallest power of two that is at least n. */
  ghost predicate RoundsUpTo(n: nat, size: nat) {
    IsPowerOfTwo(size) && n <= size && forall k: nat :: Pow2(k) >= n ==> size <= Pow2(k)
  }

  /** aws_round_up_to_power_of_two: fails exactly when the result would not fit. */
  method RoundUpToPowerOfTwo(n: Word) returns (r: Option<Word>)
    ensures r.None? <==> n > HALF_MAX + 1
    ensures r.Some? ==> RoundsUpTo(n, r.value)
  {
    WordIsPow2();
    if n > HALF_MAX + 1 {
      return None;
    }
    var size: Word := 1;
    ghost var k: nat := 0;
    while size < n
      invariant k <= 63 && size == Pow2(k) && size <= HALF_MAX + 1
      invariant forall j: nat :: j < k ==> Pow2(j) < n
      decreases n - size
    {
      if k == 63 {
        assert false;
      }
      Pow2Monotone(k + 1, 63);
      size, k := 2 * size, k + 1;
    }
    forall j: nat | Pow2(j) >= n
      ensures size <= Pow2(j)
    {
      Pow2Monotone(k, if j < k then k else j);
    }
    return Some(size);
  }

  /** The smallest power of two that is at least 2 and at least the expected number of elements. */
  ghost predicate SizeFor(expected: nat, size: nat) {
    && IsPowerOfTwo(size) && 2 <= size && expected <= size
    && forall k: nat :: Pow2(k) >= 2 && Pow2(k) >= expected ==> size <= Pow2(k)
  }

  class HashTableState {
    var hashFn: Word
    var equalsFn: Word
    var alloc: Word
    var size: Word
    var mask: Word
    var entryCount: Word
    var maxLoad: Word
    const slots: array<Entry>
    var released: bool

    /** hash_table_state_is_valid; a state whose memory was released is not readable. */
    ghost predicate IsValid()
      reads this
    {
      && hashFn != 0 && equalsFn != 0 && alloc != 0
      && size >= 2 && IsPowerOfTwo(size)
      && entryCount <= maxLoad && maxLoad < size && mask == size - 1
      && slots.Length == size && !released
    }

    ghost function View(): Table
      reads this, slots
    {
      Table(slots[..], size, mask, entryCount, maxLoad)
    }

    /** A state of the given size whose slots are all empty. */
    constructor New(hashFn: Word, equalsFn: Word, alloc: Word, size: Word, maxLoad: Word)
      requires hashFn != 0 && equalsFn != 0 && alloc != 0
      requires size >= 2 && IsPowerOfTwo(size) && maxLoad < size
      ensures IsValid() && this.size == size && this.maxLoad == maxLoad && entryCount == 0
      ensures this.hashFn == hashFn && this.equalsFn == equalsFn && this.alloc == alloc
      ensures fresh(slots) && forall i :: 0 <= i < size ==> slots[i] == EMPTY
      ensures Sound(View()) && Live(View().slots) == multiset{}
    {
      this.hashFn, this.equalsFn, this.alloc := hashFn, equalsFn, alloc;
      this.size, mask, entryCount, this.maxLoad := size, size - 1, 0, maxLoad;
      slots := new Entry[size](_ => EMPTY);
      released := false;
      new;
      EmptyTable(slots[..]);
    }

    /** A copy of another state's fields over its own slots, all of them empty. */
    constructor (from: HashTableState, slotCount: nat)
      ensures hashFn == from.hashFn && equalsFn == from.equalsFn && alloc == from.alloc
      ensures size == from.size && mask == from.mask
      ensures entryCount == from.entryCount && maxLoad == from.maxLoad
      ensures fresh(slots) && slots.Length == slotCount && !released
      ensures forall i :: 0 <= i < slotCount ==> slots[i] == EMPTY
    {
      hashFn, equalsFn, alloc := from.hashFn, from.equalsFn, from.alloc;
      size, mask, entryCount, maxLoad := from.size, from.mask, from.entryCount, from.maxLoad;
      slots := new Entry[slotCount](_ => EMPTY);
      released := false;
    }

    /** s_update_template_size. ndMaxLoad is the value of nd_size_t(), restricted as the two
        assumptions that follow the call restrict it. */
    method UpdateTemplateSize(expectedElements: Word, ndMaxLoad: Word) returns (ok: bool)
      requires forall s: nat :: SizeFor(expectedElements, s) ==> entryCount < ndMaxLoad < s
      modifies this`size, this`maxLoad, this`mask
      ensures ok <==> expectedElements <= HALF_MAX + 1
      ensures !ok ==> unchanged(this)
      ensures ok ==> size >= 2 && IsPowerOfTwo(size) && expectedElements <= size
      ensures ok ==> forall k: nat :: Pow2(k) >= 2 && Pow2(k) >= expectedElements ==> size <= Pow2(k)
      ensures ok ==> mask == size - 1 && maxLoad == ndMaxLoad && entryCount < maxLoad < size
    {
      var minSize := expectedElements;
      if minSize < 2 {
        minSize := 2;
      }
      var rounded := RoundUpToPowerOfTwo(minSize);
      if rounded.None? {
        return false;
      }
      assert SizeFor(expectedElements, rounded.value);
      size := rounded.value;
      maxLoad := ndMaxLoad;
      mask := size - 1;
      return true;
    }

    /** The slot an entry looks at, its occupant, and how far that is from its own home, in the
        masked wrapping arithmetic of the original. */
    method LookAt(hash: Word, probeIdx: Word) returns (index: nat, victim: Entry, victimProbeIdx: nat)
      requires IsValid()
      ensures index == SlotAt(hash, probeIdx, size) && victim == slots[..][index] && victimProbeIdx < size
      ensures victimProbeIdx == Dist(SlotAt(victim.hash, 0, size), index, size)
    {
      IndexIsSlotAt(hash, probeIdx, size);
      index := BitAnd(Wrap(hash + probeIdx), mask);
      victim := slots[index];
      VictimProbeIsShift(victim.hash, index, size);
      victimProbeIdx := BitAnd(Wrap(index - victim.hash), mask);
    }

    method Store(index: nat, entry: Entry)
      requires index < slots.Length
      modifies slots
      ensures slots[..] == old(slots[..])[index := entry]
    {
      slots[index] := entry;
    }

    /** One iteration of the loop is one turn: the carried entry takes the slot of an occupant
        that is nearer to its home, which is then carried on from one place further, or passes it. */
    method Displace(entry: Entry, probeIdx: Word, rval: Option<nat>)
      returns (entry': Entry, probeIdx': Word, rval': Option<nat>)
      requires IsValid() && size <= HALF_MAX + 1
      modifies slots
      ensures Loop(slots[..], entry', probeIdx', rval') == Turn(Loop(old(slots[..]), entry, probeIdx, rval))
    {
      var index, victim, victimProbeIdx := LookAt(entry.hash, probeIdx);
      if victim.hash == 0 || victimProbeIdx < probeIdx {
        rval' := if rval.None? then Some(index) else rval;
        Store(index, entry);
        entry', probeIdx' := victim, victimProbeIdx + 1;
      } else {
        entry', probeIdx', rval' := entry, Wrap(probeIdx + 1), rval;
      }
    }

    /** s_emplace_item: the Robin Hood displacement loop. Slots are addressed by index; steps
        counts the iterations. Termination, conservation and the returned slot need only an
        empty slot; see Emplaced for what the layout invariant adds. Without an empty slot the
        loop never ends (EndsIffEmptySlot). */
    method EmplaceItem(item: Entry, startProbe: Word) returns (rval: Option<nat>, ghost steps: nat)
      requires IsValid()
      requires item.hash != 0 ==> HasEmptySlot(slots[..])
      modifies slots
      ensures item.hash == 0 ==> rval == None && slots[..] == old(slots[..])
      ensures item.hash != 0 ==>
                rval.Some? && Emplaced(old(slots[..]), item, startProbe, slots[..], rval.value, steps)
      ensures item.hash != 0 ==> Ended(old(slots[..]), item, startProbe, slots[..], rval, steps)
    {
      rval, steps := None, 0;
      if item.hash == 0 {
        return;
      }
      ghost var s0 := slots[..];
      var entry: Entry, probeIdx: Word := item, startProbe;
      PowerFits(size);
      UnderwayAtStart(s0, item, startProbe);
      while entry.hash != 0
        invariant Underway(s0, item, startProbe, slots[..], entry, probeIdx, rval, steps)
        invariant Reached(s0, item, startProbe, slots[..], entry, probeIdx, rval, steps)
        decreases |s0| - steps
      {
        ghost var s', cur', p', r' := UnderwayTurn(s0, item, startProbe, slots[..], entry, probeIdx, rval, steps);
        entry, probeIdx, rval := Displace(entry, probeIdx, rval);
        steps := steps + 1;
      }
      UnderwayFinished(s0, item, startProbe, slots[..], entry, probeIdx, rval, steps);
    }
  }

  // ----- What the table's operations do to its value -----

  /** The table's own invariant: valid, its entry count is the number of live entries, and its
      slots satisfy the layout invariant. */
  ghost predicate Sound(t: Table) {
    t.Valid() && |Live(t.slots)| == t.entryCount && Layout(Homes(t.slots))
  }

  /** Emplacing an entry that the entry count has been raised for. */
  ghost predicate Inserted(t: Table, e: Entry, t': Table) {
    && t.entryCount < t.maxLoad
    && EmplacedFromHome(t.slots, e, t'.slots)
    && t' == t.(slots := t'.slots, entryCount := t.entryCount + 1)
  }

  /** What one slot of the old state, holding e, adds to the new slots. */
  ghost predicate Moved(s: seq<Entry>, e: Entry, s': seq<Entry>) {
    if e.hash == 0 then s' == s else EmplacedFromHome(s, e, s')
  }

  /** The new slots while a resize goes through the old ones: from n empty slots, the old slots
      are moved one by one, in order. */
  ghost predicate Refill(from: seq<Entry>, n: nat, trace: seq<seq<Entry>>) {
    && |trace| == |from| + 1
    && |trace[0]| == n && (forall i :: 0 <= i < n ==> trace[0][i] == EMPTY)
    && forall i :: 0 <= i < |from| ==> Moved(trace[i], from[i], trace[i + 1])
  }

  /** The new slots are what such a refill ends in. */
  ghost predicate Refilled(from: seq<Entry>, s': seq<Entry>) {
    exists trace :: Refill(from, |s'|, trace) && trace[|from|] == s'
  }

  /** A successful resize. */
  ghost predicate Expanded(t: Table, t': Table) {
    && t'.Valid() && Refilled(t.slots, t'.slots) && t'.size == 2 * t.size
    && t'.entryCount == t.entryCount < t'.maxLoad
    && Layout(Homes(t'.slots)) && Live(t'.slots) == Live(t.slots)
  }

  /** Validity does not give an empty slot, since it does not tie the entry count to the slots. */
  lemma {:induction false} ValidWithoutEmptySlot()
    ensures var t := Table([Entry(1, 0, 0), Entry(2, 0, 0)], 2, 1, 0, 1);
            t.Valid() && !HasEmptySlot(t.slots)
  {
    assert Pow2(1) == 2;
  }

  /** It does if the entry count is that of the live entries. */
  lemma {:induction false} CountedHasEmptySlot(t: Table)
    requires t.Valid() && |Live(t.slots)| <= t.entryCount
    ensures HasEmptySlot(t.slots)
  {
    Pigeonhole(t.slots);
  }

  /** Doubling a power of two rounds up to itself. */
  lemma {:induction false} DoubleRoundsToItself(size: nat)
    requires IsPowerOfTwo(size) && size >= 2
    ensures IsPowerOfTwo(2 * size)
    ensures forall rounded: nat :: SizeFor(2 * size, rounded) <==> rounded == 2 * size
  {
    var k: nat :| size == Pow2(k);
    assert Pow2(k + 1) == 2 * size;
    forall rounded: nat | SizeFor(2 * size, rounded)
      ensures rounded == 2 * size
    {
      assert rounded <= Pow2(k + 1);
    }
  }

  lemma {:induction false} MovedKeeps(s: seq<Entry>, e: Entry, s': seq<Entry>)
    requires Moved(s, e, s') && 1 < |s| <= HALF_MAX + 1 && Layout(Homes(s))
    ensures |s'| == |s| && Layout(Homes(s'))
    ensures Live(s') == Live(s) + (if e.hash != 0 then multiset{e} else multiset{})
  {
    if e.hash != 0 {
      EmplaceFromHome(s, e, s');
    }
  }

  lemma {:induction false} MovedIsDetermined(s: seq<Entry>, e: Entry, a: seq<Entry>, b: seq<Entry>)
    requires Moved(s, e, a) && Moved(s, e, b) && 1 < |s| <= HALF_MAX + 1 && Layout(Homes(s))
    ensures a == b && |a| == |s| && Layout(Homes(a))
  {
    MovedKeeps(s, e, a);
    if e.hash != 0 {
      var r: nat, steps: nat :| Emplaced(s, e, 0, a, r, steps);
      var r': nat, steps': nat :| Emplaced(s, e, 0, b, r', steps');
      EmplaceIsDetermined(s, e, 0, a, r, steps, b, r', steps');
    }
  }

  lemma {:induction false} RefillStepAgrees(from: seq<Entry>, n: nat, trace: seq<seq<Entry>>,
                                            trace': seq<seq<Entry>>, i: nat)
    requires Refill(from, n, trace) && Refill(from, n, trace') && i < |from| && trace[i] == trace'[i]
    requires 1 < |trace[i]| <= HALF_MAX + 1 && Layout(Homes(trace[i]))
    ensures trace[i + 1] == trace'[i + 1] && |trace[i + 1]| == |trace[i]| && Layout(Homes(trace[i + 1]))
  {
    var s, e, a, b := trace[i], from[i], trace[i + 1], trace'[i + 1];
    MovedIsDetermined(s, e, a, b);
  }

  /** Two refills of as many slots from the same old ones agree all along. */
  lemma {:induction false} RefillsAgree(from: seq<Entry>, n: nat, trace: seq<seq<Entry>>, trace': seq<seq<Entry>>, i: nat)
    requires Refill(from, n, trace) && Refill(from, n, trace') && 1 < n <= HALF_MAX + 1 && i <= |from|
    ensures trace[i] == trace'[i] && |trace[i]| == n && Layout(Homes(trace[i]))
  {
    if i == 0 {
      EmptyTable(trace[0]);
    } else {
      RefillsAgree(from, n, trace, trace', i - 1);
      RefillStepAgrees(from, n, trace, trace', i - 1);
    }
  }

  /** A resize has one outcome: the new slots are determined, entry by entry, by the old ones. */
  lemma {:induction false} ExpandIsDetermined(t: Table, a: Table, b: Table)
    requires Expanded(t, a) && Expanded(t, b)
    ensures a.slots == b.slots
  {
    var trace :| Refill(t.slots, |a.slots|, trace) && trace[|t.slots|] == a.slots;
    var trace' :| Refill(t.slots, |b.slots|, trace') && trace'[|t.slots|] == b.slots;
    PowerFits(a.size);
    RefillsAgree(t.slots, |a.slots|, trace, trace', |t.slots|);
  }

  lemma {:induction false} RefillOn(from: seq<Entry>, n: nat, i: nat, trace: seq<seq<Entry>>, s': seq<Entry>)
    requires i < |from| && Refill(from[..i], n, trace) && Moved(trace[i], from[i], s')
    ensures Refill(from[..i + 1], n, trace + [s'])
  {
    assert from[..i + 1] == from[..i] + [from[i]];
  }

  lemma {:induction false} EmptyTable(s: seq<Entry>)
    requires |s| > 0 && forall i :: 0 <= i < |s| ==> s[i] == EMPTY
    ensures Live(s) == multiset{} && Layout(Homes(s)) && HasEmptySlot(s)
  {
    NothingLive(s);
    assert s[0].hash == 0;
  }

  lemma {:induction false} NothingLive(s: seq<Entry>)
    requires forall i :: 0 <= i < |s| ==> s[i].hash == 0
    ensures Live(s) == multiset{}
  {
    if s != [] {
      NothingLive(s[..|s| - 1]);
    }
  }

  class HashTable {
    var pImpl: HashTableState

    constructor (state: HashTableState)
      ensures pImpl == state
    {
      pImpl := state;
    }

    /** aws_hash_table_deep_entry_count. */
    method DeepEntryCount() returns (rval: nat)
      requires pImpl.IsValid()
      ensures rval == |Live(pImpl.slots[..])|
    {
      rval := 0;
      for i := 0 to pImpl.size
        invariant rval == |Live(pImpl.slots[..i])|
      {
        LiveExtend(pImpl.slots[..], i);
        assert pImpl.slots[..][..i] == pImpl.slots[..i];
        assert pImpl.slots[..][..i + 1] == pImpl.slots[..i + 1];
        if pImpl.slots[i].hash != 0 {
          rval := rval + 1;
        }
      }
      assert pImpl.slots[..pImpl.size] == pImpl.slots[..];
    }

    /** aws_hash_table_entry_count_is_valid. */
    method EntryCountIsValid() returns (rval: bool)
      requires pImpl.IsValid()
      ensures rval <==> pImpl.entryCount == |Live(pImpl.slots[..])|
    {
      var deep := DeepEntryCount();
      rval := pImpl.entryCount == deep;
    }

    /** aws_hash_table_deep_is_empty. */
    method DeepIsEmpty() returns (rval: bool)
      requires pImpl.IsValid()
      ensures rval <==> Live(pImpl.slots[..]) == multiset{}
    {
      rval := true;
      for i := 0 to pImpl.size
        invariant rval <==> Live(pImpl.slots[..i]) == multiset{}
      {
        LiveExtend(pImpl.slots[..], i);
        assert pImpl.slots[..][..i] == pImpl.slots[..i];
        assert pImpl.slots[..][..i + 1] == pImpl.slots[..i + 1];
        assert pImpl.slots[i].hash != 0 ==> pImpl.slots[i] in Live(pImpl.slots[..i + 1]);
        rval := rval && pImpl.slots[i].hash == 0;
      }
      assert pImpl.slots[..pImpl.size] == pImpl.slots[..];
    }

    /** The step a caller takes to add an entry: count it, then emplace it from its home. */
    method InsertCounted(e: Entry) returns (slot: nat)
      requires pImpl.IsValid() && e.hash != 0
      requires pImpl.entryCount < pImpl.maxLoad && HasEmptySlot(pImpl.slots[..])
      modifies pImpl`entryCount, pImpl.slots
      ensures pImpl.IsValid() && slot < pImpl.slots.Length && pImpl.slots[slot] == e
      ensures Inserted(old(pImpl.View()), e, pImpl.View())
    {
      pImpl.entryCount := pImpl.entryCount + 1;
      ghost var s := pImpl.slots[..];
      var rval, steps := pImpl.EmplaceItem(e, 0);
      slot := rval.value;
      assert Emplaced(s, e, 0, pImpl.slots[..], slot, steps);
    }

    /** s_expand_table. allocFails tells whether s_alloc_state returns NULL; ndMaxLoad is the
        load bound that s_update_template_size picks. The three error returns leave everything
        as it was; success replaces the state and releases the old one. */
    method ExpandTable(allocFails: bool, ndMaxLoad: Word) returns (ok: bool, ghost trace: seq<seq<Entry>>)
      requires pImpl.IsValid()
      requires pImpl.entryCount < ndMaxLoad < 2 * pImpl.size
      modifies this, pImpl`released
      ensures ok <==> old(pImpl.size) <= HALF_MAX && !allocFails
      ensures !ok ==> unchanged(this) && unchanged(old(pImpl))
      ensures ok ==> fresh(pImpl) && fresh(pImpl.slots) && pImpl.IsValid() && old(pImpl).released
      ensures ok ==> pImpl.maxLoad == ndMaxLoad && pImpl.hashFn == old(pImpl.hashFn)
      ensures ok ==> pImpl.equalsFn == old(pImpl.equalsFn) && pImpl.alloc == old(pImpl.alloc)
      ensures ok ==> Expanded(old(pImpl.View()), pImpl.View())
      ensures ok ==> Refill(old(pImpl.slots[..]), pImpl.size, trace) && trace[old(pImpl.size)] == pImpl.slots[..]
    {
      var oldState := pImpl;
      var updated, template := DoubledTemplate(oldState, ndMaxLoad);
      if !updated {
        return false, [];
      }
      if allocFails {
        return false, [];
      }
      var newState := new HashTableState(template, template.size);
      EmptyTable(newState.slots[..]);
      trace := Rehash(oldState, newState);
      pImpl := newState;
      oldState.released := true;
      ok := true;
    }

    /** The copy of a state's fields that is resized to twice the size, if that fits. */
    method DoubledTemplate(state: HashTableState, ndMaxLoad: Word) returns (ok: bool, template: HashTableState)
      requires state.IsValid() && state.entryCount < ndMaxLoad < 2 * state.size
      ensures ok <==> state.size <= HALF_MAX
      ensures fresh(template) && !template.released
      ensures ok ==> template.size == 2 * state.size && template.mask == template.size - 1
      ensures ok ==> IsPowerOfTwo(template.size)
      ensures ok ==> template.entryCount == state.entryCount && template.maxLoad == ndMaxLoad
      ensures ok ==> template.hashFn == state.hashFn && template.equalsFn == state.equalsFn
      ensures ok ==> template.alloc == state.alloc
    {
      template := new HashTableState(state, 0);
      PowerFits(state.size);
      var newSize := MulSizeChecked(template.size, 2);
      if newSize.None? {
        return false, template;
      }
      DoubleRoundsToItself(state.size);
      PowerFits(newSize.value);
      ok := template.UpdateTemplateSize(newSize.value, ndMaxLoad);
    }

    /** The rehash loop: every live entry of the old state goes into the new one, in the order of
        the old slots. */
    method Rehash(oldState: HashTableState, newState: HashTableState) returns (ghost trace: seq<seq<Entry>>)
      requires oldState.IsValid() && newState.IsValid() && newState.size > oldState.size
      requires oldState.slots != newState.slots
      requires forall i :: 0 <= i < newState.slots.Length ==> newState.slots[i] == EMPTY
      modifies newState.slots
      ensures Layout(Homes(newState.slots[..]))
      ensures Live(newState.slots[..]) == Live(oldState.slots[..])
      ensures Refill(oldState.slots[..], newState.size, trace) && trace[oldState.size] == newState.slots[..]
    {
      EmptyTable(newState.slots[..]);
      PowerFits(newState.size);
      ghost var from := oldState.slots[..];
      trace := [newState.slots[..]];
      for i := 0 to oldState.size
        invariant oldState.slots[..] == from
        invariant Layout(Homes(newState.slots[..]))
        invariant Live(newState.slots[..]) == Live(from[..i])
        invariant Refill(from[..i], newState.size, trace) && trace[i] == newState.slots[..]
      {
        ghost var s := newState.slots[..];
        LiveExtend(from, i);
        Pigeonhole(s);
        MoveEntry(newState, oldState.slots[i]);
        MovedKeeps(s, from[i], newState.slots[..]);
        RefillOn(from, newState.size, i, trace, newState.slots[..]);
        trace := trace + [newState.slots[..]];
      }
      assert from[..oldState.size] == from;
    }

    /** One turn of that loop. */
    method MoveEntry(newState: HashTableState, entry: Entry)
      requires newState.IsValid() && HasEmptySlot(newState.slots[..])
      modifies newState.slots
      ensures Moved(old(newState.slots[..]), entry, newState.slots[..])
    {
      if entry.hash != 0 {
        ghost var s := newState.slots[..];
        var rval, steps := newState.EmplaceItem(entry, 0);
        assert Emplaced(s, entry, 0, newState.slots[..], rval.value, steps);
      }
    }
  }
}
