/** The hash table iterator: a step system over (slot, limit, status) and the table's count. */
module HashIter {
  import opened Words
  import opened Slots
  import opened HashTable

  datatype Status = Done | DeleteCalled | ReadyForUse

  datatype Cursor = Cursor(slot: Word, limit: Word, status: Status)

  function StatusAt(slot: Word, limit: Word): Status {
    if slot == limit then Done else ReadyForUse
  }

  /** The part of aws_hash_iter_is_valid_copy that speaks of slot, limit and status. */
  predicate ValidPosition(c: Cursor, size: nat) {
    && c.limit <= size
    && match c.status {
         case Done => c.slot == c.limit
         case DeleteCalled => c.slot <= c.limit || c.slot == SIZE_MAX
         case ReadyForUse => c.slot < c.limit
       }
  }

  /** All of it: a usable slot must also hold an entry. */
  predicate FullyValid(c: Cursor, slots: seq<Entry>) {
    ValidPosition(c, |slots|) && (c.status.ReadyForUse? ==> slots[c.slot].hash != 0)
  }

  /** What the assumption in aws_hash_iter_next lets nd_size_t() return. */
  predicate StepAllowed(c: Cursor, step: Word) {
    c.slot != c.limit ==> 0 < step <= Wrap(c.limit - c.slot)
  }

  function NextOf(c: Cursor, step: Word): Cursor {
    if c.slot == c.limit then c.(status := Done)
    else
      var slot := Wrap(c.slot + step);
      Cursor(slot, c.limit, StatusAt(slot, c.limit))
  }

  function DeleteOf(c: Cursor): Cursor {
    Cursor(c.slot, Wrap(c.limit - 1), DeleteCalled)
  }

  /** Every step keeps the position valid, also from a slot that a delete moved below zero, and
      leaves the cursor usable or done. */
  lemma {:induction false} NextKeepsValid(c: Cursor, step: Word, size: nat)
    requires ValidPosition(c, size) && size <= HALF_MAX + 1 && StepAllowed(c, step)
    ensures var c' := NextOf(c, step);
            && ValidPosition(c', size) && !c'.status.DeleteCalled?
            && (c'.status.Done? <==> c'.slot == c'.limit)
            && c'.limit == c.limit
            && c'.slot == (if c.slot == c.limit then c.slot else (c.slot + step) % WORD)
            && (c.slot < c.limit ==> c.slot < c'.slot <= c'.limit)
  {
    if c.slot == SIZE_MAX {
      DivisionIsUnique(c.limit - SIZE_MAX, WORD, -1, c.limit + 1);
      DivisionIsUnique(c.slot + step, WORD, 1, step - 1);
    } else {
      WrapSmall(c.limit - c.slot);
      if c.slot != c.limit {
        WrapSmall(c.slot + step);
      }
    }
  }

  lemma {:induction false} DeleteKeepsValid(c: Cursor, size: nat)
    requires ValidPosition(c, size) && c.status.ReadyForUse?
    ensures ValidPosition(DeleteOf(c), size) && DeleteOf(c).status.DeleteCalled?
    ensures DeleteOf(c).slot == c.slot <= DeleteOf(c).limit == c.limit - 1
  {
    WrapSmall(c.limit - 1);
  }

  // ----- Whole iterations -----

  /** One round of a loop over the table: step on, or delete the element and step on. */
  datatype Round = Round(delete: bool, step: Word)

  ghost predicate RoundAllowed(c: Cursor, r: Round) {
    c.status.ReadyForUse? && StepAllowed(if r.delete then DeleteOf(c) else c, r.step)
  }

  function PlayRound(c: Cursor, r: Round): Cursor {
    NextOf(if r.delete then DeleteOf(c) else c, r.step)
  }

  /** The cursor after some rounds. */
  function After(c: Cursor, rounds: seq<Round>): Cursor {
    if rounds == [] then c else PlayRound(After(c, rounds[..|rounds| - 1]), rounds[|rounds| - 1])
  }

  /** Each round is taken while the iteration is not done. */
  ghost predicate Iteration(c: Cursor, rounds: seq<Round>) {
    forall k :: 0 <= k < |rounds| ==> RoundAllowed(After(c, rounds[..k]), rounds[k])
  }

  function Deletes(rounds: seq<Round>): nat {
    if rounds == [] then 0
    else Deletes(rounds[..|rounds| - 1]) + (if rounds[|rounds| - 1].delete then 1 else 0)
  }

  function CountAfter(count: Word, r: Round): Word {
    if r.delete then Wrap(count - 1) else count
  }

  /** The cursor and the entry count after the first i rounds. */
  ghost predicate Played(c: Cursor, count: Word, rounds: seq<Round>, i: nat, now: Cursor, left: Word) {
    i <= |rounds| && now == After(c, rounds[..i]) && left == Wrap(count - Deletes(rounds[..i]))
  }

  lemma {:induction false} NoRounds(c: Cursor, count: Word, rounds: seq<Round>)
    ensures Played(c, count, rounds, 0, c, count)
  {
    WrapSmall(count);
  }

  lemma {:induction false} OneMoreRound(c: Cursor, count: Word, rounds: seq<Round>, i: nat, now: Cursor, left: Word)
    requires i < |rounds| && Iteration(c, rounds) && Played(c, count, rounds, i, now, left)
    ensures RoundAllowed(now, rounds[i])
    ensures Played(c, count, rounds, i + 1, PlayRound(now, rounds[i]), CountAfter(left, rounds[i]))
  {
    assert rounds[..i + 1][..i] == rounds[..i];
    WrapAgain(count - Deletes(rounds[..i]));
  }

  lemma {:induction false} AllRounds(c: Cursor, count: Word, rounds: seq<Round>, now: Cursor, left: Word)
    requires Played(c, count, rounds, |rounds|, now, left)
    ensures now == After(c, rounds) && left == Wrap(count - Deletes(rounds))
  {
    assert rounds[..|rounds|] == rounds;
  }

  function Remaining(c: Cursor): int {
    c.limit - c.slot
  }

  lemma {:induction false} RoundProgress(c: Cursor, r: Round, size: nat)
    requires ValidPosition(c, size) && size <= HALF_MAX + 1 && RoundAllowed(c, r)
    ensures ValidPosition(PlayRound(c, r), size) && !PlayRound(c, r).status.DeleteCalled?
    ensures 0 <= Remaining(PlayRound(c, r)) < Remaining(c)
  {
    if r.delete {
      DeleteKeepsValid(c, size);
      NextKeepsValid(DeleteOf(c), r.step, size);
    } else {
      NextKeepsValid(c, r.step, size);
    }
  }

  /** Every iteration stays valid and ends after at most the initial number of slots; so deletes
      cannot outnumber those slots either. */
  lemma {:induction false} IterationEnds(c: Cursor, rounds: seq<Round>, size: nat)
    requires ValidPosition(c, size) && size <= HALF_MAX + 1 && !c.status.DeleteCalled?
    requires Iteration(c, rounds)
    ensures var c' := After(c, rounds);
            && ValidPosition(c', size) && !c'.status.DeleteCalled?
            && (c'.status.Done? <==> c'.slot == c'.limit)
            && Deletes(rounds) <= |rounds| <= Remaining(c) - Remaining(c')
  {
    if rounds != [] {
      var n := |rounds| - 1;
      assert forall k :: 0 <= k < n ==> rounds[..n][..k] == rounds[..k];
      IterationEnds(c, rounds[..n], size);
      RoundProgress(After(c, rounds[..n]), rounds[n], size);
    }
  }

  /** An iteration that is not done has a next round, whether or not it deletes. */
  lemma {:induction false} IterationCanGoOn(c: Cursor, delete: bool, size: nat)
    requires ValidPosition(c, size) && size <= HALF_MAX + 1 && c.status.ReadyForUse?
    ensures exists step: Word :: RoundAllowed(c, Round(delete, step))
  {
    WrapSmall(c.limit - c.slot);
    if delete {
      DeleteKeepsValid(c, size);
      WrapSmall(c.limit - 1 - c.slot);
    }
    assert RoundAllowed(c, Round(delete, 1));
  }

  /** What begin leaves open: the slot it starts on need not hold an entry, and that is the only
      way it falls short of the full validity predicate. */
  lemma {:induction false} BeginIsFullyValidIff(slots: seq<Entry>, start: Word)
    requires start <= |slots| <= HALF_MAX + 1
    ensures FullyValid(Cursor(start, |slots|, StatusAt(start, |slots|)), slots)
            <==> (start < |slots| ==> slots[start].hash != 0)
  {
  }

  /** A step leaves the same open, from every valid position. */
  lemma {:induction false} NextIsFullyValidIff(c: Cursor, step: Word, slots: seq<Entry>)
    requires ValidPosition(c, |slots|) && |slots| <= HALF_MAX + 1 && StepAllowed(c, step)
    ensures var c' := NextOf(c, step);
            FullyValid(c', slots) <==> c'.slot == c.limit || (c'.slot < |slots| && slots[c'.slot].hash != 0)
  {
    NextKeepsValid(c, step, |slots|);
  }

  // ----- The iterator object -----

  class Iter {
    const table: HashTable
    var slot: Word
    var limit: Word
    var status: Status

    function View(): Cursor
      reads this
    {
      Cursor(slot, limit, status)
    }

    /** aws_hash_iter_begin. */
    constructor Begin(table: HashTable, ndSlot: Word)
      requires table.pImpl.IsValid() && ndSlot <= table.pImpl.size
      ensures this.table == table
      ensures View() == Cursor(ndSlot, table.pImpl.size, StatusAt(ndSlot, table.pImpl.size))
    {
      this.table := table;
      slot, limit := ndSlot, table.pImpl.size;
      status := if ndSlot == table.pImpl.size then Done else ReadyForUse;
    }

    /** aws_hash_iter_done, with its assertion that the answer agrees with the status. */
    method IsDone() returns (rval: bool)
      requires !status.DeleteCalled? && ValidPosition(View(), limit)
      ensures rval <==> status.Done?
    {
      rval := slot == limit;
      assert rval == status.Done?;
    }

    /** aws_hash_iter_next. */
    method Next(ndStep: Word)
      requires StepAllowed(View(), ndStep)
      modifies this
      ensures View() == NextOf(old(View()), ndStep)
    {
      if slot == limit {
        status := Done;
        return;
      }
      slot := Wrap(slot + ndStep);
      status := if slot == limit then Done else ReadyForUse;
    }

    /** aws_hash_iter_delete: the limit shrinks and the table counts one entry less. */
    method Delete()
      modifies this, table.pImpl`entryCount
      ensures View() == DeleteOf(old(View()))
      ensures table.pImpl.entryCount == Wrap(old(table.pImpl.entryCount) - 1)
    {
      limit := Wrap(limit - 1);
      status := DeleteCalled;
      table.pImpl.entryCount := Wrap(table.pImpl.entryCount - 1);
    }

    /** One round of a loop around the iterator. */
    method PlayOne(r: Round)
      requires RoundAllowed(View(), r)
      modifies this, table.pImpl`entryCount
      ensures View() == PlayRound(old(View()), r)
      ensures table.pImpl.entryCount == CountAfter(old(table.pImpl.entryCount), r)
    {
      if r.delete {
        Delete();
      }
      Next(r.step);
    }

    /** The loop around the iterator: until done, step on, or delete and step on. However it
        chooses, the entry count falls by exactly the number of deletes, modulo 2^64. */
    method Play(rounds: seq<Round>)
      requires Iteration(View(), rounds)
      modifies this, table.pImpl`entryCount
      ensures View() == After(old(View()), rounds)
      ensures table.pImpl.entryCount == Wrap(old(table.pImpl.entryCount) - Deletes(rounds))
    {
      ghost var c, count := View(), table.pImpl.entryCount;
      NoRounds(c, count, rounds);
      for i := 0 to |rounds|
        invariant Played(c, count, rounds, i, View(), table.pImpl.entryCount)
      {
        OneMoreRound(c, count, rounds, i, View(), table.pImpl.entryCount);
        PlayOne(rounds[i]);
      }
      AllRounds(c, count, rounds, View(), table.pImpl.entryCount);
    }
  }
}
