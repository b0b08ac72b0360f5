/** aws_byte_cursor_advance_nospec: the advance that masks its operands. */
module ByteCursor {
  import opened Words
  import opened MemMove

  const NULL: Word := 0

  datatype Slice = Slice(ptr: Word, len: Word) {
    predicate Valid() {
      len == 0 || (ptr != NULL && ptr + len < WORD)
    }
  }

  /** aws_nospec_mask, by its harness: all ones when index is in bounds and both are at most
      half the range, otherwise zero. */
  function NospecMask(index: Word, bound: Word): Word {
    if index >= bound || bound > HALF_MAX || index > HALF_MAX then 0 else SIZE_MAX
  }

  predicate Refused(c: Slice, len: Word) {
    len > c.len || len > HALF_MAX || c.len > HALF_MAX
  }

  /** Plain advance, by its harness: the slice that is cut off, and what is left. */
  function Advance(c: Slice, len: Word): (r: (Slice, Slice))
    requires c.Valid()
    ensures r.0.Valid() && r.1.Valid()
  {
    if Refused(c, len) then (Slice(NULL, 0), c)
    else (Slice(c.ptr, len), Slice(c.ptr + len, c.len - len))
  }

  class Cursor {
    var ptr: Word
    var len: Word

    function View(): Slice
      reads this
    {
      Slice(ptr, len)
    }

    constructor (ptr: Word, len: Word)
      ensures View() == Slice(ptr, len)
    {
      this.ptr, this.len := ptr, len;
    }

    /** Advances like the plain version unless the cursor is exactly SIZE_MAX >> 1 long: then
        len + 1 falls out of the mask's range and a call that should succeed nulls the cursor. */
    method AdvanceNospec(count: Word) returns (rv: Slice)
      requires View().Valid()
      modifies this
      ensures old(View()).len != HALF_MAX || Refused(old(View()), count) ==>
                (rv, View()) == Advance(old(View()), count)
      ensures old(View()).len == HALF_MAX && !Refused(old(View()), count) ==>
                rv == View() == Slice(NULL, 0)
      ensures count <= old(len) < HALF_MAX ==>
                rv.ptr == old(ptr) && rv.len == count && ptr == old(ptr) + count && len == old(len) - count
      ensures count > old(len) || old(len) > HALF_MAX ==>
                rv.ptr == NULL && rv.len == 0 && ptr == old(ptr) && len == old(len)
      ensures View().Valid() && rv.Valid()
    {
      var n := count;
      if n <= len && n <= HALF_MAX && len <= HALF_MAX {
        var mask := NospecMask(n, len + 1);
        MaskAllOrNothing(n);
        MaskAllOrNothing(len);
        MaskAllOrNothing(0);
        n := BitAnd(n, mask);
        ptr := if mask != 0 then ptr else NULL;
        len := BitAnd(len, mask);
        rv := Slice(ptr, BitAnd(n, mask));
        ptr := ptr + n;
        len := len - n;
      } else {
        rv := Slice(NULL, 0);
      }
    }

    method AdvanceNext(ghost mem: seq<Byte>, ghost v0: Slice, ghost counts: seq<Word>, ghost slices: seq<Slice>, count: Word)
      returns (rv: Slice)
      requires View().Valid() && InMemory(mem, v0) && InMemory(mem, View())
      requires forall s :: s in slices ==> InMemory(mem, s)
      requires HandedOut(mem, v0, counts, slices, View()) && Pieces(v0, counts, slices, View())
      modifies this
      ensures View().Valid() && InMemory(mem, View()) && InMemory(mem, rv)
      ensures HandedOut(mem, v0, counts + [count], slices + [rv], View())
      ensures Pieces(v0, counts + [count], slices + [rv], View())
    {
      ghost var before := View();
      rv := AdvanceNospec(count);
      OneMoreAdvance(mem, v0, counts, slices, before, count, rv, View());
    }

    /** A run of advances, failing ones included, hands out the view piece by piece: the slices
        and what is left make up the original bytes, unless the cursor was exactly
        SIZE_MAX >> 1 long and some advance was not refused. */
    method AdvanceAll(mem: seq<Byte>, counts: seq<Word>) returns (slices: seq<Slice>)
      requires View().Valid() && InMemory(mem, View())
      modifies this
      ensures View().Valid() && InMemory(mem, View())
      ensures |slices| == |counts| && forall s :: s in slices ==> InMemory(mem, s)
      ensures Flatten(mem, slices) + Bytes(mem, View()) == old(Bytes(mem, View()))
              <==> old(View()).len != HALF_MAX || AllTooLong(counts)
      ensures Pieces(old(View()), counts, slices, View())
    {
      slices := [];
      ghost var v0, done := View(), [];
      for i := 0 to |counts|
        invariant done == counts[..i] && View().Valid() && InMemory(mem, View())
        invariant forall s :: s in slices ==> InMemory(mem, s)
        invariant HandedOut(mem, v0, done, slices, View()) && Pieces(v0, done, slices, View())
      {
        var rv := AdvanceNext(mem, v0, done, slices, counts[i]);
        slices, done := slices + [rv], done + [counts[i]];
      }
      assert done == counts;
      AllHandedOut(mem, v0, counts, done, slices, View());
    }
  }

  lemma {:induction false} AllHandedOut(mem: seq<Byte>, v0: Slice, counts: seq<Word>, done: seq<Word>,
                                        slices: seq<Slice>, v: Slice)
    requires InMemory(mem, v0) && InMemory(mem, v) && forall s :: s in slices ==> InMemory(mem, s)
    requires HandedOut(mem, v0, done, slices, v) && Pieces(v0, done, slices, v) && done == counts
    ensures |slices| == |counts| && Pieces(v0, counts, slices, v)
    ensures Flatten(mem, slices) + Bytes(mem, v) == Bytes(mem, v0) <==> v0.len != HALF_MAX || AllTooLong(counts)
  {
    if v0.len == HALF_MAX {
      assert Flatten(mem, slices) + Bytes(mem, v) == Bytes(mem, v);
    }
  }

  /** Where a run of advances stands: ordinarily nothing is lost; on a cursor of exactly
      SIZE_MAX >> 1 bytes nothing happens until an advance is not refused, and then all is gone. */
  ghost predicate HandedOut(mem: seq<Byte>, v0: Slice, counts: seq<Word>, slices: seq<Slice>, v: Slice)
    requires InMemory(mem, v0) && InMemory(mem, v) && forall s :: s in slices ==> InMemory(mem, s)
  {
    if v0.len != HALF_MAX then
      v.len != HALF_MAX && Flatten(mem, slices) + Bytes(mem, v) == Bytes(mem, v0)
    else
      && Flatten(mem, slices) == []
      && if AllTooLong(counts) then v == v0 else v.len == 0
  }

  function Total(slices: seq<Slice>): nat {
    if slices == [] then 0 else Total(slices[..|slices| - 1]) + slices[|slices| - 1].len
  }

  /** Which slices a run of advances hands out: while the cursor is shorter than SIZE_MAX >> 1
      bytes, each count that still fits gets exactly that many bytes, from where the last one
      ended, and the cursor loses as many; every other count, or any on a longer cursor, gets
      nothing and changes nothing. */
  ghost predicate Pieces(v0: Slice, counts: seq<Word>, slices: seq<Slice>, v: Slice) {
    && |slices| == |counts|
    && if v0.len < HALF_MAX then
         && (forall i :: 0 <= i < |counts| ==>
               var used := Total(slices[..i]);
               if used + counts[i] <= v0.len then slices[i].ptr == v0.ptr + used && slices[i].len == counts[i]
               else slices[i] == Slice(NULL, 0))
         && v.len == v0.len - Total(slices) && v.ptr == v0.ptr + Total(slices)
       else
         && (forall i :: 0 <= i < |counts| ==> slices[i] == Slice(NULL, 0))
         && v == if v0.len == HALF_MAX && !AllTooLong(counts) then Slice(NULL, 0) else v0
  }

  lemma {:induction false} OneMorePiece(v0: Slice, counts: seq<Word>, slices: seq<Slice>, v: Slice,
                                        count: Word, rv: Slice, v': Slice)
    requires Pieces(v0, counts, slices, v)
    requires v.Valid() && (v.len != HALF_MAX || Refused(v, count) ==> (rv, v') == Advance(v, count))
    requires v.len == HALF_MAX && !Refused(v, count) ==> rv == v' == Slice(NULL, 0)
    ensures Pieces(v0, counts + [count], slices + [rv], v')
  {
    var all := slices + [rv];
    assert all[..|slices|] == slices;
    assert Total(all) == Total(slices) + rv.len;
    OneMoreTooLong(counts, count);
    if v0.len < HALF_MAX {
      forall i | 0 <= i < |counts|
        ensures all[..i] == slices[..i]
      {
      }
    }
  }

  lemma {:induction false} OneMoreAdvance(mem: seq<Byte>, v0: Slice, counts: seq<Word>, slices: seq<Slice>, v: Slice,
                                          count: Word, rv: Slice, v': Slice)
    requires v.Valid() && InMemory(mem, v0) && InMemory(mem, v)
    requires forall s :: s in slices ==> InMemory(mem, s)
    requires HandedOut(mem, v0, counts, slices, v) && Pieces(v0, counts, slices, v)
    requires v.len != HALF_MAX || Refused(v, count) ==> (rv, v') == Advance(v, count)
    requires v.len == HALF_MAX && !Refused(v, count) ==> rv == v' == Slice(NULL, 0)
    ensures InMemory(mem, rv) && InMemory(mem, v')
    ensures HandedOut(mem, v0, counts + [count], slices + [rv], v') && Pieces(v0, counts + [count], slices + [rv], v')
  {
    HandOut(mem, v0, counts, slices, v, count, rv, v');
    OneMorePiece(v0, counts, slices, v, count, rv, v');
  }

  predicate AllTooLong(counts: seq<Word>) {
    forall i :: 0 <= i < |counts| ==> counts[i] > HALF_MAX
  }

  lemma {:induction false} HandOut(mem: seq<Byte>, v0: Slice, counts: seq<Word>, slices: seq<Slice>, v: Slice,
                                   count: Word, rv: Slice, v': Slice)
    requires v.Valid() && InMemory(mem, v0) && InMemory(mem, v)
    requires forall s :: s in slices ==> InMemory(mem, s)
    requires HandedOut(mem, v0, counts, slices, v)
    requires v.len != HALF_MAX || Refused(v, count) ==> (rv, v') == Advance(v, count)
    requires v.len == HALF_MAX && !Refused(v, count) ==> rv == v' == Slice(NULL, 0)
    ensures InMemory(mem, rv) && InMemory(mem, v')
    ensures HandedOut(mem, v0, counts + [count], slices + [rv], v')
  {
    SplitBytes(mem, v, count);
    FlattenOneMore(mem, slices, rv);
    if v0.len == HALF_MAX {
      OneMoreTooLong(counts, count);
    } else {
      Regroup(Flatten(mem, slices), Bytes(mem, rv), Bytes(mem, v'), Bytes(mem, v));
    }
  }

  lemma {:induction false} OneMoreTooLong(counts: seq<Word>, count: Word)
    ensures AllTooLong(counts + [count]) <==> AllTooLong(counts) && count > HALF_MAX
  {
    assert (counts + [count])[|counts|] == count;
    if AllTooLong(counts + [count]) {
      assert forall i :: 0 <= i < |counts| ==> (counts + [count])[i] == counts[i];
    }
  }

  lemma {:induction false} Regroup<T>(a: seq<T>, b: seq<T>, c: seq<T>, bc: seq<T>)
    requires b + c == bc
    ensures (a + b) + c == a + bc
  {
  }

  lemma {:induction false} FlattenOneMore(mem: seq<Byte>, slices: seq<Slice>, rv: Slice)
    requires InMemory(mem, rv) && forall s :: s in slices ==> InMemory(mem, s)
    ensures Flatten(mem, slices + [rv]) == Flatten(mem, slices) + Bytes(mem, rv)
  {
    assert (slices + [rv])[..|slices|] == slices;
  }

  predicate InMemory(mem: seq<Byte>, v: Slice) {
    v.len == 0 || v.ptr + v.len <= |mem|
  }

  function Bytes(mem: seq<Byte>, v: Slice): (b: seq<Byte>)
    requires InMemory(mem, v)
    ensures |b| == v.len
  {
    if v.len == 0 then [] else mem[v.ptr..v.ptr + v.len]
  }

  function Flatten(mem: seq<Byte>, vs: seq<Slice>): seq<Byte>
    requires forall v :: v in vs ==> InMemory(mem, v)
  {
    if vs == [] then [] else Flatten(mem, vs[..|vs| - 1]) + Bytes(mem, vs[|vs| - 1])
  }

  lemma {:induction false} SplitBytes(mem: seq<Byte>, v: Slice, count: Word)
    requires v.Valid() && InMemory(mem, v)
    ensures var (a, b) := Advance(v, count);
            InMemory(mem, a) && InMemory(mem, b) && Bytes(mem, a) + Bytes(mem, b) == Bytes(mem, v)
  {
  }
}
