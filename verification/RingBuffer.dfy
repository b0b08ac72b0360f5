/** The ring buffer as the release harness sees it: which part is occupied, which buffers may be
    released, and that releasing drains it. */
module RingBuffer {
  /** Addresses: the allocation is [allocation, allocationEnd), head and tail point into it. */
  datatype Ring = Ring(allocation: nat, allocationEnd: nat, head: nat, tail: nat) {
    predicate Valid() {
      && 0 < allocation < allocationEnd
      && allocation <= head <= allocationEnd && allocation <= tail <= allocationEnd
      // a head at the very start leaves only the empty ring there
      && (head != allocation || tail == allocation)
    }

    predicate IsEmpty() { tail == head }

    predicate IsFrontValid() { allocation == tail && tail < head }

    predicate IsMiddleValid() { allocation < tail && tail < head }

    predicate IsEndsValid() { tail > head }

    /** The addresses between tail and head, going round. */
    ghost function Occupied(): set<nat>
    {
      if tail <= head then Span(tail, head) else Span(tail, allocationEnd) + Span(allocation, head)
    }

    function OccupiedBytes(): int {
      if tail <= head then head - tail else (allocationEnd - tail) + (head - allocation)
    }
  }

  /** The addresses from lo up to hi. */
  ghost function Span(lo: nat, hi: nat): (s: set<nat>)
    ensures forall a :: a in s <==> lo <= a < hi
    ensures lo <= hi ==> |s| == hi - lo
    decreases hi
  {
    if lo < hi then Span(lo, hi - 1) + {hi - 1} else {}
  }

  lemma {:induction false} OccupiedSize(r: Ring)
    requires r.Valid()
    ensures |r.Occupied()| == r.OccupiedBytes()
  {
    if r.tail > r.head {
      assert Span(r.tail, r.allocationEnd) !! Span(r.allocation, r.head);
    }
  }

  /** The buffers that ensure_byte_buf_has_allocated_buffer_member_in_ring_buf picks from: they
      lie in one of the occupied stretches. */
  predicate Pickable(r: Ring, buffer: nat, capacity: nat) {
    && capacity > 0
    && if r.head < r.tail
       then || r.tail <= buffer < buffer + capacity <= r.allocationEnd
            || r.allocation <= buffer < buffer + capacity <= r.head
       else r.tail <= buffer < buffer + capacity <= r.head
  }

  class ByteBuf {
    var allocator: nat
    var buffer: nat
    var len: nat
    var capacity: nat
  }

  class RingBuffer {
    const allocation: nat
    const allocationEnd: nat
    var head: nat
    var tail: nat

    function View(): Ring
      reads this
    {
      Ring(allocation, allocationEnd, head, tail)
    }

    /** initialize_ring_buffer, with the head and tail clause that makes the ring valid. */
    constructor (allocation: nat, size: nat, positionHead: nat, positionTail: nat)
      requires 0 < allocation && 0 < size && positionHead < size && positionTail < size
      requires positionHead != 0 || positionTail == 0
      ensures View() == Ring(allocation, allocation + size, allocation + positionHead, allocation + positionTail)
      ensures View().Valid()
    {
      this.allocation, allocationEnd := allocation, allocation + size;
      head, tail := allocation + positionHead, allocation + positionTail;
    }

    /** ensure_byte_buf_has_allocated_buffer_member_in_range; pos is the nondeterministic offset. */
    method EnsureInRange(buf: ByteBuf, lo: nat, hi: nat, pos: nat)
      requires lo < hi && pos < hi - lo && 0 < buf.capacity <= hi - (lo + pos)
      modifies buf`buffer
      ensures lo <= buf.buffer < buf.buffer + buf.capacity <= hi
    {
      buf.buffer := lo + pos;
    }

    /** ensure_byte_buf_has_allocated_buffer_member_in_ring_buf: upper chooses the stretch when
        there are two, and the buffer gets either no allocator or the given one. On a valid ring
        that is not empty its assertion lo < hi holds. */
    method EnsureInRing(buf: ByteBuf, noAllocator: bool, allocator: nat, upper: bool, pos: nat)
      requires View().Valid() && !View().IsEmpty()
      requires head < tail && upper ==>
                 tail < allocationEnd && pos < allocationEnd - tail && 0 < buf.capacity <= allocationEnd - (tail + pos)
      requires head < tail && !upper ==>
                 allocation < head && pos < head - allocation && 0 < buf.capacity <= head - (allocation + pos)
      requires tail < head ==> pos < head - tail && 0 < buf.capacity <= head - (tail + pos)
      modifies buf`buffer, buf`allocator
      ensures Pickable(View(), buf.buffer, buf.capacity)
      ensures buf.allocator == if noAllocator then 0 else allocator
    {
      buf.allocator := if noAllocator then 0 else allocator;
      if head < tail {
        if upper {
          EnsureInRange(buf, tail, allocationEnd, pos);
        } else {
          EnsureInRange(buf, allocation, head, pos);
        }
      } else {
        EnsureInRange(buf, tail, head, pos);
      }
    }

    /** aws_ring_buffer_release, by the harness's assertions. */
    method Release(buf: ByteBuf)
      requires View().Valid() && Pickable(View(), buf.buffer, buf.capacity)
      modifies this`tail, buf
      ensures Released(old(View()), old(buf.buffer), old(buf.capacity), View())
      ensures buf.allocator == 0 && buf.buffer == 0 && buf.len == 0 && buf.capacity == 0
    {
      tail := buf.buffer + buf.capacity;
      buf.allocator, buf.buffer, buf.len, buf.capacity := 0, 0, 0, 0;
    }
  }

  ghost predicate Released(r: Ring, buffer: nat, capacity: nat, r': Ring) {
    Pickable(r, buffer, capacity) && r' == r.(tail := buffer + capacity)
  }

  ghost predicate ReleaseStep(r: Ring, r': Ring) {
    exists buffer, capacity :: Released(r, buffer, capacity, r')
  }

  /** One release keeps the ring valid, frees the buffer and loses none of the occupied bytes
      beyond it, and takes one of the harness's transitions; a middle ring never comes to have
      both ends occupied, although the harness allows it. */
  lemma {:induction false} ReleaseEffect(r: Ring, buffer: nat, capacity: nat, r': Ring)
    requires r.Valid() && Released(r, buffer, capacity, r')
    ensures r'.Valid()
    ensures Span(buffer, buffer + capacity) <= r.Occupied() && r'.Occupied() < r.Occupied()
    ensures Span(buffer, buffer + capacity) !! r'.Occupied()
    ensures forall a :: buffer + capacity <= a < (if buffer < r.head then r.head else r.allocationEnd) ==>
              a in r'.Occupied()
    ensures r'.OccupiedBytes() < r.OccupiedBytes()
    ensures r.IsFrontValid() ==> r'.IsEmpty() || r'.IsMiddleValid()
    ensures r.IsMiddleValid() ==> r'.IsEmpty() || r'.IsMiddleValid()
    ensures r.IsEndsValid() ==> r'.IsEmpty() || r'.IsMiddleValid() || r'.IsEndsValid()
  {
    assert buffer in Span(buffer, buffer + capacity);
  }

  /** A ring has a release step exactly when it is not empty. */
  lemma {:induction false} CanReleaseIffOccupied(r: Ring)
    requires r.Valid()
    ensures (exists r' :: ReleaseStep(r, r')) <==> !r.IsEmpty()
  {
    if !r.IsEmpty() {
      var r' := if r.tail < r.allocationEnd then r.(tail := r.tail + 1) else r.(tail := r.allocation + 1);
      if r.tail < r.allocationEnd {
        assert Released(r, r.tail, 1, r');
      } else {
        assert Released(r, r.allocation, 1, r');
      }
      assert ReleaseStep(r, r');
    }
  }

  ghost predicate ReleaseRun(rs: seq<Ring>) {
    rs != [] && forall k :: 0 <= k < |rs| - 1 ==> ReleaseStep(rs[k], rs[k + 1])
  }

  /** Every run of releases keeps the ring valid and its head in place, and frees at least one
      byte a step; one that cannot go on has drained the ring. */
  lemma {:induction false} ReleasesDrain(rs: seq<Ring>)
    requires ReleaseRun(rs) && rs[0].Valid()
    ensures var last := rs[|rs| - 1];
            && last.Valid() && last.head == rs[0].head
            && last.Occupied() <= rs[0].Occupied()
            && |rs| - 1 <= |rs[0].Occupied()| - |last.Occupied()|
            && ((forall r' :: !ReleaseStep(last, r')) <==> last.IsEmpty())
    decreases |rs|
  {
    var n := |rs| - 1;
    if n > 0 {
      ReleasesDrain(rs[..n]);
      assert ReleaseStep(rs[n - 1], rs[n]);
      var buffer: nat, capacity: nat :| Released(rs[n - 1], buffer, capacity, rs[n]);
      ReleaseEffect(rs[n - 1], buffer, capacity, rs[n]);
      OccupiedSize(rs[n - 1]);
    }
    OccupiedSize(rs[n]);
    CanReleaseIffOccupied(rs[n]);
  }
}
