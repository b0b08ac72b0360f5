/** The allocator that emulates realloc with acquire, copy, zero and release. */
module Realloc {
  import opened Wrappers
  import opened Words
  import opened MemMove

  /** A pointer names the allocation it came from; 0 is NULL. */
  const NULL: nat := 0

  function Zeros(n: nat): (z: seq<Byte>)
    ensures |z| == n && forall i :: 0 <= i < n ==> z[i] == 0
  {
    seq(n, _ => 0)
  }

  /** Truncate, or extend with zeros. */
  function Resize(c: seq<Byte>, n: nat): (r: seq<Byte>)
    ensures |r| == n
  {
    if n <= |c| then c[..n] else c + Zeros(n - |c|)
  }

  function ResizeAll(c: seq<Byte>, sizes: seq<nat>): seq<Byte> {
    if sizes == [] then c else Resize(ResizeAll(c, sizes[..|sizes| - 1]), sizes[|sizes| - 1])
  }

  /** The smallest size a run of resizes passes through. */
  function Narrowest(n: nat, sizes: seq<nat>): nat {
    if sizes == [] then n
    else
      var m, s := Narrowest(n, sizes[..|sizes| - 1]), sizes[|sizes| - 1];
      if s < m then s else m
  }

  /** What survives a run of resizes: the bytes below the narrowest size, and zeros above. */
  lemma {:induction false} ResizeAllKeeps(c: seq<Byte>, sizes: seq<nat>)
    ensures var m := Narrowest(|c|, sizes);
            var n := if sizes == [] then |c| else sizes[|sizes| - 1];
            m <= n && m <= |c| && ResizeAll(c, sizes) == c[..m] + Zeros(n - m)
  {
    if sizes != [] {
      ResizeAllKeeps(c, sizes[..|sizes| - 1]);
    }
  }

  type Blocks = map<nat, seq<Byte>>

  /** ptr is NULL with size 0, or a live block of at least size bytes. */
  predicate Tracked(blocks: Blocks, ptr: nat, size: nat) {
    if ptr == NULL then size == 0 else ptr in blocks && size <= |blocks[ptr]|
  }

  /** The bytes a caller that was told of size bytes may use. */
  function Contents(blocks: Blocks, ptr: nat, size: nat): (c: seq<Byte>)
    requires Tracked(blocks, ptr, size)
    ensures |c| == size
  {
    if ptr == NULL then [] else blocks[ptr][..size]
  }

  /** What one call of aws_mem_realloc does: it succeeds unless it has to grow and nothing is
      granted; then the caller's bytes are resized, a block that was moved off or freed is
      released, and every other block stays. A failed call changes nothing. */
  ghost predicate Reallocated(b: Blocks, ptr: nat, oldSize: nat, newSize: nat, granted: bool,
                              b': Blocks, ptr': nat, freed: seq<nat>)
    requires Tracked(b, ptr, oldSize)
  {
    if newSize > oldSize && !granted then b' == b && ptr' == ptr && freed == []
    else
      && Tracked(b', ptr', newSize)
      && Contents(b', ptr', newSize) == Resize(Contents(b, ptr, oldSize), newSize)
      && (ptr' == NULL <==> newSize == 0)
      && (newSize > oldSize ==> ptr' !in b)
      && (0 < newSize <= oldSize ==> ptr' == ptr)
      && freed == (if ptr' != ptr && ptr != NULL then [ptr] else [])
      && (forall p :: p in b && p != ptr ==> p in b' && b'[p] == b[p])
      && b'.Keys <= (b.Keys - {ptr}) + {ptr'}
  }

  /** What can_fail_malloc_havoc answers: nothing, or a block with arbitrary contents. */
  type Grant = Option<seq<Byte>>

  class Heap {
    var blocks: map<nat, seq<Byte>>
    var released: seq<nat>
    var next: nat

    /** Live blocks were handed out, released ones are not live, and none was released twice. */
    ghost predicate Valid()
      reads this
    {
      && next > NULL && NULL !in blocks && NULL !in released
      && (forall p :: p in blocks ==> p < next)
      && (forall p :: p in released ==> p < next && p !in blocks)
      && (forall i, j :: 0 <= i < j < |released| ==> released[i] != released[j])
    }

    constructor ()
      ensures Valid() && blocks == map[] && released == []
    {
      blocks, released, next := map[], [], 1;
    }

    /** aws_mem_acquire. */
    method Acquire(size: nat, grant: Grant) returns (mem: nat)
      requires Valid() && size != 0
      requires grant.Some? ==> |grant.value| == size
      modifies this
      ensures Valid() && released == old(released)
      ensures grant.None? ==> mem == NULL && blocks == old(blocks)
      ensures grant.Some? ==> mem !in old(blocks) && mem !in released && mem != NULL
      ensures grant.Some? ==> blocks == old(blocks)[mem := grant.value]
    {
      if grant.None? {
        return NULL;
      }
      mem := next;
      next := next + 1;
      blocks := blocks[mem := grant.value];
    }

    /** aws_mem_release; NULL is ignored. */
    method Release(ptr: nat)
      requires Valid() && (ptr == NULL || ptr in blocks)
      modifies this
      ensures Valid()
      ensures blocks == old(blocks) - {ptr}
      ensures released == old(released) + (if ptr == NULL then [] else [ptr])
    {
      if ptr != NULL {
        blocks := blocks - {ptr};
        released := released + [ptr];
      }
    }

    /** aws_mem_calloc: NULL when the product overflows or nothing is granted. */
    method Calloc(num: Word, size: Word, grant: Grant) returns (mem: nat)
      requires Valid() && (num * size <= SIZE_MAX ==> num * size != 0)
      requires grant.Some? ==> |grant.value| == num * size
      modifies this
      ensures Valid() && released == old(released)
      ensures mem == NULL <==> num * size > SIZE_MAX || grant.None?
      ensures mem == NULL ==> blocks == old(blocks)
      ensures mem != NULL ==> mem !in old(blocks) && blocks == old(blocks)[mem := Zeros(num * size)]
    {
      if num * size > SIZE_MAX {
        return NULL;
      }
      mem := Acquire(num * size, grant);
      if mem == NULL {
        return;
      }
      blocks := blocks[mem := Zeros(num * size)];
    }

    /** aws_mem_realloc, on the pointer's value. */
    method Reallocate(ptr: nat, oldSize: nat, newSize: nat, grant: Grant)
      returns (ok: bool, newPtr: nat, ghost freed: seq<nat>)
      requires Valid() && Tracked(blocks, ptr, oldSize)
      requires grant.Some? ==> |grant.value| == newSize
      modifies this
      ensures Valid()
      ensures ok <==> newSize <= oldSize || grant.Some?
      ensures released == old(released) + freed
      ensures Reallocated(old(blocks), ptr, oldSize, newSize, grant.Some?, blocks, newPtr, freed)
      // byte by byte: what fits of the old block, then zeros
      ensures ok && newSize > 0 ==> newPtr in blocks && newSize <= |blocks[newPtr]|
      ensures ok && newSize > 0 ==> forall i :: 0 <= i < newSize ==>
                blocks[newPtr][i] == if i < oldSize then old(blocks)[ptr][i] else 0
    {
      if newSize == 0 {
        Release(ptr);
        return true, NULL, if ptr != NULL then [ptr] else [];
      }
      if oldSize >= newSize {
        return true, ptr, [];
      }
      newPtr := Acquire(newSize, grant);
      if newPtr == NULL {
        return false, ptr, [];
      }
      ghost var c := Contents(blocks, ptr, oldSize);
      if ptr != NULL {
        blocks := blocks[newPtr := blocks[ptr][..oldSize] + blocks[newPtr][oldSize..]];
      }
      blocks := blocks[newPtr := blocks[newPtr][..oldSize] + Zeros(newSize - oldSize)];
      assert blocks[newPtr][..newSize] == c + Zeros(newSize - oldSize);
      Release(ptr);
      return true, newPtr, if ptr != NULL then [ptr] else [];
    }
  }

  datatype Request = Request(newSize: nat, grant: Grant)

  /** What a caller knows about its block: whether there is one, its size, the sizes it went
      through, and how often it moved off a block. */
  datatype Tracker = Tracker(live: bool, size: nat, taken: seq<nat>, moves: nat)

  function Track(t: Tracker, r: Request): Tracker {
    if r.newSize > t.size && r.grant.None? then t
    else
      var moves := if t.live && (r.newSize == 0 || r.newSize > t.size) then t.moves + 1 else t.moves;
      Tracker(r.newSize != 0, r.newSize, t.taken + [r.newSize], moves)
  }

  function TrackAll(t: Tracker, requests: seq<Request>): Tracker {
    if requests == [] then t
    else Track(TrackAll(t, requests[..|requests| - 1]), requests[|requests| - 1])
  }

  /** Where a caller stands that started with ptr0 and left the blocks in left behind. */
  ghost predicate Followed(b0: Blocks, ptr0: nat, size0: nat, b: Blocks, ptr: nat, t: Tracker, left: seq<nat>)
    requires Tracked(b0, ptr0, size0)
  {
    && Tracked(b, ptr, t.size) && (ptr != NULL) == t.live
    && Contents(b, ptr, t.size) == ResizeAll(Contents(b0, ptr0, size0), t.taken)
    && |left| == t.moves
    && (ptr0 != NULL && ptr0 != ptr ==> ptr0 in left)
    && (ptr != ptr0 ==> ptr !in b0)
    && (forall p :: p in b0 && p != ptr0 ==> p !in left && p in b && b[p] == b0[p])
    && b.Keys <= (b0.Keys - {ptr0}) + {ptr}
  }

  lemma {:induction false} ResizeAllAppend(c: seq<Byte>, sizes: seq<nat>, n: nat)
    ensures ResizeAll(c, sizes + [n]) == Resize(ResizeAll(c, sizes), n)
  {
    assert (sizes + [n])[..|sizes|] == sizes;
  }

  lemma {:induction false} FollowBytes(b0: Blocks, ptr0: nat, size0: nat, b: Blocks, ptr: nat, t: Tracker, left: seq<nat>,
                                       r: Request, b': Blocks, ptr': nat, freed: seq<nat>, t': Tracker)
    requires Tracked(b0, ptr0, size0) && NULL !in b0 && Followed(b0, ptr0, size0, b, ptr, t, left)
    requires Reallocated(b, ptr, t.size, r.newSize, r.grant.Some?, b', ptr', freed) && t' == Track(t, r)
    ensures Tracked(b', ptr', t'.size) && (ptr' != NULL) == t'.live && |left + freed| == t'.moves
    ensures Contents(b', ptr', t'.size) == ResizeAll(Contents(b0, ptr0, size0), t'.taken)
  {
    ResizeAllAppend(Contents(b0, ptr0, size0), t.taken, r.newSize);
  }

  lemma {:induction false} FollowBlocks(b0: Blocks, ptr0: nat, size0: nat, b: Blocks, ptr: nat, t: Tracker, left: seq<nat>,
                                        r: Request, b': Blocks, ptr': nat, freed: seq<nat>)
    requires Tracked(b0, ptr0, size0) && NULL !in b0 && Followed(b0, ptr0, size0, b, ptr, t, left)
    requires Reallocated(b, ptr, t.size, r.newSize, r.grant.Some?, b', ptr', freed)
    ensures ptr0 != NULL && ptr0 != ptr' ==> ptr0 in left + freed
    ensures ptr' != ptr0 ==> ptr' !in b0
    ensures forall p :: p in b0 && p != ptr0 ==> p !in left + freed && p in b' && b'[p] == b0[p]
    ensures b'.Keys <= (b0.Keys - {ptr0}) + {ptr'}
  {
  }

  lemma {:induction false} FollowOne(b0: Blocks, ptr0: nat, size0: nat, b: Blocks, ptr: nat, t: Tracker, left: seq<nat>,
                                     r: Request, b': Blocks, ptr': nat, freed: seq<nat>, t': Tracker, left': seq<nat>)
    requires Tracked(b0, ptr0, size0) && NULL !in b0 && Followed(b0, ptr0, size0, b, ptr, t, left)
    requires Reallocated(b, ptr, t.size, r.newSize, r.grant.Some?, b', ptr', freed)
    requires t' == Track(t, r) && left' == left + freed
    ensures Followed(b0, ptr0, size0, b', ptr', t', left')
  {
    FollowBytes(b0, ptr0, size0, b, ptr, t, left, r, b', ptr', freed, t');
    FollowBlocks(b0, ptr0, size0, b, ptr, t, left, r, b', ptr', freed);
  }

  /** One reallocation by such a caller, which then knows the block's new size. */
  method ReallocateTracked(heap: Heap, ptr: nat, size: nat, r: Request,
                           ghost b0: Blocks, ghost ptr0: nat, ghost size0: nat, ghost t: Tracker, ghost left: seq<nat>)
    returns (ptr': nat, size': nat, ghost freed: seq<nat>)
    requires heap.Valid() && Tracked(b0, ptr0, size0) && NULL !in b0 && size == t.size
    requires Followed(b0, ptr0, size0, heap.blocks, ptr, t, left)
    requires Fits(r)
    modifies heap
    ensures heap.Valid() && heap.released == old(heap.released) + freed && size' == Track(t, r).size
    ensures Followed(b0, ptr0, size0, heap.blocks, ptr', Track(t, r), left + freed)
  {
    ghost var b := heap.blocks;
    var ok;
    ok, ptr', freed := heap.Reallocate(ptr, size, r.newSize, r.grant);
    size' := if ok then r.newSize else size;
    FollowOne(b0, ptr0, size0, b, ptr, t, left, r, heap.blocks, ptr', freed, Track(t, r), left + freed);
  }

  /** A caller that reallocates one block over and over and keeps track of its size. Its bytes
      are those of the resizes that succeeded; every block it moved off was released, exactly
      once; and no other block was touched or left behind. */
  method ReallocateAll(heap: Heap, ptr0: nat, size0: nat, requests: seq<Request>)
    returns (ptr: nat, size: nat, ghost left: seq<nat>)
    requires heap.Valid() && Tracked(heap.blocks, ptr0, size0)
    requires forall i :: 0 <= i < |requests| ==> Fits(requests[i])
    modifies heap
    ensures heap.Valid()
    ensures heap.released == old(heap.released) + left
    ensures var t := TrackAll(Tracker(ptr0 != NULL, size0, [], 0), requests);
            size == t.size && Followed(old(heap.blocks), ptr0, size0, heap.blocks, ptr, t, left)
  {
    ghost var b0, r0, t0 := heap.blocks, heap.released, Tracker(ptr0 != NULL, size0, [], 0);
    ghost var t := t0;
    ptr, size, left := ptr0, size0, [];
    for i := 0 to |requests|
      invariant heap.Valid() && heap.released == r0 + left && size == t.size
      invariant t == TrackAll(t0, requests[..i])
      invariant Followed(b0, ptr0, size0, heap.blocks, ptr, t, left)
    {
      TrackOne(t0, requests, i);
      ghost var freed;
      ptr, size, freed := ReallocateTracked(heap, ptr, size, requests[i], b0, ptr0, size0, t, left);
      t, left := Track(t, requests[i]), left + freed;
    }
    assert requests[..|requests|] == requests;
  }

  /** A granted block has the size asked for. */
  predicate Fits(r: Request) {
    r.grant.Some? ==> |r.grant.value| == r.newSize
  }

  lemma {:induction false} TrackOne(t0: Tracker, requests: seq<Request>, i: nat)
    requires i < |requests|
    ensures TrackAll(t0, requests[..i + 1]) == Track(TrackAll(t0, requests[..i]), requests[i])
  {
    assert requests[..i + 1][..i] == requests[..i];
  }
}
