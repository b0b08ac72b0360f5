# Verified models for the proof stubs and helpers

This project models the code that the verification jobs of aws-c-common rely on: the original
hash table insertion and resize that the stubs keep in their `#else` branches, the iterator
stubs, the memory routines, the emulated `realloc`, the fuzzing byte stream, the ring buffer
helper, the linked list snapshots and the masked cursor advance. It proves what those pieces are
for, over all inputs and over whole runs. Check it with `dafny verify dfyconfig.toml`.

## What is modelled

| file | content |
|---|---|
| `Words.dfy` | 64-bit words as integers; `x & (2^k - 1) == x % 2^k` |
| `Cyclic.dfy`, `RobinHood.dfy` | positions on a ring; the layout invariant on home maps; insert and shift |
| `Canonical.dfy` | the layout invariant determines the layout |
| `Slots.dfy`, `Emplacing.dfy`, `HashTable.dfy` | slots, the insertion loop and its invariant, the table, the resize |
| `HashRuns.dfy` | runs of insertions and resizes: safety, findability, order independence |
| `HashIter.dfy` | the iterator stubs as a step system |
| `MemMove.dfy`, `Compare.dfy` | `memmove`, `memcpy`; `memcmp`, `bcmp` |
| `Realloc.dfy` | the allocator and its emulated `realloc` |
| `FuzzStream.dfy` | the fuzzing readers |
| `RingBuffer.dfy` | releasing buffers from a ring |
| `ListSnapshot.dfy` | saving and checking a stretch of a linked list |
| `ByteCursor.dfy` | the masked cursor advance |

The main argument about the hash table goes by *home maps*: for every slot, the home slot of its
occupant. The layout invariant (`RobinHood.Layout`) says that an occupant away from home has an
occupied predecessor that is at most one place nearer to its own home. It is equivalent to every
entry being findable by a walk that stops where the displacement test stops
(`LayoutIffReachable`), the insertion loop keeps it, and it determines the home map from the
multiset of homes (`LayoutIsUnique`), by counting the entries whose homes lie in one stretch of
the ring. Order independence of insertions, resizes and whole runs follows from uniqueness. The
uniqueness theorem needs a slot that nothing is carried across; `FullTablesCanDiffer` shows why,
and an insertion always leaves such a slot, even the one that fills the table.

## Where the code differs from what is said about it

- `s_emplace_item` says that a valid table has an empty slot, so that its loop always ends.
  Validity does not imply it: the entry count is never tied to the slots
  (`ValidWithoutEmptySlot`). An empty slot is exactly what makes the loop end, and without one it
  never does (`EndsIffEmptySlot`); it is there exactly when fewer entries are live than there are
  slots (`Pigeonhole`), and runs keep one (`RunKeepsSound`).
- `memmove` assumes 4-byte words. With 8-byte words it is right on every memory exactly when the
  destination is not above the source or fewer than four bytes move (`MemMove`,
  `WideWordsOverrun`). Any other call can overwrite up to four bytes after the range. The range itself
  is still right on every memory exactly if the ranges are at least four bytes apart, or only one
  chunk or word is stored and no more bytes than the distance are copied before it for alignment
  (`WideKeepsRange`, `WideWordsCorrupt`).
- `bcmp` promises 0 for empty ranges, but returns 1 for one null pointer even then (`BCmp`).
- `aws_byte_cursor_advance_nospec` promises to behave like the plain advance. It does not for a
  cursor of exactly `SIZE_MAX >> 1` bytes, where it nulls the cursor (`AdvanceNospec`).
- `aws_hash_iter_begin` and `aws_hash_iter_next` may leave a ready iterator on an empty slot
  (`BeginIsFullyValidIff`, `NextIsFullyValidIff`).
- With no byte left over, it is not always the last fuzzing call that bails out
  (`EmptyBlockBailsEarly`). It is exactly if the last value takes a byte, or is an empty read and
  all values before it were havocs of null pointers (`NoTrailingByte`); `StopsExactlyAtEnd` says
  which call it is in general.
- The ring buffer harness allows a middle ring to come to have both ends occupied; it never does
  (`ReleaseEffect`).

## Assumptions

- `size_t` and `unsigned long long` have 64 bits; the word size of `memmove` is a parameter.
- Values of nondeterministic functions, allocation failures and unroll bounds are parameters;
  what the code assumes about them is a precondition.
- Functions whose code is not in this repository appear by what their harnesses assert:
  `aws_mul_size_checked`, `aws_round_up_to_power_of_two` (as the smallest power of two that is
  not below its argument, which its harness implies up to one case), `aws_nospec_mask`,
  `aws_ring_buffer_release`, and `s_alloc_state`, which copies the header over empty slots.
- `s_update_template_size` is taken from its `__SEAHORN__` branch: the other branch never assigns
  `template->size`. `s_emplace_item` and `s_expand_table` are taken from their `#else` branches.

## Model

| member | source | states |
|---|---|---|
| Words.MaskIsRemainder | seahorn/aws-c-common-stubs/s_update_template_size_override.c:57-58 | masking with a power of two less one is the remainder |
| Words.WrapThenRemainder | seahorn/aws-c-common-stubs/s_emplace_item_override.c:43-53 | wrapping at 2^64 before masking changes nothing |
| Slots.VictimProbeIsShift | seahorn/aws-c-common-stubs/s_emplace_item_override.c:53 | the masked, wrapping difference is the occupant's distance from home, and leads back to its slot |
| RobinHood.LayoutIffReachable | seahorn/aws-c-common-stubs/s_emplace_item_override.c:58 | the layout invariant holds exactly when a walk from any entry's home passes every slot before it |
| RobinHood.ShiftBound | seahorn/aws-c-common-stubs/s_emplace_item_override.c:35-37 | with an empty slot no occupant is more than size - 2 places from home |
| RobinHood.InsertKeepsLayout | seahorn/aws-c-common-stubs/s_emplace_item_override.c:58-72 | insert-and-shift at the first slot where the test fires keeps the layout invariant, round the ring |
| Canonical.LayoutIsUnique | seahorn/aws-c-common-stubs/s_emplace_item_override.c:38-73 | two layouts of one size with the same multiset of homes are equal |
| Canonical.FullTablesCanDiffer | seahorn/aws-c-common-stubs/s_emplace_item_override.c:35-37 | without a slot that nothing is carried across, they need not be |
| Canonical.InsertLeavesCut | seahorn/aws-c-common-stubs/s_emplace_item_override.c:58-73 | an insertion leaves such a slot, even when it fills the table |
| HashTable.HashTableState.IsValid | seahorn/aws-c-common-stubs/hash_table_state_is_valid_override.c:14-39 | the validity predicate |
| HashTable.HashTableState.EmplaceItem | seahorn/aws-c-common-stubs/s_emplace_item_override.c:14-82 | hash 0 is refused; otherwise, given an empty slot, the loop is a run of turns to the first empty slot, returns the slot where the test first fired and which holds the entry, fills one empty slot, leaves the other slots alone, and under the layout invariant amounts to insert-and-shift |
| Emplacing.SwapStep | seahorn/aws-c-common-stubs/s_emplace_item_override.c:58-69 | a swap keeps the loop invariant: the carried entry belongs at the next slot, the slots beyond are untouched, and under the layout invariant the swaps so far are a shift |
| Emplacing.SkipStep | seahorn/aws-c-common-stubs/s_emplace_item_override.c:70-72 | so does passing an occupant; once an entry was displaced, only occupants with the carried entry's home are passed |
| Emplacing.ProbeAtEveryTurn | seahorn/aws-c-common-stubs/s_emplace_item_override.c:43-72 | under the layout invariant and with an empty slot, the carried entry's probe index is at every turn its true distance from home, below the size |
| Emplacing.EndsIffEmptySlot | seahorn/aws-c-common-stubs/s_emplace_item_override.c:35-73 | some number of turns ends the loop exactly when there is an empty slot, and then no more turns than slots |
| Emplacing.FullStaysFull | seahorn/aws-c-common-stubs/s_emplace_item_override.c:38-73 | without one, the slots stay full and the carried entry live for ever |
| HashTable.HashTableState.Displace | seahorn/aws-c-common-stubs/s_emplace_item_override.c:43-72 | one iteration in the masked, wrapping arithmetic on the slots in place is one turn |
| HashTable.ValidWithoutEmptySlot | seahorn/aws-c-common-stubs/s_emplace_item_override.c:35-37 | a valid table whose slots are all occupied |
| HashTable.CountedHasEmptySlot | seahorn/lib/hash_table_helper.c:91-105 | a valid table whose count covers its live entries has an empty slot |
| Slots.EmplaceIsDetermined | seahorn/aws-c-common-stubs/s_emplace_item_override.c:38-73 | into a layout, the slots, the returned slot and the number of turns are determined: of occupants with one home the first moves on and the others stay |
| Emplacing.SwapGroups | seahorn/aws-c-common-stubs/s_emplace_item_override.c:58-69 | a later swap puts the first occupant of the last group of equal homes where the next group begins |
| Slots.EmplaceConserves | seahorn/aws-c-common-stubs/s_emplace_item_override.c:65-67 | the live entries grow by exactly the emplaced one |
| Slots.EmplaceKeepsLayout | seahorn/aws-c-common-stubs/s_emplace_item_override.c:43-72 | emplacing keeps the layout invariant, also from a later probe index that the slots before support |
| Slots.Pigeonhole | seahorn/aws-c-common-stubs/s_emplace_item_override.c:35-37 | there is an empty slot exactly when fewer entries are live than there are slots |
| HashTable.HashTable.DeepEntryCount | seahorn/lib/hash_table_helper.c:91-101 | the number of live entries |
| HashTable.HashTable.EntryCountIsValid | seahorn/lib/hash_table_helper.c:103-105 | whether the stored count is that number |
| HashTable.HashTable.DeepIsEmpty | seahorn/lib/hash_table_helper.c:107-115 | whether no entry is live |
| HashTable.HashTableState.UpdateTemplateSize | seahorn/aws-c-common-stubs/s_update_template_size_override.c:28-61 | the size becomes the smallest power of two that is at least 2 and at least the elements expected, the mask one less, the load bound lies between the entry count and the size; it fails exactly when that power does not fit, and then changes nothing |
| HashTable.HashTable.ExpandTable | seahorn/aws-c-common-stubs/s_expand_table_override.c:13-60 | success doubles the size, moves the old slots one after the other, in order, into empty ones, establishes the layout invariant, keeps exactly the live entries and releases the old state; it fails exactly when the size cannot double or nothing is allocated, and then changes nothing |
| HashTable.HashTable.Rehash | seahorn/aws-c-common-stubs/s_expand_table_override.c:47-54 | the loop goes through the old slots in order: each live entry is emplaced into the slots the ones before it left, beginning with empty slots; the result is a valid layout of exactly the live entries |
| HashTable.ExpandIsDetermined | seahorn/aws-c-common-stubs/s_expand_table_override.c:47-54 | the old slots determine the new ones, entry by entry |
| HashTable.HashTable.InsertCounted | seahorn/aws-c-common-stubs/s_update_template_size_override.c:11-15 | counting an entry and emplacing it from its home |
| HashRuns.RunKeepsSound | seahorn/aws-c-common-stubs/s_expand_table_override.c:13-60 | every run of insertions below the load bound and resizes, failed ones included, keeps validity, the exact entry count, an empty slot, the layout invariant, and exactly the inserted entries |
| HashRuns.EmptyTableIsSound | seahorn/aws-c-common-stubs/s_expand_table_override.c:32-33 | a table of empty slots is where runs may start |
| HashTable.HashTableState.New | seahorn/lib/hash_table_helper.c:13-40 | a state with the initialiser's fields, a zero count and empty slots is sound and holds nothing |
| HashRuns.CarryOut | seahorn/aws-c-common-stubs/s_expand_table_override.c:13-60 | a put or a resize on the table object is the step of the run model, a resize failing exactly when the size cannot double or nothing is allocated |
| HashRuns.CarryOutAll | seahorn/aws-c-common-stubs/s_expand_table_override.c:13-60 | on the table object itself, any sequence of puts and resizes, up to a put at the load bound, is a run, leaves a sound table and holds exactly what was put |
| HashRuns.FillNew | seahorn/aws-c-common-stubs/s_expand_table_override.c:13-60 | from a newly made table, the live entries are exactly those put |
| HashRuns.EveryEntryFound | seahorn/aws-c-common-stubs/s_emplace_item_override.c:58 | under the layout invariant a walk finds an entry exactly when it is live |
| HashRuns.RunFindsEverything | seahorn/aws-c-common-stubs/s_emplace_item_override.c:38-73 | so after every run the walk finds exactly what was put in |
| HashRuns.EmplaceCommutes | seahorn/aws-c-common-stubs/s_emplace_item_override.c:38-73 | two entries emplaced in either order give the same home in every slot |
| HashRuns.LayoutDependsOnHomesOnly | seahorn/aws-c-common-stubs/s_expand_table_override.c:47-54 | a layout depends only on the size and the multiset of homes |
| HashRuns.ResizeForgetsOrder | seahorn/aws-c-common-stubs/s_expand_table_override.c:47-57 | tables with the same live entries resize to the same layout |
| HashRuns.RunsConverge | seahorn/aws-c-common-stubs/s_expand_table_override.c:13-60 | runs that inserted the same entries, in any order and with any resizes, end in the same layout at the same size |
| HashRuns.RequestsConverge | seahorn/aws-c-common-stubs/s_expand_table_override.c:13-60 | so callers who put the same entries in different orders, with different resizes, end in the same layout at the same size |
| HashIter.Iter.Begin | seahorn/aws-c-common-stubs/aws_hash_iter_overrides.c:14-27 | the iterator starts on any slot up to the size and is done exactly at the size |
| HashIter.Iter.IsDone | seahorn/aws-c-common-stubs/aws_hash_iter_overrides.c:29-37 | the answer agrees with the status |
| HashIter.Iter.Next | seahorn/aws-c-common-stubs/aws_hash_iter_overrides.c:39-56 | one step, or done at the limit |
| HashIter.Iter.Delete | seahorn/aws-c-common-stubs/aws_hash_iter_overrides.c:62-71 | the limit and the entry count fall by one, wrapping |
| HashIter.NextKeepsValid | seahorn/aws-c-common-stubs/aws_hash_iter_overrides.c:39-56 | a step moves the slot by the step, wrapping, keeps the position valid, also from a slot that underflowed, is done exactly at the limit, and makes progress |
| HashIter.DeleteKeepsValid | seahorn/lib/klee_hash_table_helper.c:84-95 | a delete on a usable slot keeps the slot, takes one off the limit, and keeps the position valid |
| HashIter.IterationEnds | seahorn/aws-c-common-stubs/aws_hash_iter_overrides.c:14-71 | every iteration of steps and deletes ends within the initial number of slots and stays valid; deletes are no more than that |
| HashIter.IterationCanGoOn | seahorn/aws-c-common-stubs/aws_hash_iter_overrides.c:45-55 | an iteration that is not done has a next round |
| HashIter.Iter.Play | seahorn/aws-c-common-stubs/aws_hash_iter_overrides.c:58-71 | the entry count falls by exactly the number of deletes, modulo 2^64 |
| HashIter.BeginIsFullyValidIff | seahorn/lib/klee_hash_table_helper.c:92-94 | begin meets the full validity predicate exactly when its slot is the end or holds an entry |
| HashIter.NextIsFullyValidIff | seahorn/aws-c-common-stubs/aws_hash_iter_overrides.c:39-56 | a step meets it exactly when it reaches the limit or a slot that holds an entry |
| MemMove.MemMove | seahorn/lib/bcmp.c:89-139 | with 4-byte words the range is moved and nothing else changes, for every overlap and alignment; with 8-byte words this holds when the destination is not above the source or fewer than four bytes move, and otherwise nothing beyond four bytes after the range changes, the range itself is right under WideKeepsRange, and every byte comes from where WideSource says |
| MemMove.WideWrong | seahorn/lib/bcmp.c:105-139 | when WideKeepsRange fails, a byte of the range comes from one distance too far below |
| MemMove.WideWordsCorrupt | seahorn/lib/bcmp.c:105-139 | so there is then a memory in which 8-byte words get the range itself wrong |
| MemMove.WideWordsOverrun | seahorn/lib/bcmp.c:105-122 | for every other source, destination and length there is a memory in which 8-byte words change the byte after the range |
| MemMove.MemCpy | seahorn/lib/bcmp.c:152-158 | upwards copying moves the range, or repeats its first bytes into a higher overlapping one |
| Compare.MemCmp | seahorn/lib/bcmp.c:46-73 | for every unroll bound, the one-scan comparison |
| Compare.BCmp | seahorn/lib/bcmp.c:16-44 | 0 exactly for equal pointers or, of two non-null ones, when that comparison is 0 |
| Compare.ScanZeroIffEqual | seahorn/lib/bcmp.c:11-15 | the comparison is 0 exactly on equal ranges |
| Compare.ScanAntisymmetric | seahorn/lib/bcmp.c:58-72 | it changes sign when the ranges change places |
| Compare.ScanTransitive | seahorn/lib/bcmp.c:58-72 | it is transitive, strictly where one side is strict |
| Realloc.Heap.Acquire | seahorn/lib/allocator_override.c:15-23 | a new block, or NULL and no change |
| Realloc.Heap.Calloc | seahorn/lib/allocator_override.c:25-40 | a zeroed block, or NULL on overflow and failure |
| Realloc.Heap.Release | seahorn/lib/allocator_override.c:42-47 | frees one live block; NULL is ignored |
| Realloc.Heap.Reallocate | seahorn/lib/allocator_override.c:49-77 | byte by byte, the caller's block keeps what fits and is extended with zeros, a block that was moved off is released, and a failed call changes nothing |
| Realloc.ReallocateAll | seahorn/lib/allocator_override.c:49-77 | over any run the caller's bytes are the fold of the resizes that succeeded, every block moved off is released exactly once, and no other block is touched |
| Realloc.ResizeAllKeeps | seahorn/lib/allocator_override.c:60-70 | that fold keeps the bytes below the narrowest size and zeros above |
| FuzzStream.Stream.Take | seahorn/lib/nd_fuzz.c:19-22 | a read that would reach the end bails out |
| FuzzStream.Stream.PerformAll | seahorn/lib/nd_fuzz.c:32-112 | a harness run returns what replaying the calls on the stream returns |
| FuzzStream.AnswerOfBytes | seahorn/lib/nd_fuzz.c:32-112 | reading an encoded value gives it back, for every width and for signed integers |
| FuzzStream.DecodeConcat | seahorn/lib/nd_fuzz.c:32-112 | bytes weigh the more the later they come |
| FuzzStream.SignedIsTwosComplement | seahorn/lib/nd_fuzz.c:32-112 | a signed integer agrees with the unsigned one modulo 2^32 and has the range of an int |
| FuzzStream.ReplayOfBytes | seahorn/lib/nd_fuzz.c:19-112 | the calls return exactly the encoded values before the first call that finds nothing after it, and that one bails out |
| FuzzStream.RoundTrip | seahorn/lib/nd_fuzz.c:32-112 | one trailing byte makes the round trip complete, with the cursor inside the stream |
| FuzzStream.StopsExactlyAtEnd | seahorn/lib/nd_fuzz.c:19-112 | i values come back if and only if the call after them is the first that finds nothing after it |
| FuzzStream.NoTrailingByte | seahorn/lib/nd_fuzz.c:19-22 | with no trailing byte, exactly the last call bails out if and only if the last value takes a byte, or is an empty read after nothing but havocs of null pointers |
| FuzzStream.EmptyBlockBailsEarly | seahorn/lib/nd_fuzz.c:102-112 | an input where it is an earlier call: before an empty block |
| RingBuffer.RingBuffer.EnsureInRing | seahorn/lib/ring_buffer_helper.c:35-53 | the buffer picked lies in an occupied stretch, its allocator is none or the given one, and the helper's assertion holds |
| RingBuffer.RingBuffer.Release | seahorn/jobs/ring_buffer_release/aws_ring_buffer_release_harness.c:43-59 | the tail moves to the buffer's end and the buffer is cleared |
| RingBuffer.ReleaseEffect | seahorn/jobs/ring_buffer_release/aws_ring_buffer_release_harness.c:50-70 | a release keeps the ring valid, frees the buffer but nothing occupied after it in its stretch, and takes an allowed transition |
| RingBuffer.OccupiedSize | seahorn/include/cbmc/ring_buffer_abstract_states.h:11-42 | how many bytes are occupied in each abstract state |
| RingBuffer.CanReleaseIffOccupied | seahorn/lib/ring_buffer_helper.c:35-53 | there is a release step exactly when the ring is not empty |
| RingBuffer.ReleasesDrain | seahorn/jobs/ring_buffer_release/aws_ring_buffer_release_harness.c:37-70 | every run of releases stays valid, frees a byte or more a step, and when it cannot go on the ring is empty |
| ListSnapshot.Snapshot.SaveToTail | seahorn/lib/linked_list_helper.c:269-309 | the snapshot records the walk from the save point and both sentinels |
| ListSnapshot.Snapshot.SaveToHead | seahorn/lib/linked_list_helper.c:311-351 | the same, backwards |
| ListSnapshot.SavesTheRest | seahorn/lib/linked_list_helper.c:269-351 | in both directions, from a node first met at position j of the walk from the sentinel, as many nodes are saved as there are from j to the list's second node, or its last if it is shorter; from a node that is not met so far, none |
| ListSnapshot.SavedIsEndOfWalk | seahorn/lib/linked_list_helper.c:249-351 | the saved nodes are the end of that walk |
| ListSnapshot.ForwardCheckIsExact | seahorn/lib/linked_list_helper.c:133-160 | in any later heap the check succeeds exactly when the walk sees the saved nodes with the saved links and the tail sentinel is as it was |
| ListSnapshot.BackwardCheckIsExact | seahorn/lib/linked_list_helper.c:162-189 | the same, backwards |
| ListSnapshot.SaveMirrors | seahorn/lib/linked_list_helper.c:269-351 | saving towards the head is saving towards the tail of the mirror image |
| ListSnapshot.CheckMirrors | seahorn/lib/linked_list_helper.c:133-189 | so is checking |
| ListSnapshot.CheckAfterSave | seahorn/lib/linked_list_helper.c:133-351 | a check right after saving succeeds |
| ByteCursor.Cursor.AdvanceNospec | seahorn/aws-c-common-stubs/byte_cursor_advance_nospec_override.c:15-51 | an accepted count hands out exactly that many bytes from the front and moves the cursor by as many; a refused one gives an empty slice and changes nothing; this is the plain advance, except on a cursor of exactly SIZE_MAX >> 1 bytes, which is nulled |
| ByteCursor.Cursor.AdvanceAll | seahorn/aws-c-common-stubs/byte_cursor_advance_nospec_override.c:15-51 | over any run each count that still fits gets exactly its bytes, from where the last slice ended, and the slices and the rest make up the view, exactly unless such a cursor is advanced |

## Left out

- Realloc.Heap.Acquire: a pointer names its allocation and is never handed out again, so reuse of freed addresses is not modelled.
- HashTable.HashTableState.EmplaceItem: a call on slots without an empty one, which the original accepts and never returns from, is excluded by a precondition; EndsIffEmptySlot and FullStaysFull say what the loop then does.
- FuzzStream.Stream.Take: cursor arithmetic does not overflow; a size so large that the pointer sum wraps is not modelled.
- ListSnapshot.UnchangedToTail: reading a node that is no longer in the heap counts as a failed comparison.
- ListSnapshot.UnchangedToHead: the same.
- MemMove.MemMove: unaligned word accesses are taken to work, and positions stand for addresses.
- RingBuffer.RingBuffer.Release: head and tail are plain fields; atomicity and other threads are not modelled.
- HashIter.Iter.Next: the element copied into the iterator is arbitrary in the stub and is not represented.
- Lookup, removal and the other operations of the hash table, the priority queue, the array list and ring buffer acquisition: their code is not in this repository.
- The floating-point load factor: the integer bound that replaces it is modelled instead.
- is_aws_list_unchanged_full and aws_linked_list_save_full: the check does not look at its list, so it does not mean that the list is unchanged.
- nd_bool of the fuzzing readers: its result depends on uninitialised memory.
- Bailing out of a fuzzing run because an assumption fails, which reads nothing.
- The nondeterministic initialisers, the stubs that replace loops by arbitrary results, and the bindings to the verification tools.
- Error codes raised by aws_raise_error, and the scripts, build files and results of the repository.
