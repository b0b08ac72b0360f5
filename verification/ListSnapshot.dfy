/** Snapshots of a stretch of a doubly linked list, over an arbitrary heap of nodes: links may
    alias, form cycles or lead out of the list. */
module ListSnapshot {
  /** Addresses; 0 is NULL. */
  type Ptr = nat

  datatype Node = Node(prev: Ptr, next: Ptr)

  type Heap = map<Ptr, Node>

  /** The addresses of a list's two sentinel nodes. */
  datatype List = List(head: Ptr, tail: Ptr)

  /** A saved_aws_linked_list_node. */
  datatype Saved = Saved(node: Ptr, prev: Ptr, next: Ptr)

  /** The fields of a saved_aws_linked_list that the one-directional checks use. */
  datatype Record = Record(savedSize: nat, savePoint: Ptr, head: Saved, tail: Saved, nodes: seq<Saved>)

  datatype Direction = Forward | Backward

  function Follow(h: Heap, p: Ptr, d: Direction): Ptr
    requires p in h
  {
    if d.Forward? then h[p].next else h[p].prev
  }

  function Save(h: Heap, p: Ptr): Saved
    requires p in h
  {
    Saved(p, h[p].prev, h[p].next)
  }

  predicate CanWalk(h: Heap, p: Ptr, k: nat, d: Direction)
    decreases k
  {
    k > 0 ==> p in h && CanWalk(h, Follow(h, p, d), k - 1, d)
  }

  /** The first k nodes from p on in one direction, with their links. */
  function Walk(h: Heap, p: Ptr, k: nat, d: Direction): (w: seq<Saved>)
    requires CanWalk(h, p, k, d)
    ensures |w| == k
    decreases k
  {
    if k == 0 then [] else [Save(h, p)] + Walk(h, Follow(h, p, d), k - 1, d)
  }

  /** Whether aws_linked_list_save_to_tail (Forward) or _to_head (Backward) reads live nodes only. */
  predicate CanSave(h: Heap, list: List, size: nat, start: Ptr, d: Direction) {
    var first := if d.Forward? then list.head else list.tail;
    && list.head in h && list.tail in h
    && (size > 1 && start != first && start != Follow(h, first, d) ==> Follow(h, first, d) in h)
    && CanWalk(h, start, SavedCount(h, list, size, start, d), d)
  }

  /** How many nodes are saved: at most one more than the list's size and never past its end,
      provided start is one of the first three nodes. */
  function SavedCount(h: Heap, list: List, size: nat, start: Ptr, d: Direction): nat {
    var first := if d.Forward? then list.head else list.tail;
    var length := if size < 2 then size else 2;
    if first !in h then 0
    else if start == first then length + 1
    else if length >= 1 && start == Follow(h, first, d) then length
    else if length == 2 && Follow(h, first, d) in h && start == Follow(h, Follow(h, first, d), d) then 1
    else 0
  }

  class Snapshot {
    var savedSize: nat
    var savePoint: Ptr
    var head: Saved
    var tail: Saved
    const nodes: array<Saved>

    predicate Allocated() {
      nodes.Length == 4
    }

    function View(): Record
      reads this, nodes
    {
      Record(savedSize, savePoint, head, tail, nodes[..])
    }

    constructor ()
      ensures Allocated() && fresh(nodes)
    {
      savedSize, savePoint, head, tail := 0, 0, Saved(0, 0, 0), Saved(0, 0, 0);
      nodes := new Saved[4](_ => Saved(0, 0, 0));
    }

    method SaveOneNode(h: Heap, start: Ptr, d: Direction)
      requires Allocated() && CanWalk(h, start, 1, d)
      modifies this`savedSize, nodes
      ensures savedSize == 1 && nodes[..1] == Walk(h, start, 1, d)
    {
      nodes[0] := Save(h, start);
      savedSize := 1;
    }

    method SaveTwoNodes(h: Heap, start: Ptr, d: Direction)
      requires Allocated() && CanWalk(h, start, 2, d)
      modifies this`savedSize, nodes
      ensures savedSize == 2 && nodes[..2] == Walk(h, start, 2, d)
    {
      nodes[0] := Save(h, start);
      nodes[1] := Save(h, Follow(h, start, d));
      savedSize := 2;
    }

    method SaveThreeNodes(h: Heap, start: Ptr, d: Direction)
      requires Allocated() && CanWalk(h, start, 3, d)
      modifies this`savedSize, nodes
      ensures savedSize == 3 && nodes[..3] == Walk(h, start, 3, d)
    {
      nodes[0] := Save(h, start);
      nodes[1] := Save(h, Follow(h, start, d));
      nodes[2] := Save(h, Follow(h, Follow(h, start, d), d));
      savedSize := 3;
      UnrollWalk(h, start, 3, d);
    }

    /** aws_linked_list_save_to_tail. */
    method SaveToTail(h: Heap, list: List, size: nat, start: Ptr)
      requires Allocated() && CanSave(h, list, size, start, Forward)
      modifies this, nodes
      ensures Taken(h, list, size, start, Forward, View())
    {
      head := Save(h, list.head);
      tail := Save(h, list.tail);
      savePoint := start;
      if size == 0 {
        if list.head == start {
          SaveOneNode(h, start, Forward);
        } else {
          savedSize := 0;
        }
      } else if size == 1 {
        if list.head == start {
          SaveTwoNodes(h, start, Forward);
        } else if h[list.head].next == start {
          SaveOneNode(h, start, Forward);
        } else {
          savedSize := 0;
        }
      } else if size > 1 {
        if list.head == start {
          SaveThreeNodes(h, start, Forward);
        } else if h[list.head].next == start {
          SaveTwoNodes(h, start, Forward);
        } else if h[h[list.head].next].next == start {
          SaveOneNode(h, start, Forward);
        } else {
          savedSize := 0;
        }
      }
    }

    /** aws_linked_list_save_to_head. */
    method SaveToHead(h: Heap, list: List, size: nat, start: Ptr)
      requires Allocated() && CanSave(h, list, size, start, Backward)
      modifies this, nodes
      ensures Taken(h, list, size, start, Backward, View())
    {
      head := Save(h, list.head);
      tail := Save(h, list.tail);
      savePoint := start;
      if size == 0 {
        if list.tail == start {
          SaveOneNode(h, start, Backward);
        } else {
          savedSize := 0;
        }
      } else if size == 1 {
        if list.tail == start {
          SaveTwoNodes(h, start, Backward);
        } else if h[list.tail].prev == start {
          SaveOneNode(h, start, Backward);
        } else {
          savedSize := 0;
        }
      } else if size > 1 {
        if list.tail == start {
          SaveThreeNodes(h, start, Backward);
        } else if h[list.tail].prev == start {
          SaveTwoNodes(h, start, Backward);
        } else if h[h[list.tail].prev].prev == start {
          SaveOneNode(h, start, Backward);
        } else {
          savedSize := 0;
        }
      }
    }
  }

  /** v is a snapshot that was taken of heap h. */
  ghost predicate Taken(h: Heap, list: List, size: nat, start: Ptr, d: Direction, v: Record)
    requires CanSave(h, list, size, start, d)
  {
    && v.savedSize == SavedCount(h, list, size, start, d) <= |v.nodes|
    && v.savePoint == start
    && v.head == Save(h, list.head) && v.tail == Save(h, list.tail)
    && v.nodes[..v.savedSize] == Walk(h, start, v.savedSize, d)
  }

  // ----- Which nodes are saved -----

  /** Going j links from p on leads to q, through live nodes. */
  ghost predicate Leads(h: Heap, p: Ptr, j: nat, d: Direction, q: Ptr)
    decreases j
  {
    if j == 0 then q == p else p in h && Leads(h, Follow(h, p, d), j - 1, d, q)
  }

  /** q is j links from p on, and not nearer. */
  ghost predicate FirstAt(h: Heap, p: Ptr, j: nat, d: Direction, q: Ptr) {
    Leads(h, p, j, d, q) && forall i: nat :: i < j ==> !Leads(h, p, i, d, q)
  }

  lemma {:induction false} LeadsFew(h: Heap, p: Ptr, d: Direction, q: Ptr)
    ensures Leads(h, p, 0, d, q) <==> q == p
    ensures Leads(h, p, 1, d, q) <==> p in h && q == Follow(h, p, d)
    ensures Leads(h, p, 2, d, q) <==> p in h && Follow(h, p, d) in h && q == Follow(h, Follow(h, p, d), d)
  {
    if p in h {
      var p1 := Follow(h, p, d);
      assert Leads(h, p, 1, d, q) <==> Leads(h, p1, 0, d, q);
      assert Leads(h, p, 2, d, q) <==> Leads(h, p1, 1, d, q);
      if p1 in h {
        assert Leads(h, p1, 1, d, q) <==> Leads(h, Follow(h, p1, d), 0, d, q);
      }
    }
  }

  /** The sentinel counting as position 0, a save from a node first met at position j keeps the
      nodes from there to the list's second, or to its last one if it is shorter; from a node that
      is not met so far it keeps none. */
  lemma {:induction false} SavesTheRest(h: Heap, list: List, size: nat, start: Ptr, d: Direction, v: Record)
    requires CanSave(h, list, size, start, d) && Taken(h, list, size, start, d, v)
    ensures var first, last := if d.Forward? then list.head else list.tail, if size < 2 then size else 2;
            && (forall j: nat :: j <= last && FirstAt(h, first, j, d, start) ==> v.savedSize == last + 1 - j)
            && ((forall j: nat :: j <= last ==> !Leads(h, first, j, d, start)) ==> v.savedSize == 0)
  {
    var first := if d.Forward? then list.head else list.tail;
    LeadsFew(h, first, d, start);
  }

  lemma {:induction false} WalkFrom(h: Heap, p: Ptr, j: nat, k: nat, d: Direction, q: Ptr)
    requires Leads(h, p, j, d, q) && CanWalk(h, q, k, d)
    ensures CanWalk(h, p, j + k, d) && Walk(h, p, j + k, d)[j..] == Walk(h, q, k, d)
    decreases j
  {
    if j > 0 {
      WalkFrom(h, Follow(h, p, d), j - 1, k, d, q);
    }
  }

  /** So what is saved is the end of the walk from the sentinel to that last position. */
  lemma {:induction false} SavedIsEndOfWalk(h: Heap, list: List, size: nat, start: Ptr, d: Direction, v: Record, j: nat)
    requires CanSave(h, list, size, start, d) && Taken(h, list, size, start, d, v)
    requires var first, last := if d.Forward? then list.head else list.tail, if size < 2 then size else 2;
             j <= last && FirstAt(h, first, j, d, start)
    ensures var first, last := if d.Forward? then list.head else list.tail, if size < 2 then size else 2;
            && CanWalk(h, first, last + 1, d)
            && v.nodes[..v.savedSize] == Walk(h, first, last + 1, d)[j..]
  {
    SavesTheRest(h, list, size, start, d, v);
    WalkFrom(h, if d.Forward? then list.head else list.tail, j, v.savedSize, d, start);
  }

  // ----- The checks; a node is only read once it is known to be the saved one -----

  predicate PrevEqual(h: Heap, p: Ptr, s: Saved) {
    p == s.node && p in h && h[p].prev == s.prev
  }

  predicate NextEqual(h: Heap, p: Ptr, s: Saved) {
    p == s.node && p in h && h[p].next == s.next
  }

  predicate NodeEqual(h: Heap, p: Ptr, s: Saved) {
    PrevEqual(h, p, s) && NextEqual(h, p, s)
  }

  /** is_aws_list_unchanged_to_tail. */
  predicate UnchangedToTail(h: Heap, list: List, v: Record)
    requires |v.nodes| == 4
  {
    if v.savedSize == 0 then NextEqual(h, list.tail, v.tail)
    else if v.savedSize == 1 then
      && NextEqual(h, v.savePoint, v.nodes[0])
      && NodeEqual(h, list.tail, v.tail)
    else if v.savedSize == 2 then
      && NextEqual(h, v.savePoint, v.nodes[0])
      && NodeEqual(h, h[v.savePoint].next, v.nodes[1])
      && NodeEqual(h, list.tail, v.tail)
    else if v.savedSize == 3 then
      && NextEqual(h, v.savePoint, v.nodes[0])
      && NodeEqual(h, h[v.savePoint].next, v.nodes[1])
      && NodeEqual(h, h[h[v.savePoint].next].next, v.nodes[2])
      && NodeEqual(h, list.tail, v.tail)
    else false
  }

  /** is_aws_list_unchanged_to_head. */
  predicate UnchangedToHead(h: Heap, list: List, v: Record)
    requires |v.nodes| == 4
  {
    if v.savedSize == 0 then PrevEqual(h, list.head, v.head)
    else if v.savedSize == 1 then
      && PrevEqual(h, v.savePoint, v.nodes[0])
      && NodeEqual(h, list.head, v.head)
    else if v.savedSize == 2 then
      && PrevEqual(h, v.savePoint, v.nodes[0])
      && NodeEqual(h, h[v.savePoint].prev, v.nodes[1])
      && NodeEqual(h, list.head, v.head)
    else if v.savedSize == 3 then
      && PrevEqual(h, v.savePoint, v.nodes[0])
      && NodeEqual(h, h[v.savePoint].prev, v.nodes[1])
      && NodeEqual(h, h[h[v.savePoint].prev].prev, v.nodes[2])
      && NodeEqual(h, list.head, v.head)
    else false
  }

  // ----- Soundness -----

  /** Two walks see the same nodes with the same links, except that the first node's link against
      the direction of the walk is not looked at. */
  ghost predicate SameWalk(a: seq<Saved>, b: seq<Saved>, d: Direction) {
    && |a| == |b|
    && (forall i :: 0 <= i < |a| ==> a[i].node == b[i].node)
    && (forall i :: 0 <= i < |a| ==> if d.Forward? then a[i].next == b[i].next else a[i].prev == b[i].prev)
    && (forall i :: 1 <= i < |a| ==> a[i] == b[i])
  }

  /** In any later heap the forward check succeeds exactly when walking from the save point visits
      the nodes that were saved with the links they had, and the tail sentinel is as it was (of
      an empty snapshot, only its next link). */
  lemma {:induction false} ForwardCheckIsExact(h: Heap, list: List, size: nat, start: Ptr, v: Record, h': Heap)
    requires CanSave(h, list, size, start, Forward) && Taken(h, list, size, start, Forward, v)
    requires |v.nodes| == 4
    ensures UnchangedToTail(h', list, v) <==>
            var k := v.savedSize;
            && list.tail in h' && h'[list.tail].next == h[list.tail].next
            && (k > 0 ==> h'[list.tail] == h[list.tail])
            && CanWalk(h', start, k, Forward)
            && SameWalk(Walk(h', start, k, Forward), Walk(h, start, k, Forward), Forward)
  {
    var k := v.savedSize;
    assert forall i :: 0 <= i < k ==> v.nodes[i] == v.nodes[..k][i];
    assert k <= 3;
    UnrollWalk(h, start, k, Forward);
    if CanWalk(h', start, k, Forward) {
      UnrollWalk(h', start, k, Forward);
    }
  }

  lemma {:induction false} UnrollWalk(h: Heap, p: Ptr, k: nat, d: Direction)
    requires k <= 3 && CanWalk(h, p, k, d)
    ensures k >= 1 ==> p in h && Walk(h, p, k, d)[0] == Save(h, p)
    ensures k >= 2 ==> var q := Follow(h, p, d); q in h && Walk(h, p, k, d)[1] == Save(h, q)
    ensures k == 3 ==> var q := Follow(h, Follow(h, p, d), d); q in h && Walk(h, p, k, d)[2] == Save(h, q)
    decreases k
  {
    if k > 0 {
      UnrollWalk(h, Follow(h, p, d), k - 1, d);
    }
  }

  // ----- Mirror image -----

  function MirrorHeap(h: Heap): Heap {
    map p | p in h :: Node(h[p].next, h[p].prev)
  }

  function MirrorList(list: List): List {
    List(list.tail, list.head)
  }

  function MirrorSaved(s: Saved): Saved {
    Saved(s.node, s.next, s.prev)
  }

  function MirrorRecord(v: Record): Record {
    Record(v.savedSize, v.savePoint, MirrorSaved(v.tail), MirrorSaved(v.head),
              seq(|v.nodes|, i requires 0 <= i < |v.nodes| => MirrorSaved(v.nodes[i])))
  }

  /** b is a with every node's links exchanged. */
  ghost predicate Mirrored(a: seq<Saved>, b: seq<Saved>) {
    |a| == |b| && forall i :: 0 <= i < |a| ==> b[i] == MirrorSaved(a[i])
  }

  lemma {:induction false} MirrorWalk(h: Heap, p: Ptr, k: nat)
    ensures CanWalk(h, p, k, Backward) <==> CanWalk(MirrorHeap(h), p, k, Forward)
    ensures CanWalk(h, p, k, Backward) ==>
              Mirrored(Walk(h, p, k, Backward), Walk(MirrorHeap(h), p, k, Forward))
    decreases k
  {
    if k > 0 && p in h {
      var q, m := h[p].prev, MirrorHeap(h);
      MirrorWalk(h, q, k - 1);
      if CanWalk(h, q, k - 1, Backward) {
        var w, w' := Walk(h, q, k - 1, Backward), Walk(m, q, k - 1, Forward);
        assert Mirrored([Save(h, p)] + w, [Save(m, p)] + w');
      }
    }
  }

  /** Saving towards the head is saving towards the tail of the mirror image. */
  lemma {:induction false} SaveMirrors(h: Heap, list: List, size: nat, start: Ptr, v: Record)
    ensures CanSave(h, list, size, start, Backward) <==>
            CanSave(MirrorHeap(h), MirrorList(list), size, start, Forward)
    ensures CanSave(h, list, size, start, Backward) ==>
              (Taken(h, list, size, start, Backward, v) <==>
               Taken(MirrorHeap(h), MirrorList(list), size, start, Forward, MirrorRecord(v)))
  {
    var k := SavedCount(h, list, size, start, Backward);
    assert k == SavedCount(MirrorHeap(h), MirrorList(list), size, start, Forward);
    MirrorWalk(h, start, k);
    if CanSave(h, list, size, start, Backward) && k <= |v.nodes| {
      SavedNodesMirror(v.nodes[..k], Walk(h, start, k, Backward),
                       MirrorRecord(v).nodes[..k], Walk(MirrorHeap(h), start, k, Forward));
    }
  }

  lemma {:induction false} SavedNodesMirror(a: seq<Saved>, b: seq<Saved>, a': seq<Saved>, b': seq<Saved>)
    requires Mirrored(a, a') && Mirrored(b, b') && |a| == |b|
    ensures a == b <==> a' == b'
  {
    if a' == b' {
      forall i | 0 <= i < |a|
        ensures a[i] == b[i]
      {
        assert a[i] == MirrorSaved(a'[i]);
      }
    }
  }

  /** Checking towards the head is checking towards the tail of the mirror image. */
  lemma {:induction false} CheckMirrors(h: Heap, list: List, v: Record)
    requires |v.nodes| == 4
    ensures UnchangedToHead(h, list, v) <==>
            UnchangedToTail(MirrorHeap(h), MirrorList(list), MirrorRecord(v))
  {
  }

  /** So the backward check is exact as well. */
  lemma {:induction false} BackwardCheckIsExact(h: Heap, list: List, size: nat, start: Ptr, v: Record, h': Heap)
    requires CanSave(h, list, size, start, Backward) && Taken(h, list, size, start, Backward, v)
    requires |v.nodes| == 4
    ensures UnchangedToHead(h', list, v) <==>
            var k := v.savedSize;
            && list.head in h' && h'[list.head].prev == h[list.head].prev
            && (k > 0 ==> h'[list.head] == h[list.head])
            && CanWalk(h', start, k, Backward)
            && SameWalk(Walk(h', start, k, Backward), Walk(h, start, k, Backward), Backward)
  {
    var k := v.savedSize;
    SaveMirrors(h, list, size, start, v);
    CheckMirrors(h', list, v);
    ForwardCheckIsExact(MirrorHeap(h), MirrorList(list), size, start, MirrorRecord(v), MirrorHeap(h'));
    MirrorWalk(h, start, k);
    MirrorWalk(h', start, k);
    if CanWalk(h', start, k, Backward) {
      SameWalkMirrors(Walk(h', start, k, Backward), Walk(h, start, k, Backward),
                      Walk(MirrorHeap(h'), start, k, Forward), Walk(MirrorHeap(h), start, k, Forward));
    }
  }

  lemma {:induction false} SameWalkMirrors(a: seq<Saved>, b: seq<Saved>, a': seq<Saved>, b': seq<Saved>)
    requires Mirrored(a, a') && Mirrored(b, b') && |a| == |b|
    ensures SameWalk(a, b, Backward) <==> SameWalk(a', b', Forward)
  {
    assert Mirrored(a', a) && Mirrored(b', b);
  }

  /** Checking right after saving succeeds, in both directions. */
  lemma {:induction false} CheckAfterSave(h: Heap, list: List, size: nat, start: Ptr, v: Record)
    requires |v.nodes| == 4
    ensures CanSave(h, list, size, start, Forward) && Taken(h, list, size, start, Forward, v) ==>
              UnchangedToTail(h, list, v)
    ensures CanSave(h, list, size, start, Backward) && Taken(h, list, size, start, Backward, v) ==>
              UnchangedToHead(h, list, v)
  {
    if CanSave(h, list, size, start, Forward) && Taken(h, list, size, start, Forward, v) {
      ForwardCheckIsExact(h, list, size, start, v, h);
    }
    if CanSave(h, list, size, start, Backward) && Taken(h, list, size, start, Backward, v) {
      BackwardCheckIsExact(h, list, size, start, v, h);
    }
  }
}
