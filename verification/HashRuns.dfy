/** Theorems about whole runs of the hash table: safety, findability, and independence of the
    order in which entries arrive. */
module HashRuns {
  import opened Wrappers
  import opened Words
  import opened Cyclic
  import opened RobinHood
  import opened Canonical
  import opened Slots
  import opened HashTable

  // ----- Runs -----

  datatype Op = Insert(entry: Entry) | Expand | FailedExpand

  ghost predicate Step(t: Table, op: Op, t': Table) {
    match op
    case Insert(e) => Inserted(t, e, t')
    case Expand => Expanded(t, t')
    case FailedExpand => t' == t
  }

  ghost predicate Run(ts: seq<Table>, ops: seq<Op>) {
    |ts| == |ops| + 1 && forall k :: 0 <= k < |ops| ==> Step(ts[k], ops[k], ts[k + 1])
  }

  /** The entries that a run inserts. */
  ghost function Given(ops: seq<Op>): multiset<Entry> {
    if ops == [] then multiset{}
    else Given(ops[..|ops| - 1]) +
         match ops[|ops| - 1] { case Insert(e) => multiset{e} case _ => multiset{} }
  }

  lemma {:induction false} StepKeepsSound(t: Table, op: Op, t': Table)
    requires Sound(t) && Step(t, op, t')
    ensures Sound(t') && HasEmptySlot(t'.slots)
    ensures Live(t'.slots) == Live(t.slots) + (if op.Insert? then multiset{op.entry} else multiset{})
  {
    Pigeonhole(t'.slots);
    Pigeonhole(t.slots);
    PowerFits(t.size);
    if op.Insert? {
      EmplaceFromHome(t.slots, op.entry, t'.slots);
    }
  }

  lemma {:induction false} RunPrefix(ts: seq<Table>, ops: seq<Op>)
    requires Run(ts, ops) && ops != []
    ensures Run(ts[..|ops|], ops[..|ops| - 1]) && Step(ts[|ops| - 1], ops[|ops| - 1], ts[|ops|])
  {
    var ts', ops' := ts[..|ops|], ops[..|ops| - 1];
    forall k | 0 <= k < |ops'|
      ensures Step(ts'[k], ops'[k], ts'[k + 1])
    {
      assert Step(ts[k], ops[k], ts[k + 1]);
    }
  }

  /** Every run keeps the state valid, the entry count equal to the number of live entries, at
      least one empty slot, the layout invariant, and exactly the entries inserted so far. */
  lemma {:induction false} RunKeepsSound(ts: seq<Table>, ops: seq<Op>)
    requires Run(ts, ops) && Sound(ts[0])
    ensures Sound(ts[|ops|]) && HasEmptySlot(ts[|ops|].slots)
    ensures Live(ts[|ops|].slots) == Live(ts[0].slots) + Given(ops)
    decreases |ops|
  {
    if ops == [] {
      Pigeonhole(ts[0].slots);
    } else {
      var n := |ops| - 1;
      RunPrefix(ts, ops);
      RunKeepsSound(ts[..|ops|], ops[..n]);
      StepKeepsSound(ts[n], ops[n], ts[|ops|]);
    }
  }

  /** A table of empty slots is where runs may start. */
  lemma {:induction false} EmptyTableIsSound(t: Table)
    requires t.Valid() && t.entryCount == 0
    requires forall i :: 0 <= i < |t.slots| ==> t.slots[i] == EMPTY
    ensures Sound(t) && Live(t.slots) == multiset{}
  {
    EmptyTable(t.slots);
  }

  /** What a caller asks of the table; a resize may fail to allocate. */
  datatype Request = Put(entry: Entry) | Grow(allocFails: bool)

  ghost function Added(r: Request): multiset<Entry> {
    if r.Put? then multiset{r.entry} else multiset{}
  }

  ghost function AllAdded(requests: seq<Request>): multiset<Entry> {
    if requests == [] then multiset{}
    else AllAdded(requests[..|requests| - 1]) + Added(requests[|requests| - 1])
  }

  /** The step that a request comes to on table t. */
  ghost function StepFor(t: Table, r: Request): Op {
    match r
    case Put(e) => Insert(e)
    case Grow(allocFails) => if t.size <= HALF_MAX && !allocFails then Expand else FailedExpand
  }

  /** One request, carried out on the table itself, is that step. */
  method CarryOut(table: HashTable, r: Request)
    requires table.pImpl.IsValid() && Sound(table.pImpl.View())
    requires r.Put? ==> r.entry.hash != 0 && table.pImpl.entryCount < table.pImpl.maxLoad
    modifies table, table.pImpl, table.pImpl.slots
    ensures table.pImpl.IsValid()
    ensures var t := old(table.pImpl.View()); Step(t, StepFor(t, r), table.pImpl.View())
    ensures table.pImpl == old(table.pImpl) || (fresh(table.pImpl) && fresh(table.pImpl.slots))
  {
    match r {
      case Put(e) =>
        Pigeonhole(table.pImpl.View().slots);
        var slot := table.InsertCounted(e);
      case Grow(allocFails) =>
        var load: Word :| table.pImpl.entryCount < load < 2 * table.pImpl.size;
        var ok, trace := table.ExpandTable(allocFails, load);
    }
  }

  /** A run that carries out the first n requests: from table t to table t'. */
  ghost predicate RunOf(ts: seq<Table>, ops: seq<Op>, requests: seq<Request>, n: nat, t: Table, t': Table) {
    && Run(ts, ops) && |ops| == n <= |requests| && ts[0] == t && ts[n] == t'
    && forall k :: 0 <= k < n ==> ops[k] == StepFor(ts[k], requests[k])
  }

  lemma {:induction false} RunOn(ts: seq<Table>, ops: seq<Op>, requests: seq<Request>, n: nat,
                                 t: Table, t': Table, t'': Table)
    requires RunOf(ts, ops, requests, n, t, t') && n < |requests|
    requires Step(t', StepFor(t', requests[n]), t'')
    ensures RunOf(ts + [t''], ops + [StepFor(t', requests[n])], requests, n + 1, t, t'')
  {
  }

  lemma {:induction false} GivenIsAdded(ts: seq<Table>, ops: seq<Op>, requests: seq<Request>)
    requires |ops| == |requests| <= |ts| && forall k :: 0 <= k < |ops| ==> ops[k] == StepFor(ts[k], requests[k])
    ensures Given(ops) == AllAdded(requests)
  {
    if ops != [] {
      GivenIsAdded(ts, ops[..|ops| - 1], requests[..|ops| - 1]);
    }
  }

  lemma {:induction false} RunOfIsSound(ts: seq<Table>, ops: seq<Op>, requests: seq<Request>, n: nat, t: Table, t': Table)
    requires RunOf(ts, ops, requests, n, t, t') && Sound(t)
    ensures Sound(t') && Live(t'.slots) == Live(t.slots) + AllAdded(requests[..n])
    ensures Given(ops) == AllAdded(requests[..n])
  {
    RunKeepsSound(ts, ops);
    GivenIsAdded(ts, ops, requests[..n]);
  }

  /** A caller that puts entries and grows the table in any order, until a put finds the entry
      count at its load bound: what happens is a run, so the table stays sound and holds exactly
      what was put. */
  method CarryOutAll(table: HashTable, requests: seq<Request>)
    returns (done: nat, ghost ts: seq<Table>, ghost ops: seq<Op>)
    requires table.pImpl.IsValid() && Sound(table.pImpl.View())
    requires forall i :: 0 <= i < |requests| && requests[i].Put? ==> requests[i].entry.hash != 0
    modifies table, table.pImpl, table.pImpl.slots
    ensures table.pImpl.IsValid() && Sound(table.pImpl.View()) && done <= |requests|
    ensures RunOf(ts, ops, requests, done, old(table.pImpl.View()), table.pImpl.View())
    ensures Live(table.pImpl.View().slots) == old(Live(table.pImpl.View().slots)) + AllAdded(requests[..done])
    ensures done < |requests| ==> requests[done].Put? && table.pImpl.entryCount == table.pImpl.maxLoad
  {
    ghost var t := table.pImpl.View();
    done, ts, ops := 0, [t], [];
    while done < |requests| && !(requests[done].Put? && table.pImpl.entryCount == table.pImpl.maxLoad)
      invariant table.pImpl.IsValid() && Sound(table.pImpl.View())
      invariant RunOf(ts, ops, requests, done, t, table.pImpl.View())
      invariant table.pImpl == old(table.pImpl) || (fresh(table.pImpl) && fresh(table.pImpl.slots))
    {
      ghost var before := table.pImpl.View();
      CarryOut(table, requests[done]);
      ghost var op := StepFor(before, requests[done]);
      StepKeepsSound(before, op, table.pImpl.View());
      RunOn(ts, ops, requests, done, t, before, table.pImpl.View());
      ts, ops, done := ts + [table.pImpl.View()], ops + [op], done + 1;
    }
    RunOfIsSound(ts, ops, requests, done, t, table.pImpl.View());
  }

  /** From nothing: a new table that such a caller fills holds exactly what was put. */
  method FillNew(hashFn: Word, equalsFn: Word, alloc: Word, size: Word, maxLoad: Word, requests: seq<Request>)
    returns (table: HashTable, done: nat, ghost ts: seq<Table>, ghost ops: seq<Op>)
    requires hashFn != 0 && equalsFn != 0 && alloc != 0
    requires size >= 2 && IsPowerOfTwo(size) && maxLoad < size
    requires forall i :: 0 <= i < |requests| && requests[i].Put? ==> requests[i].entry.hash != 0
    ensures fresh(table) && table.pImpl.IsValid() && Sound(table.pImpl.View()) && done <= |requests|
    ensures ts != [] && Sound(ts[0]) && Live(ts[0].slots) == multiset{}
    ensures RunOf(ts, ops, requests, done, ts[0], table.pImpl.View())
    ensures Live(table.pImpl.View().slots) == AllAdded(requests[..done])
    ensures done < |requests| ==> requests[done].Put? && table.pImpl.entryCount == table.pImpl.maxLoad
  {
    var state := new HashTableState.New(hashFn, equalsFn, alloc, size, maxLoad);
    table := new HashTable(state);
    done, ts, ops := CarryOutAll(table, requests);
  }

  // ----- Findability -----

  /** A walk from an entry's home that stops where the displacement test would stop it. */
  ghost function Walk(s: seq<Entry>, e: Entry, t: nat): Option<nat>
    requires t <= |s|
    decreases |s| - t
  {
    if t == |s| then None
    else
      var x := SlotAt(e.hash, t, |s|);
      if Stops(Homes(s), x, t) then None
      else if s[x] == e then Some(x)
      else Walk(s, e, t + 1)
  }

  lemma {:induction false} WalkMeets(s: seq<Entry>, e: Entry, j: nat, t: nat)
    requires Layout(Homes(s)) && j < |s| && s[j] == e && e.hash != 0
    requires t <= Shift(Homes(s), j)
    ensures Walk(s, e, t).Some?
    decreases |s| - t
  {
    var hs := Homes(s);
    SlotAtIsPlus(e.hash, t, |s|);
    if t < Shift(hs, j) {
      LayoutIffReachable(hs);
      assert Reachable(hs, j);
      assert !Stops(hs, Plus(hs[j].home, t, |s|), t);
      WalkMeets(s, e, j, t + 1);
    }
  }

  lemma {:induction false} WalkFinds(s: seq<Entry>, e: Entry, t: nat)
    requires t <= |s|
    ensures var w := Walk(s, e, t); w.Some? ==> w.value < |s| && s[w.value] == e && e.hash != 0
    decreases |s| - t
  {
    if t < |s| {
      WalkFinds(s, e, t + 1);
    }
  }

  /** Under the layout invariant the walk finds exactly the live entries. */
  lemma {:induction false} EveryEntryFound(s: seq<Entry>, e: Entry)
    requires Layout(Homes(s))
    ensures Walk(s, e, 0).Some? <==> e in Live(s)
  {
    LiveCount(s, e);
    WalkFinds(s, e, 0);
    if e in Live(s) {
      var j :| 0 <= j < |s| && s[j] == e;
      WalkMeets(s, e, j, 0);
    }
  }

  /** After any run, the walk finds exactly what the table held at first and what was inserted. */
  lemma {:induction false} RunFindsEverything(ts: seq<Table>, ops: seq<Op>, e: Entry)
    requires Run(ts, ops) && Sound(ts[0])
    ensures Walk(ts[|ops|].slots, e, 0).Some? <==> e in Live(ts[0].slots) || e in Given(ops)
  {
    RunKeepsSound(ts, ops);
    EveryEntryFound(ts[|ops|].slots, e);
  }

  // ----- Order of insertion -----

  function MapHomes(a: seq<Entry>, n: nat): seq<Home>
    requires n > 0
  {
    seq(|a|, i requires 0 <= i < |a| => HomeOf(a[i], n))
  }

  lemma {:induction false} MapHomesWithout(b: seq<Entry>, k: nat, n: nat, rest: seq<Entry>)
    requires n > 0 && k < |b| && rest == b[..k] + b[k + 1..]
    ensures multiset(rest) == multiset(b) - multiset{b[k]}
    ensures multiset(MapHomes(b, n)) == multiset(MapHomes(rest, n)) + multiset{HomeOf(b[k], n)}
  {
    MultisetWithout(b, k);
    var l, h, r := MapHomes(b[..k], n), HomeOf(b[k], n), MapHomes(b[k + 1..], n);
    assert MapHomes(b, n) == l + [h] + r;
    assert MapHomes(rest, n) == l + r;
  }

  lemma {:induction false} MapHomesOfMultiset(a: seq<Entry>, b: seq<Entry>, n: nat)
    requires n > 0 && multiset(a) == multiset(b)
    ensures multiset(MapHomes(a, n)) == multiset(MapHomes(b, n))
    decreases |a|
  {
    if a == [] {
      assert |multiset(b)| == 0;
    } else {
      var k := FindInMultiset(a, b);
      var a', b' := a[..0] + a[1..], b[..k] + b[k + 1..];
      MapHomesWithout(a, 0, n, a');
      MapHomesWithout(b, k, n, b');
      MapHomesOfMultiset(a', b', n);
    }
  }

  /** Empty slots with their leftover key and value wiped. */
  function Clean(s: seq<Entry>): seq<Entry> {
    seq(|s|, i requires 0 <= i < |s| => if s[i].hash == 0 then EMPTY else s[i])
  }

  lemma {:induction false} CleanCount(s: seq<Entry>, e: Entry)
    ensures multiset(Clean(s))[e] == if e == EMPTY then |s| - |Live(s)| else Live(s)[e]
  {
    if s != [] {
      var n := |s| - 1;
      CleanCount(s[..n], e);
      CleanLast(s, e);
    }
  }

  lemma {:induction false} CleanLast(s: seq<Entry>, e: Entry)
    requires s != []
    ensures var n := |s| - 1;
            multiset(Clean(s))[e] ==
            multiset(Clean(s[..n]))[e] + (if (if s[n].hash == 0 then EMPTY else s[n]) == e then 1 else 0)
  {
    var n := |s| - 1;
    assert Clean(s) == Clean(s[..n]) + [if s[n].hash == 0 then EMPTY else s[n]];
  }

  lemma {:induction false} CleanOfLive(s: seq<Entry>, s': seq<Entry>)
    requires |s| == |s'| && Live(s) == Live(s')
    ensures multiset(Clean(s)) == multiset(Clean(s'))
  {
    forall e: Entry
      ensures multiset(Clean(s))[e] == multiset(Clean(s'))[e]
    {
      CleanCount(s, e);
      CleanCount(s', e);
    }
  }

  /** Two tables of one size with the same live entries hold the same multiset of homes. */
  lemma {:induction false} SameContentsSameHomes(s: seq<Entry>, s': seq<Entry>)
    requires |s| == |s'| > 0 && Live(s) == Live(s')
    ensures multiset(Homes(s)) == multiset(Homes(s'))
  {
    CleanedHomes(s);
    CleanedHomes(s');
    CleanOfLive(s, s');
    MapHomesOfMultiset(Clean(s), Clean(s'), |s|);
  }

  lemma {:induction false} CleanedHomes(s: seq<Entry>)
    requires |s| > 0
    ensures MapHomes(Clean(s), |s|) == Homes(s)
  {
  }

  /** s' is s after emplacing a, then b, each from its home. */
  ghost predicate EmplacedBoth(s: seq<Entry>, a: Entry, b: Entry, s': seq<Entry>) {
    exists mid :: EmplacedFromHome(s, a, mid) && EmplacedFromHome(mid, b, s')
  }

  lemma {:induction false} BothEmplaced(s: seq<Entry>, a: Entry, b: Entry, s': seq<Entry>)
    requires 1 < |s| <= HALF_MAX + 1 && Layout(Homes(s)) && EmplacedBoth(s, a, b, s')
    ensures |s'| == |s| && Layout(Homes(s')) && HasCut(Homes(s'))
    ensures Live(s') == Live(s) + multiset{a} + multiset{b}
  {
    var mid :| EmplacedFromHome(s, a, mid) && EmplacedFromHome(mid, b, s');
    EmplaceFromHome(s, a, mid);
    EmplaceFromHome(mid, b, s');
  }

  lemma {:induction false} SumCommutes<T>(m: multiset<T>, a: multiset<T>, b: multiset<T>)
    ensures m + a + b == m + b + a
  {
  }

  /** Emplacing two entries in either order gives the same homes in the same slots, even when
      they fill the table. */
  lemma {:induction false} EmplaceCommutes(s: seq<Entry>, a: Entry, b: Entry, s1: seq<Entry>, s2: seq<Entry>)
    requires 1 < |s| <= HALF_MAX + 1 && Layout(Homes(s))
    requires EmplacedBoth(s, a, b, s1) && EmplacedBoth(s, b, a, s2)
    ensures Homes(s1) == Homes(s2)
  {
    BothEmplaced(s, a, b, s1);
    BothEmplaced(s, b, a, s2);
    SumCommutes(Live(s), multiset{a}, multiset{b});
    SameContentsSameHomes(s1, s2);
    LayoutIsUnique(Homes(s1), Homes(s2));
  }

  /** However two tables came about, if they have one size, satisfy the layout invariant with a
      slot to spare, and hold each home equally often, they have the same home in every slot. */
  lemma {:induction false} LayoutDependsOnHomesOnly(s: seq<Entry>, s': seq<Entry>)
    requires |s| == |s'| && HasEmptySlot(s) && HasEmptySlot(s')
    requires Layout(Homes(s)) && Layout(Homes(s'))
    requires multiset(Homes(s)) == multiset(Homes(s'))
    ensures Homes(s) == Homes(s')
  {
    HomesHaveVacancy(s);
    HomesHaveVacancy(s');
    VacancyIsCut(Homes(s));
    VacancyIsCut(Homes(s'));
    LayoutIsUnique(Homes(s), Homes(s'));
  }

  /** A resize forgets the order of insertion: tables of one size with the same live entries,
      laid out in any way, resize to the same layout. */
  lemma {:induction false} ResizeForgetsOrder(t: Table, t': Table, u: Table, u': Table)
    requires t.Valid() && u.Valid() && t.size == u.size && Live(t.slots) == Live(u.slots)
    requires Expanded(t, t') && Expanded(u, u')
    ensures Homes(t'.slots) == Homes(u'.slots)
  {
    Pigeonhole(t'.slots);
    Pigeonhole(u'.slots);
    SameContentsSameHomes(t'.slots, u'.slots);
    LayoutDependsOnHomesOnly(t'.slots, u'.slots);
  }

  /** Two runs that inserted the same entries, in any order and with resizes anywhere, end in
      the same layout whenever they end in tables of the same size. */
  lemma {:induction false} RunsConverge(ts: seq<Table>, ops: seq<Op>, ts': seq<Table>, ops': seq<Op>)
    requires Run(ts, ops) && Sound(ts[0]) && Run(ts', ops') && Sound(ts'[0])
    requires Live(ts[0].slots) + Given(ops) == Live(ts'[0].slots) + Given(ops')
    requires ts[|ops|].size == ts'[|ops'|].size
    ensures Homes(ts[|ops|].slots) == Homes(ts'[|ops'|].slots)
  {
    RunKeepsSound(ts, ops);
    RunKeepsSound(ts', ops');
    SameContentsSameHomes(ts[|ops|].slots, ts'[|ops'|].slots);
    LayoutDependsOnHomesOnly(ts[|ops|].slots, ts'[|ops'|].slots);
  }

  /** So two callers whose requests put the same entries in any order, with resizes anywhere, end
      in the same layout whenever their tables end with the same size. */
  lemma {:induction false} RequestsConverge(ts: seq<Table>, ops: seq<Op>, rs: seq<Request>, t: Table, t': Table,
                                            us: seq<Table>, ops': seq<Op>, rs': seq<Request>, u: Table, u': Table)
    requires RunOf(ts, ops, rs, |rs|, t, t') && Sound(t) && RunOf(us, ops', rs', |rs'|, u, u') && Sound(u)
    requires Live(t.slots) + AllAdded(rs) == Live(u.slots) + AllAdded(rs') && t'.size == u'.size
    ensures Homes(t'.slots) == Homes(u'.slots)
  {
    assert rs[..|rs|] == rs && rs'[..|rs'|] == rs';
    RunOfIsSound(ts, ops, rs, |rs|, t, t');
    RunOfIsSound(us, ops', rs', |rs'|, u, u');
    RunsConverge(ts, ops, us, ops');
  }
}
