/** The slot array of the hash table: entries, their homes, and the relation that says what one
    call of s_emplace_item does to the slots. */
module Slots {
  import opened Words
  import opened Cyclic
  import opened RobinHood
  import opened Canonical

  /** The contents of a slot, which is vacant when the hash is 0; key and value are addresses. */
  datatype Entry = Entry(hash: Word, key: Word, value: Word)

  const EMPTY := Entry(0, 0, 0)

  /** The slot p places after the home of a hash code. */
  function SlotAt(hash: Word, p: nat, n: nat): (r: nat)
    requires n > 0
    ensures r < n
  {
    (hash + p) % n
  }

  function HomeOf(e: Entry, n: nat): (h: Home)
    requires n > 0
    ensures h.At? ==> h.home < n
  {
    if e.hash == 0 then Vacant else At(SlotAt(e.hash, 0, n))
  }

  function Homes(s: seq<Entry>): (hs: HomeMap)
    ensures |hs| == |s|
    ensures forall i :: 0 <= i < |s| ==> hs[i] == HomeOf(s[i], |s|)
  {
    seq(|s|, i requires 0 <= i < |s| => HomeOf(s[i], |s|))
  }

  ghost predicate HasEmptySlot(s: seq<Entry>) {
    exists i :: 0 <= i < |s| && s[i].hash == 0
  }

  // ----- The code's masked arithmetic is cyclic arithmetic -----

  lemma {:induction false} AddRemainder(h: int, p: nat, n: nat)
    requires p < n
    ensures (h + p) % n == (if h % n + p < n then h % n + p else h % n + p - n)
  {
    var q, b := h / n, h % n;
    if b + p < n {
      DivisionIsUnique(h + p, n, q, b + p);
    } else {
      assert n * (q + 1) == n * q + n;
      DivisionIsUnique(h + p, n, q + 1, b + p - n);
    }
  }

  lemma {:induction false} SlotAtIsPlus(hash: Word, p: nat, n: nat)
    requires p < n
    ensures SlotAt(hash, p, n) == Plus(SlotAt(hash, 0, n), p, n)
  {
    AddRemainder(hash, p, n);
  }

  lemma {:induction false} NextSlotAt(hash: Word, p: nat, n: nat)
    requires n > 1
    ensures SlotAt(hash, p + 1, n) == Next(SlotAt(hash, p, n), n)
  {
    AddRemainder(hash + p, 1, n);
  }

  /** The index computed from a hash code and a probe index. */
  lemma {:induction false} IndexIsSlotAt(hash: Word, p: Word, n: Word)
    requires IsPowerOfTwo(n)
    ensures n > 0 && BitAnd(Wrap(hash + p), n - 1) == SlotAt(hash, p, n)
  {
    var k := PowerInWord(n);
    MaskedIndex(hash + p, n);
  }

  /** A wrapped probe index still leads to the same slot. */
  lemma {:induction false} WrappedProbe(hash: Word, p: nat, n: Word)
    requires IsPowerOfTwo(n)
    ensures n > 0 && SlotAt(hash, Wrap(p), n) == SlotAt(hash, p, n)
  {
    var k := PowerInWord(n);
    WrapThenRemainder(p, n);
    SumOfRemainders(hash, p, n);
    SumOfRemainders(hash, Wrap(p), n);
  }

  lemma {:induction false} SumOfRemainders(a: int, b: int, n: nat)
    requires n > 0
    ensures (a + b) % n == (a + b % n) % n
  {
    var q, r := (a + b % n) / n, (a + b % n) % n;
    assert a + b == n * (q + b / n) + r by {
      assert n * (q + b / n) == n * q + n * (b / n);
    }
    DivisionIsUnique(a + b, n, q + b / n, r);
  }

  /** The probe index computed for the occupant of slot i is its distance from home. */
  lemma {:induction false} VictimProbeIsShift(hash: Word, i: nat, n: Word)
    requires IsPowerOfTwo(n) && i < n
    ensures BitAnd(Wrap(i - hash), n - 1) == Dist(SlotAt(hash, 0, n), i, n)
    ensures SlotAt(hash, Dist(SlotAt(hash, 0, n), i, n), n) == i
  {
    MaskedIndex(i - hash, n);
    var d := Dist(SlotAt(hash, 0, n), i, n);
    SlotAtIsPlus(hash, d, n);
    DifferenceRemainder(hash, d, i, n);
  }

  lemma {:induction false} DifferenceRemainder(h: int, d: nat, i: nat, n: nat)
    requires d < n && (h + d) % n == i
    ensures (i - h) % n == d
  {
    var q := (h + d) / n;
    assert n * (-q) == -(n * q);
    DivisionIsUnique(i - h, n, -q, d);
  }

  // ----- Live entries -----

  /** The live entries of a slot array, with multiplicity. */
  ghost function Live(s: seq<Entry>): (m: multiset<Entry>)
    ensures |m| <= |s|
  {
    if s == [] then multiset{}
    else Live(s[..|s| - 1]) + (if s[|s| - 1].hash != 0 then multiset{s[|s| - 1]} else multiset{})
  }

  lemma {:induction false} LiveExtend(s: seq<Entry>, i: nat)
    requires i < |s|
    ensures Live(s[..i + 1]) == Live(s[..i]) + (if s[i].hash != 0 then multiset{s[i]} else multiset{})
  {
    assert s[..i + 1][..i] == s[..i];
  }

  lemma {:induction false} LiveCount(s: seq<Entry>, e: Entry)
    ensures Live(s)[e] == if e.hash != 0 then multiset(s)[e] else 0
  {
    if s != [] {
      var n := |s| - 1;
      LiveCount(s[..n], e);
      assert s == s[..n] + [s[n]];
    }
  }

  /** Fewer live entries than slots leave an empty slot. */
  lemma {:induction false} Pigeonhole(s: seq<Entry>)
    ensures |Live(s)| < |s| <==> HasEmptySlot(s)
  {
    if s != [] {
      Pigeonhole(s[..|s| - 1]);
      LastSlot(s);
    }
  }

  lemma {:induction false} LastSlot(s: seq<Entry>)
    requires s != []
    ensures HasEmptySlot(s) <==> HasEmptySlot(s[..|s| - 1]) || s[|s| - 1].hash == 0
  {
    var n := |s| - 1;
    if i :| 0 <= i < n && s[..n][i].hash == 0 {
      assert s[i].hash == 0;
    }
    if i :| 0 <= i < |s| && s[i].hash == 0 {
      assert i == n || s[..n][i].hash == 0;
    }
  }

  // ----- What one emplace does -----

  /** f is the first offset from start where the displacement test fires, with the probe index
      counted up from p and wrapping as the code's does. */
  ghost predicate FiresFirst(hs: HomeMap, start: nat, p: Word, f: nat)
    requires start < |hs|
  {
    && f < |hs|
    && Stops(hs, Plus(start, f, |hs|), Wrap(p + f))
    && forall t :: 0 <= t < f ==> !Stops(hs, Plus(start, t, |hs|), Wrap(p + t))
  }

  /** Home h goes in f places after start, where the test first fires, and m places after start
      is the first vacancy; under the layout invariant hs' is the insert and shift of hs. */
  ghost predicate EmplacedHome(hs: HomeMap, start: nat, p: Word, f: nat, m: nat, h: nat, hs': HomeMap)
    requires start < |hs| && h < |hs|
  {
    && FirstVacancy(hs, start, m) && f <= m && FiresFirst(hs, start, p, f)
    && (Layout(hs) && MayStand(hs, start, p) ==> hs' == InsertAndShift(hs, start, f, m, h))
  }

  /** Going back from t places after start, but not past f, the first slot of those that share
      one home. */
  function GroupStart(hs: HomeMap, start: nat, f: nat, t: nat): (g: nat)
    requires start < |hs| && f <= t < |hs|
    ensures f <= g <= t
  {
    if t == f || hs[Plus(start, t, |hs|)] != hs[Plus(start, t - 1, |hs|)] then t
    else GroupStart(hs, start, f, t - 1)
  }

  /** What an insertion of e that starts f places after start leaves in the slot t places after it:
      an occupant with the home of the one before it stays, and otherwise the slot takes the first
      occupant of the group of equal homes before it. */
  ghost predicate GroupMoved(s: seq<Entry>, e: Entry, start: nat, f: nat, s': seq<Entry>, t: nat)
    requires start < |s| == |s'| && f <= t < |s|
  {
    var n, hs := |s|, Homes(s);
    s'[Plus(start, t, n)] ==
      if t == f then e
      else if hs[Plus(start, t, n)] == hs[Plus(start, t - 1, n)] then s[Plus(start, t, n)]
      else s[Plus(start, GroupStart(hs, start, f, t - 1), n)]
  }

  /** s' is s after emplacing entry e from probe index p, which put e in slot r and went
      around the loop steps times: to the first empty slot. Only the shift of homes needs the
      layout invariant. */
  ghost predicate Emplaced(s: seq<Entry>, e: Entry, p: Word, s': seq<Entry>, r: nat, steps: nat) {
    && e.hash != 0 && r < |s| == |s'| && 1 <= steps <= |s|
    && var start := SlotAt(e.hash, p, |s|);
       var f, m := Dist(start, r, |s|), steps - 1;
    && EmplacedHome(Homes(s), start, p, f, m, SlotAt(e.hash, 0, |s|), Homes(s'))
    && s'[r] == e
    && (Layout(Homes(s)) && MayStand(Homes(s), start, p) ==>
          forall t :: f <= t <= m ==> GroupMoved(s, e, start, f, s', t))
    // slots outside the range from r to the first empty slot are untouched
    && (forall x :: 0 <= x < |s| && !(f <= Dist(start, x, |s|) <= m) ==> s'[x] == s[x])
    // e takes the place of the empty slot in the multiset of all slots
    && multiset(s') + multiset{s[Plus(start, m, |s|)]} == multiset(s) + multiset{e}
  }

  /** Emplacing from probe index 0, as a resize and a new entry do. */
  ghost predicate EmplacedFromHome(s: seq<Entry>, e: Entry, s': seq<Entry>) {
    exists r: nat, steps: nat :: Emplaced(s, e, 0, s', r, steps)
  }

  /** The live entries grow by exactly the emplaced one, and one empty slot is filled. */
  lemma {:induction false} EmplaceConserves(s: seq<Entry>, e: Entry, p: Word, s': seq<Entry>, r: nat, steps: nat)
    requires Emplaced(s, e, p, s', r, steps)
    ensures Live(s') == Live(s) + multiset{e}
  {
    var z := s[Plus(SlotAt(e.hash, p, |s|), steps - 1, |s|)];
    forall x: Entry
      ensures Live(s')[x] == (Live(s) + multiset{e})[x]
    {
      LiveCount(s, x);
      LiveCount(s', x);
      assert (multiset(s') + multiset{z})[x] == (multiset(s) + multiset{e})[x];
    }
  }

  lemma {:induction false} HomesHaveVacancy(s: seq<Entry>)
    ensures HasEmptySlot(s) <==> HasVacancy(Homes(s))
  {
    if HasEmptySlot(s) {
      var i :| 0 <= i < |s| && s[i].hash == 0;
      assert Homes(s)[i].Vacant?;
    }
  }

  /** Below the wrap the code's displacement test is the walker's. */
  lemma {:induction false} FiresFirstIsFirstStop(hs: HomeMap, start: nat, p: Word, f: nat)
    requires start < |hs| <= HALF_MAX + 1 && p < |hs|
    requires FiresFirst(hs, start, p, f)
    ensures FirstStop(hs, start, p, f)
  {
    WrapSmall(p + f);
    forall t | 0 <= t < f
      ensures !Stops(hs, Plus(start, t, |hs|), p + t)
    {
      WrapSmall(p + t);
    }
  }

  lemma {:induction false} EmplacedHomeInserts(hs: HomeMap, start: nat, p: Word, f: nat, m: nat, h: nat, hs': HomeMap)
    requires start < |hs| <= HALF_MAX + 1 && h < |hs| && EmplacedHome(hs, start, p, f, m, h, hs')
    requires Layout(hs) && MayStand(hs, start, p) && (p < |hs| ==> Plus(h, p, |hs|) == start)
    ensures Inserting(hs, start, p, f, m, h)
  {
    assert hs[Plus(start, m, |hs|)].Vacant?;
    WalkerBound(hs, start, p, 0);
    FiresFirstIsFirstStop(hs, start, p, f);
  }

  lemma {:induction false} EmplacedHomeKeepsLayout(hs: HomeMap, start: nat, p: Word, f: nat, m: nat, h: nat, hs': HomeMap)
    requires start < |hs| <= HALF_MAX + 1 && 1 < |hs| && h < |hs| && EmplacedHome(hs, start, p, f, m, h, hs')
    requires Layout(hs) && MayStand(hs, start, p) && (p < |hs| ==> Plus(h, p, |hs|) == start)
    ensures Layout(hs') && HasCut(hs')
  {
    EmplacedHomeInserts(hs, start, p, f, m, h, hs');
    InsertKeepsLayout(hs, start, p, f, m, h);
    InsertLeavesCut(hs, start, p, f, m, h);
  }

  /** Emplacing keeps the layout invariant and leaves a cut. */
  lemma {:induction false} EmplaceKeepsLayout(s: seq<Entry>, e: Entry, p: Word, s': seq<Entry>, r: nat, steps: nat)
    requires Emplaced(s, e, p, s', r, steps) && 1 < |s| <= HALF_MAX + 1
    requires Layout(Homes(s)) && MayStand(Homes(s), SlotAt(e.hash, p, |s|), p)
    ensures Layout(Homes(s')) && HasCut(Homes(s'))
  {
    var start, h := SlotAt(e.hash, p, |s|), SlotAt(e.hash, 0, |s|);
    if p < |s| {
      SlotAtIsPlus(e.hash, p, |s|);
    }
    EmplacedHomeKeepsLayout(Homes(s), start, p, Dist(start, r, |s|), steps - 1, h, Homes(s'));
  }

  /** Emplacing from home keeps the layout invariant, leaves a cut, and adds one live entry. */
  lemma {:induction false} EmplaceFromHome(s: seq<Entry>, e: Entry, s': seq<Entry>)
    requires EmplacedFromHome(s, e, s') && 1 < |s| <= HALF_MAX + 1 && Layout(Homes(s))
    ensures |s'| == |s| && Layout(Homes(s')) && HasCut(Homes(s'))
    ensures Live(s') == Live(s) + multiset{e}
  {
    var r: nat, steps: nat :| Emplaced(s, e, 0, s', r, steps);
    EmplaceConserves(s, e, 0, s', r, steps);
    EmplaceKeepsLayout(s, e, 0, s', r, steps);
  }

  // ----- An emplace has one outcome -----

  lemma {:induction false} EmplacedSlot(s: seq<Entry>, e: Entry, p: Word, s': seq<Entry>, r: nat, steps: nat, x: nat)
    requires Emplaced(s, e, p, s', r, steps) && x < |s|
    requires Layout(Homes(s)) && MayStand(Homes(s), SlotAt(e.hash, p, |s|), p)
    ensures var start := SlotAt(e.hash, p, |s|);
            var f, t := Dist(start, r, |s|), Dist(start, x, |s|);
            if f <= t < steps then GroupMoved(s, e, start, f, s', t) else s'[x] == s[x]
  {
  }

  lemma {:induction false} EmplacedPlace(s: seq<Entry>, e: Entry, p: Word, a: seq<Entry>, r: nat, steps: nat,
                                         b: seq<Entry>, r': nat, steps': nat)
    requires Emplaced(s, e, p, a, r, steps) && Emplaced(s, e, p, b, r', steps')
    ensures r == r' && steps == steps'
  {
    var start, hs := SlotAt(e.hash, p, |s|), Homes(s);
    var f, f' := Dist(start, r, |s|), Dist(start, r', |s|);
    SameFirstStop(hs, start, p, f, f');
    SameFirstVacancy(hs, start, steps - 1, steps' - 1);
    assert Plus(start, f, |s|) == r && Plus(start, f', |s|) == r';
  }

  lemma {:induction false} SameFirstStop(hs: HomeMap, start: nat, p: Word, f: nat, f': nat)
    requires start < |hs| && FiresFirst(hs, start, p, f) && FiresFirst(hs, start, p, f')
    ensures f == f'
  {
  }

  lemma {:induction false} SameFirstVacancy(hs: HomeMap, start: nat, m: nat, m': nat)
    requires start < |hs| && FirstVacancy(hs, start, m) && FirstVacancy(hs, start, m')
    ensures m == m'
  {
  }

  /** Into a layout, the slots, the entry's place and the number of turns are all determined. */
  lemma {:induction false} EmplaceIsDetermined(s: seq<Entry>, e: Entry, p: Word, a: seq<Entry>, r: nat, steps: nat,
                                               b: seq<Entry>, r': nat, steps': nat)
    requires Emplaced(s, e, p, a, r, steps) && Emplaced(s, e, p, b, r', steps')
    requires Layout(Homes(s)) && MayStand(Homes(s), SlotAt(e.hash, p, |s|), p)
    ensures a == b && r == r' && steps == steps'
  {
    EmplacedPlace(s, e, p, a, r, steps, b, r', steps');
    forall x | 0 <= x < |s|
      ensures a[x] == b[x]
    {
      EmplacedSlot(s, e, p, a, r, steps, x);
      EmplacedSlot(s, e, p, b, r, steps, x);
    }
  }
}
