/** The loop of s_emplace_item: its invariant, the steps that keep it (skip and swap), the carried
    entry's probe index, and the loop as a step system that ends exactly if a slot is empty. */
module Emplacing {
  import opened Wrappers
  import opened Words
  import opened Cyclic
  import opened RobinHood
  import opened Slots

  // ----- The invariant -----

  /** After t iterations on slots that were s0, the loop carries entry cur at probe index p, the
      slots are s, and rval is where the entry e0 itself was put, if it was. */
  ghost predicate Underway(s0: seq<Entry>, e0: Entry, p0: Word,
                           s: seq<Entry>, cur: Entry, p: Word, rval: Option<nat>, t: nat)
  {
    && e0.hash != 0 && 1 < |s0| == |s| <= HALF_MAX + 1 && IsPowerOfTwo(|s0|) && t <= |s0|
    && var start := SlotAt(e0.hash, p0, |s0|);
    && Carried(s0, start, cur, p, t)
    && Ahead(s0, start, s, t)
    && multiset(s) + multiset{cur} == multiset(s0) + multiset{e0}
    && (rval.None? ==> cur == e0 && s == s0 && Searching(Homes(s0), start, p0, p, t))
    && (rval.Some? ==> Put(s0, e0, start, p0, s, cur, p, rval.value, t))
  }

  /** No slot before the t-th from start was empty, except the last one when the loop is done;
      the carried entry belongs at the t-th slot. */
  ghost predicate Carried(s0: seq<Entry>, start: nat, cur: Entry, p: Word, t: nat)
    requires start < |s0| && t <= |s0|
  {
    && (forall u :: 0 <= u < t - 1 ==> s0[Plus(start, u, |s0|)].hash != 0)
    && (t > 0 ==> (s0[Plus(start, t - 1, |s0|)].hash == 0 <==> cur.hash == 0))
    && (cur.hash != 0 ==> t < |s0| && SlotAt(cur.hash, p, |s0|) == Plus(start, t, |s0|))
    && (cur.hash == 0 ==> t > 0 && cur == s0[Plus(start, t - 1, |s0|)])
  }

  /** The slots from the t-th on have not been touched. */
  ghost predicate Ahead(s0: seq<Entry>, start: nat, s: seq<Entry>, t: nat)
    requires start < |s0| == |s|
  {
    forall x :: 0 <= x < |s0| && Dist(start, x, |s0|) >= t ==> s[x] == s0[x]
  }

  /** The test has not fired yet. */
  ghost predicate Searching(hs: HomeMap, start: nat, p0: Word, p: Word, t: nat)
    requires start < |hs| && t <= |hs|
  {
    && p == Wrap(p0 + t)
    && (forall u :: 0 <= u < t ==> !Stops(hs, Plus(start, u, |hs|), Wrap(p0 + u)))
  }

  /** e0 was put in slot r, where the test first fired, and nothing before r was touched; under
      the layout invariant the swaps since then are a shift. */
  ghost predicate Put(s0: seq<Entry>, e0: Entry, start: nat, p0: Word,
                      s: seq<Entry>, cur: Entry, p: Word, r: nat, t: nat)
    requires start < |s0| == |s| && t <= |s0|
  {
    && r < |s0| && Dist(start, r, |s0|) < t && s[r] == e0
    && FiresFirst(Homes(s0), start, p0, Dist(start, r, |s0|))
    && (forall x :: 0 <= x < |s0| && Dist(start, x, |s0|) < Dist(start, r, |s0|) ==> s[x] == s0[x])
    && (Layout(Homes(s0)) && MayStand(Homes(s0), start, p0) ==>
          && Shifting(s0, e0, start, s, cur, p, Dist(start, r, |s0|), t)
          && Grouping(s0, e0, start, s, cur, Dist(start, r, |s0|), t))
  }

  /** Which entries sit where: up to the slot before the t-th the groups of equal homes have moved,
      and the carried entry was the first of the last group. */
  ghost predicate Grouping(s0: seq<Entry>, e0: Entry, start: nat, s: seq<Entry>, cur: Entry, f: nat, t: nat)
    requires start < |s0| == |s| && f < t <= |s0|
  {
    && (forall u :: f <= u < t ==> GroupMoved(s0, e0, start, f, s, u))
    && (cur.hash != 0 ==> cur == s0[Plus(start, GroupStart(Homes(s0), start, f, t - 1), |s0|)])
  }

  /** So far the swaps amount to an insert and a shift up to the slot before the t-th; the
      carried entry has the home of that slot's first occupant, and p is its true distance. */
  ghost predicate Shifting(s0: seq<Entry>, e0: Entry, start: nat, s: seq<Entry>, cur: Entry, p: Word,
                           f: nat, t: nat)
    requires start < |s0| == |s| && f < t <= |s0|
  {
    var n, hs := |s0|, Homes(s0);
    && Homes(s) == InsertAndShift(hs, start, f, t - 1, SlotAt(e0.hash, 0, n))
    && (cur.hash != 0 ==>
          && var y := Plus(start, t - 1, n);
          && HomeOf(cur, n) == hs[y]
          && hs[y].At? && p == Shift(hs, y) + 1)
  }

  lemma {:induction false} UnderwayAtStart(s0: seq<Entry>, e0: Entry, p0: Word)
    requires e0.hash != 0 && 1 < |s0| <= HALF_MAX + 1 && IsPowerOfTwo(|s0|)
    ensures Underway(s0, e0, p0, s0, e0, p0, None, 0)
  {
    WrapSmall(p0);
  }

  lemma {:induction false} UnderwayFinished(s0: seq<Entry>, e0: Entry, p0: Word,
                                            s: seq<Entry>, cur: Entry, p: Word, rval: Option<nat>, t: nat)
    requires Underway(s0, e0, p0, s, cur, p, rval, t) && cur.hash == 0
    ensures rval.Some? && Emplaced(s0, e0, p0, s, rval.value, t)
  {
    var start, n := SlotAt(e0.hash, p0, |s0|), |s0|;
    assert cur == s0[Plus(start, t - 1, n)];
    assert FirstVacancy(Homes(s0), start, t - 1);
  }

  // ----- Where the carried entry goes next -----

  lemma {:induction false} SkipMovesOn(hash: Word, p: Word, n: nat)
    requires 1 < n <= HALF_MAX + 1 && IsPowerOfTwo(n)
    ensures SlotAt(hash, Wrap(p + 1), n) == Next(SlotAt(hash, p, n), n)
  {
    WrappedProbe(hash, p + 1, n);
    NextSlotAt(hash, p, n);
  }

  lemma {:induction false} SwapMovesOn(hash: Word, i: nat, n: nat)
    requires 1 < n <= HALF_MAX + 1 && IsPowerOfTwo(n) && i < n
    ensures SlotAt(hash, Dist(SlotAt(hash, 0, n), i, n) + 1, n) == Next(i, n)
  {
    VictimProbeIsShift(hash, i, n);
    NextSlotAt(hash, Dist(SlotAt(hash, 0, n), i, n), n);
  }

  /** Some slot is empty, so an occupied stretch from start does not go all the way round. */
  lemma {:induction false} StillRoom(s0: seq<Entry>, start: nat, t: nat)
    requires HasEmptySlot(s0) && start < |s0| && t <= |s0|
    requires forall u :: 0 <= u < t ==> s0[Plus(start, u, |s0|)].hash != 0
    ensures t < |s0|
  {
    var z :| 0 <= z < |s0| && s0[z].hash == 0;
    assert Plus(start, Dist(start, z, |s0|), |s0|) == z;
  }

  /** The carry moves to the next slot, whichever entry it is now. */
  lemma {:induction false} CarryOn(s0: seq<Entry>, start: nat, cur: Entry, p: Word, t: nat, cur': Entry, p': Word)
    requires HasEmptySlot(s0) && start < |s0| && t < |s0|
    requires cur.hash != 0 && Carried(s0, start, cur, p, t)
    requires var x := s0[Plus(start, t, |s0|)]; cur' == x || (cur' == cur && x.hash != 0)
    requires SlotAt(cur'.hash, p', |s0|) == Next(Plus(start, t, |s0|), |s0|)
    ensures Carried(s0, start, cur', p', t + 1)
  {
    var n := |s0|;
    forall u | 0 <= u < t
      ensures s0[Plus(start, u, n)].hash != 0
    {
      if u == t - 1 {
        assert s0[Plus(start, t - 1, n)].hash != 0;
      }
    }
    if s0[Plus(start, t, n)].hash != 0 {
      StillRoom(s0, start, t + 1);
      assert Plus(start, t + 1, n) == Next(Plus(start, t, n), n);
    }
  }

  // ----- Swap -----

  lemma {:induction false} SlotAhead(s0: seq<Entry>, start: nat, s: seq<Entry>, t: nat)
    requires start < |s0| == |s| && t < |s0| && Ahead(s0, start, s, t)
    ensures s[Plus(start, t, |s0|)] == s0[Plus(start, t, |s0|)]
  {
    PlusPrev(start, t, |s0|);
  }

  lemma {:induction false} SwapAhead(s0: seq<Entry>, start: nat, s: seq<Entry>, cur: Entry, t: nat,
                                     s': seq<Entry>, cur': Entry)
    requires start < |s0| == |s| && t < |s0| && Ahead(s0, start, s, t)
    requires var i := Plus(start, t, |s0|); s' == s[i := cur] && cur' == s[i]
    ensures cur' == s0[Plus(start, t, |s0|)] && Ahead(s0, start, s', t + 1)
    ensures multiset(s') + multiset{cur'} == multiset(s) + multiset{cur}
  {
    PlusPrev(start, t, |s0|);
  }

  lemma {:induction false} HomesUpdate(s: seq<Entry>, i: nat, e: Entry)
    requires i < |s|
    ensures Homes(s[i := e]) == Homes(s)[i := HomeOf(e, |s|)]
  {
  }

  /** The first swap puts e0 itself. */
  lemma {:induction false} SwapFirst(s0: seq<Entry>, e0: Entry, start: nat, p0: Word, p: Word, t: nat, p': Word)
    requires start < |s0| && t < |s0| && e0.hash != 0 && Searching(Homes(s0), start, p0, p, t)
    requires Stops(Homes(s0), Plus(start, t, |s0|), p)
    requires var i := Plus(start, t, |s0|); p' == Dist(SlotAt(s0[i].hash, 0, |s0|), i, |s0|) + 1
    ensures var i := Plus(start, t, |s0|);
            Put(s0, e0, start, p0, s0[i := e0], s0[i], p', i, t + 1)
  {
    var i := Plus(start, t, |s0|);
    PlusPrev(start, t, |s0|);
    HomesUpdate(s0, i, e0);
    assert Homes(s0[i := e0]) == InsertAndShift(Homes(s0), start, t, t, SlotAt(e0.hash, 0, |s0|));
    assert GroupMoved(s0, e0, start, t, s0[i := e0], t);
  }

  lemma {:induction false} ShiftOneMore(hs: HomeMap, start: nat, f: nat, t: nat, h: nat)
    requires start < |hs| && f < t < |hs| && h < |hs|
    ensures InsertAndShift(hs, start, f, t, h) ==
            InsertAndShift(hs, start, f, t - 1, h)[Plus(start, t, |hs|) := hs[Plus(start, t - 1, |hs|)]]
  {
    PlusPrev(start, t, |hs|);
  }

  /** A later swap moves the carried home one place on. */
  lemma {:induction false} SwapShifts(s0: seq<Entry>, e0: Entry, start: nat, s: seq<Entry>, cur: Entry, p: Word,
                                      f: nat, t: nat, p': Word)
    requires start < |s0| == |s| && f < t < |s0| && cur.hash != 0
    requires Shifting(s0, e0, start, s, cur, p, f, t)
    requires var i := Plus(start, t, |s0|); p' == Dist(SlotAt(s0[i].hash, 0, |s0|), i, |s0|) + 1
    ensures var i := Plus(start, t, |s0|); Shifting(s0, e0, start, s[i := cur], s0[i], p', f, t + 1)
  {
    HomesUpdate(s, Plus(start, t, |s0|), cur);
    ShiftOneMore(Homes(s0), start, f, t, SlotAt(e0.hash, 0, |s0|));
  }

  /** An occupant that a shifting entry displaces has another home than the slot before it. */
  lemma {:induction false} NewGroup(hs: HomeMap, i: nat)
    requires Layout(hs) && HasVacancy(hs) && i < |hs|
    requires var y := Prev(i, |hs|); hs[y].At? && Stops(hs, i, Shift(hs, y) + 1)
    ensures hs[i] != hs[Prev(i, |hs|)]
  {
    ShiftBound(hs, Prev(i, |hs|));
  }

  /** A later swap puts the first of the last group and carries on the first of the next. */
  lemma {:induction false} SwapGroups(s0: seq<Entry>, e0: Entry, start: nat, s: seq<Entry>, cur: Entry, f: nat, t: nat)
    requires start < |s0| == |s| && f < t < |s0| && cur.hash != 0
    requires Grouping(s0, e0, start, s, cur, f, t)
    requires Homes(s0)[Plus(start, t, |s0|)] != Homes(s0)[Plus(start, t - 1, |s0|)]
    ensures var i := Plus(start, t, |s0|); Grouping(s0, e0, start, s[i := cur], s0[i], f, t + 1)
  {
    var s' := s[Plus(start, t, |s0|) := cur];
    forall u | f <= u < t + 1
      ensures GroupMoved(s0, e0, start, f, s', u)
    {
      if u < t {
        assert GroupMoved(s0, e0, start, f, s, u);
        assert s'[Plus(start, u, |s0|)] == s[Plus(start, u, |s0|)];
      }
    }
  }

  /** Passing an occupant of the same home leaves it where it is. */
  lemma {:induction false} SkipGroups(s0: seq<Entry>, e0: Entry, start: nat, s: seq<Entry>, cur: Entry, f: nat, t: nat)
    requires start < |s0| == |s| && f < t < |s0|
    requires Grouping(s0, e0, start, s, cur, f, t) && s[Plus(start, t, |s0|)] == s0[Plus(start, t, |s0|)]
    requires Homes(s0)[Plus(start, t, |s0|)] == Homes(s0)[Plus(start, t - 1, |s0|)]
    ensures Grouping(s0, e0, start, s, cur, f, t + 1)
  {
    forall u | f <= u < t + 1
      ensures GroupMoved(s0, e0, start, f, s, u)
    {
      if u < t {
        assert GroupMoved(s0, e0, start, f, s, u);
      }
    }
  }

  lemma {:induction false} SwapAgain(s0: seq<Entry>, e0: Entry, start: nat, p0: Word,
                                     s: seq<Entry>, cur: Entry, p: Word, r: nat, t: nat, p': Word)
    requires start < |s0| == |s| && t < |s0| && cur.hash != 0 && Put(s0, e0, start, p0, s, cur, p, r, t)
    requires HasVacancy(Homes(s0)) && Stops(Homes(s0), Plus(start, t, |s0|), p)
    requires var i := Plus(start, t, |s0|); p' == Dist(SlotAt(s0[i].hash, 0, |s0|), i, |s0|) + 1
    ensures var i := Plus(start, t, |s0|); Put(s0, e0, start, p0, s[i := cur], s0[i], p', r, t + 1)
  {
    PlusPrev(start, t, |s0|);
    if Layout(Homes(s0)) && MayStand(Homes(s0), start, p0) {
      NewGroup(Homes(s0), Plus(start, t, |s0|));
      SwapShifts(s0, e0, start, s, cur, p, Dist(start, r, |s0|), t, p');
      SwapGroups(s0, e0, start, s, cur, Dist(start, r, |s0|), t);
    }
  }

  /** Placing the carried entry: the victim is carried on, one place past where it was. */
  lemma {:induction false} SwapStep(s0: seq<Entry>, e0: Entry, p0: Word,
                                    s: seq<Entry>, cur: Entry, p: Word, rval: Option<nat>, t: nat, i: nat, d: nat,
                                    s': seq<Entry>, cur': Entry, p': Word, rval': Option<nat>)
    requires Underway(s0, e0, p0, s, cur, p, rval, t) && HasEmptySlot(s0) && cur.hash != 0
    requires i == SlotAt(cur.hash, p, |s|) && d == Dist(SlotAt(s[i].hash, 0, |s|), i, |s|)
    requires s[i].hash == 0 || d < p
    requires s' == s[i := cur] && cur' == s[i] && p' == d + 1
    requires rval' == if rval.None? then Some(i) else rval
    ensures Underway(s0, e0, p0, s', cur', p', rval', t + 1)
  {
    var start := SlotAt(e0.hash, p0, |s0|);
    SwapAhead(s0, start, s, cur, t, s', cur');
    SwapCarries(s0, start, cur, p, t, cur', p');
    HomesHaveVacancy(s0);
    SwapPuts(s0, e0, start, p0, s, cur, p, rval, t, s', cur', p', if rval.None? then i else rval.value);
  }

  lemma {:induction false} SwapCarries(s0: seq<Entry>, start: nat, cur: Entry, p: Word, t: nat, cur': Entry, p': Word)
    requires 1 < |s0| <= HALF_MAX + 1 && IsPowerOfTwo(|s0|) && HasEmptySlot(s0)
    requires start < |s0| && t < |s0| && cur.hash != 0 && Carried(s0, start, cur, p, t)
    requires var i := Plus(start, t, |s0|); cur' == s0[i] && p' == Dist(SlotAt(s0[i].hash, 0, |s0|), i, |s0|) + 1
    ensures Carried(s0, start, cur', p', t + 1)
  {
    var i := Plus(start, t, |s0|);
    SwapMovesOn(s0[i].hash, i, |s0|);
    CarryOn(s0, start, cur, p, t, cur', p');
  }

  lemma {:induction false} SwapPuts(s0: seq<Entry>, e0: Entry, start: nat, p0: Word,
                                    s: seq<Entry>, cur: Entry, p: Word, rval: Option<nat>, t: nat,
                                    s': seq<Entry>, cur': Entry, p': Word, r': nat)
    requires start < |s0| == |s| <= HALF_MAX + 1 && t < |s0| && e0.hash != 0 && cur.hash != 0
    requires rval.None? ==> cur == e0 && s == s0 && Searching(Homes(s0), start, p0, p, t)
    requires rval.Some? ==> Put(s0, e0, start, p0, s, cur, p, rval.value, t)
    requires HasVacancy(Homes(s0)) && Stops(Homes(s0), Plus(start, t, |s0|), p)
    requires var i := Plus(start, t, |s0|);
             && s' == s[i := cur] && cur' == s0[i] && p' == Dist(SlotAt(s0[i].hash, 0, |s0|), i, |s0|) + 1
             && r' == if rval.None? then i else rval.value
    ensures Put(s0, e0, start, p0, s', cur', p', r', t + 1)
  {
    if rval.None? {
      SwapFirst(s0, e0, start, p0, p, t, p');
    } else {
      SwapAgain(s0, e0, start, p0, s, cur, p, rval.value, t, p');
    }
  }

  // ----- Skip -----

  lemma {:induction false} SearchOn(hs: HomeMap, start: nat, p0: Word, p: Word, t: nat)
    requires start < |hs| && t < |hs| && Searching(hs, start, p0, p, t)
    requires !Stops(hs, Plus(start, t, |hs|), p)
    ensures Searching(hs, start, p0, Wrap(p + 1), t + 1)
  {
    WrapAgain(p0 + t);
  }

  /** Once an entry has been displaced, the only occupants passed share the carried entry's home. */
  lemma {:induction false} SkipShifts(s0: seq<Entry>, e0: Entry, start: nat, s: seq<Entry>, cur: Entry, p: Word,
                                      f: nat, t: nat)
    requires start < |s0| == |s| <= HALF_MAX + 1 && f < t < |s0| && cur.hash != 0
    requires Layout(Homes(s0)) && Shifting(s0, e0, start, s, cur, p, f, t)
    requires !Stops(Homes(s0), Plus(start, t, |s0|), p)
    ensures Shifting(s0, e0, start, s, cur, Wrap(p + 1), f, t + 1)
    ensures Homes(s0)[Plus(start, t, |s0|)] == Homes(s0)[Plus(start, t - 1, |s0|)]
  {
    var n, hs := |s0|, Homes(s0);
    var i, y := Plus(start, t, n), Plus(start, t - 1, n);
    PlusPrev(start, t, n);
    assert BackedUp(hs, i);
    assert Shift(hs, i) == p == Shift(hs, y) + 1;
    assert hs[i] == hs[y];
    ShiftOneMore(hs, start, f, t, SlotAt(e0.hash, 0, n));
    assert InsertAndShift(hs, start, f, t - 1, SlotAt(e0.hash, 0, n))[i] == hs[i];
    WrapSmall(p + 1);
  }

  /** Passing an occupant that is at least as far from home. */
  lemma {:induction false} SkipStep(s0: seq<Entry>, e0: Entry, p0: Word,
                                    s: seq<Entry>, cur: Entry, p: Word, rval: Option<nat>, t: nat, i: nat, d: nat)
    requires Underway(s0, e0, p0, s, cur, p, rval, t) && HasEmptySlot(s0) && cur.hash != 0
    requires i == SlotAt(cur.hash, p, |s|) && d == Dist(SlotAt(s[i].hash, 0, |s|), i, |s|)
    requires s[i].hash != 0 && d >= p
    ensures Underway(s0, e0, p0, s, cur, Wrap(p + 1), rval, t + 1)
  {
    var start := SlotAt(e0.hash, p0, |s0|);
    SlotAhead(s0, start, s, t);
    SkipMovesOn(cur.hash, p, |s0|);
    CarryOn(s0, start, cur, p, t, cur, Wrap(p + 1));
    if rval.None? {
      SearchOn(Homes(s0), start, p0, p, t);
    } else if Layout(Homes(s0)) && MayStand(Homes(s0), start, p0) {
      SkipShifts(s0, e0, start, s, cur, p, Dist(start, rval.value, |s0|), t);
      SkipGroups(s0, e0, start, s, cur, Dist(start, rval.value, |s0|), t);
    }
  }

  // ----- The probe index is the carried entry's distance from home -----

  lemma {:induction false} ProbeIsDist(hash: Word, p: nat, n: nat)
    requires p < n
    ensures p == Dist(SlotAt(hash, 0, n), SlotAt(hash, p, n), n)
  {
    SlotAtIsPlus(hash, p, n);
  }

  lemma {:induction false} ProbeWhileSearching(hs: HomeMap, start: nat, p0: Word, p: Word, t: nat)
    requires Layout(hs) && HasVacancy(hs) && start < |hs| <= HALF_MAX + 1 && t < |hs|
    requires MayStand(hs, start, p0) && Searching(hs, start, p0, p, t)
    ensures p < |hs|
  {
    WalkerBound(hs, start, p0, 0);
    forall u | 0 <= u < t
      ensures !Stops(hs, Plus(start, u, |hs|), p0 + u)
    {
      WrapSmall(p0 + u);
    }
    WalkerBound(hs, start, p0, t);
    WrapSmall(p0 + t);
  }

  lemma {:induction false} ProbeWhileShifting(s0: seq<Entry>, e0: Entry, start: nat, s: seq<Entry>, cur: Entry,
                                              p: Word, f: nat, t: nat)
    requires start < |s0| == |s| && f < t <= |s0| && Shifting(s0, e0, start, s, cur, p, f, t) && cur.hash != 0
    requires Layout(Homes(s0)) && HasVacancy(Homes(s0))
    ensures p < |s0|
  {
    ShiftBound(Homes(s0), Plus(start, t - 1, |s0|));
  }

  /** Under the layout invariant and the loop's own, the carried entry's probe index is its true
      distance from home, and so is below the size. */
  lemma {:induction false} ProbeIsTrueDistance(s0: seq<Entry>, e0: Entry, p0: Word,
                                               s: seq<Entry>, cur: Entry, p: Word, rval: Option<nat>, t: nat)
    requires Underway(s0, e0, p0, s, cur, p, rval, t) && HasEmptySlot(s0) && cur.hash != 0
    requires Layout(Homes(s0)) && MayStand(Homes(s0), SlotAt(e0.hash, p0, |s0|), p0)
    ensures p < |s0| && p == Dist(SlotAt(cur.hash, 0, |s0|), SlotAt(cur.hash, p, |s0|), |s0|)
  {
    var start := SlotAt(e0.hash, p0, |s0|);
    HomesHaveVacancy(s0);
    if rval.None? {
      ProbeWhileSearching(Homes(s0), start, p0, p, t);
    } else {
      ProbeWhileShifting(s0, e0, start, s, cur, p, Dist(start, rval.value, |s0|), t);
    }
    ProbeIsDist(cur.hash, p, |s0|);
  }

  // ----- The loop as a step system -----

  /** What the loop changes: the slots, the carried entry, its probe index, and the result. */
  datatype Loop = Loop(slots: seq<Entry>, entry: Entry, probe: Word, rval: Option<nat>)

  type LoopState = l: Loop | 1 < |l.slots| <= HALF_MAX + 1 && IsPowerOfTwo(|l.slots|)
    ghost witness TwoSlots()

  ghost function TwoSlots(): (l: Loop)
    ensures |l.slots| == 2 && IsPowerOfTwo(2)
  {
    assert Pow2(1) == 2;
    Loop([EMPTY, EMPTY], EMPTY, 0, None)
  }

  /** One turn: the carried entry displaces the occupant of its slot, or passes it. */
  function Turn(l: LoopState): (r: LoopState)
    ensures |r.slots| == |l.slots|
  {
    var n := |l.slots|;
    var i := SlotAt(l.entry.hash, l.probe, n);
    var victim := l.slots[i];
    var d := Dist(SlotAt(victim.hash, 0, n), i, n);
    if victim.hash == 0 || d < l.probe
    then Loop(l.slots[i := l.entry], victim, d + 1, if l.rval.None? then Some(i) else l.rval)
    else l.(probe := Wrap(l.probe + 1))
  }

  function Turns(l: LoopState, k: nat): (r: LoopState)
    ensures |r.slots| == |l.slots|
  {
    if k == 0 then l else Turn(Turns(l, k - 1))
  }

  /** What one turn makes of the slots s, the carried entry cur, its probe index p and the result. */
  ghost predicate Turned(s: seq<Entry>, cur: Entry, p: Word, rval: Option<nat>,
                         s': seq<Entry>, cur': Entry, p': Word, rval': Option<nat>)
    requires |s| > 0
  {
    var i := SlotAt(cur.hash, p, |s|);
    var d := Dist(SlotAt(s[i].hash, 0, |s|), i, |s|);
    if s[i].hash == 0 || d < p
    then s' == s[i := cur] && cur' == s[i] && p' == d + 1 && rval' == (if rval.None? then Some(i) else rval)
    else s' == s && cur' == cur && p' == Wrap(p + 1) && rval' == rval
  }

  lemma {:induction false} TakeTurn(s: seq<Entry>, cur: Entry, p: Word, rval: Option<nat>)
    returns (s': seq<Entry>, cur': Entry, p': Word, rval': Option<nat>)
    requires 1 < |s| <= HALF_MAX + 1 && IsPowerOfTwo(|s|)
    ensures Loop(s', cur', p', rval') == Turn(Loop(s, cur, p, rval))
    ensures |s'| == |s| && Turned(s, cur, p, rval, s', cur', p', rval')
  {
    var r := Turn(Loop(s, cur, p, rval));
    s', cur', p', rval' := r.slots, r.entry, r.probe, r.rval;
  }

  /** Every turn keeps the invariant. */
  lemma {:induction false} TurnKeepsUnderway(s0: seq<Entry>, e0: Entry, p0: Word,
                                             s: seq<Entry>, cur: Entry, p: Word, rval: Option<nat>, t: nat,
                                             s': seq<Entry>, cur': Entry, p': Word, rval': Option<nat>)
    requires Underway(s0, e0, p0, s, cur, p, rval, t) && HasEmptySlot(s0) && cur.hash != 0
    requires Turned(s, cur, p, rval, s', cur', p', rval')
    ensures Underway(s0, e0, p0, s', cur', p', rval', t + 1)
  {
    var i := SlotAt(cur.hash, p, |s|);
    var d := Dist(SlotAt(s[i].hash, 0, |s|), i, |s|);
    if s[i].hash == 0 || d < p {
      SwapStep(s0, e0, p0, s, cur, p, rval, t, i, d, s', cur', p', rval');
    } else {
      SkipStep(s0, e0, p0, s, cur, p, rval, t, i, d);
    }
  }

  /** Without an empty slot the loop never ends: every turn leaves the slots full and the carried
      entry live. */
  lemma {:induction false} FullStaysFull(l: LoopState, k: nat)
    requires !HasEmptySlot(l.slots) && l.entry.hash != 0
    ensures !HasEmptySlot(Turns(l, k).slots) && Turns(l, k).entry.hash != 0
  {
    if k > 0 {
      FullStaysFull(l, k - 1);
    }
  }

  /** Where the loop stands after k turns. */
  ghost predicate Reached(s0: seq<Entry>, e0: Entry, p0: Word,
                          s: seq<Entry>, cur: Entry, p: Word, rval: Option<nat>, k: nat)
  {
    && 1 < |s0| <= HALF_MAX + 1 && IsPowerOfTwo(|s0|)
    && Turns(Loop(s0, e0, p0, None), k) == Loop(s, cur, p, rval)
  }

  /** The loop has ended after k turns, with the slots s and the result rval. */
  ghost predicate Ended(s0: seq<Entry>, e0: Entry, p0: Word, s: seq<Entry>, rval: Option<nat>, k: nat) {
    exists cur: Entry, p: Word :: cur.hash == 0 && Reached(s0, e0, p0, s, cur, p, rval, k)
  }

  lemma {:induction false} UnderwayTurn(s0: seq<Entry>, e0: Entry, p0: Word,
                                        s: seq<Entry>, cur: Entry, p: Word, rval: Option<nat>, t: nat)
    returns (s': seq<Entry>, cur': Entry, p': Word, rval': Option<nat>)
    requires Underway(s0, e0, p0, s, cur, p, rval, t) && HasEmptySlot(s0) && cur.hash != 0
    requires Reached(s0, e0, p0, s, cur, p, rval, t)
    ensures Underway(s0, e0, p0, s', cur', p', rval', t + 1)
    ensures Reached(s0, e0, p0, s', cur', p', rval', t + 1)
    ensures Loop(s', cur', p', rval') == Turn(Loop(s, cur, p, rval))
  {
    s', cur', p', rval' := TakeTurn(s, cur, p, rval);
    TurnKeepsUnderway(s0, e0, p0, s, cur, p, rval, t, s', cur', p', rval');
  }

  /** With one it ends within as many turns as there are slots. */
  lemma {:induction false} EndsWithin(s0: seq<Entry>, e0: Entry, p0: Word) returns (k: nat)
    requires 1 < |s0| <= HALF_MAX + 1 && IsPowerOfTwo(|s0|) && e0.hash != 0 && HasEmptySlot(s0)
    ensures k <= |s0| && Turns(Loop(s0, e0, p0, None), k).entry.hash == 0
  {
    var s, cur: Entry, p: Word, rval: Option<nat> := s0, e0, p0, None;
    k := 0;
    UnderwayAtStart(s0, e0, p0);
    while cur.hash != 0
      invariant Underway(s0, e0, p0, s, cur, p, rval, k) && Reached(s0, e0, p0, s, cur, p, rval, k)
      decreases |s0| - k
    {
      s, cur, p, rval := UnderwayTurn(s0, e0, p0, s, cur, p, rval, k);
      k := k + 1;
    }
  }

  /** An empty slot is exactly what makes the loop end, and then it ends in linear time. */
  lemma {:induction false} EndsIffEmptySlot(s: seq<Entry>, e: Entry, p: Word)
    requires 1 < |s| <= HALF_MAX + 1 && IsPowerOfTwo(|s|) && e.hash != 0
    ensures (exists k: nat :: Turns(Loop(s, e, p, None), k).entry.hash == 0) <==> HasEmptySlot(s)
    ensures HasEmptySlot(s) ==> exists k: nat :: k <= |s| && Turns(Loop(s, e, p, None), k).entry.hash == 0
  {
    if HasEmptySlot(s) {
      var k := EndsWithin(s, e, p);
    } else {
      forall k: nat
        ensures Turns(Loop(s, e, p, None), k).entry.hash != 0
      {
        FullStaysFull(Loop(s, e, p, None), k);
      }
    }
  }

  lemma {:induction false} UnderwayAfter(s0: seq<Entry>, e0: Entry, p0: Word, k: nat)
    returns (s: seq<Entry>, cur: Entry, p: Word, rval: Option<nat>)
    requires 1 < |s0| <= HALF_MAX + 1 && IsPowerOfTwo(|s0|) && HasEmptySlot(s0)
    requires forall j: nat :: j <= k ==> Turns(Loop(s0, e0, p0, None), j).entry.hash != 0
    ensures Underway(s0, e0, p0, s, cur, p, rval, k) && Reached(s0, e0, p0, s, cur, p, rval, k)
    ensures cur.hash != 0
  {
    s, cur, p, rval := s0, e0, p0, None;
    assert Turns(Loop(s0, e0, p0, None), 0).entry.hash != 0;
    UnderwayAtStart(s0, e0, p0);
    for t := 0 to k
      invariant Underway(s0, e0, p0, s, cur, p, rval, t) && Reached(s0, e0, p0, s, cur, p, rval, t)
    {
      assert Turns(Loop(s0, e0, p0, None), t).entry.hash != 0;
      s, cur, p, rval := UnderwayTurn(s0, e0, p0, s, cur, p, rval, t);
    }
    assert Turns(Loop(s0, e0, p0, None), k).entry.hash != 0;
  }

  lemma {:induction false} ProbeAfter(s0: seq<Entry>, e0: Entry, p0: Word, k: nat)
    returns (s: seq<Entry>, cur: Entry, p: Word, rval: Option<nat>)
    requires 1 < |s0| <= HALF_MAX + 1 && IsPowerOfTwo(|s0|) && HasEmptySlot(s0)
    requires Layout(Homes(s0)) && MayStand(Homes(s0), SlotAt(e0.hash, p0, |s0|), p0)
    requires forall j: nat :: j <= k ==> Turns(Loop(s0, e0, p0, None), j).entry.hash != 0
    ensures Turns(Loop(s0, e0, p0, None), k) == Loop(s, cur, p, rval)
    ensures p < |s0| && p == Dist(SlotAt(cur.hash, 0, |s0|), SlotAt(cur.hash, p, |s0|), |s0|)
  {
    s, cur, p, rval := UnderwayAfter(s0, e0, p0, k);
    ProbeIsTrueDistance(s0, e0, p0, s, cur, p, rval, k);
  }

  /** At every turn of every insertion into a layout with an empty slot, the carried entry's probe
      index is its true distance from home, and so never reaches the size. */
  lemma {:induction false} ProbeAtEveryTurn(s0: seq<Entry>, e0: Entry, p0: Word, k: nat)
    requires 1 < |s0| <= HALF_MAX + 1 && IsPowerOfTwo(|s0|) && HasEmptySlot(s0)
    requires Layout(Homes(s0)) && MayStand(Homes(s0), SlotAt(e0.hash, p0, |s0|), p0)
    requires forall j: nat :: j <= k ==> Turns(Loop(s0, e0, p0, None), j).entry.hash != 0
    ensures var l := Turns(Loop(s0, e0, p0, None), k);
            l.probe < |s0| &&
            l.probe == Dist(SlotAt(l.entry.hash, 0, |s0|), SlotAt(l.entry.hash, l.probe, |s0|), |s0|)
  {
    var s, cur, p, rval := ProbeAfter(s0, e0, p0, k);
  }
}
