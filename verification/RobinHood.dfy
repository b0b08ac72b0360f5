/** The Robin Hood layout, stated on home maps: for each slot, the home slot of its occupant. */
module RobinHood {
  import opened Cyclic

  datatype Home = Vacant | At(home: nat)

  type HomeMap = hs: seq<Home> | forall i :: 0 <= i < |hs| && hs[i].At? ==> hs[i].home < |hs|

  /** How far the occupant of slot i sits from its home. */
  function Shift(hs: HomeMap, i: nat): (d: nat)
    requires i < |hs| && hs[i].At?
    ensures d < |hs|
  {
    Dist(hs[i].home, i, |hs|)
  }

  ghost predicate HasVacancy(hs: HomeMap) {
    exists i :: 0 <= i < |hs| && hs[i].Vacant?
  }

  /** The layout invariant at slot i: an occupant away from home has an occupied
      predecessor that is away from its own home by at most one place less. */
  ghost predicate BackedUp(hs: HomeMap, i: nat)
    requires i < |hs|
  {
    hs[i].At? && Shift(hs, i) > 0 ==>
      var j := Prev(i, |hs|);
      hs[j].At? && Shift(hs, j) >= Shift(hs, i) - 1
  }

  ghost predicate Layout(hs: HomeMap) {
    forall i :: 0 <= i < |hs| ==> BackedUp(hs, i)
  }

  /** A walker that is t places from its home stops at slot i when the slot is vacant or its
      occupant is nearer to home than the walker: the displacement test of the insertion loop. */
  predicate Stops(hs: HomeMap, i: nat, t: int)
    requires i < |hs|
  {
    hs[i].Vacant? || Shift(hs, i) < t
  }

  /** A walk from the home of slot i's occupant passes every slot before i. */
  ghost predicate Reachable(hs: HomeMap, i: nat)
    requires i < |hs| && hs[i].At?
  {
    forall t :: 0 <= t < Shift(hs, i) ==> !Stops(hs, Plus(hs[i].home, t, |hs|), t)
  }

  /** Going t slots back from an occupant that is at least t from home, every slot is occupied
      and distances drop by at most one a slot. */
  lemma {:induction false} Chain(hs: HomeMap, i: nat, t: nat)
    requires Layout(hs) && i < |hs| && hs[i].At? && t <= Shift(hs, i)
    ensures var j := Plus(hs[i].home, Shift(hs, i) - t, |hs|);
            hs[j].At? && Shift(hs, j) >= Shift(hs, i) - t
  {
    if t > 0 {
      Chain(hs, i, t - 1);
      var j := Plus(hs[i].home, Shift(hs, i) - (t - 1), |hs|);
      assert BackedUp(hs, j);
      assert Prev(j, |hs|) == Plus(hs[i].home, Shift(hs, i) - t, |hs|);
    }
  }

  /** The layout invariant says exactly that every entry can be found from its home. */
  lemma {:induction false} LayoutIffReachable(hs: HomeMap)
    ensures Layout(hs) <==> forall i :: 0 <= i < |hs| && hs[i].At? ==> Reachable(hs, i)
  {
    if Layout(hs) {
      forall i, t | 0 <= i < |hs| && hs[i].At? && 0 <= t < Shift(hs, i)
        ensures !Stops(hs, Plus(hs[i].home, t, |hs|), t)
      {
        Chain(hs, i, Shift(hs, i) - t);
      }
    }
    if forall i :: 0 <= i < |hs| && hs[i].At? ==> Reachable(hs, i) {
      forall i | 0 <= i < |hs|
        ensures BackedUp(hs, i)
      {
        if hs[i].At? && Shift(hs, i) > 0 {
          var t := Shift(hs, i) - 1;
          assert Reachable(hs, i);
          assert !Stops(hs, Plus(hs[i].home, t, |hs|), t);
          assert Prev(i, |hs|) == Plus(hs[i].home, t, |hs|);
        }
      }
    }
  }

  /** With a vacancy somewhere, no occupant is more than |hs| - 2 from home. */
  lemma {:induction false} ShiftBound(hs: HomeMap, i: nat)
    requires Layout(hs) && HasVacancy(hs) && i < |hs| && hs[i].At?
    ensures Shift(hs, i) + 2 <= |hs|
  {
    var z :| 0 <= z < |hs| && hs[z].Vacant?;
    var back := Dist(z, i, |hs|);
    if back <= Shift(hs, i) {
      Chain(hs, i, back);
    }
  }

  // ----- Insert and shift -----

  /** The home map with h put f places after start, and the homes from there to m places
      after start (the vacant slot that is filled) each moved one place on. */
  function InsertAndShift(hs: HomeMap, start: nat, f: nat, m: nat, h: nat): (r: HomeMap)
    requires start < |hs| && f <= m < |hs| && h < |hs|
    ensures |r| == |hs|
  {
    seq(|hs|, x requires 0 <= x < |hs| =>
      var t := Dist(start, x, |hs|);
      if t == f then At(h) else if f < t <= m then hs[Prev(x, |hs|)] else hs[x])
  }

  /** A walker p away from its home may stand at slot i: the slot before is occupied and its
      occupant at least p - 1 from home. */
  ghost predicate MayStand(hs: HomeMap, i: nat, p: nat)
    requires i < |hs|
  {
    p > 0 ==> var j := Prev(i, |hs|); hs[j].At? && Shift(hs, j) >= p - 1
  }

  /** f is the first place after start where a walker that is p from home at start stops. */
  ghost predicate FirstStop(hs: HomeMap, start: nat, p: nat, f: nat)
    requires start < |hs|
  {
    && f < |hs|
    && Stops(hs, Plus(start, f, |hs|), p + f)
    && forall t :: 0 <= t < f ==> !Stops(hs, Plus(start, t, |hs|), p + t)
  }

  ghost predicate FirstVacancy(hs: HomeMap, start: nat, m: nat)
    requires start < |hs|
  {
    && m < |hs|
    && hs[Plus(start, m, |hs|)].Vacant?
    && forall t :: 0 <= t < m ==> hs[Plus(start, t, |hs|)].At?
  }

  /** A walker never gets a full turn from home. */
  lemma {:induction false} WalkerBound(hs: HomeMap, start: nat, p: nat, t: nat)
    requires Layout(hs) && HasVacancy(hs) && start < |hs| && t < |hs|
    requires MayStand(hs, start, p)
    requires forall u :: 0 <= u < t ==> !Stops(hs, Plus(start, u, |hs|), p + u)
    ensures p + t < |hs|
  {
    if t > 0 {
      assert !Stops(hs, Plus(start, t - 1, |hs|), p + (t - 1));
      ShiftBound(hs, Plus(start, t - 1, |hs|));
    } else if p > 0 {
      ShiftBound(hs, Prev(start, |hs|));
    }
  }

  lemma {:induction false} PlusPrev(start: nat, t: nat, n: nat)
    requires start < n && t < n
    ensures Prev(Plus(start, t, n), n) == Plus(start, if t > 0 then t - 1 else n - 1, n)
    ensures Dist(start, Plus(start, t, n), n) == t
  {
  }

  lemma {:induction false} InsertAndShiftAt(hs: HomeMap, start: nat, f: nat, m: nat, h: nat, t: nat)
    requires start < |hs| && f <= m < |hs| && h < |hs| && t < |hs|
    ensures InsertAndShift(hs, start, f, m, h)[Plus(start, t, |hs|)] ==
            if t == f then At(h)
            else if f < t <= m then hs[Plus(start, t - 1, |hs|)]
            else hs[Plus(start, t, |hs|)]
  {
    PlusPrev(start, t, |hs|);
  }

  ghost predicate Inserting(hs: HomeMap, start: nat, p: nat, f: nat, m: nat, h: nat) {
    && Layout(hs) && start < |hs| && h < |hs|
    && p < |hs| && Plus(h, p, |hs|) == start && MayStand(hs, start, p)
    && FirstStop(hs, start, p, f) && FirstVacancy(hs, start, m) && f <= m
  }

  lemma {:induction false} UntouchedSlot(hs: HomeMap, start: nat, p: nat, f: nat, m: nat, h: nat, t: nat)
    requires Inserting(hs, start, p, f, m, h) && t < |hs| && (t < f || t > m)
    ensures BackedUp(InsertAndShift(hs, start, f, m, h), Plus(start, t, |hs|))
  {
    var n := |hs|;
    var u := if t > 0 then t - 1 else n - 1;
    PlusPrev(start, t, n);
    InsertAndShiftAt(hs, start, f, m, h, t);
    InsertAndShiftAt(hs, start, f, m, h, u);
    assert BackedUp(hs, Plus(start, t, n));
  }

  lemma {:induction false} InsertedSlot(hs: HomeMap, start: nat, p: nat, f: nat, m: nat, h: nat)
    requires Inserting(hs, start, p, f, m, h)
    ensures var r, x := InsertAndShift(hs, start, f, m, h), Plus(start, f, |hs|);
            r[x] == At(h) && Shift(r, x) == p + f && BackedUp(r, x)
  {
    var n := |hs|;
    WalkerBound(hs, start, p, f);
    PlusPrev(start, f, n);
    InsertAndShiftAt(hs, start, f, m, h, f);
    InsertAndShiftAt(hs, start, f, m, h, if f > 0 then f - 1 else n - 1);
    if f > 0 {
      assert !Stops(hs, Plus(start, f - 1, n), p + (f - 1));
    }
  }

  lemma {:induction false} MovedSlot(hs: HomeMap, start: nat, p: nat, f: nat, m: nat, h: nat, t: nat)
    requires Inserting(hs, start, p, f, m, h) && f < t <= m
    ensures var r, x := InsertAndShift(hs, start, f, m, h), Plus(start, t, |hs|);
            r[x].At? && Shift(r, x) == Shift(hs, Prev(x, |hs|)) + 1
  {
    PlusPrev(start, t, |hs|);
    InsertAndShiftAt(hs, start, f, m, h, t);
    ShiftBound(hs, Plus(start, t - 1, |hs|));
  }

  lemma {:induction false} MovedSlotBackedUp(hs: HomeMap, start: nat, p: nat, f: nat, m: nat, h: nat, t: nat)
    requires Inserting(hs, start, p, f, m, h) && f < t <= m
    ensures BackedUp(InsertAndShift(hs, start, f, m, h), Plus(start, t, |hs|))
  {
    PlusPrev(start, t, |hs|);
    MovedSlot(hs, start, p, f, m, h, t);
    assert hs[Plus(start, t - 1, |hs|)].At?;
    if t - 1 == f {
      InsertedSlot(hs, start, p, f, m, h);
    } else {
      MovedSlot(hs, start, p, f, m, h, t - 1);
      assert BackedUp(hs, Plus(start, t - 1, |hs|));
    }
  }

  /** Insert-and-shift at the first stop keeps the layout invariant. */
  lemma {:induction false} InsertKeepsLayout(hs: HomeMap, start: nat, p: nat, f: nat, m: nat, h: nat)
    requires Inserting(hs, start, p, f, m, h)
    ensures Layout(InsertAndShift(hs, start, f, m, h))
  {
    forall x | 0 <= x < |hs|
      ensures BackedUp(InsertAndShift(hs, start, f, m, h), x)
    {
      var t := Dist(start, x, |hs|);
      if t < f || t > m {
        UntouchedSlot(hs, start, p, f, m, h, t);
      } else if t == f {
        InsertedSlot(hs, start, p, f, m, h);
      } else {
        MovedSlotBackedUp(hs, start, p, f, m, h, t);
      }
    }
  }
}
