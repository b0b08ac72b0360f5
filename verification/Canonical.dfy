/** The layout invariant determines the layout: two home maps of the same size that satisfy it
    and hold the same multiset of homes are equal. */
module Canonical {
  import opened Cyclic
  import opened RobinHood

  // ----- Counting -----

  ghost function Count<T>(s: seq<T>, want: set<T>): nat {
    if s == [] then 0 else Count(s[..|s| - 1], want) + (if s[|s| - 1] in want then 1 else 0)
  }

  lemma {:induction false} CountConcat<T>(a: seq<T>, b: seq<T>, want: set<T>)
    ensures Count(a + b, want) == Count(a, want) + Count(b, want)
  {
    if b == [] {
      assert a + b == a;
    } else {
      CountConcat(a, b[..|b| - 1], want);
      assert (a + b)[..|a + b| - 1] == a + b[..|b| - 1];
    }
  }

  lemma {:induction false} CountWithout<T>(b: seq<T>, k: nat, want: set<T>)
    requires k < |b|
    ensures Count(b, want) == Count(b[..k] + b[k + 1..], want) + (if b[k] in want then 1 else 0)
  {
    var l, x, r := b[..k], [b[k]], b[k + 1..];
    CountConcat(l, x, want);
    CountConcat(l + x, r, want);
    CountConcat(l, r, want);
    assert x[..0] == [];
    assert b == l + x + r;
  }

  lemma {:induction false} MultisetWithout<T>(b: seq<T>, k: nat)
    requires k < |b|
    ensures multiset(b[..k] + b[k + 1..]) == multiset(b) - multiset{b[k]}
  {
    assert b == b[..k] + [b[k]] + b[k + 1..];
  }

  lemma {:induction false} FindInMultiset<T>(a: seq<T>, b: seq<T>) returns (k: nat)
    requires multiset(a) == multiset(b) && a != []
    ensures k < |b| && b[k] == a[0]
  {
    assert a[0] in multiset(b);
    k :| 0 <= k < |b| && b[k] == a[0];
  }

  lemma {:induction false} CountOfMultiset<T>(a: seq<T>, b: seq<T>, want: set<T>)
    requires multiset(a) == multiset(b)
    ensures Count(a, want) == Count(b, want)
    decreases |a|
  {
    if a == [] {
      assert |multiset(b)| == 0;
    } else {
      var k := FindInMultiset(a, b);
      MultisetWithout(a, 0);
      MultisetWithout(b, k);
      CountOfMultiset(a[..0] + a[1..], b[..k] + b[k + 1..], want);
      CountWithout(a, 0, want);
      CountWithout(b, k, want);
    }
  }

  lemma {:induction false} CountIsCardinality<T>(s: seq<T>, want: set<T>)
    ensures Count(s, want) == |set i: nat | i < |s| && s[i] in want|
  {
    var all := set i: nat | i < |s| && s[i] in want;
    if s == [] {
      assert all == {};
    } else {
      var n := |s| - 1;
      CountIsCardinality(s[..n], want);
      var front := set i: nat | i < n && s[..n][i] in want;
      assert all == front + (if s[n] in want then {n} else {});
    }
  }

  lemma {:induction false} SubsetSize<T>(a: set<T>, b: set<T>)
    requires a <= b
    ensures |a| <= |b|
  {
    assert b == a + (b - a);
  }

  // ----- Uniqueness -----

  /** A slot that nothing is carried across: vacant, or holding an entry in its own home. */
  ghost predicate Cut(hs: HomeMap, i: nat)
    requires i < |hs|
  {
    hs[i].Vacant? || Shift(hs, i) == 0
  }

  ghost predicate HasCut(hs: HomeMap) {
    exists i :: 0 <= i < |hs| && Cut(hs, i)
  }

  /** m slots before slot i an occupant is at home, and every slot from there to i is occupied. */
  ghost predicate RunStart(hs: HomeMap, i: nat, m: nat)
    requires i < |hs| && m < |hs|
  {
    var s := Dist(m, i, |hs|);
    && (forall t :: 0 <= t <= m ==> hs[Plus(s, t, |hs|)].At?)
    && Shift(hs, Plus(s, 0, |hs|)) == 0
  }

  lemma {:induction false} FindRunStart(hs: HomeMap, i: nat, back: nat) returns (m: nat)
    requires Layout(hs) && HasCut(hs) && i < |hs| && back < |hs|
    requires forall t :: 0 <= t <= back ==> hs[Dist(t, i, |hs|)].At?
    requires forall t :: 0 <= t < back ==> Shift(hs, Dist(t, i, |hs|)) > 0
    ensures m < |hs| && RunStart(hs, i, m)
    decreases |hs| - back
  {
    var n := |hs|;
    var s := Dist(back, i, n);
    if Shift(hs, s) == 0 {
      m := back;
      forall t | 0 <= t <= m
        ensures hs[Plus(s, t, n)].At?
      {
        assert Plus(s, t, n) == Dist(m - t, i, n);
      }
    } else {
      var z :| 0 <= z < n && Cut(hs, z);
      assert Dist(Dist(z, i, n), i, n) == z;
      assert back + 1 < n;
      assert BackedUp(hs, s);
      assert Prev(s, n) == Dist(back + 1, i, n);
      m := FindRunStart(hs, i, back + 1);
    }
  }

  /** Inside a run no occupant reaches back past the run's start. */
  lemma {:induction false} ShiftInRun(hs: HomeMap, i: nat, m: nat, t: nat)
    requires Layout(hs) && i < |hs| && m < |hs| && RunStart(hs, i, m) && t <= m
    ensures Shift(hs, Plus(Dist(m, i, |hs|), t, |hs|)) <= t
  {
    var x := Plus(Dist(m, i, |hs|), t, |hs|);
    assert BackedUp(hs, x);
    if t > 0 {
      ShiftInRun(hs, i, m, t - 1);
      assert Prev(x, |hs|) == Plus(Dist(m, i, |hs|), t - 1, |hs|);
    }
  }

  /** Inside a run, homes never come later than that of the run's last occupant. */
  lemma {:induction false} HomesInRun(hs: HomeMap, i: nat, m: nat, t: nat)
    requires Layout(hs) && i < |hs| && hs[i].At? && m < |hs| && RunStart(hs, i, m) && t <= m
    ensures Shift(hs, Plus(Dist(m, i, |hs|), t, |hs|)) >= Shift(hs, i) - (m - t)
    decreases m - t
  {
    var s := Dist(m, i, |hs|);
    if t < m {
      HomesInRun(hs, i, m, t + 1);
      var x := Plus(s, t + 1, |hs|);
      assert BackedUp(hs, x);
      assert Prev(x, |hs|) == Plus(s, t, |hs|);
    }
  }

  /** The homes from s to c places on. */
  ghost function NearHomes(s: nat, c: nat, n: nat): set<Home>
    requires s < n
  {
    set x: nat | x < n && Dist(s, x, n) <= c :: At(x)
  }

  lemma {:induction false} RunMember(hs: HomeMap, i: nat, m: nat, t: nat)
    requires Layout(hs) && i < |hs| && hs[i].At? && m < |hs| && RunStart(hs, i, m) && t <= m
    ensures Shift(hs, i) <= m
    ensures var s, n := Dist(m, i, |hs|), |hs|;
            hs[Plus(s, t, n)] in NearHomes(s, m - Shift(hs, i), n)
  {
    var n, s := |hs|, Dist(m, i, |hs|);
    ShiftInRun(hs, i, m, m);
    assert Plus(s, m, n) == i;
    ShiftInRun(hs, i, m, t);
    HomesInRun(hs, i, m, t);
    var home := hs[Plus(s, t, n)].home;
    assert Dist(s, home, n) <= m - Shift(hs, i);
  }

  /** The run's m + 1 occupants all have homes from its start to the home of its last one. */
  lemma {:induction false} RunIsFull(hs: HomeMap, i: nat, m: nat)
    requires Layout(hs) && i < |hs| && hs[i].At? && m < |hs| && RunStart(hs, i, m)
    ensures Shift(hs, i) <= m
    ensures var s, n := Dist(m, i, |hs|), |hs|;
            Count(hs, NearHomes(s, m - Shift(hs, i), n)) >= m + 1
  {
    RunMember(hs, i, m, m);
    var n, s := |hs|, Dist(m, i, |hs|);
    var near := NearHomes(s, m - Shift(hs, i), n);
    var slots := set x: nat | x < |hs| && hs[x] in near;
    forall x | x in Arc(s, m + 1, n)
      ensures x in slots
    {
      var t: nat :| t < m + 1 && x == Plus(s, t, n);
      RunMember(hs, i, m, t);
    }
    ArcSize(s, m + 1, n);
    SubsetSize(Arc(s, m + 1, n), slots);
    CountIsCardinality(hs, near);
  }

  /** If slot i is vacant, or its occupant nearer to home than m - c, the entries with homes
      from s to c places on all sit in the m slots from s to before i. */
  lemma {:induction false} NearHomesAreFew(hs: HomeMap, i: nat, m: nat, c: nat)
    requires Layout(hs) && i < |hs| && c <= m < |hs|
    requires Stops(hs, i, m - c)
    ensures var s, n := Dist(m, i, |hs|), |hs|;
            Count(hs, NearHomes(s, c, n)) <= m
  {
    var n, s := |hs|, Dist(m, i, |hs|);
    var near := NearHomes(s, c, n);
    var slots := set x: nat | x < n && hs[x] in near;
    forall x | x in slots
      ensures x in Arc(s, m, n)
    {
      var o, a := Dist(s, x, n), Dist(s, hs[x].home, n);
      if o >= m {
        assert Shift(hs, x) == o - a;
        Chain(hs, x, o - m);
        assert false;
      }
      assert x == Plus(s, o, n);
    }
    ArcSize(s, m, n);
    SubsetSize(slots, Arc(s, m, n));
    CountIsCardinality(hs, near);
  }

  lemma {:induction false} Dominates(a: HomeMap, b: HomeMap, i: nat)
    requires Layout(a) && Layout(b) && HasCut(a)
    requires |a| == |b| && multiset(a) == multiset(b)
    requires i < |a| && a[i].At?
    ensures b[i].At? && Shift(b, i) >= Shift(a, i)
  {
    var n := |a|;
    assert Dist(0, i, n) == i;
    var m := FindRunStart(a, i, 0);
    RunIsFull(a, i, m);
    var c, s := m - Shift(a, i), Dist(m, i, n);
    if Stops(b, i, m - c) {
      NearHomesAreFew(b, i, m, c);
      CountOfMultiset(a, b, NearHomes(s, c, n));
      assert false;
    }
  }

  /** The layout is determined by the multiset of homes. */
  lemma {:induction false} LayoutIsUnique(a: HomeMap, b: HomeMap)
    requires Layout(a) && Layout(b) && HasCut(a) && HasCut(b)
    requires |a| == |b| && multiset(a) == multiset(b)
    ensures a == b
  {
    forall i | 0 <= i < |a|
      ensures a[i] == b[i]
    {
      if a[i].At? {
        Dominates(a, b, i);
      }
      if b[i].At? {
        Dominates(b, a, i);
      }
    }
  }

  /** Without a cut it is not: a full table may be turned by one place. */
  lemma {:induction false} FullTablesCanDiffer()
    ensures var a: HomeMap, b: HomeMap := [At(0), At(1)], [At(1), At(0)];
            Layout(a) && Layout(b) && HasCut(a) && multiset(a) == multiset(b) && a != b
  {
    var a: HomeMap := [At(0), At(1)];
    assert Cut(a, 0);
  }

  lemma {:induction false} VacancyIsCut(hs: HomeMap)
    requires HasVacancy(hs)
    ensures HasCut(hs)
  {
    var z :| 0 <= z < |hs| && hs[z].Vacant?;
    assert Cut(hs, z);
  }

  /** Insert-and-shift leaves a cut behind, even when it fills the last vacant slot. */
  lemma {:induction false} InsertLeavesCut(hs: HomeMap, start: nat, p: nat, f: nat, m: nat, h: nat)
    requires Inserting(hs, start, p, f, m, h) && |hs| > 1
    ensures HasCut(InsertAndShift(hs, start, f, m, h))
  {
    var n := |hs|;
    var r := InsertAndShift(hs, start, f, m, h);
    var x := Next(Plus(start, m, n), n);
    assert BackedUp(hs, x);
    if m + 1 < n {
      InsertAndShiftAt(hs, start, f, m, h, m + 1);
      assert x == Plus(start, m + 1, n);
    } else {
      PlusPrev(start, 0, n);
      InsertAndShiftAt(hs, start, f, m, h, 0);
      InsertedSlot(hs, start, p, f, m, h);
      assert x == start && p == 0;
    }
    assert Cut(r, x);
  }
}
