/** Positions on a ring of n slots. Every operation is linear, so that the layout proofs never
    meet a remainder; HashTable ties them to the code's masked arithmetic. */
module Cyclic {
  /** The slot t places after i. */
  function Plus(i: nat, t: nat, n: nat): (r: nat)
    requires i < n && t < n
    ensures r < n
  {
    if i + t < n then i + t else i + t - n
  }

  /** How many places i lies after h. */
  function Dist(h: nat, i: nat, n: nat): (r: nat)
    requires h < n && i < n
    ensures r < n && Plus(h, r, n) == i
  {
    if h <= i then i - h else i + n - h
  }

  function Next(i: nat, n: nat): (r: nat)
    requires i < n
    ensures r < n
  {
    if i + 1 < n then i + 1 else 0
  }

  function Prev(i: nat, n: nat): (r: nat)
    requires i < n
    ensures r < n && Next(r, n) == i
  {
    if i > 0 then i - 1 else n - 1
  }

  /** The m slots from start on. */
  ghost function Arc(start: nat, m: nat, n: nat): (r: set<nat>)
    requires start < n && m <= n
  {
    set t | 0 <= t < m :: Plus(start, t, n)
  }

  lemma {:induction false} ArcSize(start: nat, m: nat, n: nat)
    requires start < n && m <= n
    ensures |Arc(start, m, n)| == m
  {
    if m > 0 {
      ArcSize(start, m - 1, n);
      assert Arc(start, m, n) == Arc(start, m - 1, n) + {Plus(start, m - 1, n)};
    }
  }
}
