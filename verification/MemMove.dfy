/** memmove and memcpy over one flat memory; a pointer is a position in it. Each label of the
    original's gotos is a method. width is sizeof(unsigned long): the strides assume 4. */
module MemMove {
  import opened Words

  type Byte = x: int | 0 <= x < 256

  /** The memory after moving n bytes from one place to another, as if through a buffer. */
  function Moved(m: seq<Byte>, to: nat, from: nat, n: nat): (r: seq<Byte>)
    requires to + n <= |m| && from + n <= |m|
    ensures |r| == |m|
    ensures r[to..to + n] == m[from..from + n] && r[..to] == m[..to] && r[to + n..] == m[to + n..]
  {
    m[..to] + m[from..from + n] + m[to + n..]
  }

  lemma {:induction false} MovedAt(m: seq<Byte>, r: seq<Byte>, to: nat, from: nat, n: nat)
    requires to + n <= |m| == |r| && from + n <= |m|
    requires forall a :: 0 <= a < to || to + n <= a < |m| ==> r[a] == m[a]
    requires forall a :: to <= a < to + n ==> r[a] == m[a - to + from]
    ensures r == Moved(m, to, from, n)
  {
    var moved := Moved(m, to, from, n);
    forall a | 0 <= a < |m|
      ensures r[a] == moved[a]
    {
      if to <= a < to + n {
        assert moved[to..to + n][a - to] == m[from..from + n][a - to];
      }
    }
  }

  /** m' is m with the bytes lo .. hi replaced by those d below them. */
  ghost predicate Raised(m: seq<Byte>, m': seq<Byte>, lo: nat, hi: nat, d: nat)
    requires d <= lo <= hi <= |m|
  {
    && |m'| == |m|
    && (forall a {:trigger m'[a]} :: lo <= a < hi ==> m'[a] == m[a - d])
    && (forall a {:trigger m'[a]} :: 0 <= a < lo || hi <= a < |m| ==> m'[a] == m[a])
  }

  lemma {:induction false} RaisedIsMoved(m: seq<Byte>, m': seq<Byte>, to: nat, from: nat, n: nat, end: nat, d: nat)
    requires from < to && end == to + n <= |m| && d == to - from && Raised(m, m', to, end, d)
    ensures m' == Moved(m, to, from, n)
  {
    MovedAt(m, m', to, from, n);
  }

  /** Raising a range may be done top part first. */
  lemma {:induction false} RaiseTopFirst(m: seq<Byte>, m1: seq<Byte>, m2: seq<Byte>, lo: nat, mid: nat, hi: nat, d: nat)
    requires 0 < d <= lo <= mid <= hi <= |m|
    requires Raised(m, m1, mid, hi, d) && Raised(m1, m2, lo, mid, d)
    ensures Raised(m, m2, lo, hi, d)
  {
  }

  /** m' is m with word w stored at a position. */
  ghost predicate Stored(m: seq<Byte>, m': seq<Byte>, at: nat, w: seq<Byte>)
    requires at + |w| <= |m|
  {
    && |m'| == |m|
    && (forall a {:trigger m'[a]} :: at <= a < at + |w| ==> m'[a] == w[a - at])
    && (forall a {:trigger m'[a]} :: 0 <= a < at || at + |w| <= a < |m| ==> m'[a] == m[a])
  }

  method LoadWord(mem: array<Byte>, at: nat, width: nat) returns (w: seq<Byte>)
    requires at + width <= mem.Length
    ensures w == mem[..][at..at + width]
  {
    w := mem[at..at + width];
  }

  method StoreWord(mem: array<Byte>, at: nat, w: seq<Byte>)
    requires at + |w| <= mem.Length
    modifies mem
    ensures Stored(old(mem[..]), mem[..], at, w)
  {
    forall i | 0 <= i < |w| {
      mem[at + i] := w[i];
    }
    assert forall i :: 0 <= i < |w| ==> mem[at + i] == w[i];
  }

  // ----- memcpy -----

  /** Where memcpy's k-th byte comes from when the destination is d above the source: into an
      overlapping range the first d bytes are repeated. */
  function Repeating(k: nat, d: nat): (r: nat)
    requires d > 0
    ensures r <= k && r < d
    ensures k < d ==> r == k
  {
    if k < d then k else Repeating(k - d, d)
  }

  /** Where memcpy's k-th byte comes from. */
  function CopySource(dest: nat, from: nat, k: nat): (r: nat)
    ensures r <= from + k
    ensures from >= dest || k < dest - from ==> r == from + k
  {
    if from < dest then from + Repeating(k, dest - from) else from + k
  }

  /** The byte at from + k, once the first k are copied, is the one the k-th copy comes from. */
  lemma {:induction false} CopySourceStep(dest: nat, from: nat, k: nat)
    ensures from < dest && k >= dest - from ==> CopySource(dest, from, k - (dest - from)) == CopySource(dest, from, k)
  {
  }

  /** memcpy copies upwards: into a range that overlaps from above it copies its own copies;
      otherwise it is a move. */
  method MemCpy(mem: array<Byte>, dest: nat, from: nat, n: nat) returns (r: nat)
    requires dest + n <= mem.Length && from + n <= mem.Length
    modifies mem
    ensures r == dest
    ensures forall a :: 0 <= a < dest || dest + n <= a < mem.Length ==> mem[a] == old(mem[a])
    ensures forall a :: dest <= a < dest + n ==> mem[a] == old(mem[CopySource(dest, from, a - dest)])
    ensures from >= dest || from + n <= dest ==> mem[..] == Moved(old(mem[..]), dest, from, n)
  {
    ghost var m := mem[..];
    var k := 0;
    while k < n
      invariant 0 <= k <= n
      invariant forall a :: 0 <= a < dest || dest + k <= a < mem.Length ==> mem[a] == m[a]
      invariant forall a :: dest <= a < dest + k ==> mem[a] == m[CopySource(dest, from, a - dest)]
    {
      CopySourceStep(dest, from, k);
      if from < dest && k >= dest - from {
        assert mem[from + k] == m[CopySource(dest, from, from + k - dest)];
      }
      mem[dest + k] := mem[from + k];
      k := k + 1;
    }
    if from >= dest || from + n <= dest {
      MovedAt(m, mem[..], dest, from, n);
    }
    return dest;
  }

  // ----- memmove -----

  /** Raises the n bytes below tmpTo one at a time, from the top. */
  method CopyBytesDown(mem: array<Byte>, tmpTo: nat, tmpFrom: nat, n: nat, ghost d: nat)
    requires n <= tmpFrom < tmpTo <= mem.Length && n > 0
    requires d == tmpTo - tmpFrom
    modifies mem
    ensures Raised(old(mem[..]), mem[..], tmpTo - n, tmpTo, d)
  {
    var to, from, left := tmpTo, tmpFrom, n;
    while left > 0
      invariant 0 <= left <= n && to == tmpTo - (n - left) && from == tmpFrom - (n - left)
      invariant Raised(old(mem[..]), mem[..], to, tmpTo, d)
    {
      to, from := to - 1, from - 1;
      mem[to] := mem[from];
      left := left - 1;
    }
  }

  /** Raises the four bytes below tmpTo in one store, and with wide words the four above as well. */
  method MoveWord(mem: array<Byte>, tmpTo: nat, tmpFrom: nat, width: nat, ghost d: nat)
    requires width == 4 || width == 8
    requires 4 <= tmpFrom < tmpTo && tmpTo + (width - 4) <= mem.Length
    requires d == tmpTo - tmpFrom
    modifies mem
    ensures Raised(old(mem[..]), mem[..], tmpTo - 4, tmpTo + (width - 4), d)
  {
    var w := LoadWord(mem, tmpFrom - 4, width);
    StoreWord(mem, tmpTo - 4, w);
    StoreRaises(old(mem[..]), mem[..], tmpTo - 4, d, w);
  }

  /** One turn of the chunk loop. */
  method CopyChunk(mem: array<Byte>, tmpTo: nat, tmpFrom: nat, width: nat, ghost d: nat)
    requires width == 4 || width == 8
    requires 8 <= tmpFrom < tmpTo && tmpTo + (width - 4) <= mem.Length
    requires d == tmpTo - tmpFrom
    modifies mem
    ensures Raised(old(mem[..]), mem[..], tmpTo - 8, tmpTo + (width - 4), d)
  {
    ghost var m := mem[..];
    var tmp1 := LoadWord(mem, tmpFrom - 4, width);
    var tmp2 := LoadWord(mem, tmpFrom - 8, width);
    StoreWord(mem, tmpTo - 4, tmp1);
    ghost var m1 := mem[..];
    StoreWord(mem, tmpTo - 8, tmp2);
    StoreRaises(m, m1, tmpTo - 4, d, tmp1);
    ChunkStored(m, m1, mem[..], tmpTo, width, d, tmp2);
  }

  lemma {:induction false} StoreRaises(m: seq<Byte>, m': seq<Byte>, at: nat, d: nat, w: seq<Byte>)
    requires d <= at && at + |w| <= |m| && w == m[at - d..at - d + |w|] && Stored(m, m', at, w)
    ensures Raised(m, m', at, at + |w|, d)
  {
  }

  lemma {:induction false} ChunkStored(m: seq<Byte>, m1: seq<Byte>, m2: seq<Byte>, tmpTo: nat, width: nat, d: nat,
                                       w: seq<Byte>)
    requires width == 4 || width == 8
    requires 0 < d && d + 8 <= tmpTo && tmpTo + (width - 4) <= |m|
    requires w == m[tmpTo - 8 - d..tmpTo - 8 - d + width]
    requires Raised(m, m1, tmpTo - 4, tmpTo + (width - 4), d) && Stored(m1, m2, tmpTo - 8, w)
    ensures Raised(m, m2, tmpTo - 8, tmpTo + (width - 4), d)
  {
  }

  // ----- What wide words do -----

  /** Where the byte at a comes from in a copy from d below that stores wide words over e and
      every eight bytes below it, as long as that is above stop: a store spills four bytes up,
      and a byte it takes from above its own place, but below the end t, is already a copy. */
  function Spill(e: int, stop: int, t: int, d: int, a: int): (r: int)
    requires d > 0
    ensures r == a - d || (r == a - 2 * d && stop < a - d < t)
    ensures a <= stop ==> r == a - d
    decreases e - stop
  {
    if e <= stop then a - d
    else if a < e - 4 then Spill(e - 8, stop, t, d, a)
    else if a < e || a - d < e || a - d >= t then a - d
    else a - 2 * d
  }

  /** Where the byte at a comes from while that copy has reached down to lo; e is where its stores
      begin. */
  function WideFrom(e: int, lo: int, stop: int, t: int, d: int, a: int): (r: int)
    requires d > 0
    ensures 0 <= a && d <= lo && d <= stop ==> 0 <= r <= a
  {
    if a < lo then a
    else if a < t || (stop < e && a < e + 4) then Spill(e, stop, t, d, a)
    else a
  }

  /** What that copy has made of the first n bytes of m. */
  function WideBelow(m: seq<Byte>, e: nat, lo: nat, stop: nat, t: nat, d: nat, n: nat): (m': seq<Byte>)
    requires 0 < d <= lo && d <= stop && n <= |m|
    ensures |m'| == n
  {
    if n == 0 then []
    else WideBelow(m, e, lo, stop, t, d, n - 1) + [m[WideFrom(e, lo, stop, t, d, n - 1)]]
  }

  function WideCopy(m: seq<Byte>, e: nat, lo: nat, stop: nat, t: nat, d: nat): (m': seq<Byte>)
    requires 0 < d <= lo && d <= stop
    ensures |m'| == |m|
  {
    WideBelow(m, e, lo, stop, t, d, |m|)
  }

  lemma {:induction false} WideBelowAt(m: seq<Byte>, e: nat, lo: nat, stop: nat, t: nat, d: nat, n: nat, a: nat)
    requires 0 < d <= lo && d <= stop && a < n <= |m|
    ensures WideBelow(m, e, lo, stop, t, d, n)[a] == m[WideFrom(e, lo, stop, t, d, a)]
  {
    if a < n - 1 {
      WideBelowAt(m, e, lo, stop, t, d, n - 1, a);
    }
  }

  lemma {:induction false} WideCopyIs(m: seq<Byte>, m': seq<Byte>, e: nat, lo: nat, stop: nat, t: nat, d: nat)
    requires 0 < d <= lo && d <= stop && |m'| == |m|
    ensures m' == WideCopy(m, e, lo, stop, t, d) <==>
            forall a {:trigger m'[a]} :: 0 <= a < |m| ==> m'[a] == m[WideFrom(e, lo, stop, t, d, a)]
  {
    forall a | 0 <= a < |m|
      ensures WideCopy(m, e, lo, stop, t, d)[a] == m[WideFrom(e, lo, stop, t, d, a)]
    {
      WideBelowAt(m, e, lo, stop, t, d, |m|, a);
    }
  }

  /** One more store. */
  lemma {:induction false} SpillStep(e1: int, k: nat, e: int, stop: int, t: int, d: int, a: int)
    requires e1 == e + 8 * k && e - 8 <= stop < e && d > 0 && a < e1 + 4
    ensures a < e + 4 ==> Spill(e1, e, t, d, a) == a - d
    ensures Spill(e1, stop, t, d, a) ==
            if a < e + 4 && e <= a - d < t then a - 2 * d else Spill(e1, e, t, d, a)
    decreases k
  {
    if k > 0 && a < e1 - 4 {
      SpillStep(e1 - 8, k - 1, e, stop, t, d, a);
    }
  }

  lemma {:induction false} SpillSameStop(e1: int, k: nat, e: int, stop: int, t: int, d: int, a: int)
    requires e1 == e + 8 * k && e <= stop < e + 8 && d > 0
    ensures Spill(e1, stop, t, d, a) == Spill(e1, e, t, d, a)
    decreases k
  {
    if k > 0 {
      SpillSameStop(e1 - 8, k - 1, e, stop, t, d, a);
    }
  }

  lemma {:induction false} WideStart(m: seq<Byte>, m': seq<Byte>, e: nat, t: nat, d: nat)
    requires 0 < d <= e <= t <= |m| && Raised(m, m', e, t, d)
    ensures m' == WideCopy(m, e, e, e, t, d)
  {
    WideCopyIs(m, m', e, e, e, t, d);
  }

  lemma {:induction false} WideStep(m: seq<Byte>, m1: seq<Byte>, m2: seq<Byte>, e1: nat, k: nat, e: nat, lo: nat, stop: nat,
                                    t: nat, d: nat)
    requires 0 < d <= lo <= e && d <= stop && e1 == e + 8 * k && e1 <= t < e1 + 4 <= |m|
    requires e - 8 <= stop < e && e - 8 <= lo
    requires m1 == WideCopy(m, e1, e, e, t, d) && Raised(m1, m2, lo, e + 4, d)
    ensures m2 == WideCopy(m, e1, lo, stop, t, d)
  {
    WideCopyIs(m, m1, e1, e, e, t, d);
    forall a | 0 <= a < |m|
      ensures m2[a] == m[WideFrom(e1, lo, stop, t, d, a)]
    {
      if a < e1 + 4 {
        SpillStep(e1, k, e, stop, t, d, a);
        SpillStep(e1, k, e, stop, t, d, a - d);
      }
      if lo <= a < e + 4 {
        assert m2[a] == m1[a - d] == m[WideFrom(e1, e, e, t, d, a - d)];
      } else {
        assert m2[a] == m1[a] == m[WideFrom(e1, e, e, t, d, a)];
      }
    }
    WideCopyIs(m, m2, e1, lo, stop, t, d);
  }

  lemma {:induction false} WideStop(m: seq<Byte>, m': seq<Byte>, e1: nat, k: nat, e: nat, stop: nat, t: nat, d: nat)
    requires 0 < d <= e <= stop < e + 8 && e1 == e + 8 * k && m' == WideCopy(m, e1, e, e, t, d)
    ensures m' == WideCopy(m, e1, e, stop, t, d)
  {
    WideCopyIs(m, m', e1, e, e, t, d);
    forall a | 0 <= a < |m|
      ensures m'[a] == m[WideFrom(e1, e, stop, t, d, a)]
    {
      SpillSameStop(e1, k, e, stop, t, d, a);
    }
    WideCopyIs(m, m', e1, e, stop, t, d);
  }

  lemma {:induction false} WideBytes(m: seq<Byte>, m1: seq<Byte>, m2: seq<Byte>, e1: nat, lo: nat, to: nat, stop: nat,
                                     t: nat, d: nat)
    requires 0 < d <= to <= lo <= stop + 1 && lo <= t <= |m| && d <= stop
    requires m1 == WideCopy(m, e1, lo, stop, t, d) && Raised(m1, m2, to, lo, d)
    ensures m2 == WideCopy(m, e1, to, stop, t, d)
  {
    WideCopyIs(m, m1, e1, lo, stop, t, d);
    forall a | 0 <= a < |m|
      ensures m2[a] == m[WideFrom(e1, to, stop, t, d, a)]
    {
      if to <= a < lo {
        assert m2[a] == m1[a - d] == m[a - d];
      } else {
        assert m2[a] == m1[a] == m[WideFrom(e1, lo, stop, t, d, a)];
      }
    }
    WideCopyIs(m, m2, e1, to, stop, t, d);
  }

  // ----- memmove, by labels -----

  /** copy_chunks: eight bytes a turn, downwards. */
  method CopyChunks(mem: array<Byte>, tmpTo: nat, tmpFrom: nat, chunks: nat, width: nat,
                    ghost d: nat, ghost m: seq<Byte>, ghost t: nat) returns (lo: nat)
    requires width == 4 || width == 8
    requires chunks > 0 && 8 * chunks <= tmpFrom < tmpTo && tmpTo + (width - 4) <= mem.Length
    requires d == tmpTo - tmpFrom && tmpTo <= t < tmpTo + 4
    requires width == 8 ==> |m| == mem.Length && mem[..] == WideCopy(m, tmpTo, tmpTo, tmpTo, t, d)
    modifies mem
    ensures lo == tmpTo - 8 * chunks
    ensures width == 4 ==> Raised(old(mem[..]), mem[..], lo, tmpTo, d)
    ensures width == 8 ==> mem[..] == WideCopy(m, tmpTo, lo, lo, t, d)
  {
    var to, from, left := tmpTo, tmpFrom, chunks;
    while left > 0
      invariant 0 <= left <= chunks
      invariant to == tmpTo - 8 * (chunks - left) && from == tmpFrom - 8 * (chunks - left)
      invariant width == 4 ==> Raised(old(mem[..]), mem[..], to, tmpTo, d)
      invariant width == 8 ==> mem[..] == WideCopy(m, tmpTo, to, to, t, d)
    {
      ghost var before := mem[..];
      CopyChunk(mem, to, from, width, d);
      if width == 4 {
        RaiseTopFirst(old(mem[..]), before, mem[..], to - 8, to, tmpTo, d);
      } else {
        WideStep(m, before, mem[..], tmpTo, chunks - left, to, to - 8, to - 8, t, d);
      }
      to, from, left := to - 8, from - 8, left - 1;
    }
    lo := to;
  }

  /** lessthan8: the word and the bytes that the chunks leave over; k chunks were copied. */
  method LessThan8(mem: array<Byte>, tmpTo: nat, tmpFrom: nat, rest: nat, width: nat, ghost to: nat,
                   ghost d: nat, ghost m: seq<Byte>, ghost k: nat, ghost e: nat, ghost t: nat)
    requires width == 4 || width == 8
    requires rest < 8 && rest <= tmpFrom < tmpTo <= mem.Length && to == tmpTo - rest
    requires rest >= 4 ==> tmpTo + (width - 4) <= mem.Length
    requires d == tmpTo - tmpFrom
    requires width == 8 && (k > 0 || rest >= 4) ==>
               && e == tmpTo + 8 * k && e <= t < e + 4 <= |m| == mem.Length
               && mem[..] == WideCopy(m, e, tmpTo, tmpTo, t, d)
    modifies mem
    ensures width == 4 || (k == 0 && rest < 4) ==> Raised(old(mem[..]), mem[..], to, tmpTo, d)
    ensures width == 8 && (k > 0 || rest >= 4) ==> mem[..] == WideCopy(m, e, to, to + 3, t, d)
  {
    var at, from, n := tmpTo, tmpFrom, rest;
    if n >= 4 {
      MoveWord(mem, at, from, width, d);
      if width == 8 {
        WideStep(m, old(mem[..]), mem[..], e, k, tmpTo, tmpTo - 4, to + 3, t, d);
      }
      from, at, n := from - 4, at - 4, n - 4;
    } else if width == 8 && k > 0 {
      WideStop(m, mem[..], e, k, tmpTo, to + 3, t, d);
    }
    ghost var before := mem[..];
    if n == 0 {
      return;
    }
    CopyBytesDown(mem, at, from, n, d);
    if width == 4 {
      RaiseTopFirst(old(mem[..]), before, mem[..], to, at, tmpTo, d);
    } else if k > 0 || rest >= 4 {
      WideBytes(m, before, mem[..], e, at, to, to + 3, t, d);
    }
  }

  /** Where the first word store of a copy of n bytes ends: at the end, aligned if there are chunks. */
  function FirstStore(to: nat, n: nat): (e: nat)
    ensures e <= to + n < e + 4
    ensures n >= 8 ==> to + 5 <= e
  {
    if n < 8 || (to + n) % 4 == 0 then to + n else to + n - (4 - (to + n) % 4)
  }

  /** align: bring the end of the destination down to a multiple of four. */
  method Align(mem: array<Byte>, to: nat, from: nat, count: nat, ghost d: nat) returns (e: nat)
    requires from < to && to + count <= mem.Length && count >= 8 && d == to - from
    modifies mem
    ensures e == FirstStore(to, count)
    ensures Raised(old(mem[..]), mem[..], e, to + count, d)
  {
    e := to + count;
    var rem := e % 4;
    if rem != 0 {
      rem := 4 - rem;
      CopyBytesDown(mem, e, from + count, rem, d);
      e := e - rem;
    }
  }

  /** align and copy_chunks: all whole chunks. Returns where the bytes left at the low end stop,
      and how many they are. */
  method CopyAligned(mem: array<Byte>, to: nat, from: nat, count: nat, width: nat, ghost d: nat)
    returns (tmpTo: nat, rest: nat, ghost k: nat, ghost e: nat)
    requires width == 4 || width == 8
    requires from < to && to + count <= mem.Length && count >= 8 && d == to - from
    requires width == 8 ==> to + count + 4 <= mem.Length
    modifies mem
    ensures rest < 8 && rest <= count && tmpTo == to + rest && e == tmpTo + 8 * k == FirstStore(to, count)
    ensures width == 4 ==> Raised(old(mem[..]), mem[..], tmpTo, to + count, d)
    ensures width == 8 ==> mem[..] == WideCopy(old(mem[..]), e, tmpTo, tmpTo, to + count, d)
  {
    tmpTo := Align(mem, to, from, count, d);
    ghost var m, aligned, end := old(mem[..]), mem[..], to + count;
    WideStart(m, aligned, tmpTo, end, d);
    var n := tmpTo - to;
    var chunks := n / 8;
    rest, k, e := n % 8, chunks, tmpTo;
    if chunks != 0 {
      tmpTo := CopyChunks(mem, tmpTo, from + n, chunks, width, d, m, end);
      if width == 4 {
        RaiseTopFirst(m, aligned, mem[..], tmpTo, e, end, d);
      }
    }
  }

  /** Where memmove with 8-byte words takes the byte at a from, when the destination is above the
      source and at least four bytes move. */
  function WideSource(to: nat, from: nat, n: nat, a: nat): (r: nat)
    requires from < to
    ensures r <= a
  {
    WideFrom(FirstStore(to, n), to, to + 3, to + n, to - from, a)
  }

  /** When 8-byte words leave the range itself right: no store takes a byte that is already a
      copy, because the ranges are four bytes apart, or because only one chunk or word is
      stored and the bytes copied before it for alignment are no more than the distance. */
  predicate WideKeepsRange(to: nat, from: nat, n: nat)
    requires from < to
  {
    var aligned := if n < 8 then n else n - (4 - (to + n) % 4) % 4;
    n - aligned <= to - from && (to - from >= 4 || aligned < 12)
  }

  lemma {:induction false} SpillFar(e: int, stop: int, t: int, d: int, a: int)
    requires d >= 4 && a < e + 4
    ensures Spill(e, stop, t, d, a) == a - d
    decreases e - stop
  {
    if e > stop && a < e - 4 {
      SpillFar(e - 8, stop, t, d, a);
    }
  }

  lemma {:induction false} WideRight(to: nat, from: nat, n: nat, a: nat)
    requires from < to <= a < to + n && n >= 4 && WideKeepsRange(to, from, n)
    ensures WideSource(to, from, n, a) == a - (to - from)
  {
    var e: int, stop, t, d := FirstStore(to, n), to + 3, to + n, to - from;
    if d >= 4 {
      SpillFar(e, stop, t, d, a);
    } else {
      assert Spill(e - 8, stop, t, d, a) == a - d;
    }
  }

  /** A byte that the first or second store spills over and that is already a copy. */
  function WrongByte(to: nat, from: nat, n: nat): int
    requires from < to
  {
    var e, d := FirstStore(to, n), to - from;
    if to + n - e > d then e + d else e - 8 + d
  }

  /** Otherwise some byte of the range comes from one distance too far below. */
  lemma {:induction false} WideWrong(to: nat, from: nat, n: nat, a: int)
    requires from < to && n >= 4 && !WideKeepsRange(to, from, n) && a == WrongByte(to, from, n)
    ensures to <= a < to + n && WideSource(to, from, n, a) == a - 2 * (to - from)
  {
    var e: int, stop, t, d := FirstStore(to, n), to + 3, to + n, to - from;
    if t - e <= d {
      assert Spill(e - 8, stop, t, d, a) == a - 2 * d;
    }
  }

  lemma {:induction false} WideRange(m: seq<Byte>, m': seq<Byte>, to: nat, from: nat, n: nat)
    requires from < to && n >= 4 && to + n + 4 <= |m| == |m'| && WideKeepsRange(to, from, n)
    requires WideMoved(m, m', to, from, n)
    ensures m'[to..to + n] == m[from..from + n]
  {
    var r', r := m'[to..to + n], m[from..from + n];
    forall i | 0 <= i < n
      ensures r'[i] == r[i]
    {
      WideRight(to, from, n, to + i);
    }
  }

  ghost predicate WideMoved(m: seq<Byte>, m': seq<Byte>, to: nat, from: nat, n: nat)
    requires from < to && |m| == |m'|
  {
    forall a :: 0 <= a < |m| ==> m'[a] == m[WideSource(to, from, n, a)]
  }

  lemma {:induction false} WideResult(m: seq<Byte>, m': seq<Byte>, e: nat, t: nat, d: nat, to: nat, from: nat, n: nat)
    requires from < to && d == to - from && n >= 4 && t == to + n && t + 4 <= |m|
    requires e == FirstStore(to, n) && m' == WideCopy(m, e, to, to + 3, t, d)
    ensures |m'| == |m| && WideMoved(m, m', to, from, n)
    ensures forall a :: 0 <= a < to || t + 4 <= a < |m| ==> m'[a] == m[a]
    ensures WideKeepsRange(to, from, n) ==> m'[to..to + n] == m[from..from + n]
  {
    WideCopyIs(m, m', e, to, to + 3, t, d);
    if WideKeepsRange(to, from, n) {
      WideRange(m, m', to, from, n);
    }
  }

  /** memmove. With 4-byte words, when the destination is not above the source, or for fewer than
      four bytes, it moves exactly the range for every overlap and alignment. With 8-byte words any
      other call overruns the range by less than four bytes, and moves the range itself rightly if
      the ranges are far enough apart; the last clause says where each byte comes from. */
  method MemMove(mem: array<Byte>, to: nat, from: nat, n: nat, width: nat) returns (r: nat)
    requires width == 4 || width == 8
    requires to + n <= mem.Length && from + n <= mem.Length
    requires width == 8 && from < to && n >= 4 ==> to + n + 4 <= mem.Length
    modifies mem
    ensures r == to
    ensures width == 4 || from >= to || n < 4 ==> mem[..] == Moved(old(mem[..]), to, from, n)
    ensures width == 8 && from < to && n >= 4 ==>
              && (forall a :: 0 <= a < to || to + n + 4 <= a < mem.Length ==> mem[a] == old(mem[a]))
              && (WideKeepsRange(to, from, n) ==> mem[to..to + n] == old(mem[from..from + n]))
              && WideMoved(old(mem[..]), mem[..], to, from, n)
  {
    if from >= to {
      r := MemCpy(mem, to, from, n);
      return;
    }
    var tmpTo, rest := to + n, n;
    ghost var m, d, k, e, end := mem[..], to - from, 0, tmpTo, tmpTo;
    WideStart(m, m, end, end, d);
    if n / 8 != 0 {
      tmpTo, rest, k, e := CopyAligned(mem, to, from, n, width, d);
    }
    ghost var before := mem[..];
    LessThan8(mem, tmpTo, from + rest, rest, width, to, d, m, k, e, end);
    if width == 4 || n < 4 {
      RaiseTopFirst(m, before, mem[..], to, tmpTo, end, d);
      RaisedIsMoved(m, mem[..], to, from, n, end, d);
    } else {
      WideResult(m, mem[..], e, end, d, to, from, n);
    }
    return to;
  }

  /** With 8-byte words the condition above is necessary: for every other source, destination and
      length there is a memory in which the call changes more than the range. */
  method WideWordsOverrun(to: nat, from: nat, n: nat) returns (before: seq<Byte>, after: seq<Byte>)
    requires from < to && n >= 4
    ensures |before| == |after| == to + n + 4
    ensures after != Moved(before, to, from, n)
    ensures before[to + n] != after[to + n]
  {
    var mem := new Byte[to + n + 4](a => if a == to + n then 1 else 0);
    before := mem[..];
    var r := MemMove(mem, to, from, n, 8);
    after := mem[..];
    assert before[to + n..][0] != after[to + n..][0];
  }

  /** And whenever it does not keep the range right, there is one in which a byte of the range
      itself is wrong. */
  method WideWordsCorrupt(to: nat, from: nat, n: nat) returns (before: seq<Byte>, after: seq<Byte>)
    requires from < to && n >= 4 && !WideKeepsRange(to, from, n)
    ensures |before| == |after| == to + n + 4
    ensures after[to..to + n] != before[from..from + n]
  {
    var x := WrongByte(to, from, n);
    WideWrong(to, from, n, x);
    var mem := new Byte[to + n + 4](i => if i == x - (to - from) then 1 else 0);
    before := mem[..];
    var r := MemMove(mem, to, from, n, 8);
    after := mem[..];
    assert after[to..to + n][x - to] != before[from..from + n][x - to];
  }
}
