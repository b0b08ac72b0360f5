/** memcmp and bcmp: a scan that is unrolled up to a bound and then continued. */
module Compare {
  import opened MemMove

  const NULL: nat := 0

  /** Comparison in one scan: the first difference decides. */
  function Scan(a: seq<Byte>, b: seq<Byte>): (r: int)
    requires |a| == |b|
  {
    if a == [] then 0
    else if a[0] < b[0] then -1
    else if a[0] > b[0] then 1
    else Scan(a[1..], b[1..])
  }

  ghost predicate DiffersFirstAt(a: seq<Byte>, b: seq<Byte>, i: nat) {
    i < |a| == |b| && a[i] != b[i] && a[..i] == b[..i]
  }

  lemma {:induction false} ScanDecidedAt(a: seq<Byte>, b: seq<Byte>, i: nat)
    requires DiffersFirstAt(a, b, i)
    ensures Scan(a, b) == if a[i] < b[i] then -1 else 1
  {
    if i > 0 {
      assert a[0] == a[..i][0] && b[0] == b[..i][0];
      assert a[1..][..i - 1] == a[..i][1..] && b[1..][..i - 1] == b[..i][1..];
      ScanDecidedAt(a[1..], b[1..], i - 1);
    }
  }

  lemma {:induction false} FirstDifference(a: seq<Byte>, b: seq<Byte>) returns (i: nat)
    requires |a| == |b| && a != b
    ensures DiffersFirstAt(a, b, i)
  {
    if a[0] != b[0] {
      i := 0;
    } else {
      assert a == [a[0]] + a[1..] && b == [b[0]] + b[1..];
      i := FirstDifference(a[1..], b[1..]);
      assert a[..i + 1] == [a[0]] + a[1..][..i] && b[..i + 1] == [b[0]] + b[1..][..i];
      i := i + 1;
    }
  }

  /** Zero exactly on equal ranges. */
  lemma {:induction false} ScanZeroIffEqual(a: seq<Byte>, b: seq<Byte>)
    requires |a| == |b|
    ensures Scan(a, b) == 0 <==> a == b
  {
    if a == b {
      if a != [] {
        ScanZeroIffEqual(a[1..], b[1..]);
      }
    } else {
      var i := FirstDifference(a, b);
      ScanDecidedAt(a, b, i);
    }
  }

  lemma {:induction false} ScanAntisymmetric(a: seq<Byte>, b: seq<Byte>)
    requires |a| == |b|
    ensures Scan(a, b) == -Scan(b, a)
  {
    if a != [] {
      ScanAntisymmetric(a[1..], b[1..]);
    }
  }

  lemma {:induction false} ScanTransitive(a: seq<Byte>, b: seq<Byte>, c: seq<Byte>)
    requires |a| == |b| == |c|
    requires Scan(a, b) <= 0 && Scan(b, c) <= 0
    ensures Scan(a, c) <= 0
    ensures Scan(a, b) < 0 || Scan(b, c) < 0 ==> Scan(a, c) < 0
  {
    if a != [] && a[0] == b[0] == c[0] {
      ScanTransitive(a[1..], b[1..], c[1..]);
    }
  }

  predicate Readable(mem: seq<Byte>, p: nat, n: nat) {
    p + n <= |mem|
  }

  /** memcmp: for every unroll bound, the one-scan comparison. Equal pointers are not read. */
  method MemCmp(mem: seq<Byte>, p1: nat, p2: nat, n: nat, maxBufferSize: nat) returns (r: int)
    requires p1 != p2 ==> Readable(mem, p1, n) && Readable(mem, p2, n)
    ensures p1 == p2 ==> r == 0
    ensures p1 != p2 ==> r == Scan(mem[p1..p1 + n], mem[p2..p2 + n])
  {
    if p1 == p2 {
      return 0;
    }
    ghost var a, b := mem[p1..p1 + n], mem[p2..p2 + n];
    var i := 0;
    while i < maxBufferSize
      invariant forall j :: 0 <= j < i && j < n ==> a[j] == b[j]
    {
      if i < n {
        if mem[p1 + i] != mem[p2 + i] {
          assert DiffersFirstAt(a, b, i);
          ScanDecidedAt(a, b, i);
          return if mem[p1 + i] < mem[p2 + i] then -1 else 1;
        }
      }
      i := i + 1;
    }
    i := maxBufferSize;
    while i < n
      invariant forall j :: 0 <= j < i && j < n ==> a[j] == b[j]
    {
      if mem[p1 + i] != mem[p2 + i] {
        assert DiffersFirstAt(a, b, i);
        ScanDecidedAt(a, b, i);
        return if mem[p1 + i] < mem[p2 + i] then -1 else 1;
      }
      i := i + 1;
    }
    ScanZeroIffEqual(a, b);
    return 0;
  }

  /** bcmp: zero exactly for equal pointers, or two non-null ones to equal ranges. One null
      pointer compares as different even for n == 0. */
  method BCmp(mem: seq<Byte>, p1: nat, p2: nat, n: nat, maxBufferSize: nat) returns (r: int)
    requires p1 != p2 && p1 != NULL && p2 != NULL ==> Readable(mem, p1, n) && Readable(mem, p2, n)
    ensures r == 0 || r == 1
    ensures p1 != p2 && (p1 == NULL || p2 == NULL) ==> r == 1
    ensures p1 == p2 ==> r == 0
    ensures p1 != p2 && p1 != NULL && p2 != NULL ==>
              (r == 0 <==> Scan(mem[p1..p1 + n], mem[p2..p2 + n]) == 0)
  {
    if p1 == p2 {
      return 0;
    }
    if p1 == NULL || p2 == NULL {
      return 1;
    }
    ghost var a, b := mem[p1..p1 + n], mem[p2..p2 + n];
    ScanZeroIffEqual(a, b);
    var i := 0;
    while i < maxBufferSize
      invariant forall j :: 0 <= j < i && j < n ==> a[j] == b[j]
    {
      if i < n {
        if mem[p1 + i] != mem[p2 + i] {
          assert a[i] != b[i];
          return 1;
        }
      }
      i := i + 1;
    }
    i := maxBufferSize;
    while i < n
      invariant forall j :: 0 <= j < i && j < n ==> a[j] == b[j]
    {
      if mem[p1 + i] != mem[p2 + i] {
        assert a[i] != b[i];
        return 1;
      }
      i := i + 1;
    }
    return 0;
  }
}
