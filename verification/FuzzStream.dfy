/** The fuzzing back end of the nondeterministic functions: a byte stream read by a cursor that
    bails out (longjmp) when a read would reach the end. */
module FuzzStream {
  import opened Wrappers
  import opened Words
  import opened MemMove

  // ----- Little-endian encoding -----

  function Encode(v: nat, k: nat): (s: seq<Byte>)
    ensures |s| == k
  {
    if k == 0 then [] else [v % 256] + Encode(v / 256, k - 1)
  }

  function Decode(s: seq<Byte>): nat {
    if s == [] then 0 else s[0] + 256 * Decode(s[1..])
  }

  function Range(k: nat): (r: nat)
    ensures r > 0
  {
    if k == 0 then 1 else 256 * Range(k - 1)
  }

  lemma {:induction false} DecodeEncode(v: nat, k: nat)
    requires v < Range(k)
    ensures Decode(Encode(v, k)) == v
  {
    if k > 0 {
      DecodeEncode(v / 256, k - 1);
      assert Encode(v, k)[1..] == Encode(v / 256, k - 1);
    }
  }

  /** The lowest byte comes first. */
  lemma {:induction false} DecodeConcat(s: seq<Byte>, t: seq<Byte>)
    ensures Decode(s + t) == Decode(s) + Range(|s|) * Decode(t)
  {
    if s == [] {
      assert s + t == t;
    } else {
      DecodeConcat(s[1..], t);
      assert (s + t)[0] == s[0] && (s + t)[1..] == s[1..] + t;
      Distribute(Decode(s[1..]), Range(|s| - 1), Decode(t));
    }
  }

  lemma {:induction false} Distribute(a: int, b: int, c: int)
    ensures 256 * (a + b * c) == 256 * a + (256 * b) * c
  {
  }

  /** A four-byte int in two's complement. */
  function ToSigned(u: nat): int {
    if u < 0x8000_0000 then u else u - 0x1_0000_0000
  }

  /** It is the number of its range that agrees with the unsigned one modulo 2^32. */
  lemma {:induction false} SignedIsTwosComplement(u: nat)
    requires u < 0x1_0000_0000
    ensures -0x8000_0000 <= ToSigned(u) < 0x8000_0000 && ToSigned(u) % 0x1_0000_0000 == u
  {
    if u >= 0x8000_0000 {
      DivisionIsUnique(u - 0x1_0000_0000, 0x1_0000_0000, -1, u);
    }
  }

  // ----- Calls and their answers -----

  /** The readers of unsigned integers, size_t and pointers differ only in width. */
  datatype Call = ReadUnsigned(width: nat) | ReadInt | Havoc(size: nat) | HavocNull(size: nat)

  datatype Value = Unsigned(u: nat, width: nat) | Signed(i: int) | Block(bytes: seq<Byte>) | Untouched(size: nat)

  predicate Representable(v: Value) {
    match v
    case Unsigned(u, width) => u < Range(width)
    case Signed(i) => -0x8000_0000 <= i < 0x8000_0000
    case _ => true
  }

  function CallOf(v: Value): Call {
    match v
    case Unsigned(_, width) => ReadUnsigned(width)
    case Signed(_) => ReadInt
    case Block(bytes) => Havoc(|bytes|)
    case Untouched(size) => HavocNull(size)
  }

  /** How many bytes a call takes; a havoc of a null pointer returns at once and takes none. */
  function Size(c: Call): nat {
    match c
    case ReadUnsigned(width) => width
    case ReadInt => 4
    case Havoc(size) => size
    case HavocNull(_) => 0
  }

  function Bytes(v: Value): (s: seq<Byte>)
    requires Representable(v)
    ensures |s| == Size(CallOf(v))
  {
    match v
    case Unsigned(u, width) => Encode(u, width)
    case Signed(i) => Encode(if i >= 0 then i else i + 0x1_0000_0000, 4)
    case Block(bytes) => bytes
    case Untouched(_) => []
  }

  function Answer(c: Call, s: seq<Byte>): Value {
    match c
    case ReadUnsigned(width) => Unsigned(Decode(s), width)
    case ReadInt => Signed(ToSigned(Decode(s)))
    case Havoc(_) => Block(s)
    case HavocNull(size) => Untouched(size)
  }

  lemma {:induction false} AnswerOfBytes(v: Value)
    requires Representable(v)
    ensures Answer(CallOf(v), Bytes(v)) == v
  {
    match v {
      case Unsigned(u, width) => DecodeEncode(u, width);
      case Signed(i) =>
        assert Range(4) == 256 * 256 * 256 * 256 by {
          assert Range(2) == 256 * 256 && Range(3) == 256 * Range(2);
        }
        DecodeEncode(if i >= 0 then i else i + 0x1_0000_0000, 4);
      case _ =>
    }
  }

  // ----- The stream -----

  /** The values returned before the calls ended or one bailed out, and where the cursor is. */
  datatype Outcome = Outcome(values: seq<Value>, pos: nat, bailed: bool)

  predicate Bails(data: seq<Byte>, pos: nat, c: Call) {
    !c.HavocNull? && pos + Size(c) >= |data|
  }

  function Replay(data: seq<Byte>, pos: nat, calls: seq<Call>): Outcome
    requires pos <= |data|
    decreases |calls|
  {
    if calls == [] then Outcome([], pos, false)
    else if Bails(data, pos, calls[0]) then Outcome([], pos, true)
    else
      var k := Size(calls[0]);
      var rest := Replay(data, pos + k, calls[1..]);
      rest.(values := [Answer(calls[0], data[pos..pos + k])] + rest.values)
  }

  class Stream {
    const data: seq<Byte>
    var pos: nat

    constructor (data: seq<Byte>)
      ensures this.data == data && pos == 0
    {
      this.data := data;
      pos := 0;
    }

    /** UPDATE_FUZZ_ITERATOR, the copy out, and the step on; None is the longjmp. */
    method Take(k: nat) returns (r: Option<seq<Byte>>)
      requires pos <= |data|
      modifies this
      ensures r.None? <==> old(pos) + k >= |data|
      ensures r.None? ==> pos == old(pos)
      ensures r.Some? ==> pos == old(pos) + k < |data| && r.value == data[old(pos)..pos]
    {
      if pos + k >= |data| {
        return None;
      }
      pos := pos + k;
      return Some(data[pos - k..pos]);
    }

    /** One call of an nd_ function or of memhavoc. */
    method Perform(c: Call) returns (r: Option<Value>)
      requires pos <= |data|
      modifies this
      ensures r.None? <==> Bails(data, old(pos), c)
      ensures r.None? ==> pos == old(pos)
      ensures r.Some? ==> pos == old(pos) + Size(c) <= |data| && r.value == Answer(c, data[old(pos)..pos])
    {
      match c {
        case HavocNull(size) =>
          return Some(Untouched(size));
        case ReadUnsigned(width) =>
          var s := Take(width);
          return if s.None? then None else Some(Unsigned(Decode(s.value), width));
        case ReadInt =>
          var s := Take(4);
          return if s.None? then None else Some(Signed(ToSigned(Decode(s.value))));
        case Havoc(size) =>
          var s := Take(size);
          return if s.None? then None else Some(Block(s.value));
      }
    }

    /** A harness run: calls one after another until one bails out. */
    method PerformAll(calls: seq<Call>) returns (values: seq<Value>, bailed: bool)
      requires pos <= |data|
      modifies this
      ensures pos <= |data|
      ensures Outcome(values, pos, bailed) == Replay(data, old(pos), calls)
    {
      values, bailed := [], false;
      var i := 0;
      while i < |calls| && !bailed
        invariant 0 <= i <= |calls| && pos <= |data|
        invariant var all := Replay(data, old(pos), calls);
                  if bailed then Outcome(values, pos, true) == all
                  else var rest := Replay(data, pos, calls[i..]);
                       all == rest.(values := values + rest.values)
        decreases |calls| - i, !bailed
      {
        assert calls[i..][1..] == calls[i + 1..];
        var r := Perform(calls[i]);
        if r.None? {
          bailed := true;
        } else {
          values := values + [r.value];
          i := i + 1;
        }
      }
    }
  }

  // ----- Round trip -----

  predicate AllRepresentable(vs: seq<Value>) {
    forall v :: v in vs ==> Representable(v)
  }

  function CallsOf(vs: seq<Value>): (cs: seq<Call>)
    ensures |cs| == |vs|
  {
    if vs == [] then [] else [CallOf(vs[0])] + CallsOf(vs[1..])
  }

  function BytesOfAll(vs: seq<Value>): seq<Byte>
    requires AllRepresentable(vs)
  {
    if vs == [] then [] else Bytes(vs[0]) + BytesOfAll(vs[1..])
  }

  /** What the stream still holds once the first j values are read. */
  function Left(vs: seq<Value>, tail: seq<Byte>, j: nat): seq<Byte>
    requires AllRepresentable(vs) && j <= |vs|
  {
    BytesOfAll(vs[j..]) + tail
  }

  /** The i-th value is the first whose call finds nothing after it in the stream. */
  ghost predicate EndsAt(vs: seq<Value>, tail: seq<Byte>, i: nat)
    requires AllRepresentable(vs) && i <= |vs|
  {
    && (forall j :: 0 <= j < i && !vs[j].Untouched? ==> Left(vs, tail, j + 1) != [])
    && (i < |vs| ==> !vs[i].Untouched? && Left(vs, tail, i + 1) == [])
  }

  lemma {:induction false} EndsAtRest(vs: seq<Value>, tail: seq<Byte>, i: nat)
    requires AllRepresentable(vs) && 0 < i <= |vs| && EndsAt(vs, tail, i)
    ensures EndsAt(vs[1..], tail, i - 1)
  {
    var rest := vs[1..];
    forall j {:trigger Left(rest, tail, j)} | 0 < j <= |rest|
      ensures Left(rest, tail, j) == Left(vs, tail, j + 1)
    {
      assert rest[j..] == vs[j + 1..];
    }
  }

  /** Reading one encoded value: the cursor moves past it, or bails out if nothing follows. */
  lemma {:induction false} ReadOne(data: seq<Byte>, pos: nat, v: Value, rest: seq<Byte>)
    requires Representable(v) && pos <= |data| && data[pos..] == Bytes(v) + rest
    ensures var k := Size(CallOf(v));
            && (Bails(data, pos, CallOf(v)) <==> !v.Untouched? && rest == [])
            && pos + k <= |data| && data[pos + k..] == rest
            && Answer(CallOf(v), data[pos..pos + k]) == v
  {
    var k := Size(CallOf(v));
    assert |data| == pos + k + |rest|;
    assert data[pos..pos + k] == data[pos..][..k] == Bytes(v);
    assert data[pos + k..] == data[pos..][k..] == rest;
    AnswerOfBytes(v);
  }

  lemma {:induction false} Unroll(vs: seq<Value>, tail: seq<Byte>, i: nat)
    requires AllRepresentable(vs) && vs != [] && i <= |vs|
    ensures CallsOf(vs) == [CallOf(vs[0])] + CallsOf(vs[1..])
    ensures CallsOf(vs)[0] == CallOf(vs[0]) && CallsOf(vs)[1..] == CallsOf(vs[1..])
    ensures BytesOfAll(vs) + tail == Bytes(vs[0]) + Left(vs, tail, 1)
    ensures Left(vs, tail, 1) == BytesOfAll(vs[1..]) + tail
    ensures i > 0 ==> vs[..i] == [vs[0]] + vs[1..][..i - 1]
    ensures i > 0 ==> |BytesOfAll(vs[..i])| == Size(CallOf(vs[0])) + |BytesOfAll(vs[1..][..i - 1])|
  {
    if i > 0 {
      assert vs[..i][1..] == vs[1..][..i - 1];
    }
  }

  lemma {:induction false} ReplayCons(data: seq<Byte>, pos: nat, c: Call, cs: seq<Call>)
    requires pos <= |data| && (Bails(data, pos, c) || pos + Size(c) <= |data|)
    ensures Replay(data, pos, [c] + cs) ==
            if Bails(data, pos, c) then Outcome([], pos, true)
            else var later := Replay(data, pos + Size(c), cs);
                 later.(values := [Answer(c, data[pos..pos + Size(c)])] + later.values)
  {
    assert ([c] + cs)[1..] == cs;
  }

  /** Reading on past one encoded value puts that value in front of what the rest returns. */
  lemma {:induction false} ReplayFirst(data: seq<Byte>, pos: nat, v: Value, cs: seq<Call>, rest: seq<Byte>)
    requires Representable(v) && pos <= |data| && data[pos..] == Bytes(v) + rest
    ensures pos + Size(CallOf(v)) <= |data| && data[pos + Size(CallOf(v))..] == rest
    ensures Replay(data, pos, [CallOf(v)] + cs) ==
            if !v.Untouched? && rest == [] then Outcome([], pos, true)
            else var later := Replay(data, pos + Size(CallOf(v)), cs);
                 later.(values := [v] + later.values)
  {
    ReadOne(data, pos, v, rest);
    ReplayCons(data, pos, CallOf(v), cs);
  }

  /** For every sequence of values, the calls return exactly those before the first call that
      reaches the end of the stream, which bails out; if none does, they return all. */
  lemma {:induction false} ReplayOfBytes(data: seq<Byte>, pos: nat, vs: seq<Value>, tail: seq<Byte>, i: nat)
    requires AllRepresentable(vs) && i <= |vs| && EndsAt(vs, tail, i)
    requires pos <= |data| && data[pos..] == BytesOfAll(vs) + tail
    ensures AllRepresentable(vs[..i])
    ensures Replay(data, pos, CallsOf(vs)) == Outcome(vs[..i], pos + |BytesOfAll(vs[..i])|, i < |vs|)
    decreases |vs|
  {
    if vs != [] {
      var k, cs := Size(CallOf(vs[0])), CallsOf(vs[1..]);
      Unroll(vs, tail, i);
      ReplayFirst(data, pos, vs[0], cs, Left(vs, tail, 1));
      if i == 0 {
        assert Replay(data, pos, CallsOf(vs)) == Outcome([], pos, true);
        assert vs[..i] == [] && BytesOfAll([]) == [];
      } else {
        EndsAtRest(vs, tail, i);
        assert BytesOfAll(vs[1..]) + tail == data[pos + k..];
        ReplayOfBytes(data, pos + k, vs[1..], tail, i - 1);
        Prepend(vs, i, pos, Replay(data, pos + k, cs), Replay(data, pos, CallsOf(vs)));
      }
    }
  }

  lemma {:induction false} Prepend(vs: seq<Value>, i: nat, pos: nat, later: Outcome, all: Outcome)
    requires AllRepresentable(vs) && 0 < i <= |vs|
    requires var rest := vs[1..][..i - 1];
             later == Outcome(rest, pos + Size(CallOf(vs[0])) + |BytesOfAll(rest)|, i < |vs|)
    requires all == later.(values := [vs[0]] + later.values)
    ensures all == Outcome(vs[..i], pos + |BytesOfAll(vs[..i])|, i < |vs|)
  {
    Unroll(vs, [], i);
  }

  /** One trailing byte is enough for the whole round trip, and the cursor stays inside. */
  lemma {:induction false} RoundTrip(vs: seq<Value>, tail: seq<Byte>)
    requires AllRepresentable(vs) && tail != []
    ensures var data := BytesOfAll(vs) + tail;
            Replay(data, 0, CallsOf(vs)) == Outcome(vs, |BytesOfAll(vs)|, false) && |BytesOfAll(vs)| < |data|
  {
    var data := BytesOfAll(vs) + tail;
    assert data[0..] == data;
    ReplayOfBytes(data, 0, vs, tail, |vs|);
    assert vs[..|vs|] == vs;
  }

  /** Some call is the first to find nothing after it, or none is. */
  lemma {:induction false} EndExists(vs: seq<Value>, tail: seq<Byte>) returns (i: nat)
    requires AllRepresentable(vs)
    ensures i <= |vs| && EndsAt(vs, tail, i)
  {
    i := 0;
    while i < |vs| && (vs[i].Untouched? || Left(vs, tail, i + 1) != [])
      invariant i <= |vs|
      invariant forall j :: 0 <= j < i && !vs[j].Untouched? ==> Left(vs, tail, j + 1) != []
    {
      i := i + 1;
    }
  }

  /** How many values come back tells where the stream ended, and the other way round. */
  lemma {:induction false} StopsExactlyAtEnd(vs: seq<Value>, tail: seq<Byte>, i: nat)
    requires AllRepresentable(vs) && i <= |vs|
    ensures AllRepresentable(vs[..i])
    ensures var o := Replay(BytesOfAll(vs) + tail, 0, CallsOf(vs));
            && (EndsAt(vs, tail, i) <==> |o.values| == i)
            && (EndsAt(vs, tail, i) ==> o == Outcome(vs[..i], |BytesOfAll(vs[..i])|, i < |vs|))
  {
    var data := BytesOfAll(vs) + tail;
    assert data[0..] == data;
    var end := EndExists(vs, tail);
    ReplayOfBytes(data, 0, vs, tail, end);
    if EndsAt(vs, tail, i) {
      ReplayOfBytes(data, 0, vs, tail, i);
    }
  }

  /** The last value takes a byte, or it is an empty read and all values before it were havocs of
      null pointers. */
  predicate LastEndsTheStream(vs: seq<Value>)
    requires vs != []
  {
    var n := |vs| - 1;
    || Size(CallOf(vs[n])) > 0
    || (!vs[n].Untouched? && forall j :: 0 <= j < n ==> vs[j].Untouched?)
  }

  /** With no trailing byte exactly the last call bails out, if and only if the last value is of
      that kind. */
  lemma {:induction false} NoTrailingByte(vs: seq<Value>)
    requires AllRepresentable(vs) && vs != []
    ensures AllRepresentable(vs[..|vs| - 1])
    ensures var o := Replay(BytesOfAll(vs), 0, CallsOf(vs));
            && (o.bailed && |o.values| == |vs| - 1 <==> LastEndsTheStream(vs))
            && (LastEndsTheStream(vs) ==> o == Outcome(vs[..|vs| - 1], |BytesOfAll(vs[..|vs| - 1])|, true))
  {
    var n := |vs| - 1;
    assert BytesOfAll(vs) + [] == BytesOfAll(vs);
    StopsExactlyAtEnd(vs, [], n);
    EndsAtLast(vs);
  }

  lemma {:induction false} EndsAtLast(vs: seq<Value>)
    requires AllRepresentable(vs) && vs != []
    ensures EndsAt(vs, [], |vs| - 1) <==> LastEndsTheStream(vs)
  {
    var n := |vs| - 1;
    assert vs[n + 1..] == [];
    forall j {:trigger Left(vs, [], j)} | 0 < j <= n && Size(CallOf(vs[n])) > 0
      ensures Left(vs, [], j) != []
    {
      LastByteCounts(vs[j..]);
    }
    if EndsAt(vs, [], n) && Size(CallOf(vs[n])) == 0 {
      AllBeforeUntouched(vs, n);
    }
  }

  /** Where no read from the j-th value on ends the stream and the last value takes no byte, the
      stream is over already, so the values before it were havocs of null pointers. */
  lemma {:induction false} AllBeforeUntouched(vs: seq<Value>, j: nat)
    requires AllRepresentable(vs) && vs != [] && Size(CallOf(vs[|vs| - 1])) == 0
    requires j < |vs| && EndsAt(vs, [], |vs| - 1)
    requires forall k :: j <= k < |vs| - 1 ==> vs[k].Untouched?
    ensures forall k :: 0 <= k < |vs| - 1 ==> vs[k].Untouched?
  {
    if j > 0 {
      NoBytes(vs[j..]);
      assert Left(vs, [], j) == [];
      assert vs[j - 1].Untouched?;
      AllBeforeUntouched(vs, j - 1);
    }
  }

  lemma {:induction false} NoBytes(vs: seq<Value>)
    requires AllRepresentable(vs) && forall k :: 0 <= k < |vs| ==> Size(CallOf(vs[k])) == 0
    ensures BytesOfAll(vs) == []
  {
    if vs != [] {
      NoBytes(vs[1..]);
    }
  }

  lemma {:induction false} LastByteCounts(vs: seq<Value>)
    requires AllRepresentable(vs) && vs != [] && Size(CallOf(vs[|vs| - 1])) > 0
    ensures BytesOfAll(vs) != []
  {
    if |vs| > 1 {
      LastByteCounts(vs[1..]);
    }
  }

  /** An input where it is not: before an empty block an earlier call bails out. */
  lemma {:induction false} EmptyBlockBailsEarly()
    ensures var vs := [Unsigned(7, 1), Block([])];
            AllRepresentable(vs) && Replay(BytesOfAll(vs), 0, CallsOf(vs)) == Outcome([], 0, true)
  {
    var vs := [Unsigned(7, 1), Block([])];
    assert Range(1) == 256 * Range(0);
    assert vs[1..] == [Block([])] && vs[1..][1..] == [];
    assert Left(vs, [], 1) == [];
    var data := BytesOfAll(vs);
    assert data[0..] == data == data + [];
    ReplayOfBytes(data, 0, vs, [], 0);
  }
}
