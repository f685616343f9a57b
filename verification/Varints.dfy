/** Base-128 varints and zigzag: `_read_varint`, `_zigzag` and `_unpack_varints` in
    `core/mvt.py` with `_varint` and `_zz` in `scripts/make-synthetic-fixtures.py`.

    Bit operations are written as arithmetic: `& 0x7F` is `% 128`, `>> 7` is `/ 128`,
    and an OR into bits that are still clear is an addition. */
module Varints {
  import opened Wrappers

  type Bytes = seq<byte>

  datatype Error =
    | TruncatedVarint
    | VarintTooLong
    | TruncatedField
    | UnsupportedWireType
    | WrongType
    | TruncatedGeometry
    | UnknownCommand

  datatype Result<+T> = Ok(value: T) | Err(error: Error)

  // 2^70: ten groups of seven bits
  const VARINT_LIMIT: nat := 0x40_0000_0000_0000_0000

  /** `v << n`. */
  function ShiftLeft(v: nat, n: nat): nat {
    if n == 0 then v else 2 * ShiftLeft(v, n - 1)
  }

  lemma {:induction false} ShiftAdds(u: nat, v: nat, n: nat)
    ensures ShiftLeft(u + v, n) == ShiftLeft(u, n) + ShiftLeft(v, n)
  {
    if n > 0 {
      ShiftAdds(u, v, n - 1);
    }
  }

  lemma {:induction false} ShiftByGroup(v: nat, n: nat)
    ensures ShiftLeft(v, n + 7) == ShiftLeft(128 * v, n)
  {
    if n > 0 {
      ShiftByGroup(v, n - 1);
    } else {
      assert ShiftLeft(v, 1) == 2 * v;
      assert ShiftLeft(v, 2) == 4 * v;
      assert ShiftLeft(v, 3) == 8 * v;
      assert ShiftLeft(v, 4) == 16 * v;
      assert ShiftLeft(v, 5) == 32 * v;
      assert ShiftLeft(v, 6) == 64 * v;
      assert ShiftLeft(v, 7) == 128 * v;
    }
  }

  // ----- reading -----

  /** The value at the front of `s` and the bytes it takes, `k` groups into a varint. */
  function ReadFrom(s: Bytes, k: nat): (r: Result<(nat, nat)>)
    ensures r.Ok? ==> 0 < r.value.1 <= |s|
    decreases |s|
  {
    if s == [] then Err(TruncatedVarint)
    else if s[0] < 128 then Ok((s[0], 1))
    else if 7 * (k + 1) > 63 then Err(VarintTooLong)
    else
      match ReadFrom(s[1..], k + 1)
      case Ok((v, n)) => Ok((s[0] - 128 + 128 * v, n + 1))
      case Err(e) => Err(e)
  }

  function ReadVarint(s: Bytes): (r: Result<(nat, nat)>)
    ensures r.Ok? ==> 0 < r.value.1 <= |s|
  {
    ReadFrom(s, 0)
  }

  /** What a reading resumed after `n` bytes makes of the bits already `low`. */
  function Resumed(r: Result<(nat, nat)>, low: nat, shift: nat, n: nat): Result<(nat, nat)> {
    match r
    case Ok((v, m)) => Ok((low + ShiftLeft(v, shift), n + m))
    case Err(e) => Err(e)
  }

  function WithGroup(low: nat, b: byte, shift: nat): nat {
    low + ShiftLeft(b % 128, shift)
  }

  lemma {:induction false} ResumeNext(s: Bytes, k: nat, low: nat, shift: nat, n: nat)
    requires s != [] && shift == 7 * k
    ensures Resumed(ReadFrom(s, k), low, shift, n)
         == if s[0] < 128 then Ok((WithGroup(low, s[0], shift), n + 1))
            else if shift + 7 > 63 then Err(VarintTooLong)
            else Resumed(ReadFrom(s[1..], k + 1), WithGroup(low, s[0], shift), shift + 7, n + 1)
  {
    if s[0] >= 128 && shift + 7 <= 63 {
      var r := ReadFrom(s[1..], k + 1);
      if r.Ok? {
        ShiftByGroup(r.value.0, shift);
        ShiftAdds(s[0] - 128, 128 * r.value.0, shift);
      }
    }
  }

  method ReadVarintAt(buf: Bytes, start: nat) returns (r: Result<(nat, nat)>)
    requires start <= |buf|
    ensures r == Resumed(ReadVarint(buf[start..]), 0, 0, start)
  {
    var pos: nat, result: nat, shift: nat := start, 0, 0;
    while true
      invariant start <= pos <= |buf| && shift == 7 * (pos - start) <= 63
      invariant Resumed(ReadVarint(buf[start..]), 0, 0, start)
             == Resumed(ReadFrom(buf[pos..], pos - start), result, shift, pos)
      decreases |buf| - pos
    {
      if pos >= |buf| {
        return Err(TruncatedVarint);
      }
      ghost var rest := buf[pos..];
      ResumeNext(rest, pos - start, result, shift, pos);
      assert rest[1..] == buf[pos + 1..];
      var b := buf[pos];
      pos := pos + 1;
      result := WithGroup(result, b, shift);
      if b < 128 {
        return Ok((result, pos));
      }
      shift := shift + 7;
      if shift > 63 {
        return Err(VarintTooLong);
      }
    }
  }

  /** Reading at `start` is reading the rest of the buffer from there. */
  lemma {:induction false} ReadingAt(s: Bytes, start: nat)
    ensures Resumed(ReadVarint(s), 0, 0, start)
         == match ReadVarint(s)
            case Ok((v, n)) => Ok((v, start + n))
            case Err(e) => Err(e)
  {
  }

  // ----- writing -----

  function VarintBytes(v: nat): (r: Bytes)
    ensures r != []
  {
    if v < 128 then [v] else [v % 128 + 128] + VarintBytes(v / 128)
  }

  method Varint(v: nat) returns (out: Bytes)
    ensures out == VarintBytes(v)
  {
    out := [];
    var value := v;
    while true
      invariant out + VarintBytes(value) == VarintBytes(v)
      decreases value
    {
      var chunk := value % 128;
      value := value / 128;
      if value != 0 {
        out := out + [chunk + 128];
      } else {
        out := out + [chunk];
        return;
      }
    }
  }

  // ----- reading what was written -----

  /** Values that fit when `k` groups have been used. */
  function Room(k: nat): nat
    decreases 9 - k
  {
    if k >= 9 then 128 else 128 * Room(k + 1)
  }

  lemma {:induction false} ReadWritten(v: nat, k: nat, rest: Bytes)
    requires k <= 9
    ensures ReadFrom(VarintBytes(v) + rest, k)
         == if v < Room(k) then Ok((v, |VarintBytes(v)|)) else Err(VarintTooLong)
    decreases v
  {
    var s := VarintBytes(v) + rest;
    if v >= 128 {
      assert s[1..] == VarintBytes(v / 128) + rest;
      if k < 9 {
        ReadWritten(v / 128, k + 1, rest);
        assert Room(k) == 128 * Room(k + 1);
        assert s[0] - 128 + 128 * (v / 128) == v;
      }
    } else {
      RoomAtLeast(k);
    }
  }

  lemma {:induction false} RoomIsLimit()
    ensures Room(0) == VARINT_LIMIT
  {
    assert Room(9) == 128;
    assert Room(8) == 128 * Room(9);
    assert Room(7) == 128 * Room(8);
    assert Room(6) == 128 * Room(7);
    assert Room(5) == 128 * Room(6);
    assert Room(4) == 128 * Room(5);
    assert Room(3) == 128 * Room(4);
    assert Room(2) == 128 * Room(3);
    assert Room(1) == 128 * Room(2);
  }

  /** A varint is read back, whatever follows it, exactly when it is below 2^70. */
  lemma {:induction false} VarintRoundTrip(v: nat, rest: Bytes)
    ensures ReadVarint(VarintBytes(v) + rest)
         == if v < VARINT_LIMIT then Ok((v, |VarintBytes(v)|)) else Err(VarintTooLong)
  {
    ReadWritten(v, 0, rest);
    RoomIsLimit();
  }

  lemma {:induction false} PrefixFails(v: nat, k: nat, n: nat)
    requires n < |VarintBytes(v)|
    ensures ReadFrom(VarintBytes(v)[..n], k).Err?
    ensures n < 10 - k ==> ReadFrom(VarintBytes(v)[..n], k) == Err(TruncatedVarint)
    decreases v
  {
    if n > 0 {
      assert VarintBytes(v)[..n][1..] == VarintBytes(v / 128)[..n - 1];
      PrefixFails(v / 128, k + 1, n - 1);
    }
  }

  /** No proper prefix of a varint reads as one. */
  lemma {:induction false} VarintPrefixRejected(v: nat, n: nat)
    requires n < |VarintBytes(v)|
    ensures ReadVarint(VarintBytes(v)[..n]).Err?
    ensures v < VARINT_LIMIT ==> ReadVarint(VarintBytes(v)[..n]) == Err(TruncatedVarint)
  {
    PrefixFails(v, 0, n);
    if v < VARINT_LIMIT {
      VarintLength(v);
    }
  }

  lemma {:induction false} VarintLengthUpTo(v: nat, k: nat)
    requires k <= 9 && v < Room(k)
    ensures |VarintBytes(v)| <= 10 - k
    decreases v
  {
    if v >= 128 {
      assert k < 9;
      VarintLengthUpTo(v / 128, k + 1);
    }
  }

  lemma {:induction false} VarintLength(v: nat)
    requires v < VARINT_LIMIT
    ensures |VarintBytes(v)| <= 10
  {
    RoomIsLimit();
    VarintLengthUpTo(v, 0);
  }

  /** Only the bytes it consumed decide what a successful reading returns. */
  lemma {:induction false} ReadIsLocal(s: Bytes, rest: Bytes, k: nat)
    requires ReadFrom(s, k).Ok?
    ensures ReadFrom(s + rest, k) == ReadFrom(s, k)
    decreases |s|
  {
    if s[0] >= 128 {
      assert (s + rest)[1..] == s[1..] + rest;
      ReadIsLocal(s[1..], rest, k + 1);
    }
  }

  /** Whatever is read is below 2^70, however many redundant groups encode it. */
  lemma {:induction false} ReadBelowRoom(s: Bytes, k: nat)
    requires k <= 9 && ReadFrom(s, k).Ok?
    ensures ReadFrom(s, k).value.0 < Room(k)
    decreases |s|
  {
    if s[0] >= 128 {
      ReadBelowRoom(s[1..], k + 1);
    } else {
      RoomAtLeast(k);
    }
  }

  lemma {:induction false} RoomAtLeast(k: nat)
    requires k <= 9
    ensures Room(k) >= 128
    decreases 9 - k
  {
    if k < 9 {
      RoomAtLeast(k + 1);
    }
  }

  // ----- zigzag -----

  /** `(value >> 1) ^ -(value & 1)`: an XOR with -1 is the complement. */
  function ZigZag(value: nat): int {
    if value % 2 == 0 then value / 2 else -(value / 2) - 1
  }

  function Zz(value: int): nat {
    if value >= 0 then 2 * value else 2 * (-value - 1) + 1
  }

  /** Zigzag is a bijection between the integers and the naturals. */
  lemma {:induction false} ZigZagInverse(x: int, n: nat)
    ensures ZigZag(Zz(x)) == x && Zz(ZigZag(n)) == n
  {
  }

  // ----- packed arrays -----

  function VarintsOf(buf: Bytes): Result<seq<nat>> {
    if buf == [] then Ok([])
    else
      match ReadVarint(buf)
      case Err(e) => Err(e)
      case Ok((v, n)) => Prepend(v, VarintsOf(buf[n..]))
  }

  function Prepend<T>(v: T, r: Result<seq<T>>): Result<seq<T>> {
    match r
    case Ok(vs) => Ok([v] + vs)
    case Err(e) => Err(e)
  }

  /** The outcome of a loop that has collected `done` and has `r` still to come. */
  function After<T>(done: seq<T>, r: Result<seq<T>>): Result<seq<T>> {
    match r
    case Ok(vs) => Ok(done + vs)
    case Err(e) => Err(e)
  }

  lemma {:induction false} AfterNothing<T>(done: seq<T>, r: Result<seq<T>>)
    ensures After([], r) == r && After(done, Ok([])) == Ok(done)
  {
    if r.Ok? {
      assert [] + r.value == r.value;
    }
    assert done + [] == done;
  }

  lemma {:induction false} AfterNext<T>(done: seq<T>, v: T, r: Result<seq<T>>)
    ensures After(done, Prepend(v, r)) == After(done + [v], r)
  {
    if r.Ok? {
      assert done + ([v] + r.value) == (done + [v]) + r.value;
    }
  }

  method UnpackVarints(buf: Bytes) returns (r: Result<seq<nat>>)
    ensures r == VarintsOf(buf)
  {
    var out: seq<nat>, pos: nat := [], 0;
    AfterNothing(out, VarintsOf(buf));
    assert buf[0..] == buf;
    while pos < |buf|
      invariant pos <= |buf|
      invariant VarintsOf(buf) == After(out, VarintsOf(buf[pos..]))
    {
      ghost var rest := buf[pos..];
      ReadingAt(rest, pos);
      var read := ReadVarintAt(buf, pos);
      if read.Err? {
        return Err(read.error);
      }
      var (v, next) := read.value;
      assert rest[next - pos..] == buf[next..];
      AfterNext(out, v, VarintsOf(buf[next..]));
      out, pos := out + [v], next;
    }
    AfterNothing(out, VarintsOf([]));
    return Ok(out);
  }

  function PackVarints(vs: seq<nat>): Bytes {
    if vs == [] then [] else VarintBytes(vs[0]) + PackVarints(vs[1..])
  }

  lemma {:induction false} PackedRoundTrip(vs: seq<nat>)
    requires forall k | 0 <= k < |vs| :: vs[k] < VARINT_LIMIT
    ensures VarintsOf(PackVarints(vs)) == Ok(vs)
  {
    if vs != [] {
      var buf := PackVarints(vs);
      VarintRoundTrip(vs[0], PackVarints(vs[1..]));
      assert buf[|VarintBytes(vs[0])|..] == PackVarints(vs[1..]);
      PackedRoundTrip(vs[1..]);
      assert vs == [vs[0]] + vs[1..];
    }
  }
}
