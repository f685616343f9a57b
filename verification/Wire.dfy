/** Protocol-buffer framing: `_iter_fields` in `core/mvt.py` with `_tag`, `_bytes_field`
    and `_varint_field` in `scripts/make-synthetic-fixtures.py`. */
module Wire {
  import opened Varints
  import opened BinaryFloats

  /** A field's value as `_iter_fields` yields it. */
  datatype FieldValue =
    | Number(n: nat)
    | Payload(bytes: Bytes)
    | Float(f: PyFloat)

  datatype Field = Field(number: nat, value: FieldValue)

  // ----- reading -----

  /** The value of a field of the given wire type at the front of `s`, and its size. */
  function ValueAt(s: Bytes, wire: nat): (r: Result<(FieldValue, nat)>)
    ensures r.Ok? ==> r.value.1 <= |s|
  {
    if wire == 0 then
      match ReadVarint(s)
      case Err(e) => Err(e)
      case Ok((v, n)) => Ok((Number(v), n))
    else if wire == 2 then
      match ReadVarint(s)
      case Err(e) => Err(e)
      case Ok((length, n)) =>
        if n + length > |s| then Err(TruncatedField) else Ok((Payload(s[n..n + length]), n + length))
    else if wire == 5 then
      if 4 > |s| then Err(TruncatedField) else Ok((Float(UnpackSingle(s[..4])), 4))
    else if wire == 1 then
      if 8 > |s| then Err(TruncatedField) else Ok((Float(UnpackDouble(s[..8])), 8))
    else Err(UnsupportedWireType)
  }

  /** The field at the front of `s` and the bytes it takes. */
  function NextField(s: Bytes): (r: Result<(Field, nat)>)
    ensures r.Ok? ==> 0 < r.value.1 <= |s|
  {
    match ReadVarint(s)
    case Err(e) => Err(e)
    case Ok((key, k)) =>
      match ValueAt(s[k..], key % 8)
      case Err(e) => Err(e)
      case Ok((v, n)) => Ok((Field(key / 8, v), k + n))
  }

  function FieldsOf(buf: Bytes): Result<seq<Field>> {
    if buf == [] then Ok([])
    else
      match NextField(buf)
      case Err(e) => Err(e)
      case Ok((f, n)) => Prepend(f, FieldsOf(buf[n..]))
  }

  /** Where a reading of `buf[start..]` ends in `buf`. */
  function Located<T>(r: Result<(T, nat)>, start: nat): Result<(T, nat)> {
    match r
    case Ok((v, n)) => Ok((v, start + n))
    case Err(e) => Err(e)
  }

  method ReadNumber(buf: Bytes, start: nat) returns (r: Result<(nat, nat)>)
    requires start <= |buf|
    ensures r == Located(ReadVarint(buf[start..]), start)
  {
    ReadingAt(buf[start..], start);
    r := ReadVarintAt(buf, start);
  }

  method ReadValue(buf: Bytes, pos: nat, wire: nat) returns (r: Result<(FieldValue, nat)>)
    requires pos <= |buf|
    ensures r == Located(ValueAt(buf[pos..], wire), pos)
  {
    ghost var s := buf[pos..];
    if wire == 0 {
      var value := ReadNumber(buf, pos);
      if value.Err? {
        return Err(value.error);
      }
      return Ok((Number(value.value.0), value.value.1));
    } else if wire == 2 {
      var length := ReadNumber(buf, pos);
      if length.Err? {
        return Err(length.error);
      }
      var (size, from) := length.value;
      if from + size > |buf| {
        return Err(TruncatedField);
      }
      assert s[from - pos..from - pos + size] == buf[from..from + size];
      return Ok((Payload(buf[from..from + size]), from + size));
    } else if wire == 5 {
      if pos + 4 > |buf| {
        return Err(TruncatedField);
      }
      assert s[..4] == buf[pos..pos + 4];
      return Ok((Float(UnpackSingle(buf[pos..pos + 4])), pos + 4));
    } else if wire == 1 {
      if pos + 8 > |buf| {
        return Err(TruncatedField);
      }
      assert s[..8] == buf[pos..pos + 8];
      return Ok((Float(UnpackDouble(buf[pos..pos + 8])), pos + 8));
    } else {
      return Err(UnsupportedWireType);
    }
  }

  /** One turn of the loop in `_iter_fields`. */
  method ReadField(buf: Bytes, start: nat) returns (r: Result<(Field, nat)>)
    requires start <= |buf|
    ensures r == Located(NextField(buf[start..]), start)
  {
    var key := ReadNumber(buf, start);
    if key.Err? {
      return Err(key.error);
    }
    var (tag, pos) := key.value;
    assert buf[start..][pos - start..] == buf[pos..];
    var value := ReadValue(buf, pos, tag % 8);
    if value.Err? {
      return Err(value.error);
    }
    return Ok((Field(tag / 8, value.value.0), value.value.1));
  }

  /** The walk at `pos` is the field there, then the walk behind it. */
  lemma {:induction false} FieldsFrom(buf: Bytes, pos: nat, field: Field, next: nat)
    requires pos < |buf| && Located(NextField(buf[pos..]), pos) == Ok((field, next))
    ensures pos < next <= |buf| && FieldsOf(buf[pos..]) == Prepend(field, FieldsOf(buf[next..]))
  {
    assert buf[pos..][next - pos..] == buf[next..];
  }

  lemma {:induction false} FieldsStop(s: Bytes)
    requires s != [] && NextField(s).Err?
    ensures FieldsOf(s) == Err(NextField(s).error)
  {
  }

  method IterFields(buf: Bytes) returns (r: Result<seq<Field>>)
    ensures r == FieldsOf(buf)
  {
    var out: seq<Field>, pos: nat := [], 0;
    AfterNothing(out, FieldsOf(buf));
    assert buf[0..] == buf;
    while pos < |buf|
      invariant pos <= |buf|
      invariant FieldsOf(buf) == After(out, FieldsOf(buf[pos..]))
    {
      var read := ReadField(buf, pos);
      if read.Err? {
        FieldsStop(buf[pos..]);
        return Err(read.error);
      }
      var (field, next) := read.value;
      FieldsFrom(buf, pos, field, next);
      AfterNext(out, field, FieldsOf(buf[next..]));
      out, pos := out + [field], next;
    }
    AfterNothing(out, FieldsOf([]));
    return Ok(out);
  }

  // ----- writing -----

  function Tag(number: nat, wire: nat): (r: Bytes)
    requires wire < 8
    ensures r != []
  {
    VarintBytes(number * 8 + wire)
  }

  function BytesField(number: nat, payload: Bytes): (r: Bytes)
    ensures r != []
  {
    Tag(number, 2) + VarintBytes(|payload|) + payload
  }

  function VarintField(number: nat, value: nat): (r: Bytes)
    ensures r != []
  {
    Tag(number, 0) + VarintBytes(value)
  }

  function FloatField(number: nat, le: Bytes): (r: Bytes)
    ensures r != []
  {
    Tag(number, 5) + le
  }

  // ----- what was written is read back -----

  lemma {:induction false} ReadTag(number: nat, wire: nat, rest: Bytes)
    requires wire < 8 && number * 8 + wire < VARINT_LIMIT
    ensures ReadVarint(Tag(number, wire) + rest) == Ok((number * 8 + wire, |Tag(number, wire)|))
    ensures (number * 8 + wire) / 8 == number && (number * 8 + wire) % 8 == wire
  {
    VarintRoundTrip(number * 8 + wire, rest);
  }

  lemma {:induction false} ReadBytesField(number: nat, payload: Bytes, rest: Bytes)
    requires number * 8 + 2 < VARINT_LIMIT && |payload| < VARINT_LIMIT
    ensures NextField(BytesField(number, payload) + rest)
         == Ok((Field(number, Payload(payload)), |BytesField(number, payload)|))
  {
    var s := BytesField(number, payload) + rest;
    var body := VarintBytes(|payload|) + payload + rest;
    var n := |VarintBytes(|payload|)|;
    assert s == Tag(number, 2) + body;
    ReadTag(number, 2, body);
    assert s[|Tag(number, 2)|..] == body == VarintBytes(|payload|) + (payload + rest);
    VarintRoundTrip(|payload|, payload + rest);
    assert body[n..n + |payload|] == payload;
  }

  lemma {:induction false} ReadVarintField(number: nat, value: nat, rest: Bytes)
    requires number * 8 < VARINT_LIMIT && value < VARINT_LIMIT
    ensures NextField(VarintField(number, value) + rest)
         == Ok((Field(number, Number(value)), |VarintField(number, value)|))
  {
    var s := VarintField(number, value) + rest;
    assert s == Tag(number, 0) + (VarintBytes(value) + rest);
    ReadTag(number, 0, VarintBytes(value) + rest);
    assert s[|Tag(number, 0)|..] == VarintBytes(value) + rest;
    VarintRoundTrip(value, rest);
  }

  lemma {:induction false} ReadFloatField(number: nat, le: Bytes, rest: Bytes)
    requires number * 8 + 5 < VARINT_LIMIT && |le| == 4
    ensures NextField(FloatField(number, le) + rest)
         == Ok((Field(number, Float(UnpackSingle(le))), |FloatField(number, le)|))
  {
    var s := FloatField(number, le) + rest;
    assert s == Tag(number, 5) + (le + rest);
    ReadTag(number, 5, le + rest);
    assert s[|Tag(number, 5)|..] == le + rest;
    assert (le + rest)[..4] == le;
  }

  /** Walking past one written field. */
  lemma {:induction false} WalkField(written: Bytes, f: Field, rest: Bytes)
    requires NextField(written + rest) == Ok((f, |written|)) && written != []
    ensures FieldsOf(written + rest) == Prepend(f, FieldsOf(rest))
  {
    assert (written + rest)[|written|..] == rest;
  }

  // ----- framing is local -----

  lemma {:induction false} VarintIsLocal(s: Bytes, rest: Bytes)
    requires ReadVarint(s).Ok?
    ensures ReadVarint(s + rest) == ReadVarint(s)
  {
    ReadIsLocal(s, rest, 0);
  }

  lemma {:induction false} ValueIsLocal(s: Bytes, rest: Bytes, wire: nat)
    requires ValueAt(s, wire).Ok?
    ensures ValueAt(s + rest, wire) == ValueAt(s, wire)
  {
    if wire == 0 || wire == 2 {
      VarintIsLocal(s, rest);
      var (length, n) := ReadVarint(s).value;
      if wire == 2 {
        assert (s + rest)[n..n + length] == s[n..n + length];
      }
    } else if wire == 5 {
      assert (s + rest)[..4] == s[..4];
    } else {
      assert (s + rest)[..8] == s[..8];
    }
  }

  lemma {:induction false} FieldIsLocal(s: Bytes, rest: Bytes)
    requires NextField(s).Ok?
    ensures NextField(s + rest) == NextField(s)
  {
    VarintIsLocal(s, rest);
    var (key, k) := ReadVarint(s).value;
    assert (s + rest)[k..] == s[k..] + rest;
    ValueIsLocal(s[k..], rest, key % 8);
  }

  /** A well-formed message followed by anything is walked field by field first. */
  lemma {:induction false} FieldsConcatenate(a: Bytes, b: Bytes)
    requires FieldsOf(a).Ok?
    ensures FieldsOf(a + b) == After(FieldsOf(a).value, FieldsOf(b))
    decreases |a|
  {
    if a == [] {
      assert a + b == b;
      AfterNothing<Field>([], FieldsOf(b));
    } else {
      FieldIsLocal(a, b);
      var (f, n) := NextField(a).value;
      assert (a + b)[n..] == a[n..] + b;
      FieldsConcatenate(a[n..], b);
      AfterPrepended(f, FieldsOf(a[n..]).value, FieldsOf(b));
    }
  }

  lemma {:induction false} AfterPrepended<T>(f: T, done: seq<T>, r: Result<seq<T>>)
    ensures Prepend(f, After(done, r)) == After([f] + done, r)
  {
    if r.Ok? {
      assert [f] + (done + r.value) == ([f] + done) + r.value;
    }
  }
}
