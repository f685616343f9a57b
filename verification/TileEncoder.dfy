/** The fixture encoder: `_mvt_value` and `encode_layer` in
    `scripts/make-synthetic-fixtures.py`, from integer pixel points on. */
module TileEncoder {
  import opened Wrappers
  import opened Varints
  import opened BinaryFloats
  import opened Wire
  import opened Tiles

  /** A feature to write: its pixels and its properties in dictionary order. */
  datatype SourceFeature = SourceFeature(line: seq<Point>, props: seq<(Bytes, Option<Value>)>)

  datatype SourceLayer = SourceLayer(name: Bytes, features: seq<SourceFeature>)

  /** The values `_mvt_value` can write: str, a float that a single does not overflow on,
      a non-negative int, bool. */
  predicate Encodable(v: Value) {
    match v
    case Text(_) => true
    case Boolean(_) => true
    case Integer(i) => i >= 0
    case Real(f) => FitsSingle(f)
    case _ => false
  }

  // ----- Python equality -----

  function Signed(negative: bool, units: int): int {
    if negative then -units else units
  }

  /** The number behind a value, in the units of floats. */
  function NumberIn(v: Value): Option<int> {
    match v
    case Boolean(b) => Some(if b then ONE else 0)
    case Integer(i) => Some(i * ONE)
    case Real(Finite(negative, units)) => Some(Signed(negative, units))
    case _ => None
  }

  /** `==` as the interning list uses it: numbers compare across types. */
  predicate PyEq(v: Value, w: Value) {
    v == w || (NumberIn(v).Some? && NumberIn(v) == NumberIn(w))
  }

  // ----- interning -----

  datatype Dictionaries = Dictionaries(keys: seq<Bytes>, values: seq<Value>)

  predicate Interned(values: seq<Value>, v: Value) {
    exists k | 0 <= k < |values| :: PyEq(values[k], v)
  }

  /** `values.index(v)`. */
  function ValueIndex(values: seq<Value>, v: Value): (i: nat)
    requires Interned(values, v)
    ensures i < |values| && PyEq(values[i], v) && forall k | 0 <= k < i :: !PyEq(values[k], v)
  {
    if PyEq(values[0], v) then 0
    else
      assert forall k | 0 < k < |values| :: values[k] == values[1..][k - 1];
      1 + ValueIndex(values[1..], v)
  }

  /** `keys.index(key)`. */
  function KeyIndex(keys: seq<Bytes>, key: Bytes): (i: nat)
    requires key in keys
    ensures i < |keys| && keys[i] == key && key !in keys[..i]
  {
    if keys[0] == key then 0
    else
      assert forall i | 0 < i <= |keys| :: keys[..i] == [keys[0]] + keys[1..][..i - 1];
      1 + KeyIndex(keys[1..], key)
  }

  function WithKey(keys: seq<Bytes>, key: Bytes): (r: seq<Bytes>)
    ensures key in r
  {
    if key in keys then keys else keys + [key]
  }

  function WithValue(values: seq<Value>, v: Value): (r: seq<Value>)
    ensures Interned(r, v)
  {
    if Interned(values, v) then values
    else
      assert PyEq((values + [v])[|values|], v);
      values + [v]
  }

  /** The dictionaries and the tags after interning one feature's properties. */
  function InternProps(d: Dictionaries, props: seq<(Bytes, Option<Value>)>): (Dictionaries, seq<nat>)
    decreases |props|
  {
    if props == [] then (d, [])
    else if props[0].1.None? then InternProps(d, props[1..])
    else
      var (d', tag) := InternOne(d, props[0].0, props[0].1.value);
      var (last, tags) := InternProps(d', props[1..]);
      (last, tag + tags)
  }

  function InternOne(d: Dictionaries, key: Bytes, v: Value): (Dictionaries, seq<nat>) {
    var d' := Dictionaries(WithKey(d.keys, key), WithValue(d.values, v));
    (d', [KeyIndex(d'.keys, key), ValueIndex(d'.values, v)])
  }

  // ----- geometry -----

  /** Each point relative to the one before. */
  function Deltas(points: seq<Point>, cursor: Point): seq<nat> {
    if points == [] then []
    else [Zz(points[0].0 - cursor.0), Zz(points[0].1 - cursor.1)] + Deltas(points[1..], points[0])
  }

  function CommandsFor(points: seq<Point>): seq<nat>
    requires points != []
  {
    [8 + MOVE_TO] + Deltas(points[..1], (0, 0))
    + (if |points| > 1 then [(|points| - 1) * 8 + LINE_TO] + Deltas(points[1..], points[0]) else [])
  }

  // ----- bytes -----

  function WriteField(f: Field): Bytes {
    match f.value
    case Payload(bytes) => BytesField(f.number, bytes)
    case Number(n) => VarintField(f.number, n)
    case Float(x) => FloatField(f.number, PackSingle(x))
  }

  function WriteFields(fields: seq<Field>): Bytes {
    if fields == [] then [] else WriteField(fields[0]) + WriteFields(fields[1..])
  }

  /** `_mvt_value` without its outer field. */
  function ValueBytes(v: Value): Bytes
    requires Encodable(v)
  {
    match v
    case Boolean(b) => VarintField(7, if b then 1 else 0)
    case Real(f) => FloatField(2, PackSingle(f))
    case Integer(i) => VarintField(4, i)
    case Text(utf8) => BytesField(1, utf8)
  }

  function FeatureBytes(tags: seq<nat>, line: seq<Point>): Bytes
    requires line != []
  {
    BytesField(2, PackVarints(tags)) + VarintField(3, 2) + BytesField(4, PackVarints(CommandsFor(line)))
  }

  predicate EncodableFeature(f: SourceFeature) {
    && f.line != []
    && (forall k | 0 <= k < |f.props| && f.props[k].1.Some? :: Encodable(f.props[k].1.value))
    && (forall a, b | 0 <= a < b < |f.props| :: f.props[a].0 != f.props[b].0)
  }

  /** What the encoder demands: a point in every line, dictionaries as properties. */
  predicate EncodableLayer(layer: SourceLayer) {
    forall k | 0 <= k < |layer.features| :: EncodableFeature(layer.features[k])
  }

  function InternFeatures(d: Dictionaries, features: seq<SourceFeature>): (Dictionaries, seq<Bytes>)
    requires forall k | 0 <= k < |features| :: EncodableFeature(features[k])
    decreases |features|
  {
    if features == [] then (d, [])
    else
      assert EncodableFeature(features[0]);
      var (d', tags) := InternProps(d, features[0].props);
      var (last, bodies) := InternFeatures(d', features[1..]);
      (last, [FeatureBytes(tags, features[0].line)] + bodies)
  }

  predicate AllEncodable(values: seq<Value>) {
    forall k | 0 <= k < |values| :: Encodable(values[k])
  }

  lemma {:induction false} InternPropsEncodable(d: Dictionaries, props: seq<(Bytes, Option<Value>)>)
    requires AllEncodable(d.values)
    requires forall k | 0 <= k < |props| && props[k].1.Some? :: Encodable(props[k].1.value)
    ensures AllEncodable(InternProps(d, props).0.values)
    decreases |props|
  {
    if props != [] {
      var d' := if props[0].1.None? then d else InternOne(d, props[0].0, props[0].1.value).0;
      InternPropsEncodable(d', props[1..]);
    }
  }

  lemma {:induction false} InternFeaturesEncodable(d: Dictionaries, features: seq<SourceFeature>)
    requires AllEncodable(d.values)
    requires forall k | 0 <= k < |features| :: EncodableFeature(features[k])
    ensures AllEncodable(InternFeatures(d, features).0.values)
    decreases |features|
  {
    if features != [] {
      InternPropsEncodable(d, features[0].props);
      InternFeaturesEncodable(InternProps(d, features[0].props).0, features[1..]);
    }
  }

  function PayloadFields(number: nat, payloads: seq<Bytes>): (r: seq<Field>)
    ensures |r| == |payloads|
  {
    seq(|payloads|, k requires 0 <= k < |payloads| => Field(number, Payload(payloads[k])))
  }

  function ValuePayloads(values: seq<Value>): (r: seq<Bytes>)
    requires AllEncodable(values)
    ensures |r| == |values| && forall k | 0 <= k < |r| :: r[k] == ValueBytes(values[k])
    decreases |values|
  {
    if values == [] then []
    else
      assert Encodable(values[0]) && AllEncodable(values[1..]);
      [ValueBytes(values[0])] + ValuePayloads(values[1..])
  }

  /** The fields of the layer message in the order the encoder writes them. */
  function LayerMessage(name: Bytes, bodies: seq<Bytes>, d: Dictionaries): seq<Field>
    requires AllEncodable(d.values)
  {
    [Field(1, Payload(name))] + PayloadFields(2, bodies) + PayloadFields(3, d.keys)
    + PayloadFields(4, ValuePayloads(d.values)) + [Field(5, Number(DEFAULT_EXTENT))]
  }

  function LayerBytes(layer: SourceLayer): Bytes
    requires EncodableLayer(layer)
  {
    var (d, bodies) := InternFeatures(Dictionaries([], []), layer.features);
    InternFeaturesEncodable(Dictionaries([], []), layer.features);
    BytesField(3, WriteFields(LayerMessage(layer.name, bodies, d)))
  }

  // ----- the method -----

  lemma {:induction false} PackAppend(vs: seq<nat>, v: nat)
    ensures PackVarints(vs + [v]) == PackVarints(vs) + VarintBytes(v)
    decreases |vs|
  {
    if vs == [] {
      assert vs + [v] == [v];
      assert PackVarints([v]) == VarintBytes(v) + PackVarints([]);
    } else {
      assert (vs + [v])[1..] == vs[1..] + [v];
      PackAppend(vs[1..], v);
      var first, rest, last := VarintBytes(vs[0]), PackVarints(vs[1..]), VarintBytes(v);
      assert first + (rest + last) == (first + rest) + last;
    }
  }

  method Pack(vs: seq<nat>) returns (out: Bytes)
    ensures out == PackVarints(vs)
  {
    out := [];
    for k := 0 to |vs|
      invariant out == PackVarints(vs[..k])
    {
      var chunk := Varint(vs[k]);
      PackAppend(vs[..k], vs[k]);
      assert vs[..k + 1] == vs[..k] + [vs[k]];
      out := out + chunk;
    }
    assert vs[..|vs|] == vs;
  }

  lemma {:induction false} DeltasAppend(points: seq<Point>, cursor: Point, next: Point)
    ensures Deltas(points + [next], cursor)
         == Deltas(points, cursor)
            + (var last := if points == [] then cursor else points[|points| - 1];
               [Zz(next.0 - last.0), Zz(next.1 - last.1)])
  {
    if points == [] {
      assert points + [next] == [next];
    } else {
      assert (points + [next])[1..] == points[1..] + [next];
      DeltasAppend(points[1..], points[0], next);
    }
  }

  method EncodeGeometry(points: seq<Point>) returns (commands: seq<nat>)
    requires points != []
    ensures commands == CommandsFor(points)
  {
    commands := [8 + MOVE_TO, Zz(points[0].0), Zz(points[0].1)];
    assert Deltas(points[..1], (0, 0)) == [Zz(points[0].0), Zz(points[0].1)];
    var cursor := points[0];
    if |points| > 1 {
      commands := commands + [(|points| - 1) * 8 + LINE_TO];
      ghost var head := commands;
      var rest := points[1..];
      for k := 0 to |rest|
        invariant commands == head + Deltas(rest[..k], points[0])
        invariant cursor == if k == 0 then points[0] else rest[k - 1]
      {
        DeltasAppend(rest[..k], points[0], rest[k]);
        assert rest[..k + 1] == rest[..k] + [rest[k]];
        commands := commands + [Zz(rest[k].0 - cursor.0), Zz(rest[k].1 - cursor.1)];
        cursor := rest[k];
      }
      assert rest[..|rest|] == rest;
    }
  }

  /** What is still to come after `done` tags. */
  function AfterTags(done: seq<nat>, r: (Dictionaries, seq<nat>)): (Dictionaries, seq<nat>) {
    (r.0, done + r.1)
  }

  lemma {:induction false} AfterOneTag(done: seq<nat>, tag: seq<nat>, r: (Dictionaries, seq<nat>))
    ensures AfterTags(done, (r.0, tag + r.1)) == AfterTags(done + tag, r)
  {
    assert done + (tag + r.1) == (done + tag) + r.1;
  }

  lemma {:induction false} AfterNoTags(done: seq<nat>, r: (Dictionaries, seq<nat>))
    ensures AfterTags([], r) == r && AfterTags(done, (r.0, [])) == (r.0, done)
  {
    assert [] + r.1 == r.1 && done + [] == done;
  }

  method EncodeTags(d: Dictionaries, props: seq<(Bytes, Option<Value>)>)
      returns (d': Dictionaries, tags: seq<nat>)
    ensures (d', tags) == InternProps(d, props)
  {
    d', tags := d, [];
    assert props[0..] == props;
    AfterNoTags(tags, InternProps(d, props));
    for k := 0 to |props|
      invariant InternProps(d, props) == AfterTags(tags, InternProps(d', props[k..]))
    {
      assert props[k..][1..] == props[k + 1..];
      var (key, value) := props[k];
      if value.None? {
        continue;
      }
      var (next, tag) := InternOne(d', key, value.value);
      AfterOneTag(tags, tag, InternProps(next, props[k + 1..]));
      d', tags := next, tags + tag;
    }
    AfterNoTags(tags, InternProps(d', []));
  }

  lemma {:induction false} WriteAppend(a: seq<Field>, b: seq<Field>)
    ensures WriteFields(a + b) == WriteFields(a) + WriteFields(b)
  {
    if a == [] {
      assert a + b == b;
    } else {
      assert (a + b)[1..] == a[1..] + b;
      WriteAppend(a[1..], b);
    }
  }

  lemma {:induction false} WriteOneMore(fields: seq<Field>, f: Field)
    ensures WriteFields(fields + [f]) == WriteFields(fields) + WriteField(f)
  {
    WriteAppend(fields, [f]);
    assert WriteFields([f]) == WriteField(f) + WriteFields([]);
  }

  lemma {:induction false} JoinOneMore(number: nat, payloads: seq<Bytes>, payload: Bytes)
    ensures WriteFields(PayloadFields(number, payloads + [payload]))
         == WriteFields(PayloadFields(number, payloads)) + BytesField(number, payload)
  {
    var f := Field(number, Payload(payload));
    assert PayloadFields(number, payloads + [payload]) == PayloadFields(number, payloads) + [f];
    WriteOneMore(PayloadFields(number, payloads), f);
  }

  /** `b"".join` of one payload field per item. */
  method JoinPayloads(number: nat, payloads: seq<Bytes>) returns (out: Bytes)
    ensures out == WriteFields(PayloadFields(number, payloads))
  {
    out := [];
    for k := 0 to |payloads|
      invariant out == WriteFields(PayloadFields(number, payloads[..k]))
    {
      JoinOneMore(number, payloads[..k], payloads[k]);
      assert payloads[..k + 1] == payloads[..k] + [payloads[k]];
      out := out + BytesField(number, payloads[k]);
    }
    assert payloads[..|payloads|] == payloads;
  }

  /** What is still to come after `done` feature bodies. */
  function AfterBodies(done: seq<Bytes>, r: (Dictionaries, seq<Bytes>)): (Dictionaries, seq<Bytes>) {
    (r.0, done + r.1)
  }

  lemma {:induction false} AfterNoBodies(done: seq<Bytes>, r: (Dictionaries, seq<Bytes>))
    ensures AfterBodies([], r) == r && AfterBodies(done, (r.0, [])) == (r.0, done)
  {
    assert [] + r.1 == r.1 && done + [] == done;
  }

  lemma {:induction false} AfterOneBody(done: seq<Bytes>, body: Bytes, r: (Dictionaries, seq<Bytes>))
    ensures AfterBodies(done, (r.0, [body] + r.1)) == AfterBodies(done + [body], r)
  {
    assert done + ([body] + r.1) == (done + [body]) + r.1;
  }

  /** One turn of the loop in `encode_layer`. */
  method EncodeFeature(d: Dictionaries, f: SourceFeature) returns (d': Dictionaries, body: Bytes)
    requires EncodableFeature(f)
    ensures d' == InternProps(d, f.props).0 && body == FeatureBytes(InternProps(d, f.props).1, f.line)
  {
    var tags;
    d', tags := EncodeTags(d, f.props);
    var packedTags := Pack(tags);
    var commands := EncodeGeometry(f.line);
    var packedCommands := Pack(commands);
    body := BytesField(2, packedTags) + VarintField(3, 2) + BytesField(4, packedCommands);
  }

  method EncodeFeatures(features: seq<SourceFeature>) returns (d: Dictionaries, bodies: seq<Bytes>)
    requires forall k | 0 <= k < |features| :: EncodableFeature(features[k])
    ensures (d, bodies) == InternFeatures(Dictionaries([], []), features)
  {
    d, bodies := Dictionaries([], []), [];
    assert features[0..] == features;
    AfterNoBodies(bodies, InternFeatures(d, features));
    for k := 0 to |features|
      invariant InternFeatures(Dictionaries([], []), features) == AfterBodies(bodies, InternFeatures(d, features[k..]))
    {
      assert features[k..][1..] == features[k + 1..];
      var next, body := EncodeFeature(d, features[k]);
      AfterOneBody(bodies, body, InternFeatures(next, features[k + 1..]));
      d, bodies := next, bodies + [body];
    }
    AfterNoBodies(bodies, InternFeatures(d, []));
  }

  lemma {:induction false} MessageBytes(name: Bytes, bodies: seq<Bytes>, d: Dictionaries)
    requires AllEncodable(d.values)
    ensures WriteFields(LayerMessage(name, bodies, d))
         == BytesField(1, name) + WriteFields(PayloadFields(2, bodies)) + WriteFields(PayloadFields(3, d.keys))
            + WriteFields(PayloadFields(4, ValuePayloads(d.values))) + VarintField(5, DEFAULT_EXTENT)
  {
    var head := [Field(1, Payload(name))];
    var two, three := PayloadFields(2, bodies), PayloadFields(3, d.keys);
    var four, last := PayloadFields(4, ValuePayloads(d.values)), Field(5, Number(DEFAULT_EXTENT));
    WriteOneMore(head + two + three + four, last);
    WriteAppend(head + two + three, four);
    WriteAppend(head + two, three);
    WriteAppend(head, two);
    WriteOneMore([], head[0]);
    assert [] + head == head;
  }

  method EncodeLayer(layer: SourceLayer) returns (out: Bytes)
    requires EncodableLayer(layer)
    ensures out == LayerBytes(layer)
  {
    var d, bodies := EncodeFeatures(layer.features);
    InternFeaturesEncodable(Dictionaries([], []), layer.features);
    var features := JoinPayloads(2, bodies);
    var keys := JoinPayloads(3, d.keys);
    var values := JoinPayloads(4, ValuePayloads(d.values));
    MessageBytes(layer.name, bodies, d);
    out := BytesField(3, BytesField(1, layer.name) + features + keys + values + VarintField(5, DEFAULT_EXTENT));
  }
}
