/** Decoding a layer does not depend on how fields of different numbers interleave
    (`core/mvt.py`): features may precede the keys and values they index. */
module TileFieldOrder {
  import opened Varints
  import opened Wire
  import opened Tiles

  /** The fields of one number, in order. */
  function Only(fields: seq<Field>, number: nat): seq<Field> {
    if fields == [] then []
    else (if fields[0].number == number then [fields[0]] else []) + Only(fields[1..], number)
  }

  /** Same fields of every number the layer decoder reads, in the same order. */
  predicate SameUpToInterleaving(a: seq<Field>, b: seq<Field>) {
    forall number | 1 <= number <= 5 :: Only(a, number) == Only(b, number)
  }

  /** Fields that do not make the decoder raise. */
  predicate Readable(f: Field) {
    && (f.number in {1, 3, 4} ==> f.value.Payload?)
    && (f.number == 4 ==> ValueOf(f.value.bytes).Ok?)
  }

  predicate AllReadable(fields: seq<Field>) {
    forall k | 0 <= k < |fields| :: Readable(fields[k])
  }

  lemma {:induction false} RaisesUnlessReadable(parts: LayerParts, fields: seq<Field>)
    ensures LayerFields(parts, fields).Ok? <==> AllReadable(fields)
    decreases |fields|
  {
    if fields != [] {
      var next := AddToLayer(parts, fields[0]);
      assert next.Ok? <==> Readable(fields[0]);
      if next.Ok? {
        RaisesUnlessReadable(next.value, fields[1..]);
        assert forall k | 0 < k < |fields| :: fields[k] == fields[1..][k - 1];
      }
    }
  }

  lemma {:induction false} OnlyContains(fields: seq<Field>, f: Field)
    ensures f in Only(fields, f.number) <==> f in fields
    decreases |fields|
  {
    if fields != [] {
      OnlyContains(fields[1..], f);
      assert f in fields <==> f == fields[0] || f in fields[1..];
    }
  }

  lemma {:induction false} ReadableUpToInterleaving(a: seq<Field>, b: seq<Field>)
    requires SameUpToInterleaving(a, b) && AllReadable(a)
    ensures AllReadable(b)
  {
    forall k | 0 <= k < |b|
      ensures Readable(b[k])
    {
      if b[k].number in {1, 3, 4} {
        OnlyContains(b, b[k]);
        OnlyContains(a, b[k]);
      }
    }
  }

  /** The two layers in progress agree on what fields of this number write. */
  predicate Agree(p: LayerParts, q: LayerParts, number: nat) {
    && (number == 1 ==> p.name == q.name)
    && (number == 2 ==> p.rawFeatures == q.rawFeatures)
    && (number == 3 ==> p.keys == q.keys)
    && (number == 4 ==> p.values == q.values)
    && (number == 5 ==> p.extent == q.extent)
  }

  lemma {:induction false} OnlyOwnFieldsMatter(p: LayerParts, q: LayerParts, number: nat, fields: seq<Field>)
    requires AllReadable(fields) && Agree(p, q, number)
    ensures LayerFields(p, fields).Ok? && LayerFields(q, Only(fields, number)).Ok?
    ensures Agree(LayerFields(p, fields).value, LayerFields(q, Only(fields, number)).value, number)
    decreases |fields|
  {
    if fields != [] {
      assert forall k | 0 <= k < |fields| - 1 :: fields[1..][k] == fields[k + 1];
      assert Readable(fields[0]);
      var p' := AddToLayer(p, fields[0]).value;
      if fields[0].number == number {
        var q' := AddToLayer(q, fields[0]).value;
        assert Only(fields, number)[1..] == Only(fields[1..], number);
        OnlyOwnFieldsMatter(p', q', number, fields[1..]);
      } else {
        assert Only(fields, number) == Only(fields[1..], number);
        OnlyOwnFieldsMatter(p', q, number, fields[1..]);
      }
    }
  }

  /** Any reordering that keeps the order within each field number decodes to the same
      layer, or raises as well. */
  lemma {:induction false} InterleavingIrrelevant(a: seq<Field>, b: seq<Field>)
    requires SameUpToInterleaving(a, b)
    ensures LayerOfFields(a) == LayerOfFields(b) || (LayerOfFields(a).Err? && LayerOfFields(b).Err?)
  {
    RaisesUnlessReadable(EMPTY_PARTS, a);
    RaisesUnlessReadable(EMPTY_PARTS, b);
    if AllReadable(a) {
      ReadableUpToInterleaving(a, b);
      forall number | 1 <= number <= 5
        ensures Agree(LayerFields(EMPTY_PARTS, a).value, LayerFields(EMPTY_PARTS, b).value, number)
      {
        OnlyOwnFieldsMatter(EMPTY_PARTS, EMPTY_PARTS, number, a);
        OnlyOwnFieldsMatter(EMPTY_PARTS, EMPTY_PARTS, number, b);
      }
      var p, q := LayerFields(EMPTY_PARTS, a).value, LayerFields(EMPTY_PARTS, b).value;
      assert Agree(p, q, 1) && Agree(p, q, 2) && Agree(p, q, 3) && Agree(p, q, 4) && Agree(p, q, 5);
      assert p == q;
    } else if AllReadable(b) {
      ReadableUpToInterleaving(b, a);
      assert false;
    }
  }

  /** The same at the level of bytes. */
  lemma {:induction false} LayerBytesInterleave(a: Bytes, b: Bytes)
    requires FieldsOf(a).Ok? && FieldsOf(b).Ok?
    requires SameUpToInterleaving(FieldsOf(a).value, FieldsOf(b).value)
    ensures var la, lb := LayerOf(Payload(a)), LayerOf(Payload(b));
            la == lb || (la.Err? && lb.Err?)
  {
    InterleavingIrrelevant(FieldsOf(a).value, FieldsOf(b).value);
  }
}
