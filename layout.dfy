/** The vertex-attribute layout that InitializeParticleSystem binds over the spark buffer:
    one attribute per record field, at consecutive locations, at byte offsets that are the
    running sum of the preceding attributes' sizes, all with the record's stride. */
module Layout {
  import opened Particle

  /** A float vertex attribute with `components` floats (VertexAttribute(Float, n)). */
  datatype VertexAttribute = VertexAttribute(components: nat)

  /** VertexAttribute::GetSize: bytes occupied by the attribute. */
  function AttributeBytes(a: VertexAttribute): (b: nat)
    ensures b % FloatBytes == 0 && b / FloatBytes == a.components
  {
    a.components * FloatBytes
  }

  /** One SetAttribute(location, attribute, offset, stride) call on the vertex array. */
  datatype Binding = Binding(location: nat, attribute: VertexAttribute, offset: nat, stride: nat)

  /** The six attributes declared for the spark buffer: position, size, birth, duration,
      color, velocity. */
  const SparkAttributes: seq<VertexAttribute> := [
    VertexAttribute(2), VertexAttribute(1), VertexAttribute(1),
    VertexAttribute(1), VertexAttribute(4), VertexAttribute(2)]

  /** Total bytes of a run of attributes: a whole number of floats. */
  function TotalBytes(attrs: seq<VertexAttribute>): (n: nat)
    ensures n % FloatBytes == 0
  {
    if attrs == [] then 0 else TotalBytes(attrs[..|attrs| - 1]) + AttributeBytes(attrs[|attrs| - 1])
  }

  /** The byte offset of attribute `k`: the sizes of attributes 0 .. k-1 added up. */
  function OffsetOf(attrs: seq<VertexAttribute>, k: nat): (o: nat)
    requires k <= |attrs|
    ensures o % FloatBytes == 0
  {
    TotalBytes(attrs[..k])
  }

  /** The next attribute starts right where the previous one ends. */
  lemma OffsetStep(attrs: seq<VertexAttribute>, k: nat)
    requires k < |attrs|
    ensures OffsetOf(attrs, k + 1) == OffsetOf(attrs, k) + AttributeBytes(attrs[k])
  {
    assert attrs[..k + 1][..k] == attrs[..k];
  }

  /** The attribute loop: `location` counts up from 0 and `offset` accumulates each
      attribute's size after it is bound. */
  method BindAttributes(attrs: seq<VertexAttribute>, stride: nat) returns (bindings: seq<Binding>)
    ensures |bindings| == |attrs|
    ensures forall k :: 0 <= k < |attrs| ==>
      bindings[k] == Binding(k, attrs[k], OffsetOf(attrs, k), stride)
  {
    bindings := [];
    var offset: nat := 0;
    var location: nat := 0;
    while location < |attrs|
      invariant location <= |attrs|
      invariant |bindings| == location
      invariant offset == OffsetOf(attrs, location)
      invariant forall k :: 0 <= k < location ==>
        bindings[k] == Binding(k, attrs[k], OffsetOf(attrs, k), stride)
    {
      var attr := attrs[location];
      bindings := bindings + [Binding(location, attr, offset, stride)];
      OffsetStep(attrs, location);
      offset := offset + AttributeBytes(attr);
      location := location + 1;
    }
  }

  /** Attribute k occupies bytes [offset, offset + size) and these ranges tile
      [0, TotalBytes) without gaps or overlaps. */
  lemma {:induction false} OffsetsIncrease(attrs: seq<VertexAttribute>, j: nat, k: nat)
    requires j <= k <= |attrs|
    ensures OffsetOf(attrs, j) <= OffsetOf(attrs, k)
    ensures j < k ==> OffsetOf(attrs, j) + AttributeBytes(attrs[j]) <= OffsetOf(attrs, k)
    decreases k - j
  {
    if j < k {
      OffsetStep(attrs, j);
      OffsetsIncrease(attrs, j + 1, k);
    }
  }

  /** The spark attributes match the record's fields one to one: the same number of
      floats, and together exactly the record's size, which is the stride. */
  lemma SparkAttributesMatchRecord()
    ensures |SparkAttributes| == |Fields|
    ensures forall k :: 0 <= k < |Fields| ==>
      SparkAttributes[k].components == FieldComponents(Fields[k])
    ensures TotalBytes(SparkAttributes) == ByteSize
  {
    assert SparkAttributes[..6] == SparkAttributes;
    assert OffsetOf(SparkAttributes, 6) == 44 by { SparkOffsets(); }
  }

  /** The offsets the loop produces for the spark buffer. */
  lemma SparkOffsets()
    ensures OffsetOf(SparkAttributes, 0) == 0
    ensures OffsetOf(SparkAttributes, 1) == 8
    ensures OffsetOf(SparkAttributes, 2) == 12
    ensures OffsetOf(SparkAttributes, 3) == 16
    ensures OffsetOf(SparkAttributes, 4) == 20
    ensures OffsetOf(SparkAttributes, 5) == 36
    ensures OffsetOf(SparkAttributes, 6) == 44
  {
    OffsetStep(SparkAttributes, 0);
    OffsetStep(SparkAttributes, 1);
    OffsetStep(SparkAttributes, 2);
    OffsetStep(SparkAttributes, 3);
    OffsetStep(SparkAttributes, 4);
    OffsetStep(SparkAttributes, 5);
  }

  /** Reading attribute k of the spark layout out of a record's memory image yields
      exactly field k of the record. */
  lemma AttributeReadsField(p: SparkParticle, k: nat)
    requires k < |SparkAttributes|
    ensures OffsetOf(SparkAttributes, k) % FloatBytes == 0
    ensures var first := OffsetOf(SparkAttributes, k) / FloatBytes;
      first + SparkAttributes[k].components <= |Floats(p)| &&
      Floats(p)[first .. first + SparkAttributes[k].components] == FieldFloats(p, Fields[k])
  {
    SparkOffsets();
    var fs := Floats(p);
    if k == 0 {
      assert fs[0..2] == FieldFloats(p, Position);
    } else if k == 1 {
      assert fs[2..3] == FieldFloats(p, Size);
    } else if k == 2 {
      assert fs[3..4] == FieldFloats(p, Birth);
    } else if k == 3 {
      assert fs[4..5] == FieldFloats(p, Duration);
    } else if k == 4 {
      assert fs[5..9] == FieldFloats(p, Tint);
    } else {
      assert fs[9..11] == FieldFloats(p, Velocity);
    }
  }
}
