/**
  The vertex layout computed by `Mesh::SetAttributes` and
  `Mesh::UnSetAttributes`. A vertex format is a list of attribute kinds
  terminated by `kEND`; each kind is bound to a fixed shader location, has a
  component count and type, and occupies consecutive bytes of the vertex.
  The GL calls are replaced by the values they would receive.
 */
module VertexLayout {

  /** An attribute kind of a vertex format; `End` is `kEND`. */
  datatype Attribute = Position3f | Normal3f | TexCoord2f | Color4ub | End

  /** The shader attribute locations the renderer binds, in enum order. */
  const PositionLocation: nat := 0
  const NormalLocation: nat := 1
  const TexCoordLocation: nat := 2
  const ColorLocation: nat := 3

  /** `sizeof(float)`. */
  const FloatSize: nat := 4

  datatype ComponentType = Float | UnsignedByte

  /** The arguments of one `glVertexAttribPointer` call; its location is also the one enabled. */
  datatype AttribPointer = AttribPointer(
    location: nat,
    components: nat,
    componentType: ComponentType,
    normalized: bool,
    stride: int,
    offset: nat)

  function Location(a: Attribute): nat
    requires a != End
  {
    match a
    case Position3f => PositionLocation
    case Normal3f => NormalLocation
    case TexCoord2f => TexCoordLocation
    case Color4ub => ColorLocation
  }

  function Components(a: Attribute): nat
    requires a != End
  {
    match a
    case Position3f => 3
    case Normal3f => 3
    case TexCoord2f => 2
    case Color4ub => 4
  }

  function TypeOf(a: Attribute): ComponentType
    requires a != End
  {
    if a == Color4ub then UnsignedByte else Float
  }

  function ComponentSize(t: ComponentType): nat {
    match t
    case Float => FloatSize
    case UnsignedByte => 1
  }

  /** Bytes the attribute occupies in a vertex; `End` occupies none. */
  function ByteSize(a: Attribute): (n: nat)
    ensures a != End ==> n == Components(a) * ComponentSize(TypeOf(a))
  {
    match a
    case Position3f => 3 * FloatSize
    case Normal3f => 3 * FloatSize
    case TexCoord2f => 2 * FloatSize
    case Color4ub => 4
    case End => 0
  }

  /** The pointer set up for attribute `a` at byte `offset` of each `stride`-byte vertex. */
  function Pointer(a: Attribute, stride: int, offset: nat): AttribPointer
    requires a != End
  {
    AttribPointer(Location(a), Components(a), TypeOf(a), a == Color4ub, stride, offset)
  }

  /** Number of attributes before the first `End`. */
  function ActiveCount(attrs: seq<Attribute>): (n: nat)
    requires End in attrs
    ensures n < |attrs| && attrs[n] == End
    ensures forall i :: 0 <= i < n ==> attrs[i] != End
  {
    if attrs[0] == End then 0 else 1 + ActiveCount(attrs[1..])
  }

  /** Total byte size of a list of attributes. */
  function SizeSum(attrs: seq<Attribute>): nat {
    if |attrs| == 0 then 0 else ByteSize(attrs[0]) + SizeSum(attrs[1..])
  }

  lemma {:induction false} SizeSumAppend(attrs: seq<Attribute>, a: Attribute)
    ensures SizeSum(attrs + [a]) == SizeSum(attrs) + ByteSize(a)
    decreases |attrs|
  {
    if |attrs| > 0 {
      assert (attrs + [a])[1..] == attrs[1..] + [a];
      SizeSumAppend(attrs[1..], a);
    }
  }

  /**
    The loop of `Mesh::SetAttributes` from a running `offset`: one pointer per
    attribute up to the first `End`, each at the offset reached so far.
   */
  function SetAttributesFrom(attrs: seq<Attribute>, stride: int, offset: nat): (r: seq<AttribPointer>)
    requires End in attrs
    ensures |r| == ActiveCount(attrs)
    ensures forall i :: 0 <= i < |r| ==>
              attrs[i] != End && r[i] == Pointer(attrs[i], stride, offset + SizeSum(attrs[..i]))
    decreases |attrs|
  {
    if attrs[0] == End then []
    else
      var rest := SetAttributesFrom(attrs[1..], stride, offset + ByteSize(attrs[0]));
      var r := [Pointer(attrs[0], stride, offset)] + rest;
      assert forall i :: 1 <= i < |r| ==> attrs[..i] == [attrs[0]] + attrs[1..][..i - 1];
      r
  }

  /** `Mesh::SetAttributes`: offsets start at 0 from the start of the vertex. */
  function SetAttributes(attrs: seq<Attribute>, stride: int): (r: seq<AttribPointer>)
    requires End in attrs
    ensures |r| == ActiveCount(attrs)
    ensures forall i :: 0 <= i < |r| ==> attrs[i] != End && r[i].location == Location(attrs[i])
    ensures forall i :: 0 <= i < |r| ==> r[i].offset == SizeSum(attrs[..i]) && r[i].stride == stride
  {
    SetAttributesFrom(attrs, stride, 0)
  }

  /** `Mesh::UnSetAttributes`: the locations disabled for a format. */
  function UnSetAttributes(attrs: seq<Attribute>): (r: set<nat>)
    requires End in attrs
    ensures forall i :: 0 <= i < ActiveCount(attrs) ==> Location(attrs[i]) in r
    ensures forall loc :: loc in r ==> exists i :: 0 <= i < ActiveCount(attrs) && Location(attrs[i]) == loc
    decreases |attrs|
  {
    if attrs[0] == End then {}
    else
      var rest := UnSetAttributes(attrs[1..]);
      assert forall i :: 1 <= i < ActiveCount(attrs) ==> attrs[i] == attrs[1..][i - 1];
      {Location(attrs[0])} + rest
  }

  /** The locations a list of pointers enables. */
  function Enabled(ps: seq<AttribPointer>): set<nat> {
    set p | p in ps :: p.location
  }

  // ---------------------------------------------------------------------
  // Properties

  /** Each attribute starts where the previous one ends; the first starts at 0. */
  lemma OffsetsAreContiguous(attrs: seq<Attribute>, stride: int)
    requires End in attrs
    ensures var r := SetAttributes(attrs, stride);
            && (|r| > 0 ==> r[0].offset == 0)
            && forall i :: 0 <= i < |r| - 1 ==> r[i + 1].offset == r[i].offset + ByteSize(attrs[i])
  {
    var r := SetAttributes(attrs, stride);
    forall i | 0 <= i < |r| - 1
      ensures r[i + 1].offset == r[i].offset + ByteSize(attrs[i])
    {
      assert attrs[..i + 1] == attrs[..i] + [attrs[i]];
      SizeSumAppend(attrs[..i], attrs[i]);
    }
  }

  /** Only Color4ub is unsigned-byte data, and only it is normalized. */
  lemma OnlyColorIsNormalized(attrs: seq<Attribute>, stride: int)
    requires End in attrs
    ensures var r := SetAttributes(attrs, stride);
            forall i :: 0 <= i < |r| ==>
              && (r[i].normalized <==> attrs[i] == Color4ub)
              && (r[i].componentType == UnsignedByte <==> attrs[i] == Color4ub)
              && r[i].components * ComponentSize(r[i].componentType) == ByteSize(attrs[i])
  {
  }

  /** Distinct attribute kinds are bound to distinct locations, all below 4. */
  lemma LocationsAreDistinct(a: Attribute, b: Attribute)
    requires a != End && b != End
    ensures Location(a) < 4
    ensures Location(a) == Location(b) <==> a == b
  {
  }

  lemma {:induction false} UnSetMatchesSetFrom(attrs: seq<Attribute>, stride: int, offset: nat)
    requires End in attrs
    ensures UnSetAttributes(attrs) == Enabled(SetAttributesFrom(attrs, stride, offset))
    decreases |attrs|
  {
    if attrs[0] != End {
      UnSetMatchesSetFrom(attrs[1..], stride, offset + ByteSize(attrs[0]));
      var rest := SetAttributesFrom(attrs[1..], stride, offset + ByteSize(attrs[0]));
      var p := Pointer(attrs[0], stride, offset);
      assert Enabled([p] + rest) == {p.location} + Enabled(rest);
    }
  }

  /** `UnSetAttributes` disables exactly the locations `SetAttributes` enables for the same format. */
  lemma UnSetMatchesSet(attrs: seq<Attribute>, stride: int)
    requires End in attrs
    ensures UnSetAttributes(attrs) == Enabled(SetAttributes(attrs, stride))
  {
    UnSetMatchesSetFrom(attrs, stride, 0);
  }

  /**
    Enabling the arrays of a format and then disabling them, as `Mesh::Render`
    does around its draw calls, leaves every other location as it was and the
    format's own locations disabled, even those enabled before; the state is
    restored exactly when none of the format's locations was enabled before.
   */
  lemma SetThenUnSetRestores(enabled: set<nat>, attrs: seq<Attribute>, stride: int)
    requires End in attrs
    ensures (enabled + Enabled(SetAttributes(attrs, stride))) - UnSetAttributes(attrs) == enabled - UnSetAttributes(attrs)
    ensures (enabled + Enabled(SetAttributes(attrs, stride))) - UnSetAttributes(attrs) == enabled
            <==> enabled !! UnSetAttributes(attrs)
  {
    UnSetMatchesSet(attrs, stride);
  }
}
