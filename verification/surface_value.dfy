/**
 The boxed parameter values a surface node holds, and the binding of an
 element archetype to one of them.

 A node's parameters are an ordered list of objects whose runtime type is
 inspected when they are read. The types the unsigned-integer element knows
 are listed one constructor each; every other object, and a null entry, is
 `Other` or `Null`.
 */
module SurfaceValue {
  import opened Numeric

  datatype Value =
    | Int(i: Int32)
    | UInt(u: UInt32)
    | Long(l: Int64)
    | ULong(ul: UInt64)
    | Float(f: Float32)
    | Vector2(x: Float32, y: Float32)
    | Vector3(x: Float32, y: Float32, z: Float32)
    | Vector4(x: Float32, y: Float32, z: Float32, w: Float32)
    | Other(typeName: string)
    | Null

  /** The runtime type of a value, without its content. */
  datatype Kind = IntKind | UIntKind | LongKind | ULongKind | FloatKind
                | Vector2Kind | Vector3Kind | Vector4Kind | OtherKind(typeName: string) | NullKind

  function KindOf(v: Value): Kind {
    match v
    case Int(_) => IntKind
    case UInt(_) => UIntKind
    case Long(_) => LongKind
    case ULong(_) => ULongKind
    case Float(_) => FloatKind
    case Vector2(_, _) => Vector2Kind
    case Vector3(_, _, _) => Vector3Kind
    case Vector4(_, _, _, _) => Vector4Kind
    case Other(n) => OtherKind(n)
    case Null => NullKind
  }

  /** `int`, `uint`, `long` or `ulong`. */
  predicate IsIntegral(v: Value) {
    v.Int? || v.UInt? || v.Long? || v.ULong?
  }

  /** `float` or one of the float vectors. */
  predicate IsFloating(v: Value) {
    v.Float? || v.Vector2? || v.Vector3? || v.Vector4?
  }

  /** One of the eight types the element converts from and to. */
  predicate Supported(v: Value) {
    IsIntegral(v) || IsFloating(v)
  }

  /** The mathematical value of an integral slot. */
  function IntegerOf(v: Value): int
    requires IsIntegral(v)
  {
    match v
    case Int(i) => i
    case UInt(u) => u
    case Long(l) => l
    case ULong(ul) => ul
  }

  /** The float components of a floating value in X, Y, Z, W order; a lone float has one. */
  function Components(v: Value): (cs: seq<Float32>)
    requires IsFloating(v)
    ensures 1 <= |cs| <= 4
  {
    match v
    case Float(f) => [f]
    case Vector2(x, y) => [x, y]
    case Vector3(x, y, z) => [x, y, z]
    case Vector4(x, y, z, w) => [x, y, z, w]
  }

  /**
   The component a box id addresses in a value with `arity` components: the
   id itself when it names one, the last component for every other id
   (negative ones included).
   */
  function ComponentIndex(arity: nat, boxId: int): (k: nat)
    requires 0 < arity
    ensures k < arity
  {
    if 0 <= boxId < arity then boxId else arity - 1
  }

  /** The component of a floating value that `boxId` addresses. */
  function Selected(v: Value, boxId: int): nat
    requires IsFloating(v)
  {
    ComponentIndex(|Components(v)|, boxId)
  }

  /**
   The part of an element archetype the value accessors read: the index of
   the node parameter (negative for none) and the box id that picks a vector
   component.
   */
  datatype Archetype = Archetype(valueIndex: Int32, boxId: Int32)

  /** The parameters of a surface node. */
  type Values = seq<Value>

  /**
   The node's single mutation entry point, reduced to the replacement of one
   parameter; its change notification is modelled by the caller.
   */
  function SetValue(values: Values, index: nat, v: Value): (r: Values)
    requires index < |values|
    ensures |r| == |values| && r[index] == v
    ensures forall j :: 0 <= j < |values| && j != index ==> r[j] == values[j]
  {
    values[index := v]
  }
}
