/**
 The static value accessors of the unsigned-integer surface element: `Get`
 reads one node parameter (or one component of a vector parameter) as a
 `uint`, and `Set` writes a `uint` back into the parameter without changing
 its runtime type.
 */
module UnsignedIntegerValue {
  import opened Numeric
  import opened SurfaceValue

  /**
   The type dispatch of `Get`: the `uint` view of one boxed value. Integers
   are cast unchecked, floats and the addressed vector component through the
   float conversion, and every other object reads as 0.
   */
  function Read(v: Value, boxId: int, conv: FloatConversions): (r: UInt32)
    ensures IsIntegral(v) ==> SameLow32(r, IntegerOf(v))
    ensures IsFloating(v) ==> r == conv.truncate(Components(v)[Selected(v, boxId)])
    ensures !Supported(v) ==> r == 0
  {
    match v
    case Int(i) => ToUInt32(i)
    case UInt(u) => u
    case Long(l) => ToUInt32(l)
    case ULong(ul) => ToUInt32(ul)
    case Float(f) => conv.truncate(f)
    case Vector2(x, y) => conv.truncate(if boxId == 0 then x else y)
    case Vector3(x, y, z) =>
      conv.truncate(if boxId == 0 then x else if boxId == 1 then y else z)
    case Vector4(x, y, z, w) =>
      conv.truncate(if boxId == 0 then x else if boxId == 1 then y else if boxId == 2 then z else w)
    case Other(_) => 0
    case Null => 0
  }

  /** `Get` reads the node: there is no custom value and the value index is non-negative. */
  predicate ReadsNode(arch: Archetype, custom: Value) {
    custom.Null? && 0 <= arch.valueIndex
  }

  /**
   `Get`: a non-null custom value takes precedence over the node; without one
   a negative value index reads as 0 and the node is not consulted.
   */
  function Get(values: Values, arch: Archetype, custom: Value, conv: FloatConversions): (r: UInt32)
    requires ReadsNode(arch, custom) ==> arch.valueIndex < |values|
    ensures arch.valueIndex < 0 && custom.Null? ==> r == 0
    ensures !custom.Null? ==> r == Read(custom, arch.boxId, conv)
    ensures ReadsNode(arch, custom) ==> r == Read(values[arch.valueIndex], arch.boxId, conv)
  {
    if arch.valueIndex < 0 && custom.Null? then 0
    else
      var value := if !custom.Null? then custom else values[arch.valueIndex];
      Read(value, arch.boxId, conv)
  }

  /**
   The replacement `Set` builds from the current value: same runtime type,
   carrying `toSet`; a vector keeps every component but the addressed one; an
   unsupported value becomes the boxed `int` 0.
   */
  function Write(current: Value, boxId: int, toSet: UInt32, conv: FloatConversions): (r: Value)
    ensures Supported(current) ==> KindOf(r) == KindOf(current)
    ensures !Supported(current) ==> r == Int(0)
    ensures current.Int? ==> SameLow32(r.i, toSet)
    ensures current.UInt? || current.Long? || current.ULong? ==> IntegerOf(r) == toSet
    ensures IsFloating(current) ==>
              IsFloating(r) && Components(r) == Components(current)[Selected(current, boxId) := conv.fromUInt(toSet)]
  {
    var toSetF := conv.fromUInt(toSet);
    match current
    case Int(_) => Int(ToInt32(toSet))
    case UInt(_) => UInt(toSet)
    case Long(_) => Long(toSet)
    case ULong(_) => ULong(toSet)
    case Float(_) => Float(toSetF)
    case Vector2(x, y) =>
      if boxId == 0 then Vector2(toSetF, y) else Vector2(x, toSetF)
    case Vector3(x, y, z) =>
      if boxId == 0 then Vector3(toSetF, y, z)
      else if boxId == 1 then Vector3(x, toSetF, z)
      else Vector3(x, y, toSetF)
    case Vector4(x, y, z, w) =>
      if boxId == 0 then Vector4(toSetF, y, z, w)
      else if boxId == 1 then Vector4(x, toSetF, z, w)
      else if boxId == 2 then Vector4(x, y, toSetF, w)
      else Vector4(x, y, z, toSetF)
    case Other(_) => Int(0)
    case Null => Int(0)
  }

  /**
   `Set`: with a negative value index nothing is written; otherwise the
   parameter at the index is replaced, through `SetValue`, by `Write` of its
   current value, and no other parameter changes.
   */
  function Set(values: Values, arch: Archetype, toSet: UInt32, conv: FloatConversions): (r: Values)
    requires arch.valueIndex < |values|
    ensures |r| == |values|
    ensures arch.valueIndex < 0 ==> r == values
    ensures forall j :: 0 <= j < |values| && j != arch.valueIndex ==> r[j] == values[j]
    ensures 0 <= arch.valueIndex ==> r[arch.valueIndex] == Write(values[arch.valueIndex], arch.boxId, toSet, conv)
  {
    if arch.valueIndex < 0 then values
    else SetValue(values, arch.valueIndex, Write(values[arch.valueIndex], arch.boxId, toSet, conv))
  }
}
