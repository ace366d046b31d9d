/**
 Properties relating `Get` and `Set` of the unsigned-integer element: the
 round trip through integer parameters, runtime-type preservation, component
 isolation, and what a write leaves alone.
 */
module AccessorProperties {
  import opened Numeric
  import opened SurfaceValue
  import opened UnsignedIntegerValue

  /** Reading back what was written to an `int`, `uint`, `long` or `ulong` value gives it back. */
  lemma ReadWriteIntegral(current: Value, boxId: int, toSet: UInt32, conv: FloatConversions)
    requires IsIntegral(current)
    ensures Read(Write(current, boxId, toSet, conv), boxId, conv) == toSet
  {
    var written := Write(current, boxId, toSet, conv);
    var r := Read(written, boxId, conv);
    SameLow32Trans(r, IntegerOf(written), toSet);
    SameLow32Unsigned(r, toSet);
  }

  /**
   After `Set` on an integer parameter, `Get` through the same archetype
   returns the value set, and every other parameter is as it was.
   */
  lemma GetSetRoundTrip(values: Values, arch: Archetype, toSet: UInt32, conv: FloatConversions)
    requires 0 <= arch.valueIndex < |values|
    requires IsIntegral(values[arch.valueIndex])
    ensures Get(Set(values, arch, toSet, conv), arch, Null, conv) == toSet
    ensures forall j :: 0 <= j < |values| && j != arch.valueIndex ==> Set(values, arch, toSet, conv)[j] == values[j]
  {
    ReadWriteIntegral(values[arch.valueIndex], arch.boxId, toSet, conv);
  }

  /**
   A float or vector parameter round-trips exactly when the float
   conversion does: reading the written component gives `toSet` back
   whenever `(uint)(float)toSet == toSet`.
   */
  lemma GetSetRoundTripFloating(values: Values, arch: Archetype, toSet: UInt32, conv: FloatConversions)
    requires 0 <= arch.valueIndex < |values|
    requires IsFloating(values[arch.valueIndex])
    requires conv.Exact(toSet)
    ensures Get(Set(values, arch, toSet, conv), arch, Null, conv) == toSet
  {
  }

  /**
   `Set` keeps the runtime type of a supported parameter; an unsupported one
   becomes the boxed `int` 0, which then reads as 0.
   */
  lemma SetPreservesKind(values: Values, arch: Archetype, toSet: UInt32, conv: FloatConversions)
    requires 0 <= arch.valueIndex < |values|
    ensures Supported(values[arch.valueIndex]) ==>
              KindOf(Set(values, arch, toSet, conv)[arch.valueIndex]) == KindOf(values[arch.valueIndex])
    ensures !Supported(values[arch.valueIndex]) ==>
              Set(values, arch, toSet, conv)[arch.valueIndex] == Int(0)
              && Get(Set(values, arch, toSet, conv), arch, Null, conv) == 0
  {
  }

  /**
   Writing one component of a float vector through one archetype leaves the
   component another archetype addresses in the same parameter unchanged,
   so that archetype reads what it read before.
   */
  lemma ComponentIsolation(values: Values, writer: Archetype, reader: Archetype, toSet: UInt32, conv: FloatConversions)
    requires 0 <= writer.valueIndex < |values| && reader.valueIndex == writer.valueIndex
    requires IsFloating(values[writer.valueIndex])
    requires Selected(values[writer.valueIndex], reader.boxId) != Selected(values[writer.valueIndex], writer.boxId)
    ensures Get(Set(values, writer, toSet, conv), reader, Null, conv) == Get(values, reader, Null, conv)
  {
  }

  /** A `Set` through one parameter index is invisible to a `Get` through another. */
  lemma SetOtherSlotInvisible(values: Values, writer: Archetype, reader: Archetype, toSet: UInt32, conv: FloatConversions)
    requires writer.valueIndex < |values| && reader.valueIndex < |values|
    requires writer.valueIndex != reader.valueIndex
    ensures Get(Set(values, writer, toSet, conv), reader, Null, conv) == Get(values, reader, Null, conv)
  {
  }

  /** Setting the same value twice through the same archetype is the same as setting it once, for a supported parameter. */
  lemma SetIdempotent(values: Values, arch: Archetype, toSet: UInt32, conv: FloatConversions)
    requires arch.valueIndex < |values|
    requires arch.valueIndex >= 0 ==> Supported(values[arch.valueIndex])
    ensures Set(Set(values, arch, toSet, conv), arch, toSet, conv) == Set(values, arch, toSet, conv)
  {
  }

  /**
   An unsupported parameter is not idempotent under `Set`: the first write
   turns it into the boxed `int` 0, and the second then carries the value.
   */
  lemma SetUnsupportedTwice(values: Values, arch: Archetype, first: UInt32, second: UInt32, conv: FloatConversions)
    requires 0 <= arch.valueIndex < |values|
    requires !Supported(values[arch.valueIndex])
    ensures Get(Set(values, arch, first, conv), arch, Null, conv) == 0
    ensures Get(Set(Set(values, arch, first, conv), arch, second, conv), arch, Null, conv) == second
  {
    GetSetRoundTrip(Set(values, arch, first, conv), arch, second, conv);
  }
}
