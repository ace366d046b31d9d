# Unsigned-integer surface element: value accessors

A model of the value binding of the unsigned-integer editing element of the
Flax editor's visual surface (`UnsignedIntegerValue`). The element is bound
to a surface node parameter by a node element archetype. The archetype gives
the parameter index (`ValueIndex`) and, for float vectors, the component
(`BoxID`). Two static functions do the work:

- `Get` reads the parameter, or an optional custom value that overrides it,
  and converts it to a `uint`. It dispatches on the runtime type: `int`,
  `uint`, `long`, `ulong`, `float`, `Vector2`, `Vector3`, `Vector4` or
  anything else.
- `Set` reads the current parameter only to learn its type. It builds a value
  of the same type that carries the new `uint`, or overwrites one vector
  component, and commits it through the node's `SetValue`.

The element calls `Get` when it is created and again on each `ValuesChanged`
notification from the node. `Set` is called from the `OnValueChanged`
override (UnsignedIntegerValue.cs:49-53). In `BoundControl` these three call
sites are modelled by three functions:

- `Create` models the constructor (UnsignedIntegerValue.cs:24-31). It
  seeds the displayed value with `Get`.
- `OnNodeValuesChanged` models the `ValuesChanged` handler
  (UnsignedIntegerValue.cs:33-36). It re-reads `Get`, keeps the archetype,
  and writes nothing.
- `OnValueChanged` models the `OnValueChanged` override
  (UnsignedIntegerValue.cs:49-53). It displays the new value and commits it
  with `Set`.

Files:

- `numeric.dfy` (`Numeric`): fixed-width integer ranges, the unchecked
  `(uint)` and `(int)` casts (low 32 bits), and `FloatConversions`. Floats
  are 32-bit patterns. `(uint)f` and `(float)u` are supplied as parameters
  rather than defined.
- `surface_value.dfy` (`SurfaceValue`): the boxed parameter values (`Value`),
  their runtime kind, the components of float values, the `BoxID`
  component rule, the archetype, and `SetValue` as a replacement of one
  list entry.
- `unsigned_integer_value.dfy` (`UnsignedIntegerValue`): `Read` (the type
  dispatch of `Get`), `Get`, `Write` (the same-kind rebuild of `Set`) and
  `Set`.
- `accessor_properties.dfy` (`AccessorProperties`): round trips, type
  preservation, component isolation, framing and idempotence.
- `bound_control.dfy` (`BoundControl`): the element as a bound control. It
  covers the creation/notification/edit call sites, the delivery of one
  notification to every subscribed control, and sequences of committed edits.

A component id names a component when `0 <= BoxID < arity`. Any other id,
negative ones included, addresses the last component. This is how the
source's nested conditionals behave: `BoxID == 0 ? X : BoxID == 1 ? Y : Z`.
`ComponentIndex` states this rule once, and the contracts of `Read` and
`Write` are stated against it. The bodies of `Read` and `Write` keep the
source's nested conditionals.

Three consequences of the code are worth stating:

- `Set` writes the boxed `int` 0 into a parameter of any unsupported type
  (UnsignedIntegerValue.cs:148-149). That parameter is an `int` from then
  on, so a second `Set` stores the value (`SetUnsupportedTwice`).
- The element has no state that suppresses re-reads during an edit. Every
  `ValuesChanged` notification re-reads the value
  (UnsignedIntegerValue.cs:33-36). Every call of the `OnValueChanged`
  override writes it (UnsignedIntegerValue.cs:49-53).
- Round trips through `float` and vector parameters are conditional on the
  float conversion. They hold exactly when `(uint)(float)v == v`
  (`GetSetRoundTripFloating`).

## Model

| member | source | states |
|---|---|---|
| Numeric.ToUInt32 | Source/Editor/Surface/Elements/UnsignedIntegerValue.cs:72-79 | the unchecked `(uint)` cast of an `int`, `long` or `ulong` is the unique `uint` with the same low 32 bits |
| Numeric.ToInt32 | Source/Editor/Surface/Elements/UnsignedIntegerValue.cs:108-109 | the unchecked `(int)` cast of a `uint` is an `int` with the same low 32 bits, so values above `int.MaxValue` wrap |
| Numeric.ToUInt32OfToInt32 | Source/Editor/Surface/Elements/UnsignedIntegerValue.cs:108-109 | `(uint)(int)u == u` for every `uint` u, so an `int` parameter loses nothing |
| SurfaceValue.SetValue | Source/Editor/Surface/Elements/UnsignedIntegerValue.cs:151 | the commit replaces exactly the entry at the value index and keeps the list length |
| UnsignedIntegerValue.Read | Source/Editor/Surface/Elements/UnsignedIntegerValue.cs:72-89 | integers read as their low 32 bits; a float reads through `(uint)`; a vector reads its `BoxID` component (0→X, 1→Y, 2→Z, any other id→the last component) through `(uint)`; every other type, null included, reads 0 |
| UnsignedIntegerValue.Get | Source/Editor/Surface/Elements/UnsignedIntegerValue.cs:62-92 | no index and no custom value gives 0 whatever the node holds; a non-null custom value is read instead of the node; otherwise the parameter at `ValueIndex` is read |
| UnsignedIntegerValue.Write | Source/Editor/Surface/Elements/UnsignedIntegerValue.cs:106-149 | a supported value keeps its runtime type; `int` gets the wrapped value and `uint`/`long`/`ulong` get it exactly; a float vector gets `(float)toSet` in the `BoxID` component, the others copied; an unsupported value becomes boxed `int` 0 |
| UnsignedIntegerValue.Set | Source/Editor/Surface/Elements/UnsignedIntegerValue.cs:100-152 | a negative `ValueIndex` leaves the node untouched; otherwise only the parameter at `ValueIndex` changes, to `Write` of its current value (same type when supported, boxed `int` 0 otherwise) |
| AccessorProperties.ReadWriteIntegral | Source/Editor/Surface/Elements/UnsignedIntegerValue.cs:108-115 | reading back an `int`/`uint`/`long`/`ulong` rebuilt to carry v gives v |
| AccessorProperties.GetSetRoundTrip | Source/Editor/Surface/Elements/UnsignedIntegerValue.cs:100-115 | after `Set(v)` on an integer parameter, `Get` through the same archetype returns v, and every other parameter is unchanged |
| AccessorProperties.GetSetRoundTripFloating | Source/Editor/Surface/Elements/UnsignedIntegerValue.cs:116-147 | a float or vector parameter round-trips v whenever `(uint)(float)v == v` |
| AccessorProperties.SetPreservesKind | Source/Editor/Surface/Elements/UnsignedIntegerValue.cs:108-149 | `Set` keeps the runtime type of each of the eight supported types; any other slot becomes `int` 0 and then reads 0 |
| AccessorProperties.ComponentIsolation | Source/Editor/Surface/Elements/UnsignedIntegerValue.cs:118-147 | writing one vector component does not change what an archetype addressing another component of the same parameter reads |
| AccessorProperties.SetOtherSlotInvisible | Source/Editor/Surface/Elements/UnsignedIntegerValue.cs:151 | a `Set` through one parameter index does not change what a `Get` through another index reads |
| AccessorProperties.SetIdempotent | Source/Editor/Surface/Elements/UnsignedIntegerValue.cs:108-147 | on a supported parameter, setting the same value twice equals setting it once |
| AccessorProperties.SetUnsupportedTwice | Source/Editor/Surface/Elements/UnsignedIntegerValue.cs:148-149 | an unsupported parameter reads 0 after one `Set`, and after a second `Set` it is an `int` that reads the second value |
| BoundControl.CreateThenNotifyIsStable | Source/Editor/Surface/Elements/UnsignedIntegerValue.cs:24-31 | a control seeded by the constructor from the node's values is unchanged by a notification that re-reads the same values, for every parameter type, and controls created on the same target display the same value |
| BoundControl.CommitThenNotifyIsStable | Source/Editor/Surface/Elements/UnsignedIntegerValue.cs:33-53 | a control that commits v and then receives the node's notification still displays v on an integer parameter, and on a float or vector parameter when `(uint)(float)v == v`; on an unsupported parameter it then displays 0; with a negative value index the commit writes nothing, so no notification follows and the control keeps v, and a notification from any other change then shows 0 |
| BoundControl.SameTargetAgree | Source/Editor/Surface/Elements/UnsignedIntegerValue.cs:82-87 | two archetypes with the same index that address the same component, or any component of a non-vector, read the same value |
| BoundControl.NotifyAll | Source/Editor/Surface/Elements/UnsignedIntegerValue.cs:30-36 | after one `ValuesChanged` delivery every subscribed control displays what `Get` reads for it, and controls with the same target agree |
| BoundControl.ApplyCommits | Source/Editor/Surface/Elements/UnsignedIntegerValue.cs:49-53 | after any sequence of edits committed through `Set`, parameters that no edit targets hold their old values |
| BoundControl.CommitsPreserveKinds | Source/Editor/Surface/Elements/UnsignedIntegerValue.cs:108-149 | any sequence of committed edits keeps the runtime type of every supported parameter |
| BoundControl.ApplyCommitsSnoc | Source/Editor/Surface/Elements/UnsignedIntegerValue.cs:49-53 | committing a list of edits and then one more equals applying `Set` of the last edit to the node after the list |
| BoundControl.LastCommitWins | Source/Editor/Surface/Elements/UnsignedIntegerValue.cs:49-53 | on an integer parameter the last committed edit wins: `Get` through its archetype reads its value whatever came before |

## Left out

- Drawing the border when unfocused (`Draw`) is UI rendering and is not
  modelled.
- The `UIntValueBox` base class is not part of this model. That covers its
  position, width, slider speed, the `(uint)ValueMin`/`(uint)ValueMax` casts
  and any clamping to them. The displayed value is modelled as `Get`'s
  result, unclamped.
- Event wiring is reduced to what it causes. `ValuesChanged` re-reads every
  subscribed control (`NotifyAll`) after the commit. `Set` is called from
  the `OnValueChanged` override (UnsignedIntegerValue.cs:49-53). The element
  never unsubscribes, and the model adds no unsubscription.
- BoundControl.OnNodeValuesChanged: treats the re-read as writing nothing.
  The handler assigns the base-class `Value` property
  (UnsignedIntegerValue.cs:35). Whether that assignment raises
  `OnValueChanged`, and so calls `Set` again, is `UIntValueBox` behaviour
  that is not part of this model. If it does, a re-read that changes the
  display writes the value back. For example, a `long` parameter holding
  2^32 + 5 reads 5 and would then be stored as 5.
- Floating-point numerics are not modelled. `(uint)` of a float and `(float)`
  of a `uint` are abstract functions (`FloatConversions`). No round trip is
  claimed for float or vector parameters unless that conversion is exact.
- Vector components are 32-bit floats, as in the default build. In a
  large-worlds build the components are doubles, and that build is not
  modelled.
- `SurfaceNode.SetValue` is modelled as a plain replacement of one entry. Its
  change notification, undo and dirty-state bookkeeping belong to the node,
  which is not part of this model.
- In the source, a non-negative `ValueIndex` past the end of the node's values
  throws in `Set`. It throws in `Get` only when there is no custom value,
  because `customValue ?? …` does not index the node otherwise. The model
  makes this a precondition of `Set`, and of `Get` only when there is no
  custom value.
- `Source/Engine/Tests/TestScripting.cs` is an interop marshalling test
  harness with no value-binding logic, so it is not modelled.
- `Source/Engine/CSG/Types.h` is a single type alias with no behaviour, so it
  is not modelled.
- AccessorProperties.GetSetRoundTripFloating: states the float and vector
  round trip only under the hypothesis that `(uint)(float)v == v`, because
  the float conversion is abstract.
