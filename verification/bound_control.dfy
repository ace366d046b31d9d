/**
 The unsigned-integer element as a control bound to one node parameter: it
 seeds its displayed value with `Get` when created, re-reads it with `Get`
 whenever the node reports changed values, and writes its value with `Set`
 from the `OnValueChanged` override. The node's change notification is
 modelled as the re-read of every subscribed control, after the write has
 been committed.
 */
module BoundControl {
  import opened Numeric
  import opened SurfaceValue
  import opened UnsignedIntegerValue
  import AccessorProperties

  /** A bound control: its archetype and the value it displays. */
  datatype Control = Control(arch: Archetype, value: UInt32)

  /** The parameter an archetype names, if any, exists in the node. */
  predicate BoundIn(values: Values, arch: Archetype) {
    arch.valueIndex < |values|
  }

  /** Every control of a list is bound within the node. */
  predicate AllBoundIn(values: Values, controls: seq<Control>) {
    forall k :: 0 <= k < |controls| ==> BoundIn(values, controls[k].arch)
  }

  /** The constructor: the displayed value is seeded from the node. */
  function Create(values: Values, arch: Archetype, conv: FloatConversions): Control
    requires BoundIn(values, arch)
  {
    Control(arch, Get(values, arch, Null, conv))
  }

  /** The handler of the node's `ValuesChanged` event: re-read the displayed value. */
  function OnNodeValuesChanged(c: Control, values: Values, conv: FloatConversions): Control
    requires BoundIn(values, c.arch)
  {
    c.(value := Get(values, c.arch, Null, conv))
  }

  /** The `OnValueChanged` override: display the new value and write it to the node with `Set`. */
  function OnValueChanged(c: Control, values: Values, newValue: UInt32, conv: FloatConversions): (Control, Values)
    requires BoundIn(values, c.arch)
  {
    (c.(value := newValue), Set(values, c.arch, newValue, conv))
  }

  /**
   A control that commits a value and then receives the node's notification
   of that same commit. The re-read leaves it unchanged on an integer
   parameter, and on a float or vector parameter whose float conversion
   gives the value back. On an unsupported parameter the re-read moves the
   display to 0. With a negative value index the commit writes nothing, so
   no notification follows and the control keeps the value; a notification
   from any other change then shows 0.
   */
  lemma CommitThenNotifyIsStable(c: Control, values: Values, newValue: UInt32, conv: FloatConversions)
    requires BoundIn(values, c.arch)
    ensures var (c', values') := OnValueChanged(c, values, newValue, conv);
            && (0 <= c.arch.valueIndex && (IsIntegral(values[c.arch.valueIndex])
                  || (IsFloating(values[c.arch.valueIndex]) && conv.Exact(newValue))) ==>
                  OnNodeValuesChanged(c', values', conv) == c')
            && (0 <= c.arch.valueIndex && !Supported(values[c.arch.valueIndex]) ==>
                  OnNodeValuesChanged(c', values', conv).value == 0)
            && (c.arch.valueIndex < 0 ==>
                  && values' == values && c'.value == newValue
                  && forall other: Values :: OnNodeValuesChanged(c', other, conv).value == 0)
  {
    if 0 <= c.arch.valueIndex {
      if IsIntegral(values[c.arch.valueIndex]) {
        AccessorProperties.GetSetRoundTrip(values, c.arch, newValue, conv);
      } else if IsFloating(values[c.arch.valueIndex]) && conv.Exact(newValue) {
        AccessorProperties.GetSetRoundTripFloating(values, c.arch, newValue, conv);
      }
    }
  }

  /**
   Two archetypes address the same datum of the node: the same parameter
   and, when that parameter is a float vector, the same component.
   */
  predicate SameTarget(values: Values, a: Archetype, b: Archetype) {
    && a.valueIndex == b.valueIndex
    && (0 <= a.valueIndex < |values| && IsFloating(values[a.valueIndex]) ==>
          Selected(values[a.valueIndex], a.boxId) == Selected(values[a.valueIndex], b.boxId))
  }

  /** Controls that address the same datum read the same value. */
  lemma SameTargetAgree(values: Values, a: Archetype, b: Archetype, conv: FloatConversions)
    requires BoundIn(values, a) && BoundIn(values, b)
    requires SameTarget(values, a, b)
    ensures Get(values, a, Null, conv) == Get(values, b, Null, conv)
  {
    if 0 <= a.valueIndex && IsIntegral(values[a.valueIndex]) {
      var v := values[a.valueIndex];
      SameLow32Trans(Get(values, a, Null, conv), IntegerOf(v), Get(values, b, Null, conv));
      SameLow32Unsigned(Get(values, a, Null, conv), Get(values, b, Null, conv));
    }
  }

  /**
   A control just created from the node's values is already what a
   notification would make it: re-reading the same values changes nothing,
   whatever the parameter's type, and two controls created on the same
   datum display the same value.
   */
  lemma CreateThenNotifyIsStable(values: Values, a: Archetype, b: Archetype, conv: FloatConversions)
    requires BoundIn(values, a) && BoundIn(values, b)
    ensures Create(values, a, conv).arch == a
    ensures OnNodeValuesChanged(Create(values, a, conv), values, conv) == Create(values, a, conv)
    ensures SameTarget(values, a, b) ==> Create(values, a, conv).value == Create(values, b, conv).value
  {
    if SameTarget(values, a, b) {
      SameTargetAgree(values, a, b, conv);
    }
  }

  /**
   Delivery of the node's `ValuesChanged` event to every subscribed control:
   each re-reads its value from the committed parameters, so afterwards
   every control displays what `Get` reads for it and controls addressing
   the same datum agree.
   */
  method NotifyAll(controls: seq<Control>, values: Values, conv: FloatConversions) returns (updated: seq<Control>)
    requires AllBoundIn(values, controls)
    ensures |updated| == |controls|
    ensures forall k :: 0 <= k < |controls| ==>
              updated[k].arch == controls[k].arch && updated[k].value == Get(values, controls[k].arch, Null, conv)
    ensures forall j, k :: 0 <= j < |controls| && 0 <= k < |controls| && SameTarget(values, controls[j].arch, controls[k].arch) ==>
              updated[j].value == updated[k].value
  {
    updated := [];
    var i := 0;
    while i < |controls|
      invariant 0 <= i <= |controls|
      invariant |updated| == i
      invariant forall k :: 0 <= k < i ==>
                  updated[k].arch == controls[k].arch && updated[k].value == Get(values, controls[k].arch, Null, conv)
    {
      updated := updated + [OnNodeValuesChanged(controls[i], values, conv)];
      i := i + 1;
    }
    forall j, k | 0 <= j < |controls| && 0 <= k < |controls| && SameTarget(values, controls[j].arch, controls[k].arch)
      ensures updated[j].value == updated[k].value
    {
      SameTargetAgree(values, controls[j].arch, controls[k].arch, conv);
    }
  }

  /** One committed edit: the archetype of the control that made it and the value. */
  datatype Commit = Commit(arch: Archetype, value: UInt32)

  /** Every commit of a list is bound within the node. */
  predicate CommitsBoundIn(values: Values, commits: seq<Commit>) {
    forall k :: 0 <= k < |commits| ==> BoundIn(values, commits[k].arch)
  }

  /** Some commit of the list writes parameter `j`. */
  predicate Touches(commits: seq<Commit>, j: int) {
    exists k :: 0 <= k < |commits| && commits[k].arch.valueIndex == j
  }

  /**
   The node after a sequence of edits by its controls, each committed
   through `Set` in order. Parameters no edit writes keep their values.
   */
  function ApplyCommits(values: Values, commits: seq<Commit>, conv: FloatConversions): (r: Values)
    requires CommitsBoundIn(values, commits)
    ensures |r| == |values|
    ensures forall j :: 0 <= j < |values| && !Touches(commits, j) ==> r[j] == values[j]
    decreases |commits|
  {
    if |commits| == 0 then values
    else
      var next := Set(values, commits[0].arch, commits[0].value, conv);
      assert forall j :: !Touches(commits, j) ==> !Touches(commits[1..], j) && commits[0].arch.valueIndex != j by {
        forall j | !Touches(commits, j)
          ensures !Touches(commits[1..], j) && commits[0].arch.valueIndex != j
        {
          forall k | 0 <= k < |commits| - 1
            ensures commits[1..][k].arch.valueIndex != j
          {
            assert commits[1..][k] == commits[k + 1];
          }
        }
      }
      ApplyCommits(next, commits[1..], conv)
  }

  /** Any sequence of edits keeps the runtime type of every supported parameter. */
  lemma {:induction false} CommitsPreserveKinds(values: Values, commits: seq<Commit>, conv: FloatConversions)
    requires CommitsBoundIn(values, commits)
    ensures forall j :: 0 <= j < |values| && Supported(values[j]) ==>
              KindOf(ApplyCommits(values, commits, conv)[j]) == KindOf(values[j])
    decreases |commits|
  {
    if |commits| > 0 {
      var next := Set(values, commits[0].arch, commits[0].value, conv);
      CommitsPreserveKinds(next, commits[1..], conv);
    }
  }

  /** Applying a list of edits followed by one more is applying the list, then `Set` of the last. */
  lemma {:induction false} ApplyCommitsSnoc(values: Values, commits: seq<Commit>, last: Commit, conv: FloatConversions)
    requires CommitsBoundIn(values, commits) && BoundIn(values, last.arch)
    ensures CommitsBoundIn(values, commits + [last])
    ensures ApplyCommits(values, commits + [last], conv)
            == Set(ApplyCommits(values, commits, conv), last.arch, last.value, conv)
    decreases |commits|
  {
    var all := commits + [last];
    assert forall k :: 0 <= k < |commits| ==> all[k] == commits[k];
    assert all[|commits|] == last;
    if |commits| > 0 {
      var next := Set(values, commits[0].arch, commits[0].value, conv);
      assert all[1..] == commits[1..] + [last];
      ApplyCommitsSnoc(next, commits[1..], last, conv);
    }
  }

  /**
   For an integer parameter, the last edit wins: whatever edits came
   before, `Get` through the last edit's archetype reads its value.
   */
  lemma LastCommitWins(values: Values, commits: seq<Commit>, last: Commit, conv: FloatConversions)
    requires CommitsBoundIn(values, commits)
    requires 0 <= last.arch.valueIndex < |values|
    requires IsIntegral(values[last.arch.valueIndex])
    ensures CommitsBoundIn(values, commits + [last])
    ensures Get(ApplyCommits(values, commits + [last], conv), last.arch, Null, conv) == last.value
  {
    ApplyCommitsSnoc(values, commits, last, conv);
    var before := ApplyCommits(values, commits, conv);
    CommitsPreserveKinds(values, commits, conv);
    AccessorProperties.GetSetRoundTrip(before, last.arch, last.value, conv);
  }
}
