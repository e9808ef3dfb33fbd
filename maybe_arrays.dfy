/**
 * `concatMaybeArrays`: concatenate the arrays among the arguments that are
 * present; the result is absent only when every argument is. An empty array
 * is present.
 */
module MaybeArrays {
  import opened Wrappers

  /** The present arguments, in order. */
  function Present<T>(arrays: seq<Option<seq<T>>>): (r: seq<seq<T>>)
    ensures |r| <= |arrays|
  {
    if arrays == [] then []
    else
      var last := arrays[|arrays| - 1];
      Present(arrays[..|arrays| - 1]) + (if last.Some? then [last.value] else [])
  }

  function Flatten<T>(xss: seq<seq<T>>): seq<T> {
    if xss == [] then [] else Flatten(xss[..|xss| - 1]) + xss[|xss| - 1]
  }

  predicate AllAbsent<T>(arrays: seq<Option<seq<T>>>) {
    forall i :: 0 <= i < |arrays| ==> arrays[i].None?
  }

  /** The value `concatMaybeArrays` returns, stated without its fold. */
  function MaybeConcat<T>(arrays: seq<Option<seq<T>>>): Option<seq<T>> {
    if AllAbsent(arrays) then None else Some(Flatten(Present(arrays)))
  }

  method ConcatMaybeArrays<T>(arrays: seq<Option<seq<T>>>) returns (result: Option<seq<T>>)
    ensures result == MaybeConcat(arrays)
    ensures result.None? <==> AllAbsent(arrays)
    ensures result.Some? ==> result.value == Flatten(Present(arrays))
  {
    result := None;
    var i := 0;
    while i < |arrays|
      invariant 0 <= i <= |arrays|
      invariant result == MaybeConcat(arrays[..i])
    {
      var maybeArray := arrays[i];
      assert arrays[..i + 1] == arrays[..i] + [maybeArray];
      MaybeConcatStep(arrays[..i], maybeArray);
      if maybeArray.Some? {
        result := if result.None? then maybeArray else Some(result.value + maybeArray.value);
      }
      i := i + 1;
    }
    assert arrays[..i] == arrays;
  }

  lemma {:induction false} AbsentHasNothing<T>(arrays: seq<Option<seq<T>>>)
    requires AllAbsent(arrays)
    ensures Present(arrays) == []
  {
    if arrays != [] {
      AbsentHasNothing(arrays[..|arrays| - 1]);
    }
  }

  lemma PresentStep<T>(arrays: seq<Option<seq<T>>>, x: Option<seq<T>>)
    ensures Present(arrays + [x]) == Present(arrays) + (if x.Some? then [x.value] else [])
    ensures AllAbsent(arrays + [x]) <==> AllAbsent(arrays) && x.None?
  {
    var t := arrays + [x];
    assert t[..|arrays|] == arrays;
    assert forall i :: 0 <= i < |arrays| ==> t[i] == arrays[i];
    assert t[|arrays|] == x;
  }

  lemma FlattenStep<T>(xss: seq<seq<T>>, xs: seq<T>)
    ensures Flatten(xss + [xs]) == Flatten(xss) + xs
  {
    assert (xss + [xs])[..|xss|] == xss;
  }

  /** One more argument: absent leaves the result as it was, present is appended (or starts it). */
  lemma MaybeConcatStep<T>(arrays: seq<Option<seq<T>>>, x: Option<seq<T>>)
    ensures MaybeConcat(arrays + [x]) ==
      if x.None? then MaybeConcat(arrays)
      else if MaybeConcat(arrays).None? then x
      else Some(MaybeConcat(arrays).value + x.value)
  {
    PresentStep(arrays, x);
    if x.Some? {
      FlattenStep(Present(arrays), x.value);
      assert MaybeConcat(arrays + [x]) == Some(Flatten(Present(arrays)) + x.value);
      if AllAbsent(arrays) {
        AbsentHasNothing(arrays);
        assert Flatten(Present(arrays)) == [];
        assert Flatten(Present(arrays)) + x.value == x.value;
      } else {
        assert MaybeConcat(arrays) == Some(Flatten(Present(arrays)));
      }
    } else {
      assert Present(arrays + [x]) == Present(arrays);
    }
  }

  /** Two arguments, the second present: the first's items (if any), then the second's. */
  lemma MaybeConcatPair<T>(first: Option<seq<T>>, second: seq<T>)
    ensures MaybeConcat([first, Some(second)]) == Some(first.GetOr([]) + second)
  {
    MaybeConcatOptions(first, Some(second));
  }

  /** Two arguments, either possibly absent. */
  lemma MaybeConcatOptions<T>(first: Option<seq<T>>, second: Option<seq<T>>)
    ensures MaybeConcat([first, second]).None? <==> first.None? && second.None?
    ensures MaybeConcat([first, second]).Some? ==>
              MaybeConcat([first, second]).value == first.GetOr([]) + second.GetOr([])
  {
    MaybeConcatStep([], first);
    assert [] + [first] == [first];
    MaybeConcatStep([first], second);
    assert [first] + [second] == [first, second];
    assert MaybeConcat<T>([]) == None;
  }
}
