/**
  `contains(arr, predicat)` from src/utils/contains.ts: a left-to-right scan
  that answers whether some element satisfies the predicate.  The predicate
  is modelled as a total, side-effect-free function.
 */
module Search {
  import opened Optional

  /** The index of the first element satisfying `pred`, if there is one. */
  function FirstMatch<T>(arr: seq<T>, pred: T -> bool): (r: Maybe<nat>)
    ensures r.Just? ==> r.value < |arr| && pred(arr[r.value])
    ensures r.Just? ==> forall j :: 0 <= j < r.value ==> !pred(arr[j])
    ensures r.Nothing? <==> forall j :: 0 <= j < |arr| ==> !pred(arr[j])
  {
    if |arr| == 0 then Nothing
    else if pred(arr[0]) then Just(0)
    else match FirstMatch(arr[1..], pred)
      case Nothing => Nothing
      case Just(i) => Just(i + 1)
  }

  /** The loop of contains.ts: true exactly when some element satisfies the
      predicate, which is when there is a first such element. */
  method Contains<T>(arr: seq<T>, pred: T -> bool) returns (found: bool)
    ensures found <==> exists i :: 0 <= i < |arr| && pred(arr[i])
    ensures found <==> FirstMatch(arr, pred).Just?
  {
    var i := 0;
    while i < |arr|
      invariant 0 <= i <= |arr|
      invariant forall j :: 0 <= j < i ==> !pred(arr[j])
    {
      if pred(arr[i]) {
        return true;
      }
      i := i + 1;
    }
    return false;
  }

  /** The scan stops at the first match: whatever follows that element has
      no influence on the outcome. */
  lemma {:induction false} FirstMatchIgnoresRest<T>(arr: seq<T>, pred: T -> bool, rest: seq<T>)
    requires FirstMatch(arr, pred).Just?
    ensures var i := FirstMatch(arr, pred).value;
            FirstMatch(arr[..i + 1] + rest, pred) == Just(i)
  {
    var i := FirstMatch(arr, pred).value;
    var a := arr[..i + 1] + rest;
    if i > 0 {
      assert a[1..] == arr[1..][..i] + rest;
      assert FirstMatch(arr[1..], pred) == Just(i - 1);
      FirstMatchIgnoresRest(arr[1..], pred, rest);
    }
  }
}
