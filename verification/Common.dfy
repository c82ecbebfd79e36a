/** Small vocabulary shared by every component model. */
module Common {

  /** A value that may be missing: Python's `None` next to a real value. */
  datatype Option<+T> = None | Some(value: T)

  /** Position of the first entry that passes the test, or the length of the list. */
  function FirstIndex<T>(items: seq<T>, passes: T -> bool): (k: nat)
    ensures k <= |items|
    ensures k < |items| ==> passes(items[k])
    ensures forall i :: 0 <= i < k ==> !passes(items[i])
  {
    if items == [] || passes(items[0]) then 0
    else
      var k := FirstIndex(items[1..], passes) + 1;
      assert forall i :: 0 < i < k ==> items[i] == items[1..][i - 1];
      k
  }

  /** The first entry that passes the test. */
  function FirstMatch<T>(items: seq<T>, passes: T -> bool): (r: Option<T>)
    ensures r.Some? ==> r.value in items && passes(r.value)
    ensures r.None? ==> forall x :: x in items ==> !passes(x)
  {
    var k := FirstIndex(items, passes);
    if k < |items| then Some(items[k]) else None
  }
}
