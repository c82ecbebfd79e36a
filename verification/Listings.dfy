/** Sequences as listings of sets: Python's `sorted` and `for x in some_set`, in an order left open. */
module Listings {

  function Elements<T>(s: seq<T>): set<T> {
    set x | x in s
  }

  lemma ElementsConcat<T>(a: seq<T>, b: seq<T>)
    ensures Elements(a + b) == Elements(a) + Elements(b)
  {
  }

  ghost predicate Distinct<T>(s: seq<T>) {
    forall i, j :: 0 <= i < j < |s| ==> s[i] != s[j]
  }

  /** Some listing of a set, without repetition. */
  method Listed<T(==)>(items: set<T>) returns (r: seq<T>)
    ensures Distinct(r) && Elements(r) == items && |r| == |items|
  {
    r := [];
    var todo := items;
    while todo != {}
      invariant todo <= items
      invariant Distinct(r) && Elements(r) == items - todo && |r| == |items| - |todo|
      decreases |todo|
    {
      var x :| x in todo;
      assert x !in Elements(r);
      ElementsConcat(r, [x]);
      todo := todo - {x};
      r := r + [x];
    }
  }

  /** The members of a list, one after the other. */
  method Collected<T(==)>(items: seq<T>) returns (r: set<T>)
    ensures r == Elements(items)
  {
    r := {};
    for i := 0 to |items|
      invariant r == Elements(items[..i])
    {
      ElementsConcat(items[..i], [items[i]]);
      assert items[..i] + [items[i]] == items[..i + 1];
      r := r + {items[i]};
    }
    assert items[..|items|] == items;
  }
}
