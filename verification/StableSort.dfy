/** Python's stable `sorted` with a negated length as key. */
module StableSort {
  import opened Common

  ghost predicate Descending<T>(s: seq<T>, length: T -> nat) {
    forall i, j :: 0 <= i < j < |s| ==> length(s[i]) >= length(s[j])
  }

  /** `sorted` with the negated length as key: longest first, ties in their original order. */
  function SortedByLength<T(!new)>(items: seq<T>, length: T -> nat): (r: seq<T>)
    ensures Descending(r, length)
    ensures forall x :: x in r <==> x in items
  {
    if items == [] then []
    else
      var last := items[|items| - 1];
      assert forall x :: x in items <==> x in items[..|items| - 1] || x == last;
      InsertAfterEquals(SortedByLength(items[..|items| - 1], length), last, length)
  }

  /** Puts `x` behind every entry at least as long. */
  function InsertAfterEquals<T(!new)>(sorted: seq<T>, x: T, length: T -> nat): (r: seq<T>)
    requires Descending(sorted, length)
    ensures Descending(r, length)
    ensures forall y :: y in r <==> y in sorted || y == x
  {
    if sorted == [] then [x]
    else if length(sorted[0]) >= length(x) then
      assert forall y :: y in sorted <==> y == sorted[0] || y in sorted[1..];
      var rest := InsertAfterEquals(sorted[1..], x, length);
      assert forall i :: 0 <= i < |rest| ==> rest[i] in rest && length(rest[i]) <= length(sorted[0]);
      [sorted[0]] + rest
    else
      [x] + sorted
  }

  /** The entries of one length, in order. */
  ghost function OfLength<T>(items: seq<T>, length: T -> nat, n: nat): seq<T> {
    if items == [] then []
    else (if length(items[0]) == n then [items[0]] else []) + OfLength(items[1..], length, n)
  }

  lemma {:induction false} OfLengthAppend<T>(items: seq<T>, x: T, length: T -> nat, n: nat)
    ensures OfLength(items + [x], length, n) == OfLength(items, length, n) + (if length(x) == n then [x] else [])
  {
    if items != [] {
      assert (items + [x])[1..] == items[1..] + [x];
      OfLengthAppend(items[1..], x, length, n);
    }
  }

  lemma {:induction false} ShorterHasNone<T>(items: seq<T>, length: T -> nat, n: nat)
    requires forall i :: 0 <= i < |items| ==> length(items[i]) < n
    ensures OfLength(items, length, n) == []
  {
    if items != [] {
      ShorterHasNone(items[1..], length, n);
    }
  }

  lemma {:induction false} InsertIsStable<T(!new)>(sorted: seq<T>, x: T, length: T -> nat, n: nat)
    requires Descending(sorted, length)
    ensures OfLength(InsertAfterEquals(sorted, x, length), length, n)
      == OfLength(sorted, length, n) + (if length(x) == n then [x] else [])
  {
    if sorted == [] {
    } else if length(sorted[0]) >= length(x) {
      InsertIsStable(sorted[1..], x, length, n);
      OfLengthCons(sorted[0], InsertAfterEquals(sorted[1..], x, length), length, n);
    } else {
      OfLengthCons(x, sorted, length, n);
      if length(x) == n {
        ShorterHasNone(sorted, length, n);
      }
    }
  }

  lemma OfLengthCons<T>(x: T, rest: seq<T>, length: T -> nat, n: nat)
    ensures OfLength([x] + rest, length, n) == (if length(x) == n then [x] else []) + OfLength(rest, length, n)
  {
    assert ([x] + rest)[1..] == rest;
  }

  /** The sort keeps, for every length, exactly the entries of that length in their original order. */
  lemma {:induction false} SortIsStable<T(!new)>(items: seq<T>, length: T -> nat, n: nat)
    ensures OfLength(SortedByLength(items, length), length, n) == OfLength(items, length, n)
  {
    if items != [] {
      var front := items[..|items| - 1];
      var last := items[|items| - 1];
      SortIsStable(front, length, n);
      InsertIsStable(SortedByLength(front, length), last, length, n);
      OfLengthAppend(front, last, length, n);
      assert front + [last] == items;
    }
  }

  lemma FirstMatchCons<T>(x: T, rest: seq<T>, passes: T -> bool)
    ensures FirstMatch([x] + rest, passes) == if passes(x) then Some(x) else FirstMatch(rest, passes)
  {
    assert ([x] + rest)[1..] == rest;
  }

  /** The first entry that passes a test is the first of its own length to pass it. */
  lemma {:induction false} FirstIsFirstOfItsLength<T(!new)>(items: seq<T>, length: T -> nat, passes: T -> bool, x: T)
    requires FirstMatch(items, passes) == Some(x)
    ensures FirstMatch(OfLength(items, length, length(x)), passes) == Some(x)
  {
    var head, tail := items[0], items[1..];
    var rest := OfLength(tail, length, length(x));
    assert items == [head] + tail;
    FirstMatchCons(head, tail, passes);
    FirstMatchCons(head, rest, passes);
    if !passes(head) {
      FirstIsFirstOfItsLength(tail, length, passes, x);
      assert OfLength(items, length, length(x)) == if length(head) == length(x) then [head] + rest else rest;
    }
  }
}
