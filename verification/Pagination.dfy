/**
 Reading a whole list from a media server page by page.

 The list is stable while it is read. A page starts where the previous one ended and is as long as the
 server likes; the total is reported correctly or not at all.
 */
module Pagination {
  const COLLECTION_PAGE_SIZE: nat := 1000

  /** An entry of a page: a JSON object, or anything else, which is passed over. */
  datatype Entry<+T> = Object(value: T) | NotAnObject

  datatype Paging = Paging(reportsTotal: bool, pageLength: nat -> nat)

  function Objects<T>(entries: seq<Entry<T>>): seq<T> {
    if entries == [] then []
    else
      Objects(entries[..|entries| - 1])
      + if entries[|entries| - 1].Object? then [entries[|entries| - 1].value] else []
  }

  /** Where the page that starts at `start` ends. */
  function PageEnd(size: nat, paging: Paging, start: nat): (end: nat)
    requires start <= size
    ensures start <= end <= size
  {
    if start + paging.pageLength(start) <= size then start + paging.pageLength(start) else size
  }

  /** The page served at `start`, and the total reported with it (zero when there is none). */
  function Serve<T>(entries: seq<Entry<T>>, paging: Paging, start: nat): (seq<Entry<T>>, int)
    requires start <= |entries|
  {
    (entries[start..PageEnd(|entries|, paging, start)], if paging.reportsTotal then |entries| else 0)
  }

  /** How far the loop gets when it stands at `start`. */
  ghost function Stop(size: nat, paging: Paging, start: nat): (stop: nat)
    requires start <= size
    ensures start <= stop <= size
    decreases size - start
  {
    var end := PageEnd(size, paging, start);
    if end == start then start
    else if paging.reportsTotal && end >= size then end
    else if !paging.reportsTotal && end - start < COLLECTION_PAGE_SIZE then end
    else Stop(size, paging, end)
  }

  lemma {:induction false} ObjectsConcat<T>(a: seq<Entry<T>>, b: seq<Entry<T>>)
    ensures Objects(a + b) == Objects(a) + Objects(b)
  {
    if b == [] {
      assert a + b == a;
    } else {
      ObjectsConcat(a, b[..|b| - 1]);
      assert (a + b)[..|a + b| - 1] == a + b[..|b| - 1];
    }
  }

  lemma NextPage<T>(entries: seq<Entry<T>>, start: nat, end: nat)
    requires start <= end <= |entries|
    ensures Objects(entries[..end]) == Objects(entries[..start]) + Objects(entries[start..end])
  {
    ObjectsConcat(entries[..start], entries[start..end]);
    assert entries[..start] + entries[start..end] == entries[..end];
  }

  /** Whether the loop reads on behind the page from `start` to `end`. */
  predicate ReadsOn(size: nat, paging: Paging, start: nat, end: nat) {
    if paging.reportsTotal then end < size else end >= start + COLLECTION_PAGE_SIZE
  }

  lemma StopBehind(size: nat, paging: Paging, start: nat)
    requires start <= size
    ensures var end := PageEnd(size, paging, start);
      Stop(size, paging, start) == if end > start && ReadsOn(size, paging, start, end) then Stop(size, paging, end) else end
  {
  }

  /** One turn of the loop: what the page adds, and whether to read on. */
  method ReadPage<T>(entries: seq<Entry<T>>, paging: Paging, startIndex: nat) returns (items: seq<T>, next: nat, more: bool)
    requires startIndex <= |entries|
    ensures next == PageEnd(|entries|, paging, startIndex) && items == Objects(entries[startIndex..next])
    ensures more <==> next > startIndex && ReadsOn(|entries|, paging, startIndex, next)
  {
    var (pageItems, total) := Serve(entries, paging, startIndex);
    items, next := Objects(pageItems), startIndex + |pageItems|;
    if pageItems == [] {
      return items, next, false;
    }
    if total > 0 && next >= total {
      return items, next, false;
    }
    if total <= 0 && |pageItems| < COLLECTION_PAGE_SIZE {
      return items, next, false;
    }
    more := true;
  }

  method GetPaginatedItems<T>(entries: seq<Entry<T>>, paging: Paging) returns (items: seq<T>)
    ensures items == Objects(entries[..Stop(|entries|, paging, 0)])
  {
    items := [];
    var startIndex, more := 0, true;
    while more
      invariant startIndex <= |entries|
      invariant items == Objects(entries[..startIndex])
      invariant Stop(|entries|, paging, 0) == if more then Stop(|entries|, paging, startIndex) else startIndex
      decreases |entries| - startIndex, more
    {
      StopBehind(|entries|, paging, startIndex);
      NextPage(entries, startIndex, PageEnd(|entries|, paging, startIndex));
      var page, next;
      page, next, more := ReadPage(entries, paging, startIndex);
      items, startIndex := items + page, next;
    }
  }

  /** Every page on the way to the end has something on it and, when no total is known, is full. */
  ghost predicate LeadsToTheEnd(size: nat, paging: Paging, start: nat)
    requires start <= size
    decreases size - start
  {
    start == size ||
    var end := PageEnd(size, paging, start);
    && end > start
    && (paging.reportsTotal || end == size || end - start >= COLLECTION_PAGE_SIZE)
    && LeadsToTheEnd(size, paging, end)
  }

  /** The loop reads the whole list exactly when no page stops it early. */
  lemma {:induction false} ReadsAllIff(size: nat, paging: Paging, start: nat)
    requires start <= size
    ensures Stop(size, paging, start) == size <==> LeadsToTheEnd(size, paging, start)
    decreases size - start
  {
    var end := PageEnd(size, paging, start);
    if end > start {
      ReadsAllIff(size, paging, end);
    }
  }

  /** Non-empty pages with a total, or pages filled to the limit without one. */
  ghost predicate Dependable(paging: Paging) {
    forall start: nat :: paging.pageLength(start) >= if paging.reportsTotal then 1 else COLLECTION_PAGE_SIZE
  }

  lemma {:induction false} DependableLeadsToTheEnd(size: nat, paging: Paging, start: nat)
    requires Dependable(paging) && start <= size
    ensures LeadsToTheEnd(size, paging, start)
    decreases size - start
  {
    if start < size {
      DependableLeadsToTheEnd(size, paging, PageEnd(size, paging, start));
    }
  }

  /** From a dependable server the loop returns every object of the list, once and in order. */
  lemma DependableServersAreReadWhole<T>(entries: seq<Entry<T>>, paging: Paging)
    requires Dependable(paging)
    ensures Stop(|entries|, paging, 0) == |entries|
    ensures Objects(entries[..Stop(|entries|, paging, 0)]) == Objects(entries)
  {
    DependableLeadsToTheEnd(|entries|, paging, 0);
    ReadsAllIff(|entries|, paging, 0);
    assert entries[..|entries|] == entries;
  }
}
