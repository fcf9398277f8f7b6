/** `getTasksSortedByPriority` and `getPriorityStats` over the raw collection,
    which may hold null entries and entries without a priority. */
module PrioritySort {
  import opened Wrappers
  import opened Tasks

  /** An object of the collection: its other properties and its `priority`
      property, which may be missing. A null or undefined slot is `None` in
      the surrounding sequence. */
  datatype Entry<T> = Entry(fields: T, priority: Option<Priority>)

  /** `priorityOrder`: high before medium before low. */
  function Rank(p: Priority): nat {
    match p
    case High => 1
    case Medium => 2
    case Low => 3
  }

  predicate Ranked<T>(xs: seq<Entry<T>>) {
    forall i :: 0 <= i < |xs| ==> xs[i].priority.Some?
  }

  /** Non-decreasing by rank. */
  predicate Sorted<T>(xs: seq<Entry<T>>) {
    && Ranked(xs)
    && forall i, j :: 0 <= i < j < |xs| ==> Rank(xs[i].priority.value) <= Rank(xs[j].priority.value)
  }

  /** The filter `task && task.priority`: the entries that are present and
      have a priority, in collection order. */
  function Present<T>(raw: seq<Option<Entry<T>>>): (r: seq<Entry<T>>)
    ensures Ranked(r)
    ensures |r| <= |raw|
  {
    if |raw| == 0 then []
    else
      (if raw[0].Some? && raw[0].value.priority.Some? then [raw[0].value] else [])
      + Present(raw[1..])
  }

  /** The filter keeps exactly the present entries that have a priority. */
  lemma {:induction false} PresentMembers<T>(raw: seq<Option<Entry<T>>>)
    ensures forall e :: e in Present(raw) <==> Some(e) in raw && e.priority.Some?
  {
    if |raw| > 0 {
      PresentMembers(raw[1..]);
      assert raw == [raw[0]] + raw[1..];
    }
  }

  /** The entries of priority `p`, in their order in `xs`. */
  function Bucket<T>(xs: seq<Entry<T>>, p: Priority): (r: seq<Entry<T>>)
    ensures |r| <= |xs|
  {
    if |xs| == 0 then []
    else (if xs[0].priority == Some(p) then [xs[0]] else []) + Bucket(xs[1..], p)
  }

  /** A priority group holds only entries of that priority. */
  lemma {:induction false} BucketOnly<T>(xs: seq<Entry<T>>, p: Priority)
    ensures forall i :: 0 <= i < |Bucket(xs, p)| ==> Bucket(xs, p)[i].priority == Some(p)
  {
    if |xs| > 0 {
      BucketOnly(xs[1..], p);
      var head := if xs[0].priority == Some(p) then [xs[0]] else [];
      var r := Bucket(xs, p);
      assert r == head + Bucket(xs[1..], p);
      assert forall i :: |head| <= i < |r| ==> r[i] == Bucket(xs[1..], p)[i - |head|];
    }
  }

  /** The reference result of a stable sort by rank: all high entries, then
      all medium, then all low, each group in collection order. */
  function ByBuckets<T>(xs: seq<Entry<T>>): seq<Entry<T>> {
    Bucket(xs, High) + Bucket(xs, Medium) + Bucket(xs, Low)
  }

  /** Places `x` in front of the first entry ranked no better than it. The
      entries it passes rank strictly better, so `x` keeps its place before
      every entry of its own priority. */
  function Insert<T>(x: Entry<T>, xs: seq<Entry<T>>): (r: seq<Entry<T>>)
    requires x.priority.Some? && Ranked(xs)
    ensures Ranked(r) && |r| == |xs| + 1
  {
    if |xs| == 0 || Rank(x.priority.value) <= Rank(xs[0].priority.value) then [x] + xs
    else
      assert forall i :: 0 <= i < |xs[1..]| ==> xs[1..][i] == xs[i + 1];
      [xs[0]] + Insert(x, xs[1..])
  }

  /** A stable sort by rank; `Array.prototype.sort` has been stable since
      ES2019, so every conforming engine returns this same sequence. */
  function InsertionSort<T>(xs: seq<Entry<T>>): (r: seq<Entry<T>>)
    requires Ranked(xs)
    ensures Ranked(r) && |r| == |xs|
  {
    if |xs| == 0 then []
    else
      assert forall i :: 0 <= i < |xs[1..]| ==> xs[1..][i] == xs[i + 1];
      Insert(xs[0], InsertionSort(xs[1..]))
  }

  /** Inserting adds exactly `x` to the entries. */
  lemma {:induction false} InsertPerm<T>(x: Entry<T>, xs: seq<Entry<T>>)
    requires x.priority.Some? && Ranked(xs)
    ensures multiset(Insert(x, xs)) == multiset(xs) + multiset{x}
  {
    if !(|xs| == 0 || Rank(x.priority.value) <= Rank(xs[0].priority.value)) {
      InsertPerm(x, xs[1..]);
      assert xs == [xs[0]] + xs[1..];
    }
  }

  /** The sort returns a permutation of its input. */
  lemma {:induction false} SortPerm<T>(xs: seq<Entry<T>>)
    requires Ranked(xs)
    ensures multiset(InsertionSort(xs)) == multiset(xs)
  {
    if |xs| > 0 {
      SortPerm(xs[1..]);
      InsertPerm(xs[0], InsertionSort(xs[1..]));
      assert xs == [xs[0]] + xs[1..];
    }
  }

  /** An entry ranked no worse than every entry of a sorted sequence can go
      in front of it. */
  lemma SortedCons<T>(x: Entry<T>, rest: seq<Entry<T>>)
    requires x.priority.Some? && Sorted(rest)
    requires forall i :: 0 <= i < |rest| ==> Rank(x.priority.value) <= Rank(rest[i].priority.value)
    ensures Sorted([x] + rest)
  {
    var r := [x] + rest;
    forall i, j | 0 <= i < j < |r|
      ensures Rank(r[i].priority.value) <= Rank(r[j].priority.value)
    {
      assert r[j] == rest[j - 1];
      if i > 0 {
        assert r[i] == rest[i - 1];
      }
    }
  }

  /** Inserting keeps every entry ranked no better than a common bound. */
  lemma {:induction false} InsertBound<T>(x: Entry<T>, xs: seq<Entry<T>>, b: nat)
    requires x.priority.Some? && Ranked(xs) && b <= Rank(x.priority.value)
    requires forall i :: 0 <= i < |xs| ==> b <= Rank(xs[i].priority.value)
    ensures forall i :: 0 <= i < |Insert(x, xs)| ==> b <= Rank(Insert(x, xs)[i].priority.value)
  {
    var r := Insert(x, xs);
    if |xs| == 0 || Rank(x.priority.value) <= Rank(xs[0].priority.value) {
      assert r == [x] + xs;
      assert forall i :: 1 <= i < |r| ==> r[i] == xs[i - 1];
    } else {
      var tail := Insert(x, xs[1..]);
      assert r == [xs[0]] + tail;
      assert forall i :: 0 <= i < |xs[1..]| ==> xs[1..][i] == xs[i + 1];
      InsertBound(x, xs[1..], b);
      assert forall i :: 1 <= i < |r| ==> r[i] == tail[i - 1];
    }
  }

  lemma {:induction false} InsertSorted<T>(x: Entry<T>, xs: seq<Entry<T>>)
    requires x.priority.Some? && Sorted(xs)
    ensures Sorted(Insert(x, xs))
  {
    if |xs| == 0 || Rank(x.priority.value) <= Rank(xs[0].priority.value) {
      SortedCons(x, xs);
    } else {
      var rest := xs[1..];
      SortedTail(xs);
      InsertSorted(x, rest);
      InsertBound(x, rest, Rank(xs[0].priority.value));
      SortedCons(xs[0], Insert(x, rest));
    }
  }

  /** The group of a sequence with one more entry in front. */
  lemma BucketCons<T>(y: Entry<T>, rest: seq<Entry<T>>, p: Priority)
    ensures Bucket([y] + rest, p) == (if y.priority == Some(p) then [y] else []) + Bucket(rest, p)
  {
    var r := [y] + rest;
    assert r[0] == y && r[1..] == rest;
  }

  /** Moving an entry `x` past an entry `y` of another priority does not
      change the order within any group. */
  lemma SwapPastOther<T>(x: Entry<T>, y: Entry<T>, rest: seq<Entry<T>>, tail: seq<Entry<T>>, p: Priority)
    requires x.priority != y.priority
    requires Bucket(tail, p) == (if x.priority == Some(p) then [x] else []) + Bucket(rest, p)
    ensures Bucket([y] + tail, p) == (if x.priority == Some(p) then [x] else []) + Bucket([y] + rest, p)
  {
    BucketCons(y, tail, p);
    BucketCons(y, rest, p);
    if x.priority == Some(p) {
      assert Bucket([y] + tail, p) == Bucket(tail, p);
      assert Bucket([y] + rest, p) == Bucket(rest, p);
    } else {
      assert Bucket(tail, p) == Bucket(rest, p);
    }
  }

  /** Inserting `x` adds it to the front of its own priority group and
      leaves the other groups as they were. */
  lemma {:induction false} InsertBucket<T>(x: Entry<T>, xs: seq<Entry<T>>, p: Priority)
    requires x.priority.Some? && Ranked(xs)
    ensures Bucket(Insert(x, xs), p) == (if x.priority == Some(p) then [x] else []) + Bucket(xs, p)
  {
    if |xs| == 0 || Rank(x.priority.value) <= Rank(xs[0].priority.value) {
      BucketCons(x, xs, p);
    } else {
      var rest := xs[1..];
      InsertBucket(x, rest, p);
      SwapPastOther(x, xs[0], rest, Insert(x, rest), p);
      assert xs == [xs[0]] + rest;
    }
  }

  lemma {:induction false} SortSorted<T>(xs: seq<Entry<T>>)
    requires Ranked(xs)
    ensures Sorted(InsertionSort(xs))
  {
    if |xs| > 0 {
      SortSorted(xs[1..]);
      InsertSorted(xs[0], InsertionSort(xs[1..]));
    }
  }

  /** Stability: the sort keeps every priority group in collection order. */
  lemma {:induction false} SortStable<T>(xs: seq<Entry<T>>, p: Priority)
    requires Ranked(xs)
    ensures Bucket(InsertionSort(xs), p) == Bucket(xs, p)
  {
    if |xs| > 0 {
      SortStable(xs[1..], p);
      InsertBucket(xs[0], InsertionSort(xs[1..]), p);
    }
  }

  lemma {:induction false} BucketEmpty<T>(xs: seq<Entry<T>>, p: Priority)
    requires forall i :: 0 <= i < |xs| ==> xs[i].priority != Some(p)
    ensures Bucket(xs, p) == []
  {
    if |xs| > 0 {
      BucketEmpty(xs[1..], p);
    }
  }

  /** The tail of a sorted sequence is sorted and ranks no better than its
      head. */
  lemma SortedTail<T>(xs: seq<Entry<T>>)
    requires Sorted(xs) && |xs| > 0
    ensures Sorted(xs[1..])
    ensures forall i :: 0 <= i < |xs[1..]| ==> Rank(xs[0].priority.value) <= Rank(xs[1..][i].priority.value)
  {
    forall i | 0 <= i < |xs[1..]|
      ensures Rank(xs[0].priority.value) <= Rank(xs[1..][i].priority.value)
    {
      assert xs[1..][i] == xs[i + 1];
    }
  }

  /** Putting an entry that ranks no worse than every entry of `rest` in
      front of a sequence laid out by groups keeps it laid out by groups. */
  lemma ByBucketsCons<T>(x: Entry<T>, rest: seq<Entry<T>>)
    requires x.priority.Some? && Ranked(rest) && rest == ByBuckets(rest)
    requires forall i :: 0 <= i < |rest| ==> Rank(x.priority.value) <= Rank(rest[i].priority.value)
    ensures [x] + rest == ByBuckets([x] + rest)
  {
    var xs := [x] + rest;
    assert xs[0] == x && xs[1..] == rest;
    var h, m, l := Bucket(rest, High), Bucket(rest, Medium), Bucket(rest, Low);
    match x.priority.value
    case High =>
      assert ByBuckets(xs) == ([x] + h) + m + l;
    case Medium =>
      BucketEmpty(rest, High);
      assert ByBuckets(xs) == [] + ([x] + m) + l;
    case Low =>
      BucketEmpty(rest, High);
      BucketEmpty(rest, Medium);
      assert ByBuckets(xs) == [] + [] + ([x] + l);
  }

  /** A sorted sequence is its groups laid end to end. */
  lemma {:induction false} SortedIsByBuckets<T>(xs: seq<Entry<T>>)
    requires Sorted(xs)
    ensures xs == ByBuckets(xs)
  {
    if |xs| > 0 {
      var rest := xs[1..];
      SortedTail(xs);
      SortedIsByBuckets(rest);
      ByBucketsCons(xs[0], rest);
      assert xs == [xs[0]] + rest;
    }
  }

  /** A sorted, stable order is unique: two sorted sequences with the same
      priority groups are equal. Any stable sort therefore agrees with the
      reference `ByBuckets`. */
  lemma SortedStableUnique<T>(a: seq<Entry<T>>, b: seq<Entry<T>>)
    requires Sorted(a) && Sorted(b)
    requires forall p :: Bucket(a, p) == Bucket(b, p)
    ensures a == b
  {
    SortedIsByBuckets(a);
    SortedIsByBuckets(b);
    assert Bucket(a, High) == Bucket(b, High);
    assert Bucket(a, Medium) == Bucket(b, Medium);
    assert Bucket(a, Low) == Bucket(b, Low);
  }

  /** `getTasksSortedByPriority`: a fresh sequence of the present entries
      with a priority, sorted by rank, stable, and a permutation of them. */
  function SortByPriority<T>(raw: seq<Option<Entry<T>>>): (r: seq<Entry<T>>)
    ensures Sorted(r)
    ensures multiset(r) == multiset(Present(raw))
    ensures forall p :: Bucket(r, p) == Bucket(Present(raw), p)
    ensures r == ByBuckets(Present(raw))
  {
    var present := Present(raw);
    SortPerm(present);
    SortSorted(present);
    SortStable(present, High);
    SortStable(present, Medium);
    SortStable(present, Low);
    SortedIsByBuckets(InsertionSort(present));
    assert forall p :: Bucket(InsertionSort(present), p) == Bucket(present, p) by {
      forall p ensures Bucket(InsertionSort(present), p) == Bucket(present, p) {
        SortStable(present, p);
      }
    }
    InsertionSort(present)
  }

  /** The groups of a ranked sequence partition it. */
  lemma BucketsPartition<T>(xs: seq<Entry<T>>)
    requires Ranked(xs)
    ensures multiset(ByBuckets(xs)) == multiset(xs)
    ensures |Bucket(xs, High)| + |Bucket(xs, Medium)| + |Bucket(xs, Low)| == |xs|
  {
    var sorted := InsertionSort(xs);
    SortPerm(xs);
    SortSorted(xs);
    SortedIsByBuckets(sorted);
    SortStable(xs, High);
    SortStable(xs, Medium);
    SortStable(xs, Low);
  }

  lemma {:induction false} BucketConcat<T>(a: seq<Entry<T>>, b: seq<Entry<T>>, p: Priority)
    ensures Bucket(a + b, p) == Bucket(a, p) + Bucket(b, p)
  {
    if |a| == 0 {
      assert a + b == b;
    } else {
      var x, rest := a[0], a[1..];
      var head := if x.priority == Some(p) then [x] else [];
      calc {
        Bucket(a + b, p);
      == { assert a + b == [x] + (rest + b); }
        Bucket([x] + (rest + b), p);
      == { BucketCons(x, rest + b, p); }
        head + Bucket(rest + b, p);
      == { BucketConcat(rest, b, p); }
        head + (Bucket(rest, p) + Bucket(b, p));
      ==
        (head + Bucket(rest, p)) + Bucket(b, p);
      == { BucketCons(x, rest, p); assert a == [x] + rest; }
        Bucket(a, p) + Bucket(b, p);
      }
    }
  }

  lemma {:induction false} PresentConcat<T>(a: seq<Option<Entry<T>>>, b: seq<Option<Entry<T>>>)
    ensures Present(a + b) == Present(a) + Present(b)
  {
    if |a| == 0 {
      assert a + b == b;
    } else {
      var head := if a[0].Some? && a[0].value.priority.Some? then [a[0].value] else [];
      calc {
        Present(a + b);
      == { assert (a + b)[0] == a[0] && (a + b)[1..] == a[1..] + b; }
        head + Present(a[1..] + b);
      == { PresentConcat(a[1..], b); }
        head + (Present(a[1..]) + Present(b));
      ==
        (head + Present(a[1..])) + Present(b);
      ==
        Present(a) + Present(b);
      }
    }
  }

  /** The `{high, medium, low}` object `getPriorityStats` returns. */
  datatype Stats = Stats(high: nat, medium: nat, low: nat)

  /** The counts of each priority group of `xs`. */
  function Tally<T>(xs: seq<Entry<T>>): Stats {
    Stats(|Bucket(xs, High)|, |Bucket(xs, Medium)|, |Bucket(xs, Low)|)
  }

  /** The reducer of `getPriorityStats`: one more in the slot's priority
      count when the slot is present and has a priority, else unchanged. */
  function Tick<T>(stats: Stats, slot: Option<Entry<T>>): Stats {
    if slot.Some? && slot.value.priority.Some? then
      match slot.value.priority.value
      case High => stats.(high := stats.high + 1)
      case Medium => stats.(medium := stats.medium + 1)
      case Low => stats.(low := stats.low + 1)
    else stats
  }

  /** Folding one more slot into the counts of a prefix gives the counts of
      the longer prefix. */
  lemma TickTally<T>(raw: seq<Option<Entry<T>>>, i: nat)
    requires i < |raw|
    ensures Tally(Present(raw[..i + 1])) == Tick(Tally(Present(raw[..i])), raw[i])
  {
    var slot := raw[i];
    assert raw[..i + 1] == raw[..i] + [slot];
    PresentConcat(raw[..i], [slot]);
    assert [slot][1..] == [];
    var tail := Present([slot]);
    BucketConcat(Present(raw[..i]), tail, High);
    BucketConcat(Present(raw[..i]), tail, Medium);
    BucketConcat(Present(raw[..i]), tail, Low);
    if slot.Some? && slot.value.priority.Some? {
      assert tail == [slot.value];
      assert tail[1..] == [];
    } else {
      assert tail == [];
    }
  }

  /** `getPriorityStats`: a fold from zero counts that adds one per present
      entry with a priority and skips every other slot. */
  method PriorityStats<T>(raw: seq<Option<Entry<T>>>) returns (stats: Stats)
    ensures stats.high == |Bucket(Present(raw), High)|
    ensures stats.medium == |Bucket(Present(raw), Medium)|
    ensures stats.low == |Bucket(Present(raw), Low)|
    ensures stats.high + stats.medium + stats.low == |SortByPriority(raw)|
  {
    stats := Stats(0, 0, 0);
    for i := 0 to |raw|
      invariant stats == Tally(Present(raw[..i]))
    {
      TickTally(raw, i);
      stats := Tick(stats, raw[i]);
    }
    assert raw[..|raw|] == raw;
    BucketsPartition(Present(raw));
  }
}
