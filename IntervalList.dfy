/** A sorted, append-only list of `[start, end] -> value` intervals with a
    binary-search point lookup
    (src/IpLookup/Storage/InMemory/DataStructures/IntervalList.cs). */
module IntervalList {
  import opened Common

  /** One stored interval: the closed key range `[start, end]` and its value. */
  datatype Interval<+V> = Interval(start: UInt64, end: UInt64, value: V) {
    predicate Covers(key: int) {
      start <= key <= end
    }
  }

  /** Non-decreasing keys, as `List.BinarySearch` expects them. */
  predicate Sorted(keys: seq<UInt64>) {
    forall i, j :: 0 <= i < j < |keys| ==> keys[i] <= keys[j]
  }

  predicate StrictlyIncreasing(keys: seq<UInt64>) {
    forall i, j :: 0 <= i < j < |keys| ==> keys[i] < keys[j]
  }

  /** The invariant `Add` keeps: every interval has `start <= end`, and an
      interval ends no later than any later interval starts (so intervals may
      touch at one key but never overlap further). */
  predicate Ordered<V>(intervals: seq<Interval<V>>) {
    && (forall i :: 0 <= i < |intervals| ==> intervals[i].start <= intervals[i].end)
    && (forall i, j :: 0 <= i < j < |intervals| ==> intervals[i].end <= intervals[j].start)
  }

  /** The stricter shape the IP indexes build: no two intervals share a key. */
  predicate Disjoint<V>(intervals: seq<Interval<V>>) {
    && (forall i :: 0 <= i < |intervals| ==> intervals[i].start <= intervals[i].end)
    && (forall i, j :: 0 <= i < j < |intervals| ==> intervals[i].end < intervals[j].start)
  }

  /** In a disjoint list at most one interval covers a key. */
  lemma DisjointCoverIsUnique<V>(intervals: seq<Interval<V>>, key: int, i: int, j: int)
    requires Disjoint(intervals)
    requires 0 <= i < |intervals| && intervals[i].Covers(key)
    requires 0 <= j < |intervals| && intervals[j].Covers(key)
    ensures i == j
  {
  }

  /** Each interval ends before the next one starts. */
  predicate ChainedStrictly<V>(intervals: seq<Interval<V>>) {
    && (forall i :: 0 <= i < |intervals| ==> intervals[i].start <= intervals[i].end)
    && (forall i :: 0 <= i < |intervals| - 1 ==> intervals[i].end < intervals[i + 1].start)
  }

  lemma {:induction false} EndBeforeLaterStart<V>(intervals: seq<Interval<V>>, i: int, j: int)
    requires ChainedStrictly(intervals)
    requires 0 <= i < j < |intervals|
    ensures intervals[i].end < intervals[j].start
    decreases j - i
  {
    if i + 1 < j {
      EndBeforeLaterStart(intervals, i, j - 1);
    }
  }

  /** Checking neighbours is enough: a strictly chained list is disjoint and
      its starts strictly increase. */
  lemma DisjointFromNeighbours<V>(intervals: seq<Interval<V>>)
    requires ChainedStrictly(intervals)
    ensures Disjoint(intervals) && StrictlyIncreasing(Starts(intervals))
  {
    forall i, j | 0 <= i < j < |intervals|
      ensures intervals[i].end < intervals[j].start
    {
      EndBeforeLaterStart(intervals, i, j);
    }
  }

  /** Appending an interval that starts after the last end keeps a list disjoint. */
  lemma DisjointAppend<V>(intervals: seq<Interval<V>>, next: Interval<V>)
    requires Disjoint(intervals) && next.start <= next.end
    requires |intervals| > 0 ==> intervals[|intervals| - 1].end < next.start
    ensures Disjoint(intervals + [next])
  {
    var all := intervals + [next];
    forall i, j | 0 <= i < j < |all|
      ensures all[i].end < all[j].start
    {
      if j == |intervals| && i < j - 1 {
        assert all[i].end < all[j - 1].start;
      }
    }
  }

  function Starts<V>(intervals: seq<Interval<V>>): (keys: seq<UInt64>)
    ensures |keys| == |intervals|
    ensures forall i :: 0 <= i < |intervals| ==> keys[i] == intervals[i].start
  {
    seq(|intervals|, i requires 0 <= i < |intervals| => intervals[i].start)
  }

  /** The three parallel lists read as one list of intervals. */
  function Zip<V>(starts: seq<UInt64>, ends: seq<UInt64>, values: seq<V>): (intervals: seq<Interval<V>>)
    requires |starts| == |ends| == |values|
    ensures |intervals| == |starts|
    ensures forall i :: 0 <= i < |starts| ==> intervals[i] == Interval(starts[i], ends[i], values[i])
  {
    seq(|starts|, i requires 0 <= i < |starts| => Interval(starts[i], ends[i], values[i]))
  }

  /** Reference definition of the lookup: the position of the last interval
      whose start is at most `key`, or -1 when there is none. */
  function LastAtOrBefore<V>(intervals: seq<Interval<V>>, key: int): (p: int)
    ensures -1 <= p < |intervals|
    ensures p >= 0 ==> intervals[p].start <= key
    ensures forall j :: p < j < |intervals| ==> intervals[j].start > key
  {
    if intervals == [] then -1
    else if intervals[|intervals| - 1].start <= key then |intervals| - 1
    else LastAtOrBefore(intervals[..|intervals| - 1], key)
  }

  /** Reference definition of `TryGetValue`: the value of the predecessor
      interval when `key` does not exceed its end. */
  function Lookup<V>(intervals: seq<Interval<V>>, key: int): (r: Option<V>)
    ensures r.Some? ==> exists i :: 0 <= i < |intervals| && intervals[i].Covers(key) && r.value == intervals[i].value
  {
    var p := LastAtOrBefore(intervals, key);
    if p < 0 || intervals[p].end < key then None else Some(intervals[p].value)
  }

  /** On an ordered list the lookup hits exactly the keys some interval covers. */
  lemma LookupHitsCoveredKeys<V>(intervals: seq<Interval<V>>, key: int)
    requires Ordered(intervals)
    ensures Lookup(intervals, key).Some? <==> exists i :: 0 <= i < |intervals| && intervals[i].Covers(key)
  {
    var p := LastAtOrBefore(intervals, key);
    if i :| 0 <= i < |intervals| && intervals[i].Covers(key) {
      if p < i {
        assert false;
      } else if i < p {
        assert intervals[i].end <= intervals[p].start;
      }
    }
  }

  /** When intervals are disjoint, a key inside interval `i` finds `i`'s value. */
  lemma LookupFindsCoveringInterval<V>(intervals: seq<Interval<V>>, key: int, i: int)
    requires Disjoint(intervals)
    requires 0 <= i < |intervals| && intervals[i].Covers(key)
    ensures Lookup(intervals, key) == Some(intervals[i].value)
  {
    var p := LastAtOrBefore(intervals, key);
    assert p >= i;
  }

  /** A key equal to a stored start finds that interval's value, as long as no
      other interval starts at the same key. */
  lemma LookupExactStart<V>(intervals: seq<Interval<V>>, i: int)
    requires Ordered(intervals) && StrictlyIncreasing(Starts(intervals))
    requires 0 <= i < |intervals|
    ensures Lookup(intervals, intervals[i].start) == Some(intervals[i].value)
  {
    var key := intervals[i].start;
    var p := LastAtOrBefore(intervals, key);
    assert p >= i;
  }

  /** C#'s `~` on an `int`. */
  function Complement(x: int): int {
    -x - 1
  }

  /** `List<T>.BinarySearch`: the position of some element equal to `value`,
      or the complement of the position of the first larger element. */
  method BinarySearch(keys: seq<UInt64>, value: UInt64) returns (index: int)
    requires Sorted(keys)
    ensures 0 <= index ==> index < |keys| && keys[index] == value
    ensures index < 0 ==>
              var next := Complement(index);
              && 0 <= next <= |keys|
              && (forall j :: 0 <= j < next ==> keys[j] < value)
              && (forall j :: next <= j < |keys| ==> keys[j] > value)
  {
    var lo, hi := 0, |keys| - 1;
    while lo <= hi
      invariant 0 <= lo <= hi + 1 <= |keys|
      invariant forall j :: 0 <= j < lo ==> keys[j] < value
      invariant forall j :: hi < j < |keys| ==> keys[j] > value
    {
      var mid := lo + (hi - lo) / 2;
      if keys[mid] == value {
        return mid;
      } else if keys[mid] < value {
        lo := mid + 1;
      } else {
        hi := mid - 1;
      }
    }
    index := Complement(lo);
  }

  /** `FindLowerThanOrEqualIndex`: the position of a key equal to `value`, or
      else of the greatest key below it; -1 when every key is larger. */
  method FindLowerThanOrEqualIndex(keys: seq<UInt64>, value: UInt64) returns (p: int)
    requires Sorted(keys)
    ensures -1 <= p < |keys|
    ensures p == -1 <==> forall j :: 0 <= j < |keys| ==> keys[j] > value
    ensures p >= 0 ==> keys[p] <= value
    ensures p >= 0 ==> keys[p] == value || forall j :: p < j < |keys| ==> keys[j] > value
  {
    var index := BinarySearch(keys, value);
    if index >= 0 {
      return index;
    }
    index := Complement(index);
    if index == 0 {
      return -1;
    }
    assert keys[index - 1] < value;
    return index - 1;
  }

  class IntervalList<V> {
    var starts: seq<UInt64>
    var ends: seq<UInt64>
    var values: seq<V>
    var lastKey: UInt64

    ghost predicate Valid()
      reads this
    {
      && |starts| == |ends| == |values|
      && Ordered(Intervals())
      && lastKey == (if |ends| == 0 then 0 else ends[|ends| - 1])
    }

    /** The stored intervals, in insertion order. */
    function Intervals(): seq<Interval<V>>
      reads this
      requires |starts| == |ends| == |values|
    {
      Zip(starts, ends, values)
    }

    /** The number of stored intervals. */
    function Count(): (c: nat)
      reads this
      ensures Valid() ==> c == |Intervals()|
    {
      |starts|
    }

    /** The capacity hint only sizes the backing lists; it has no behaviour. */
    constructor(capacity: int)
      ensures Valid() && Intervals() == [] && Count() == 0
    {
      starts, ends, values := [], [], [];
      lastKey := 0;
    }

    /** `ValidateAddRequest`: an inverted range is refused first; on a
        non-empty list the new start may not lie before the last end. */
    function ValidateAddRequest(start: UInt64, end: UInt64): (r: Outcome<Exception>)
      reads this
      ensures r.Pass? <==> start <= end && (Count() == 0 || lastKey <= start)
      ensures r.Fail? ==> r.error.ArgumentException?
      ensures end < start ==> r == Fail(ArgumentException("Interval end must be greater than or equal to the start"))
    {
      if end < start then
        Fail(ArgumentException("Interval end must be greater than or equal to the start"))
      else if Count() == 0 then
        Pass
      else if lastKey > start then
        Fail(ArgumentException("Overlapping intervals are not allowed"))
      else
        Pass
    }

    /** `Add`: validate, then append to the three lists and remember the end. */
    method Add(start: UInt64, end: UInt64, value: V) returns (r: Outcome<Exception>)
      requires Valid()
      modifies this
      ensures Valid()
      ensures r == old(ValidateAddRequest(start, end))
      ensures r.Fail? ==> unchanged(this)
      ensures r.Pass? ==> Intervals() == old(Intervals()) + [Interval(start, end, value)] && lastKey == end
      ensures r.Pass? ==> starts == old(starts) + [start] && ends == old(ends) + [end] && values == old(values) + [value]
    {
      r := ValidateAddRequest(start, end);
      if r.Fail? {
        return;
      }
      AcceptedAddKeepsOrder(this, start, end, value);
      starts := starts + [start];
      ends := ends + [end];
      values := values + [value];
      lastKey := end;
      assert Intervals() == old(Intervals()) + [Interval(start, end, value)];
    }

    /** `FindIntervalIndex`: the predecessor position if its interval covers
        `key`, otherwise -1. */
    method FindIntervalIndex(key: UInt64) returns (p: int)
      requires Valid()
      ensures -1 <= p < Count()
      ensures p == -1 <==> Lookup(Intervals(), key) == None
      ensures p >= 0 ==> Intervals()[p].Covers(key)
      ensures p >= 0 ==> forall j :: p < j < Count() ==> starts[j] > key || starts[j] == starts[p]
      ensures p >= 0 && StrictlyIncreasing(starts) ==> p == LastAtOrBefore(Intervals(), key)
    {
      ghost var ivs := Intervals();
      ghost var last := LastAtOrBefore(ivs, key);
      p := FindLowerThanOrEqualIndex(starts, key);
      if p < 0 {
        return -1;
      }
      if ends[p] < key {
        assert last == p;
        return -1;
      }
      if last != p {
        assert ivs[p].end <= ivs[last].start;
      }
    }

    /** `TryGetValue`: the value of the interval that covers `key`, found by
        binary search over the starts; `None` when no interval covers it. */
    method TryGetValue(key: UInt64) returns (r: Option<V>)
      requires Valid()
      ensures r.Some? <==> exists i :: 0 <= i < Count() && Intervals()[i].Covers(key)
      ensures r.Some? ==> exists i :: 0 <= i < Count() && Intervals()[i].Covers(key) && r.value == values[i]
      ensures StrictlyIncreasing(starts) ==> r == Lookup(Intervals(), key)
    {
      LookupHitsCoveredKeys(Intervals(), key);
      var p := FindIntervalIndex(key);
      if p == -1 {
        return None;
      }
      return Some(values[p]);
    }
  }

  /** The check of `ValidateAddRequest` passes exactly when appending the
      interval keeps the list ordered. */
  lemma AcceptedAddKeepsOrder<V>(list: IntervalList<V>, start: UInt64, end: UInt64, value: V)
    requires list.Valid()
    ensures list.ValidateAddRequest(start, end).Pass? <==> Ordered(list.Intervals() + [Interval(start, end, value)])
  {
    var ivs := list.Intervals();
    var ivs' := ivs + [Interval(start, end, value)];
    var n := |ivs|;
    if list.ValidateAddRequest(start, end).Pass? {
      forall i, j | 0 <= i < j < |ivs'|
        ensures ivs'[i].end <= ivs'[j].start
      {
        if j == n && i < n - 1 {
          assert ivs[i].end <= ivs[n - 1].start;
        }
      }
    } else if end >= start {
      assert list.Count() > 0 && list.lastKey > start;
      assert ivs[n - 1].end == list.ends[n - 1] == list.lastKey;
      assert ivs'[n - 1].end > ivs'[n].start;
      assert !Ordered(ivs');
    } else {
      assert ivs'[n].start > ivs'[n].end;
    }
  }

  /** A list holding the first `i` intervals of a strictly chained sequence
      accepts interval `i`. */
  lemma PrefixAcceptsNext<V>(list: IntervalList<V>, intervals: seq<Interval<V>>, i: nat)
    requires list.Valid() && ChainedStrictly(intervals)
    requires i < |intervals| && list.Intervals() == intervals[..i]
    ensures list.ValidateAddRequest(intervals[i].start, intervals[i].end).Pass?
  {
    if i > 0 {
      assert list.Intervals()[i - 1] == intervals[i - 1];
      assert list.lastKey == list.ends[i - 1] == intervals[i - 1].end;
    }
  }
}
