/** The median of the last samples of a stream. */
module Medians {
  import opened Bytes

  predicate IsSorted(s: seq<int>) {
    |s| <= 1 || (s[0] <= s[1] && IsSorted(s[1..]))
  }

  lemma {:induction false} SortedAt(s: seq<int>, i: nat, j: nat)
    requires IsSorted(s) && i <= j < |s|
    ensures s[i] <= s[j]
  {
    if i > 0 {
      SortedAt(s[1..], i - 1, j - 1);
    } else if j > 0 {
      SortedAt(s[1..], 0, j - 1);
    }
  }

  function Insert(x: int, s: seq<int>): (r: seq<int>)
    ensures |r| == |s| + 1
  {
    if s == [] || x <= s[0] then [x] + s else [s[0]] + Insert(x, s[1..])
  }

  // What std::sort makes of a vector.
  function Sorted(s: seq<int>): (r: seq<int>)
    ensures |r| == |s|
  {
    if s == [] then [] else Insert(s[0], Sorted(s[1..]))
  }

  lemma {:induction false} InsertedElements(x: int, s: seq<int>)
    ensures multiset(Insert(x, s)) == multiset(s) + multiset{x}
  {
    if s != [] && s[0] < x {
      InsertedElements(x, s[1..]);
      assert s == [s[0]] + s[1..];
    }
  }

  lemma InsertedFirst(x: int, s: seq<int>)
    ensures Insert(x, s)[0] == if s == [] || x <= s[0] then x else s[0]
  {
  }

  lemma {:induction false} InsertIsSorted(x: int, s: seq<int>)
    requires IsSorted(s)
    ensures IsSorted(Insert(x, s))
  {
    if s == [] || x <= s[0] {
      assert ([x] + s)[1..] == s;
    } else {
      InsertIsSorted(x, s[1..]);
      InsertedFirst(x, s[1..]);
      assert ([s[0]] + Insert(x, s[1..]))[1..] == Insert(x, s[1..]);
    }
  }

  lemma {:induction false} SortedIsSorted(s: seq<int>)
    ensures IsSorted(Sorted(s)) && multiset(Sorted(s)) == multiset(s)
  {
    if s != [] {
      SortedIsSorted(s[1..]);
      InsertIsSorted(s[0], Sorted(s[1..]));
      InsertedElements(s[0], Sorted(s[1..]));
      assert s == [s[0]] + s[1..];
    }
  }

  lemma SameSize(s: seq<int>, t: seq<int>)
    requires multiset(s) == multiset(t)
    ensures |s| == |t|
  {
    assert |multiset(s)| == |s| && |multiset(t)| == |t|;
  }

  lemma SameFirst(s: seq<int>, t: seq<int>)
    requires IsSorted(s) && IsSorted(t) && multiset(s) == multiset(t) && s != [] && t != []
    ensures s[0] <= t[0]
  {
    assert t[0] in multiset(s);
    var k :| 0 <= k < |s| && s[k] == t[0];
    SortedAt(s, 0, k);
  }

  lemma TailElements(s: seq<int>)
    requires s != []
    ensures multiset(s[1..]) == multiset(s) - multiset{s[0]}
  {
    assert s == [s[0]] + s[1..];
  }

  lemma SameWhole(s: seq<int>, t: seq<int>)
    requires s != [] && t != [] && s[0] == t[0] && s[1..] == t[1..]
    ensures s == t
  {
    assert s == [s[0]] + s[1..] && t == [t[0]] + t[1..];
  }

  /** A sorted vector is determined by its elements, so it does not matter how it was sorted. */
  lemma {:induction false} SortedIsUnique(s: seq<int>, t: seq<int>)
    requires IsSorted(s) && IsSorted(t) && multiset(s) == multiset(t)
    ensures s == t
  {
    SameSize(s, t);
    if s != [] {
      SameFirst(s, t);
      SameFirst(t, s);
      TailElements(s);
      TailElements(t);
      SortedIsUnique(s[1..], t[1..]);
      SameWhole(s, t);
    }
  }

  // The last n of the samples, or all of them: a filter of size 0 never drops any.
  function Window(n: nat, samples: seq<int>): seq<int> {
    if n == 0 || |samples| <= n then samples else samples[|samples| - n..]
  }

  // Division by two as in C++, towards zero.
  function Half(n: int): int { if n >= 0 then n / 2 else -((-n) / 2) }

  function MedianOf(s: seq<int>): int
    requires s != []
  {
    if |s| % 2 == 1 then s[|s| / 2] else Half(s[|s| / 2 - 1] + s[|s| / 2])
  }

  // The middle element, or a number whose double is the sum of the two middle ones, or next to that towards zero.
  predicate IsMiddle(s: seq<int>, m: int) {
    s != [] &&
    if |s| % 2 == 1 then m == s[|s| / 2]
    else
      var sum := s[|s| / 2 - 1] + s[|s| / 2];
      if sum >= 0 then 2 * m <= sum <= 2 * m + 1 else 2 * m - 1 <= sum <= 2 * m
  }

  lemma MedianIsMiddle(s: seq<int>)
    requires s != []
    ensures |s| % 2 == 1 ==> MedianOf(s) == s[(|s| - 1) / 2]
    ensures |s| % 2 == 0 ==>
              var x, y, m := s[|s| / 2 - 1], s[|s| / 2], MedianOf(s);
              -1 <= x + y - 2 * m <= 1 && (x + y >= 0 ==> x + y - 2 * m >= 0) && (x + y <= 0 ==> x + y - 2 * m <= 0)
    ensures IsMiddle(s, MedianOf(s))
  {
  }

  // ---------- the median lies where most samples lie ----------

  // The elements from a to b.
  function CountIn(s: seq<int>, a: int, b: int): nat {
    if s == [] then 0 else (if a <= s[0] <= b then 1 else 0) + CountIn(s[1..], a, b)
  }

  lemma {:induction false} CountInsert(x: int, s: seq<int>, a: int, b: int)
    ensures CountIn(Insert(x, s), a, b) == CountIn([x] + s, a, b)
  {
    assert ([x] + s)[1..] == s;
    if s != [] && s[0] < x {
      CountInsert(x, s[1..], a, b);
      var tail := Insert(x, s[1..]);
      assert Insert(x, s) == [s[0]] + tail && ([s[0]] + tail)[1..] == tail;
      assert ([x] + s[1..])[1..] == s[1..];
    }
  }

  lemma {:induction false} CountSorted(s: seq<int>, a: int, b: int)
    ensures CountIn(Sorted(s), a, b) == CountIn(s, a, b)
  {
    if s != [] {
      CountSorted(s[1..], a, b);
      CountInsert(s[0], Sorted(s[1..]), a, b);
      assert ([s[0]] + Sorted(s[1..]))[1..] == Sorted(s[1..]);
    }
  }

  // No more elements count than there are outside a part where none does.
  lemma {:induction false} CountOutside(s: seq<int>, a: int, b: int, from: nat, to: nat)
    requires from <= to <= |s| && forall i :: from <= i < to ==> !(a <= s[i] <= b)
    ensures CountIn(s, a, b) <= |s| - (to - from)
  {
    if s != [] {
      CountOutside(s[1..], a, b, if from == 0 then 0 else from - 1, if to == 0 then 0 else to - 1);
    }
  }

  /** If more than half of the elements lie between a and b, so does the median, for odd and even numbers of elements. */
  lemma MajorityHoldsMedian(s: seq<int>, a: int, b: int)
    requires 2 * CountIn(s, a, b) > |s|
    ensures s != [] && a <= MedianOf(Sorted(s)) <= b
  {
    var t := Sorted(s);
    CountSorted(s, a, b);
    SortedIsSorted(s);
    LowHolds(t, a, b);
    HighHolds(t, a, b);
    MiddleHolds(t, a, b);
  }

  // The median lies between the two middle elements, which are one for odd numbers.
  lemma MiddleHolds(t: seq<int>, a: int, b: int)
    requires IsSorted(t) && t != [] && a <= t[(|t| - 1) / 2] && t[|t| / 2] <= b
    ensures a <= MedianOf(t) <= b
  {
    SortedAt(t, (|t| - 1) / 2, |t| / 2);
    if |t| % 2 == 1 {
      assert (|t| - 1) / 2 == |t| / 2;
    } else {
      assert (|t| - 1) / 2 == |t| / 2 - 1;
      HalfBetween(t[|t| / 2 - 1], t[|t| / 2], a, b);
    }
  }

  lemma HalfBetween(x: int, y: int, a: int, b: int)
    requires a <= x <= y <= b
    ensures a <= Half(x + y) <= b
  {
  }

  lemma LowHolds(t: seq<int>, a: int, b: int)
    requires IsSorted(t) && 2 * CountIn(t, a, b) > |t|
    ensures t != [] && a <= t[(|t| - 1) / 2]
  {
    var low := (|t| - 1) / 2;
    if t != [] && t[low] < a {
      forall i | 0 <= i < low + 1
        ensures t[i] < a
      {
        SortedAt(t, i, low);
      }
      CountOutside(t, a, b, 0, low + 1);
    }
  }

  lemma HighHolds(t: seq<int>, a: int, b: int)
    requires IsSorted(t) && 2 * CountIn(t, a, b) > |t|
    ensures t != [] && t[|t| / 2] <= b
  {
    var high := |t| / 2;
    if t != [] && t[high] > b {
      forall i | high <= i < |t|
        ensures t[i] > b
      {
        SortedAt(t, high, i);
      }
      CountOutside(t, a, b, high, |t|);
    }
  }

  // One more sample moves the window by one, once it is full.
  lemma WindowStep(n: nat, samples: seq<int>, value: int)
    requires samples != []
    ensures var w := Window(n, samples);
            w != [] && Window(n, samples + [value]) == (if |w| == n then w[1..] else w) + [value]
  {
  }

  class MedianFilter {
    var values: seq<int>
    var sorted: seq<int>
    const size: uint32
    // Every value so far, the initial one first.
    ghost var samples: seq<int>

    /** The filter holds the last samples, and the same sorted. */
    ghost predicate Valid()
      reads this
    {
      samples != [] && values != [] && values == Window(size, samples) && sorted == Sorted(values)
    }

    constructor (size: uint32, initialValue: int)
      ensures Valid() && this.size == size && samples == [initialValue]
    {
      this.size := size;
      values, sorted, samples := [initialValue], [initialValue], [initialValue];
      new;
      assert [initialValue][1..] == [];
    }

    method Input(value: int)
      requires Valid()
      modifies this
      ensures Valid() && samples == old(samples) + [value]
    {
      WindowStep(size, samples, value);
      if |values| == size {
        values := values[1..];
      }
      values := values + [value];
      sorted := Sorted(values);
      samples := samples + [value];
    }

    /** The median of the last samples: the middle one of an odd number, half the sum of the two middle ones of an even
        number, rounded towards zero; wherever more than half of them lie, it lies too. */
    method Median() returns (m: int)
      requires Valid()
      ensures m == MedianOf(Sorted(Window(size, samples)))
      ensures var w := if size == 0 || |samples| <= size then samples else samples[|samples| - size..];
              forall s {:trigger IsSorted(s)} :: IsSorted(s) && multiset(s) == multiset(w) ==> IsMiddle(s, m)
      ensures forall a, b :: 2 * CountIn(Window(size, samples), a, b) > |Window(size, samples)| ==> a <= m <= b
    {
      forall a, b | 2 * CountIn(values, a, b) > |values|
        ensures a <= MedianOf(Sorted(values)) <= b
      {
        MajorityHoldsMedian(values, a, b);
      }
      forall s {:trigger IsSorted(s)} | IsSorted(s) && multiset(s) == multiset(values)
        ensures IsMiddle(s, MedianOf(Sorted(values)))
      {
        SortedIsSorted(values);
        SortedIsUnique(s, Sorted(values));
        MedianIsMiddle(s);
      }
      var sortedSize := |sorted|;
      if sortedSize % 2 == 1 {
        return sorted[sortedSize / 2];
      } else {
        return Half(sorted[sortedSize / 2 - 1] + sorted[sortedSize / 2]);
      }
    }
  }
}
