/** The bucket rings behind the USB and I2S rate estimates: fixed arrays that keep the last few
    closed buckets, against the plain list of all buckets closed since the last reset. */
module RateWindow {
  import opened Words

  function Sum(s: seq<int>): int {
    if s == [] then 0 else Sum(s[..|s| - 1]) + s[|s| - 1]
  }

  lemma {:induction false} SumAppend(a: seq<int>, b: seq<int>)
    ensures Sum(a + b) == Sum(a) + Sum(b)
    decreases b
  {
    if b == [] {
      assert a + b == a;
    } else {
      var front := b[..|b| - 1];
      assert (a + b)[..|a + b| - 1] == a + front;
      SumAppend(a, front);
    }
  }

  lemma SumNext(s: seq<int>, x: int)
    ensures Sum(s + [x]) == Sum(s) + x
  {
    assert (s + [x])[..|s|] == s;
  }

  lemma SumUpdate(s: seq<int>, i: nat, x: int)
    requires i < |s|
    ensures Sum(s[i := x]) == Sum(s) - s[i] + x
  {
    assert s == s[..i] + [s[i]] + s[i + 1..];
    assert s[i := x] == s[..i] + [x] + s[i + 1..];
    SumAppend(s[..i] + [s[i]], s[i + 1..]);
    SumAppend(s[..i], [s[i]]);
    SumAppend(s[..i] + [x], s[i + 1..]);
    SumAppend(s[..i], [x]);
    assert [s[i]][..0] == [] && [x][..0] == [];
  }

  /** The last `n` elements, or all of them. */
  function Recent(s: seq<int>, n: nat): seq<int> {
    if |s| <= n then s else s[|s| - n..]
  }

  /** A full window that takes in one element loses its oldest. */
  lemma RecentAppend(s: seq<int>, x: int, n: nat)
    requires n > 0
    ensures Sum(Recent(s + [x], n)) == Sum(Recent(s, n)) + x - (if |s| >= n then s[|s| - n] else 0)
  {
    assert [x][..0] == [];
    if |s| < n {
      SumAppend(s, [x]);
    } else {
      var tail := s[|s| - n + 1..];
      assert Recent(s + [x], n) == tail + [x];
      assert Recent(s, n) == [s[|s| - n]] + tail;
      assert [s[|s| - n]][..0] == [];
      SumAppend(tail, [x]);
      SumAppend([s[|s| - n]], tail);
    }
  }

  function Last<T>(s: seq<T>): T
    requires s != []
  {
    s[|s| - 1]
  }

  /** The differences of neighbours, modulo 2^32. */
  function Steps(marks: seq<int>): (steps: seq<int>)
    requires marks != []
    ensures |steps| == |marks| - 1
  {
    seq(|marks| - 1, j requires 0 <= j < |marks| - 1 => Wrap32(marks[j + 1] - marks[j]))
  }

  lemma StepsAppend(marks: seq<int>, x: int)
    requires marks != []
    ensures Steps(marks + [x]) == Steps(marks) + [Wrap32(x - Last(marks))]
  {
  }

  lemma StepAt(marks: seq<int>, j: nat)
    requires j + 1 < |marks|
    ensures Steps(marks)[j] == Wrap32(marks[j + 1] - marks[j])
  {
  }

  lemma SumOfNone()
    ensures Sum([]) == 0
  {
  }

  /** A stretch of the differences adds up to the difference of its ends, modulo 2^32. */
  lemma {:induction false} Telescope(marks: seq<int>, a: nat, b: nat)
    requires a <= b < |marks|
    ensures Wrap32(Sum(Steps(marks)[a..b])) == Wrap32(marks[b] - marks[a])
    decreases b
  {
    hide Wrap32, Steps, Sum;
    var steps := Steps(marks);
    if a == b {
      SumOfNone();
      assert steps[a..b] == [];
    } else {
      assert steps[a..b] == steps[a..b - 1] + [steps[b - 1]];
      Telescope(marks, a, b - 1);
      StepAt(marks, b - 1);
      SumNext(steps[a..b - 1], steps[b - 1]);
      WrapSum(Sum(steps[a..b - 1]), marks[b - 1] - marks[a], marks[b] - marks[b - 1]);
    }
  }

  /** The sum a ring of `n` slots yields is the difference over the last `n` neighbours. */
  lemma RecentSteps(marks: seq<int>, n: nat)
    requires marks != []
    ensures Wrap32(Sum(Recent(Steps(marks), n))) == Wrap32(Last(marks) - marks[Max(0, |marks| - 1 - n)])
  {
    var k := |marks| - 1;
    var first := Max(0, k - n);
    assert Recent(Steps(marks), n) == Steps(marks)[first..k];
    Telescope(marks, first, k);
  }

  lemma WrapSum(x: int, y: int, z: int)
    requires Wrap32(x) == Wrap32(y)
    ensures Wrap32(x + Wrap32(z)) == Wrap32(y + z)
  {
  }

  /** The ring holds element `i` of the list, for the last `|ring|` of them, at `i` modulo its
      length, and zeros where nothing has been put yet. */
  predicate RingOf(ring: seq<int>, list: seq<int>) {
    && |ring| > 0
    && (forall i :: 0 <= i < |list| && i + |ring| >= |list| ==> ring[i % |ring|] == list[i])
    && (forall j :: |list| <= j < |ring| ==> ring[j] == 0)
    && Sum(ring) == Sum(Recent(list, |ring|))
  }

  lemma RingPut(ring: seq<int>, list: seq<int>, x: int)
    requires RingOf(ring, list)
    ensures RingOf(ring[|list| % |ring| := x], list + [x])
  {
    var n, k := |ring|, |list|;
    var slot := k % n;
    SumUpdate(ring, slot, x);
    RecentAppend(list, x, n);
    if k >= n {
      StepBack(k, n);
    } else {
      ModUnique(k, n, 0, k);
    }
    var ring', list' := ring[slot := x], list + [x];
    forall i | 0 <= i < |list'| && i + n >= |list'|
      ensures ring'[i % n] == list'[i]
    {
      if i < k {
        SameSlot(i, k, n);
      }
    }
  }

  lemma StepBack(k: nat, n: nat)
    requires 0 < n <= k
    ensures (k - n) % n == k % n
  {
    assert k == n * (k / n) + k % n;
    ModUnique(k - n, n, k / n - 1, k % n);
  }

  /** The 32-bit count of closed buckets picks the right slot even after it has wrapped, because
      the number of slots divides 2^32. */
  lemma WrappedSlot(count: nat, n: nat)
    requires n > 0 && TWO32 % n == 0
    ensures Wrap32(count) % n == count % n
  {
    var turns, blocks := count / TWO32, TWO32 / n;
    assert TWO32 == n * blocks;
    var w := Wrap32(count);
    assert w == n * (w / n) + w % n;
    assert count == turns * TWO32 + w;
    assert turns * (n * blocks) == (turns * blocks) * n;
    assert count == (turns * blocks + w / n) * n + w % n;
    ModUnique(count, n, turns * blocks + w / n, w % n);
  }

  /** A ring of time spans and one of sample counts, filled side by side. */
  class BucketRing {
    const slots: nat
    const spans: array<u32>
    const sizes: array<u32>
    var full: bool
    var overflowed: u32

    ghost var closedSpans: seq<int>
    ghost var closedSizes: seq<int>

    ghost predicate Valid()
      reads this, spans, sizes
    {
      && 0 < slots < TWO32 && TWO32 % slots == 0
      && spans != sizes && spans.Length == sizes.Length == slots
      && |closedSpans| == |closedSizes|
      && overflowed == Wrap32(|closedSpans|)
      && (full <==> |closedSpans| >= slots)
      && RingOf(spans[..], closedSpans) && RingOf(sizes[..], closedSizes)
    }

    constructor (slots: nat)
      requires 0 < slots < TWO32 && TWO32 % slots == 0
      ensures Valid() && fresh(spans) && fresh(sizes)
      ensures this.slots == slots && closedSpans == [] && closedSizes == []
    {
      hide RingOf;
      this.slots := slots;
      spans := new u32[slots](_ => 0);
      sizes := new u32[slots](_ => 0);
      full, overflowed := false, 0;
      closedSpans, closedSizes := [], [];
      new;
      BlankRing(spans[..]);
      BlankRing(sizes[..]);
    }

    method Clear()
      requires Valid()
      modifies this, spans, sizes
      ensures Valid() && closedSpans == [] && closedSizes == []
    {
      hide RingOf;
      full, overflowed := false, 0;
      for i := 0 to slots
        invariant !full && overflowed == 0
        invariant forall k :: 0 <= k < i ==> spans[k] == 0 && sizes[k] == 0
      {
        sizes[i] := 0;
        spans[i] := 0;
      }
      closedSpans, closedSizes := [], [];
      BlankRing(spans[..]);
      BlankRing(sizes[..]);
    }

    /** Puts a closed bucket in the first free slot, or over the oldest bucket when there is none. */
    method Close(span: u32, size: u32)
      requires Valid()
      modifies this, spans, sizes
      ensures Valid()
      ensures closedSpans == old(closedSpans) + [span] && closedSizes == old(closedSizes) + [size]
    {
      hide RingOf, Sum, Recent;
      ghost var spanned, sized := spans[..], sizes[..];
      ghost var slot := |closedSpans| % slots;
      WrappedSlot(|closedSpans|, slots);
      NextCount(|closedSpans|);
      RingPut(spanned, closedSpans, span);
      RingPut(sized, closedSizes, size);
      if full {
        var oldest := overflowed % slots;
        spans[oldest] := span;
        sizes[oldest] := size;
        overflowed := Wrap32(overflowed + 1);
      } else {
        NotFullSlot(|closedSpans|, slots);
        spans[overflowed] := span;
        sizes[overflowed] := size;
        overflowed := Wrap32(overflowed + 1);
        if overflowed == slots {
          full := true;
        }
      }
      assert spans[..] == spanned[slot := span];
      assert sizes[..] == sized[slot := size];
      closedSpans, closedSizes := closedSpans + [span], closedSizes + [size];
    }

    /** What `sum_array` makes of the two arrays. */
    lemma Totals()
      requires Valid()
      ensures Sum(spans[..]) == Sum(Recent(closedSpans, slots))
      ensures Sum(sizes[..]) == Sum(Recent(closedSizes, slots))
    {
    }
  }

  lemma NextCount(count: nat)
    ensures Wrap32(Wrap32(count) + 1) == Wrap32(count + 1)
  {
  }

  lemma BlankRing(ring: seq<int>)
    requires |ring| > 0 && forall i :: 0 <= i < |ring| ==> ring[i] == 0
    ensures RingOf(ring, [])
    decreases |ring|
  {
    SumOfZeros(ring);
  }

  lemma {:induction false} SumOfZeros(s: seq<int>)
    requires forall i :: 0 <= i < |s| ==> s[i] == 0
    ensures Sum(s) == 0
    decreases |s|
  {
    if s != [] {
      SumOfZeros(s[..|s| - 1]);
    }
  }

  lemma NotFullSlot(count: nat, n: nat)
    requires count < n < TWO32
    ensures Wrap32(count) == count == count % n && Wrap32(count + 1) == count + 1
  {
    ModUnique(count, n, 0, count);
  }

  /** `sum_array`: the sum of an array in 32-bit arithmetic. */
  method SumArray(a: array<u32>) returns (acc: u32)
    ensures acc == Wrap32(Sum(a[..]))
  {
    acc := 0;
    for i := 0 to a.Length
      invariant acc == Wrap32(Sum(a[..i]))
    {
      assert a[..i + 1][..i] == a[..i];
      acc := Wrap32(acc + a[i]);
    }
    assert a[..a.Length] == a[..];
  }
}
