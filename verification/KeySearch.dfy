/**
 The read-only B-tree index model: byte-string keys in lexicographic order, a binary
 search that counts its comparisons, and a range scan built on it.
 */
module KeySearch {
  import opened Common

  type Key = seq<Byte>

  // ---------------------------------------------------------------- lexicographic order

  predicate Less(a: Key, b: Key)
  {
    b != [] && (a == [] || a[0] < b[0] || (a[0] == b[0] && Less(a[1..], b[1..])))
  }

  /** Up to `k` the keys are the same, and there `a` ends first or has the smaller byte. */
  ghost predicate IsBelowAt(a: Key, b: Key, k: nat)
  {
    k <= |a| && k < |b| && a[..k] == b[..k] && (k < |a| ==> a[k] < b[k])
  }

  /** The first difference decides, and a proper prefix comes before the longer key. */
  lemma {:induction false} FirstDifferenceDecides(a: Key, b: Key)
    ensures Less(a, b) <==> exists k :: IsBelowAt(a, b, k)
  {
    if a != [] && b != [] && a[0] == b[0] {
      FirstDifferenceDecides(a[1..], b[1..]);
      if k: nat :| IsBelowAt(a[1..], b[1..], k) {
        assert a[..k + 1] == [a[0]] + a[1..][..k] && b[..k + 1] == [b[0]] + b[1..][..k];
        assert IsBelowAt(a, b, k + 1);
      }
      if k: nat :| IsBelowAt(a, b, k) {
        assert k > 0 && a[1..][..k - 1] == a[..k][1..] && b[1..][..k - 1] == b[..k][1..];
        assert IsBelowAt(a[1..], b[1..], k - 1);
      }
    } else if b != [] && (a == [] || a[0] < b[0]) {
      assert IsBelowAt(a, b, 0);
    } else {
      SameStart(a, b);
    }
  }

  lemma SameStart(a: Key, b: Key)
    ensures forall k :: IsBelowAt(a, b, k) && k > 0 ==> a != [] && b != [] && a[0] == b[0]
  {
    forall k: nat | IsBelowAt(a, b, k) && k > 0 ensures a[0] == b[0] {
      assert a[0] == a[..k][0] == b[..k][0];
    }
  }

  ghost predicate Sorted(keys: seq<Key>)
  {
    forall i, j :: 0 <= i < j < |keys| ==> Less(keys[i], keys[j])
  }

  lemma {:induction false} LessIsTransitive(a: Key, b: Key, c: Key)
    requires Less(a, b) && Less(b, c)
    ensures Less(a, c)
  {
    if a != [] && a[0] == b[0] && b[0] == c[0] {
      LessIsTransitive(a[1..], b[1..], c[1..]);
    }
  }

  lemma {:induction false} LessIsIrreflexive(a: Key)
    ensures !Less(a, a)
  {
    if a != [] {
      LessIsIrreflexive(a[1..]);
    }
  }

  lemma {:induction false} LessIsTotal(a: Key, b: Key)
    ensures Less(a, b) || a == b || Less(b, a)
  {
    if a != [] && b != [] && a[0] == b[0] {
      LessIsTotal(a[1..], b[1..]);
      assert a == [a[0]] + a[1..] && b == [b[0]] + b[1..];
    }
  }

  /** Once a key is not below the probe, no later key is. */
  lemma NotLessAfter(keys: seq<Key>, probe: Key, i: nat, j: nat)
    requires Sorted(keys) && i <= j < |keys| && !Less(keys[i], probe)
    ensures !Less(keys[j], probe)
  {
    if i < j && Less(keys[j], probe) {
      LessIsTransitive(keys[i], keys[j], probe);
    }
  }

  lemma LessBefore(keys: seq<Key>, probe: Key, i: nat, j: nat)
    requires Sorted(keys) && i <= j < |keys| && Less(keys[j], probe)
    ensures Less(keys[i], probe)
  {
    if i < j {
      LessIsTransitive(keys[i], keys[j], probe);
    }
  }

  // ---------------------------------------------------------------- building the index

  /** The keys are the little-endian bytes of 0, 1, ..., n - 1, in lexicographic order. */
  method NewIndex(datasetSize: nat) returns (keys: seq<Key>)
    requires datasetSize <= U64_MAX
    ensures |keys| == datasetSize && Sorted(keys)
    ensures forall k :: k in keys <==> IsDatasetKey(k, datasetSize)
  {
    keys := [];
    for i := 0 to datasetSize
      invariant |keys| == i && Sorted(keys)
      invariant forall k :: k in keys <==> IsDatasetKey(k, i)
    {
      NewKeyIsNew(i);
      assert forall k :: IsDatasetKey(k, i + 1) <==> k == LeBytes(i, 8) || IsDatasetKey(k, i);
      keys := Insert(keys, LeBytes(i, 8));
    }
  }

  /** The key of one of the numbers below `n`. */
  ghost predicate IsDatasetKey(k: Key, n: nat)
  {
    exists i :: 0 <= i < n && k == LeBytes(i, 8)
  }

  lemma NewKeyIsNew(i: nat)
    requires i <= U64_MAX
    ensures !IsDatasetKey(LeBytes(i, 8), i)
  {
    forall j | 0 <= j < i ensures LeBytes(j, 8) != LeBytes(i, 8) {
      Pow256Values();
      FromLeOfLeBytes(i, 8);
      FromLeOfLeBytes(j, 8);
    }
  }

  /** The sort step: put one new key at its place. */
  method Insert(keys: seq<Key>, key: Key) returns (r: seq<Key>)
    requires Sorted(keys) && key !in keys
    ensures Sorted(r) && |r| == |keys| + 1
    ensures forall k :: k in r <==> k == key || k in keys
  {
    var at, _ := LowerBoundWithComparisons(keys, key);
    InsertedIsSorted(keys, key, at);
    r := keys[..at] + [key] + keys[at..];
  }

  lemma InsertedIsSorted(keys: seq<Key>, key: Key, at: nat)
    requires Sorted(keys) && key !in keys && IsLowerBound(keys, key, at)
    ensures var r := keys[..at] + [key] + keys[at..];
            Sorted(r) && forall k :: k in r <==> k == key || k in keys
  {
    var r := keys[..at] + [key] + keys[at..];
    forall i, j | 0 <= i < j < |r| ensures Less(r[i], r[j]) {
      if i == at {
        LessIsTotal(key, keys[j - 1]);
      }
    }
    forall k ensures k in r <==> k == key || k in keys {
      assert keys == keys[..at] + keys[at..];
    }
  }

  // ---------------------------------------------------------------- searching

  /** Everything before `left` is below the probe, nothing from `left` on is. */
  ghost predicate IsLowerBound(keys: seq<Key>, probe: Key, left: nat)
  {
    && left <= |keys|
    && (forall i :: 0 <= i < left ==> Less(keys[i], probe))
    && (forall i :: left <= i < |keys| ==> !Less(keys[i], probe))
  }

  /** The binary logarithm, rounded down. */
  function Log2(n: nat): nat
    requires n > 0
  {
    if n == 1 then 0 else 1 + Log2(n / 2)
  }

  lemma {:induction false} Log2IsLogarithm(n: nat)
    requires n > 0
    ensures Pow2(Log2(n)) <= n < Pow2(Log2(n) + 1)
  {
    if n > 1 {
      Log2IsLogarithm(n / 2);
    }
  }

  /** How many comparisons a search among `n` keys can need. */
  function MaxComparisons(n: nat): nat
  {
    if n == 0 then 0 else Log2(n) + 1
  }

  lemma {:induction false} MaxComparisonsGrows(m: nat, n: nat)
    requires m <= n
    ensures MaxComparisons(m) <= MaxComparisons(n)
  {
    if m > 1 {
      MaxComparisonsGrows(m / 2, n / 2);
    }
  }

  /** A comparison halves what is left to search, so it counts once on both sides of the bound. */
  lemma OneComparison(size: nat, rest: nat)
    requires size > 0 && (size - 1) / 2 <= rest <= size / 2
    ensures 1 + MaxComparisons(rest) <= MaxComparisons(size)
    ensures Log2(size + 1) <= 1 + Log2(rest + 1)
  {
    MaxComparisonsGrows(rest, size / 2);
    MaxComparisonsGrows((size + 1) / 2, rest + 1);
  }

  /** How often a search between two positions halves what is left, when `below` tells it where to go on. */
  function Halvings(below: nat -> bool, left: nat, right: nat): nat
    requires left <= right
    decreases right - left
  {
    if left == right then 0
    else
      var mid := (left + right) / 2;
      1 + if below(mid) then Halvings(below, mid + 1, right) else Halvings(below, left, mid)
  }

  /** Which keys are below the probe. */
  function Below(keys: seq<Key>, probe: Key): nat -> bool
  {
    (i: nat) => i < |keys| && Less(keys[i], probe)
  }

  /** The number of comparisons that the search for `probe` makes. */
  function Comparisons(keys: seq<Key>, probe: Key): nat
  {
    Halvings(Below(keys, probe), 0, |keys|)
  }

  /** Every search takes the logarithm of the size, rounded down or one more. */
  lemma {:induction false} HalvingsAreLogarithmic(below: nat -> bool, left: nat, right: nat)
    requires left <= right
    ensures Log2(right - left + 1) <= Halvings(below, left, right) <= MaxComparisons(right - left)
    decreases right - left
  {
    if left < right {
      var mid := (left + right) / 2;
      if below(mid) {
        HalvingsAreLogarithmic(below, mid + 1, right);
        OneComparison(right - left, right - mid - 1);
      } else {
        HalvingsAreLogarithmic(below, left, mid);
        OneComparison(right - left, mid - left);
      }
    }
  }

  method LowerBoundWithComparisons(keys: seq<Key>, key: Key) returns (left: nat, comparisons: nat)
    requires Sorted(keys)
    ensures IsLowerBound(keys, key, left)
    ensures comparisons == Comparisons(keys, key)
    ensures Log2(|keys| + 1) <= comparisons <= MaxComparisons(|keys|)
  {
    ghost var below := Below(keys, key);
    HalvingsAreLogarithmic(below, 0, |keys|);
    comparisons := 0;
    left := 0;
    var right := |keys|;
    while left < right
      invariant 0 <= left <= right <= |keys|
      invariant AllBelow(keys, key, left) && NoneBelow(keys, key, right)
      invariant comparisons + Halvings(below, left, right) == Halvings(below, 0, |keys|)
    {
      comparisons := comparisons + 1;
      var mid := (left + right) / 2;
      assert below(mid) == Less(keys[mid], key);
      if Less(keys[mid], key) {
        BelowUpTo(keys, key, mid);
        left := mid + 1;
      } else {
        NoneBelowFrom(keys, key, mid);
        right := mid;
      }
    }
  }

  ghost predicate AllBelow(keys: seq<Key>, probe: Key, left: nat)
    requires left <= |keys|
  {
    forall i :: 0 <= i < left ==> Less(keys[i], probe)
  }

  ghost predicate NoneBelow(keys: seq<Key>, probe: Key, right: nat)
    requires right <= |keys|
  {
    forall i :: right <= i < |keys| ==> !Less(keys[i], probe)
  }

  lemma BelowUpTo(keys: seq<Key>, probe: Key, mid: nat)
    requires Sorted(keys) && mid < |keys| && Less(keys[mid], probe)
    ensures AllBelow(keys, probe, mid + 1)
  {
    forall i | 0 <= i <= mid ensures Less(keys[i], probe) {
      LessBefore(keys, probe, i, mid);
    }
  }

  lemma NoneBelowFrom(keys: seq<Key>, probe: Key, mid: nat)
    requires Sorted(keys) && mid < |keys| && !Less(keys[mid], probe)
    ensures NoneBelow(keys, probe, mid)
  {
    forall i | mid <= i < |keys| ensures !Less(keys[i], probe) {
      NotLessAfter(keys, probe, mid, i);
    }
  }

  /** The positions of the keys in [start, end). */
  ghost function InRange(keys: seq<Key>, start: Key, end: Key): set<nat>
  {
    set i: nat | i < |keys| && !Less(keys[i], start) && Less(keys[i], end)
  }

  /** The scan reports its comparisons plus the number of keys in the range, which is none when the range is empty. */
  method RangeScan(keys: seq<Key>, start: Key, end: Key) returns (cost: nat)
    requires Sorted(keys)
    ensures cost == Comparisons(keys, start) + |InRange(keys, start, end)|
  {
    var left, comparisons := LowerBoundWithComparisons(keys, start);
    var count: nat := 0;
    while left + count < |keys| && Less(keys[left + count], end)
      invariant left + count <= |keys|
      invariant forall i :: left <= i < left + count ==> Less(keys[i], end)
    {
      count := count + 1;
    }
    forall i: nat ensures i in InRange(keys, start, end) <==> left <= i < left + count {
      if left + count <= i < |keys| {
        NotLessAfter(keys, end, left + count, i);
      }
    }
    IntervalSize(InRange(keys, start, end), left, count);
    return comparisons + count;
  }

  lemma {:induction false} IntervalSize(s: set<nat>, from: nat, count: nat)
    requires forall i: nat :: i in s <==> from <= i < from + count
    ensures |s| == count
  {
    if count == 0 {
      assert s == {};
    } else {
      var last := from + count - 1;
      IntervalSize(s - {last}, from, count - 1);
    }
  }

  /** A range that ends at or before its start holds nothing. */
  lemma EmptyRange(keys: seq<Key>, start: Key, end: Key)
    requires !Less(start, end)
    ensures InRange(keys, start, end) == {}
  {
    forall i: nat | i in InRange(keys, start, end) ensures false {
      LessIsTotal(keys[i], start);
      if Less(start, keys[i]) {
        LessIsTransitive(start, keys[i], end);
      }
    }
  }
}
