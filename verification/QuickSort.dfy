/** The quicksort benchmark: Hoare partition in place with unguarded scans. */
module QuickSort {

  const INT_MAX := 0x7fff_ffff

  ghost predicate SortedBetween(a: seq<int>, lo: int, hi: int) {
    forall i, j | 0 <= lo <= i < j <= hi < |a| :: a[i] <= a[j]
  }

  /** b is a with the elements lo..hi permuted and everything else in place. */
  ghost predicate PermutedBetween(a: seq<int>, b: seq<int>, lo: int, hi: int) {
    if lo >= hi then a == b else
    && |a| == |b| && 0 <= lo && hi < |a|
    && multiset(a[lo..hi + 1]) == multiset(b[lo..hi + 1])
    && a[..lo] == b[..lo] && a[hi + 1..] == b[hi + 1..]
  }

  lemma PermutedTrans(a: seq<int>, b: seq<int>, c: seq<int>, lo: int, hi: int)
    requires PermutedBetween(a, b, lo, hi) && PermutedBetween(b, c, lo, hi)
    ensures PermutedBetween(a, c, lo, hi)
  {
  }

  lemma SwapPermutes(a: seq<int>, lo: int, hi: int, i: int, j: int)
    requires 0 <= lo <= i < j <= hi < |a|
    ensures PermutedBetween(a, a[i := a[j]][j := a[i]], lo, hi)
  {
    var b := a[i := a[j]][j := a[i]];
    var s, t := a[lo..hi + 1], b[lo..hi + 1];
    assert t == s[i - lo := s[j - lo]][j - lo := s[i - lo]];
    SwapMultiset(s, i - lo, j - lo);
  }

  lemma SwapMultiset(s: seq<int>, i: nat, j: nat)
    requires i < j < |s|
    ensures multiset(s[i := s[j]][j := s[i]]) == multiset(s)
  {
  }

  /** A permutation inside a smaller range is one inside a larger range. */
  lemma PermutedWiden(a: seq<int>, b: seq<int>, lo: int, hi: int, lo': int, hi': int)
    requires PermutedBetween(a, b, lo, hi) && 0 <= lo' <= lo && hi <= hi' < |a| && lo < hi
    ensures PermutedBetween(a, b, lo', hi')
  {
    assert a[lo'..hi' + 1] == a[lo'..lo] + a[lo..hi + 1] + a[hi + 1..hi' + 1];
    assert b[lo'..hi' + 1] == b[lo'..lo] + b[lo..hi + 1] + b[hi + 1..hi' + 1];
    assert a[lo'..lo] == a[..lo][lo'..] && b[lo'..lo] == b[..lo][lo'..];
    assert a[hi + 1..hi' + 1] == a[hi + 1..][..hi' - hi] && b[hi + 1..hi' + 1] == b[hi + 1..][..hi' - hi];
    assert a[..lo'] == a[..lo][..lo'] && b[..lo'] == b[..lo][..lo'];
    assert a[hi' + 1..] == a[hi + 1..][hi' - hi..] && b[hi' + 1..] == b[hi + 1..][hi' - hi..];
  }

  /** Bounds on a range survive its permutation. */
  lemma PermutedBounds(a: seq<int>, b: seq<int>, lo: int, hi: int, s: int)
    requires PermutedBetween(a, b, lo, hi) && 0 <= lo <= hi < |a|
    ensures (forall k | lo <= k <= hi :: a[k] <= s) ==> (forall k | lo <= k <= hi :: b[k] <= s)
    ensures (forall k | lo <= k <= hi :: s <= a[k]) ==> (forall k | lo <= k <= hi :: s <= b[k])
  {
    forall k | lo <= k <= hi ensures exists m :: lo <= m <= hi && a[m] == b[k] {
      assert b[lo..hi + 1][k - lo] in multiset(b[lo..hi + 1]);
      assert b[k] in a[lo..hi + 1];
      var m :| 0 <= m < |a[lo..hi + 1]| && a[lo..hi + 1][m] == b[k];
      assert a[lo + m] == b[k];
    }
  }

  /** One round of the outer loop's two scans. The scans have no bounds test: an element not below s
      to the right of i and one not above s to the left of j stop them inside left..right. */
  method Scan(a: array<int>, left: int, right: int, s: int, i0: int, j0: int, ghost stopI: int, ghost stopJ: int)
    returns (i: int, j: int)
    requires 0 <= left && right < a.Length && left - 1 <= i0 < stopI <= right && left <= stopJ < j0 <= right + 1
    requires s <= a[stopI] && a[stopJ] <= s && stopI <= j0 && i0 <= stopJ
    ensures i <= j + 1
    ensures i0 < i <= stopI && stopJ <= j < j0
    ensures s <= a[i] && a[j] <= s
    ensures forall k | i0 < k < i :: a[k] < s
    ensures forall k | j < k < j0 :: s < a[k]
  {
    i := i0 + 1;
    while a[i] < s
      invariant i0 < i <= stopI
      invariant forall k | i0 < k < i :: a[k] < s
      decreases stopI - i
    {
      i := i + 1;
    }
    j := j0 - 1;
    while a[j] > s
      invariant stopJ <= j < j0 && i <= j + 1
      invariant forall k | j < k < j0 :: s < a[k]
      decreases j - stopJ
    {
      j := j - 1;
    }
  }

  method Swap(a: array<int>, ghost left: int, ghost right: int, i: int, j: int)
    requires 0 <= left <= i < j <= right < a.Length
    modifies a
    ensures PermutedBetween(old(a[..]), a[..], left, right)
    ensures a[i] == old(a[j]) && a[j] == old(a[i]) && forall k | 0 <= k < a.Length && k != i && k != j ::
              a[k] == old(a[k])
  {
    SwapPermutes(a[..], left, right, i, j);
    a[i], a[j] := a[j], a[i];
    assert a[..] == old(a[..])[i := old(a[j])][j := old(a[i])];
  }

  /** The partition: i and j end crossed by at most one position, strictly inside the range on the
      sides that the recursive calls cut off. */
  method Partition(a: array<int>, left: int, right: int) returns (i: int, j: int, s: int)
    requires 0 <= left < right < a.Length && right <= INT_MAX / 2 + 1
    modifies a
    ensures PermutedBetween(old(a[..]), a[..], left, right)
    ensures j <= i <= j + 1 && left <= i <= right && left <= j <= right
    ensures forall k | left <= k < i :: a[k] <= s
    ensures forall k | j < k <= right :: s <= a[k]
    ensures i == j ==> a[i] == s
  {
    assert left + right <= INT_MAX;
    s := a[(left + right) / 2];
    i, j := left - 1, right + 1;
    ghost var stopI, stopJ := (left + right) / 2, (left + right) / 2;
    while true
      invariant left - 1 <= i < stopI <= right && left <= stopJ < j <= right + 1 && i < j
      invariant s <= a[stopI] && a[stopJ] <= s
      invariant i >= left ==> a[i] <= s
      invariant forall k | left <= k <= i :: a[k] <= s
      invariant forall k | j <= k <= right :: s <= a[k]
      invariant stopI <= j && i <= stopJ
      invariant PermutedBetween(old(a[..]), a[..], left, right)
      decreases j - i
    {
      var i', j' := Scan(a, left, right, s, i, j, stopI, stopJ);
      i, j := i', j';
      if i >= j {
        break;
      }
      ghost var before := a[..];
      Swap(a, left, right, i, j);
      PermutedTrans(old(a[..]), before, a[..], left, right);
      stopI, stopJ := j, i;
    }
  }

  /** After both halves are sorted the whole range is. */
  lemma SortedHalves(a: seq<int>, left: int, right: int, i: int, j: int, s: int)
    requires 0 <= left && right < |a| && j <= i <= j + 1 && left <= i <= right && left <= j <= right
    requires SortedBetween(a, left, i - 1) && SortedBetween(a, j + 1, right)
    requires forall k | left <= k < i :: a[k] <= s
    requires forall k | j < k <= right :: s <= a[k]
    requires i == j ==> a[i] == s
    ensures SortedBetween(a, left, right)
  {
  }

  lemma HalfSorted(a: seq<int>, b: seq<int>, left: int, right: int, lo: int, hi: int, s: int)
    requires PermutedBetween(a, b, lo, hi) && 0 <= left <= lo && hi <= right < |a| && left < right
    ensures PermutedBetween(a, b, left, right)
    ensures forall k | 0 <= k < |a| && !(lo <= k <= hi) :: a[k] == b[k]
    ensures (forall k | lo <= k <= hi :: a[k] <= s) ==> (forall k | lo <= k <= hi :: b[k] <= s)
    ensures (forall k | lo <= k <= hi :: s <= a[k]) ==> (forall k | lo <= k <= hi :: s <= b[k])
  {
    if lo < hi {
      PermutedWiden(a, b, lo, hi, left, right);
      PermutedBounds(a, b, lo, hi, s);
      forall k | 0 <= k < |a| && !(lo <= k <= hi) ensures a[k] == b[k] {
        if k < lo {
          assert a[..lo][k] == b[..lo][k];
        } else {
          assert a[hi + 1..][k - hi - 1] == b[hi + 1..][k - hi - 1];
        }
      }
    }
  }

  /** The partition and the two sorted halves put together. */
  lemma Assembled(a0: seq<int>, parted: seq<int>, half: seq<int>, whole: seq<int>, left: int, right: int, i: int,
                  j: int, s: int)
    requires 0 <= left < right < |parted| && PermutedBetween(a0, parted, left, right)
    requires j <= i <= j + 1 && left <= i <= right && left <= j <= right
    requires (forall k | left <= k < i :: parted[k] <= s) && (forall k | j < k <= right :: s <= parted[k])
    requires i == j ==> parted[i] == s
    requires PermutedBetween(parted, half, left, i - 1) && SortedBetween(half, left, i - 1)
    requires PermutedBetween(half, whole, j + 1, right) && SortedBetween(whole, j + 1, right)
    ensures PermutedBetween(a0, whole, left, right) && SortedBetween(whole, left, right)
  {
    HalvesPermute(a0, parted, half, whole, left, right, i, j, s);
    HalvesSort(parted, half, whole, left, right, i, j, s);
  }

  lemma HalvesPermute(a0: seq<int>, parted: seq<int>, half: seq<int>, whole: seq<int>, left: int, right: int, i: int,
                      j: int, s: int)
    requires 0 <= left < right < |parted| && PermutedBetween(a0, parted, left, right)
    requires left <= i <= right && left <= j <= right
    requires PermutedBetween(parted, half, left, i - 1) && PermutedBetween(half, whole, j + 1, right)
    ensures PermutedBetween(a0, whole, left, right)
  {
    HalfSorted(parted, half, left, right, left, i - 1, s);
    PermutedTrans(a0, parted, half, left, right);
    HalfSorted(half, whole, left, right, j + 1, right, s);
    PermutedTrans(a0, half, whole, left, right);
  }

  lemma HalvesSort(parted: seq<int>, half: seq<int>, whole: seq<int>, left: int, right: int, i: int, j: int, s: int)
    requires 0 <= left < right < |parted|
    requires j <= i <= j + 1 && left <= i <= right && left <= j <= right
    requires (forall k | left <= k < i :: parted[k] <= s) && (forall k | j < k <= right :: s <= parted[k])
    requires i == j ==> parted[i] == s
    requires PermutedBetween(parted, half, left, i - 1) && SortedBetween(half, left, i - 1)
    requires PermutedBetween(half, whole, j + 1, right) && SortedBetween(whole, j + 1, right)
    ensures SortedBetween(whole, left, right)
  {
    HalfSorted(parted, half, left, right, left, i - 1, s);
    HalfSorted(half, whole, left, right, j + 1, right, s);
    LowerHalfKept(half, whole, left, i, j, s);
    SortedHalves(whole, left, right, i, j, s);
  }

  lemma LowerHalfKept(half: seq<int>, whole: seq<int>, left: int, i: int, j: int, s: int)
    requires 0 <= left <= i <= j + 1 <= |half| == |whole|
    requires forall k | 0 <= k < |half| && k <= j :: half[k] == whole[k]
    requires SortedBetween(half, left, i - 1) && forall k | left <= k < i :: half[k] <= s
    ensures SortedBetween(whole, left, i - 1) && forall k | left <= k < i :: whole[k] <= s
  {
  }

  /** quickSort sorts left..right, permutes nothing outside it and indexes nothing outside it. The
      bound on right keeps left + right within a 32-bit int. */
  method QuickSort(a: array<int>, left: int, right: int)
    requires left < right ==> 0 <= left && right < a.Length && right <= INT_MAX / 2 + 1
    modifies a
    ensures SortedBetween(a[..], left, right)
    ensures PermutedBetween(old(a[..]), a[..], left, right)
    decreases right - left + 1
  {
    if left < right {
      var i, j, s := Partition(a, left, right);
      ghost var parted := a[..];
      QuickSort(a, left, i - 1);
      ghost var half := a[..];
      QuickSort(a, j + 1, right);
      Assembled(old(a[..]), parted, half, a[..], left, right, i, j, s);
    }
  }
}
