/**
  The in-place quicksort of the Safe Runtime (bin/json.c:7830-7861).

  The pivot is the first element and stays where it is while the elements behind it are
  partitioned; the scans from both sides end next to each other.
*/
module ListSort {
  import opened Order

  // ------------------------------------------------------------------ permutations of a range

  /** t is s with the elements from lo to hi in another order. */
  ghost predicate Shuffled(s: seq<Data>, t: seq<Data>, lo: int, hi: int) {
    && 0 <= lo <= hi <= |s| == |t| && s[..lo] == t[..lo] && s[hi..] == t[hi..]
    && multiset(s[lo..hi]) == multiset(t[lo..hi])
  }

  lemma SwapShuffles(s: seq<Data>, lo: int, hi: int, i: int, j: int)
    requires 0 <= lo <= i < hi <= |s| && lo <= j < hi
    ensures Shuffled(s, s[i := s[j]][j := s[i]], lo, hi)
  {
    var t := s[i := s[j]][j := s[i]];
    assert t[lo..hi] == s[lo..hi][i - lo := s[j]][j - lo := s[i]];
  }

  // A permutation of a part of the range is one of the range.
  lemma Widen(s: seq<Data>, t: seq<Data>, lo: int, l: int, r: int, hi: int)
    requires Shuffled(s, t, l, r) && 0 <= lo <= l && r <= hi <= |s|
    ensures Shuffled(s, t, lo, hi)
  {
    assert s[lo..hi] == s[..l][lo..] + s[l..r] + s[r..][..hi - r];
    assert t[lo..hi] == t[..l][lo..] + t[l..r] + t[r..][..hi - r];
    assert s[..lo] == s[..l][..lo] && t[..lo] == t[..l][..lo];
    assert s[hi..] == s[r..][hi - r..] && t[hi..] == t[r..][hi - r..];
  }

  // What holds of all elements of a range holds of all elements of its permutation.
  lemma SameElements(s: seq<Data>, t: seq<Data>, lo: int, hi: int, i: int)
    requires Shuffled(s, t, lo, hi) && lo <= i < hi
    ensures t[i] in s[lo..hi]
  {
    assert t[i] == t[lo..hi][i - lo];
    assert t[i] in multiset(t[lo..hi]);
  }

  // ------------------------------------------------------------------ partition

  // The elements from i to j do not come after p, or all do.
  ghost predicate NotAfter(cmp: Compare, s: seq<Data>, i: int, j: int, p: Data) {
    0 <= i && j <= |s| && forall k {:trigger s[k]} :: i <= k < j ==> cmp(s[k], p, NULL) <= 0
  }

  ghost predicate AllAfter(cmp: Compare, s: seq<Data>, i: int, j: int, p: Data) {
    0 <= i && j <= |s| && forall k {:trigger s[k]} :: i <= k < j ==> cmp(s[k], p, NULL) > 0
  }

  // swapElt
  method Swap(a: array<Data>, lo: int, hi: int, i: int, j: int)
    requires 0 <= lo <= i < hi <= a.Length && lo <= j < hi
    modifies a
    ensures a[..] == old(a[..][i := a[j]][j := a[i]]) && Shuffled(old(a[..]), a[..], lo, hi)
  {
    SwapShuffles(a[..], lo, hi, i, j);
    a[i], a[j] := a[j], a[i];
    assert a[..] == old(a[..][i := a[j]][j := a[i]]);
  }

  // What was scanned stays on its side when the elements the scans stopped at change places.
  lemma SwapKeepsSides(cmp: Compare, s: seq<Data>, lo: int, hi: int, left: int, right: int, p: Data)
    requires 0 <= lo < left < right < hi <= |s|
    requires NotAfter(cmp, s, lo, left, p) && AllAfter(cmp, s, right + 1, hi, p)
    ensures NotAfter(cmp, s[left := s[right]][right := s[left]], lo, left, p)
    ensures AllAfter(cmp, s[left := s[right]][right := s[left]], right + 1, hi, p)
  {
  }

  // The last swap puts the pivot between the sides.
  lemma PivotBetween(cmp: Compare, s: seq<Data>, lo: int, hi: int, right: int)
    requires 0 <= lo <= right < hi <= |s|
    requires NotAfter(cmp, s, lo, right + 1, s[lo]) && AllAfter(cmp, s, right + 1, hi, s[lo])
    ensures NotAfter(cmp, s[lo := s[right]][right := s[lo]], lo, right, s[lo])
    ensures AllAfter(cmp, s[lo := s[right]][right := s[lo]], right + 1, hi, s[lo])
  {
  }

  /** Where the scans are between two swaps: at elements that are on the right side, or past each other. */
  ghost predicate Scanned(cmp: Compare, s: seq<Data>, lo: int, hi: int, left: int, right: int)
    requires 0 <= lo < hi <= |s|
  {
    && lo <= left <= hi && lo <= right < hi && left <= right + 1 && left != right
    && NotAfter(cmp, s, lo, left, s[lo]) && AllAfter(cmp, s, right + 1, hi, s[lo])
    && (left < right ==> left == lo || (cmp(s[left], s[lo], NULL) <= 0 && cmp(s[right], s[lo], NULL) > 0))
  }

  lemma ShuffledAgain(s: seq<Data>, t: seq<Data>, u: seq<Data>, lo: int, hi: int)
    requires Shuffled(s, t, lo, hi) && Shuffled(t, u, lo, hi)
    ensures Shuffled(s, u, lo, hi)
  {
  }

  // One round of the outer loop.
  method Round(a: array<Data>, lo: int, hi: int, cmp: Compare, left0: int, right0: int) returns (left: int, right: int)
    requires TotalPreorder(cmp) && 0 <= lo && lo + 2 <= hi <= a.Length && left0 < right0 && Scanned(cmp, a[..], lo, hi, left0, right0)
    modifies a
    ensures Scanned(cmp, a[..], lo, hi, left, right) && Shuffled(old(a[..]), a[..], lo, hi)
    ensures right - left < right0 - left0
  {
    left, right := Scan(a, lo, hi, cmp, left0, right0);
    if left < right {
      SwapKeepsSides(cmp, a[..], lo, hi, left, right, a[lo]);
      Swap(a, lo, hi, left, right);
    }
  }

  /** The loops of rSort, on the elements from lo to hi, and the swap that puts the pivot in its place. */
  method Partition(a: array<Data>, lo: int, hi: int, cmp: Compare) returns (left: int, right: int)
    requires TotalPreorder(cmp) && 0 <= lo && lo + 2 <= hi <= a.Length
    modifies a
    ensures lo <= right < hi && left == right + 1 && Shuffled(old(a[..]), a[..], lo, hi)
    ensures NotAfter(cmp, a[..], lo, right, a[right]) && AllAfter(cmp, a[..], left, hi, a[right])
  {
    left, right := lo, hi - 1;
    ghost var s := a[..];
    while left < right
      invariant Scanned(cmp, a[..], lo, hi, left, right) && Shuffled(s, a[..], lo, hi)
      decreases right - left
    {
      ghost var t := a[..];
      left, right := Round(a, lo, hi, cmp, left, right);
      ShuffledAgain(s, t, a[..], lo, hi);
    }
    PivotBetween(cmp, a[..], lo, hi, right);
    ghost var t := a[..];
    Swap(a, lo, hi, lo, right);
    ShuffledAgain(s, t, a[..], lo, hi);
  }

  // The two scans.
  method Scan(a: array<Data>, lo: int, hi: int, cmp: Compare, left0: int, right0: int) returns (left: int, right: int)
    requires TotalPreorder(cmp) && 0 <= lo <= left0 < right0 < hi <= a.Length
    requires NotAfter(cmp, a[..], lo, left0, a[lo]) && AllAfter(cmp, a[..], right0 + 1, hi, a[lo])
    ensures left0 <= left <= hi && lo < left && lo <= right <= right0 && left <= right + 1 && left != right
    ensures NotAfter(cmp, a[..], lo, left, a[lo]) && AllAfter(cmp, a[..], right + 1, hi, a[lo])
    ensures left < right ==> cmp(a[left], a[lo], NULL) > 0 && cmp(a[right], a[lo], NULL) <= 0
  {
    left, right := left0, right0;
    Transitive(cmp, a[lo], a[lo], a[lo]);
    while left < hi && cmp(a[left], a[lo], NULL) <= 0
      invariant left0 <= left <= hi && NotAfter(cmp, a[..], lo, left, a[lo])
    {
      left := left + 1;
    }
    while right > lo && cmp(a[right], a[lo], NULL) > 0
      invariant lo <= right <= right0 && AllAfter(cmp, a[..], right + 1, hi, a[lo])
    {
      right := right - 1;
    }
    assert cmp(a[right], a[lo], NULL) <= 0;
    assert right + 1 < hi ==> cmp(a[..][right + 1], a[lo], NULL) > 0;
  }

  // ------------------------------------------------------------------ sorting

  // Sorted, everything up to the pivot; the pivot; sorted, everything behind it.
  lemma Join(cmp: Compare, s: seq<Data>, lo: int, mid: int, hi: int)
    requires TotalPreorder(cmp) && 0 <= lo <= mid < hi <= |s|
    requires Sorted(cmp, true, s[lo..mid]) && Sorted(cmp, true, s[mid + 1..hi])
    requires NotAfter(cmp, s, lo, mid, s[mid]) && AllAfter(cmp, s, mid + 1, hi, s[mid])
    ensures Sorted(cmp, true, s[lo..hi])
  {
    var t := s[lo..hi];
    forall i, j {:trigger Ordered(cmp, true, t, i, j)} | 0 <= i < j < |t| ensures Ordered(cmp, true, t, i, j) {
      var x, y := s[lo + i], s[lo + j];
      Transitive(cmp, x, s[mid], y);
      Transitive(cmp, s[mid], y, y);
      if lo + j < mid {
        assert Ordered(cmp, true, s[lo..mid], i, j);
      } else if lo + i > mid {
        assert Ordered(cmp, true, s[mid + 1..hi], lo + i - mid - 1, lo + j - mid - 1);
      }
    }
  }

  lemma StillNotAfter(cmp: Compare, s: seq<Data>, t: seq<Data>, lo: int, hi: int, p: Data)
    requires Shuffled(s, t, lo, hi) && NotAfter(cmp, s, lo, hi, p)
    ensures NotAfter(cmp, t, lo, hi, p)
  {
    forall k {:trigger t[k]} | lo <= k < hi ensures cmp(t[k], p, NULL) <= 0 {
      SameElements(s, t, lo, hi, k);
    }
  }

  lemma StillAllAfter(cmp: Compare, s: seq<Data>, t: seq<Data>, lo: int, hi: int, p: Data)
    requires Shuffled(s, t, lo, hi) && AllAfter(cmp, s, lo, hi, p)
    ensures AllAfter(cmp, t, lo, hi, p)
  {
    forall k {:trigger t[k]} | lo <= k < hi ensures cmp(t[k], p, NULL) > 0 {
      SameElements(s, t, lo, hi, k);
    }
  }

  // Elements outside the range stay.
  lemma Outside(s: seq<Data>, t: seq<Data>, lo: int, hi: int, i: int)
    requires Shuffled(s, t, lo, hi) && 0 <= i < |s| && (i < lo || hi <= i)
    ensures t[i] == s[i]
  {
    assert i < lo ==> s[..lo][i] == t[..lo][i];
    assert hi <= i ==> s[hi..][i - hi] == t[hi..][i - hi];
  }

  // The parts around the pivot were permuted, each by itself.
  lemma Parts(cmp: Compare, s: seq<Data>, t: seq<Data>, u: seq<Data>, lo: int, mid: int, hi: int)
    requires 0 <= lo <= mid < hi <= |s| && Shuffled(s, t, lo, mid) && Shuffled(t, u, mid + 1, hi)
    requires NotAfter(cmp, s, lo, mid, s[mid]) && AllAfter(cmp, s, mid + 1, hi, s[mid])
    ensures u[mid] == s[mid] && NotAfter(cmp, u, lo, mid, s[mid]) && AllAfter(cmp, u, mid + 1, hi, s[mid])
    ensures Shuffled(s, u, lo, hi) && u[lo..mid] == t[lo..mid]
  {
    StillNotAfter(cmp, s, t, lo, mid, s[mid]);
    forall k {:trigger t[k]} | mid <= k < hi ensures t[k] == s[k] {
      Outside(s, t, lo, mid, k);
    }
    StillAllAfter(cmp, t, u, mid + 1, hi, s[mid]);
    forall k {:trigger u[k]} | lo <= k <= mid ensures u[k] == t[k] {
      Outside(t, u, mid + 1, hi, k);
    }
    Widen(s, t, lo, lo, mid, hi);
    Widen(t, u, lo, mid + 1, hi, hi);
  }

  /** rSort: whatever total preorder the comparator is, the elements end up in order, and are the same elements. */
  method Sort(a: array<Data>, lo: int, hi: int, cmp: Compare)
    requires TotalPreorder(cmp) && 0 <= lo <= hi <= a.Length
    modifies a
    ensures Sorted(cmp, true, a[lo..hi]) && Shuffled(old(a[..]), a[..], lo, hi)
    decreases hi - lo
  {
    if hi - lo < 2 {
      return;
    }
    var left, right := Partition(a, lo, hi, cmp);
    ghost var s := a[..];
    Sort(a, lo, right, cmp);
    ghost var t := a[..];
    Sort(a, left, hi, cmp);
    Parts(cmp, s, t, a[..], lo, right, hi);
    assert a[..][lo..right] == t[lo..right];
    Join(cmp, a[..], lo, right, hi);
  }
}
