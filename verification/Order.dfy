/**
  Items, comparison callbacks, and sequences in order: what the red/black tree and the sort share.
*/
module Order {

  // The address of an item owned by the caller; NULL is the null address.
  type Data = nat
  const NULL: Data := 0

  // A comparison callback: items on both sides and an optional context.
  type Compare = (Data, Data, Data) -> int

  /** The documented contract of the comparison callback: its sign is a total preorder. */
  ghost predicate TotalPreorder(cmp: Compare) {
    forall a, b, c {:trigger Consistent(cmp, a, b, c)} :: Consistent(cmp, a, b, c)
  }

  ghost predicate Consistent(cmp: Compare, a: Data, b: Data, c: Data) {
    && (cmp(a, b, NULL) < 0 <==> cmp(b, a, NULL) > 0)
    && (cmp(a, b, NULL) <= 0 && cmp(b, c, NULL) <= 0 ==> cmp(a, c, NULL) <= 0)
  }

  /** In ascending order: strictly so unless duplicates are stored. */
  ghost predicate Sorted(cmp: Compare, dup: bool, s: seq<Data>) {
    forall i, j {:trigger Ordered(cmp, dup, s, i, j)} :: 0 <= i < j < |s| ==> Ordered(cmp, dup, s, i, j)
  }

  ghost predicate Ordered(cmp: Compare, dup: bool, s: seq<Data>, i: int, j: int)
    requires 0 <= i < j < |s|
  {
    if dup then cmp(s[i], s[j], NULL) <= 0 else cmp(s[i], s[j], NULL) < 0
  }

  lemma Transitive(cmp: Compare, a: Data, b: Data, c: Data)
    requires TotalPreorder(cmp)
    ensures cmp(a, b, NULL) < 0 <==> cmp(b, a, NULL) > 0
    ensures cmp(b, a, NULL) < 0 <==> cmp(a, b, NULL) > 0
    ensures cmp(a, b, NULL) < 0 && cmp(b, c, NULL) <= 0 ==> cmp(a, c, NULL) < 0
    ensures cmp(a, b, NULL) <= 0 && cmp(b, c, NULL) < 0 ==> cmp(a, c, NULL) < 0
    ensures cmp(a, b, NULL) <= 0 && cmp(b, c, NULL) <= 0 ==> cmp(a, c, NULL) <= 0
  {
    assert Consistent(cmp, a, b, c) && Consistent(cmp, b, c, a) && Consistent(cmp, c, a, b);
    assert Consistent(cmp, b, a, c) && Consistent(cmp, a, c, b);
  }

  // An item before position i is before everything from i on, and the other way round.
  lemma Smaller(cmp: Compare, dup: bool, s: seq<Data>, d: Data, i: int, j: int)
    requires TotalPreorder(cmp) && Sorted(cmp, dup, s) && 0 <= i <= j < |s| && cmp(d, s[i], NULL) < 0
    ensures cmp(d, s[j], NULL) < 0
  {
    Transitive(cmp, d, s[i], s[j]);
    assert i < j ==> Ordered(cmp, dup, s, i, j);
  }

  lemma Larger(cmp: Compare, dup: bool, s: seq<Data>, d: Data, i: int, j: int)
    requires TotalPreorder(cmp) && Sorted(cmp, dup, s) && 0 <= i <= j < |s| && cmp(d, s[j], NULL) >= 0
    ensures cmp(d, s[i], NULL) >= 0
    ensures cmp(d, s[j], NULL) > 0 || (!dup && i < j) ==> cmp(d, s[i], NULL) > 0
  {
    Transitive(cmp, s[i], s[j], d);
    Transitive(cmp, s[j], d, s[i]);
    Transitive(cmp, s[i], d, s[j]);
    assert i < j ==> Ordered(cmp, dup, s, i, j);
  }

  lemma SortedInsert(cmp: Compare, dup: bool, s: seq<Data>, d: Data, k: nat)
    requires TotalPreorder(cmp) && Sorted(cmp, dup, s) && k <= |s|
    requires forall i :: 0 <= i < k ==> cmp(d, s[i], NULL) >= 0 && (!dup ==> cmp(d, s[i], NULL) != 0)
    requires forall i :: k <= i < |s| ==> cmp(d, s[i], NULL) < 0
    ensures Sorted(cmp, dup, s[..k] + [d] + s[k..])
  {
    var t := s[..k] + [d] + s[k..];
    forall i, j | 0 <= i < j < |t| ensures Ordered(cmp, dup, t, i, j) {
      var x, y := if i < k then i else i - 1, if j < k then j else j - 1;
      assert i != k ==> t[i] == s[x];
      assert j != k ==> t[j] == s[y];
      if j == k {
        Transitive(cmp, s[x], d, d);
        Transitive(cmp, d, s[x], d);
      } else if i != k {
        assert Ordered(cmp, dup, s, x, y);
      }
    }
  }

  lemma SortedReplace(cmp: Compare, s: seq<Data>, d: Data, k: nat)
    requires TotalPreorder(cmp) && Sorted(cmp, false, s) && k < |s| && cmp(d, s[k], NULL) == 0
    ensures Sorted(cmp, false, s[k := d])
    ensures forall i :: 0 <= i < |s| && cmp(d, s[i], NULL) == 0 ==> i == k
  {
    forall i | 0 <= i < |s|
      ensures i < k ==> cmp(s[i], d, NULL) < 0 && cmp(d, s[i], NULL) > 0
      ensures i > k ==> cmp(d, s[i], NULL) < 0
    {
      assert i < k ==> Ordered(cmp, false, s, i, k);
      assert k < i ==> Ordered(cmp, false, s, k, i);
      Transitive(cmp, s[k], d, d);
      Transitive(cmp, d, s[k], d);
      Transitive(cmp, s[i], s[k], d);
      Transitive(cmp, s[i], d, d);
      Transitive(cmp, d, s[k], s[i]);
    }
    var t := s[k := d];
    forall i, j | 0 <= i < j < |t| ensures Ordered(cmp, false, t, i, j) {
      assert Ordered(cmp, false, s, i, j);
    }
  }

  lemma SortedDelete(cmp: Compare, dup: bool, s: seq<Data>, k: nat)
    requires Sorted(cmp, dup, s) && k < |s|
    ensures Sorted(cmp, dup, s[..k] + s[k + 1..])
  {
    var t := s[..k] + s[k + 1..];
    forall i, j | 0 <= i < j < |t| ensures Ordered(cmp, dup, t, i, j) {
      assert Ordered(cmp, dup, s, if i < k then i else i + 1, if j < k then j else j + 1);
    }
  }
}
