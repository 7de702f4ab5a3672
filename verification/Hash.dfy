/**
  The hash table of the Safe Runtime (bin/json.c:6854-7326, 13668-13676, 13904-13941, 14102-14129).

  Entries live in one growable array. The chains of the buckets and the free list run
  through the same `next` field of the entries. Rehashing relinks the entries in place; it
  tells live entries from free ones by their flags.
*/
module HashTable {
  import opened Sets

  // Values are pointers; 0 is NULL.
  type Data = nat

  const MAXINT := 0x7fff_ffff
  const MIN_HASH := 16

  ghost predicate IsCString(s: string) {
    |s| <= MAXINT && '\0' !in s
  }

  type CString = s: string | IsCString(s)

  // ------------------------------------------------------------------ names

  const HASH_PRIME: bv32 := 0x0100_0193

  function LowerChar(c: char): char {
    if 'A' <= c <= 'Z' then (c as int + 32) as char else c
  }

  function Lower(s: string): (r: string)
    ensures |r| == |s| && forall i {:trigger r[i]} :: 0 <= i < |s| ==> r[i] == LowerChar(s[i])
  {
    seq(|s|, i requires 0 <= i < |s| => LowerChar(s[i]))
  }

  // The canonical form of a name: names are the same name if their canonical forms are equal.
  function Fold(s: string, caseless: bool): string {
    if caseless then Lower(s) else s
  }

  predicate IsCapital(c: char) {
    'A' <= c <= 'Z'
  }

  /** The same character, or a letter and its capital. */
  predicate SameLetter(c: char, d: char) {
    c == d || (IsCapital(c) && d as int == c as int + 32) || (IsCapital(d) && c as int == d as int + 32)
  }

  /** Without case, names are the same if they differ in the case of letters only. */
  lemma SameNameIff(a: string, b: string)
    ensures Fold(a, true) == Fold(b, true) <==> |a| == |b| && forall i {:trigger a[i]} :: 0 <= i < |a| ==> SameLetter(a[i], b[i])
  {
    if |a| == |b| {
      assert forall i {:trigger a[i]} :: 0 <= i < |a| ==> (Lower(a)[i] == Lower(b)[i] <==> SameLetter(a[i], b[i]));
    }
  }

  function Mix(h: bv32, c: char): bv32 {
    (h ^ ((c as int % 256) as bv32)) * HASH_PRIME
  }

  // shash of s from i on.
  function Shash(s: string, i: nat, h: bv32): bv32
    requires i <= |s|
    decreases |s| - i
  {
    if i == |s| then h else Shash(s, i + 1, Mix(h, s[i]))
  }

  // shashlower of s from i on.
  function ShashLower(s: string, i: nat, h: bv32): bv32
    requires i <= |s|
    decreases |s| - i
  {
    if i == |s| then h else ShashLower(s, i + 1, Mix(h, LowerChar(s[i])))
  }

  function HashOf(s: CString, caseless: bool): bv32 {
    var h := |s| as bv32;
    if caseless then ShashLower(s, 0, h) else Shash(s, 0, h)
  }

  lemma {:induction false} ShashLowerIsShash(s: string, i: nat, h: bv32)
    requires i <= |s|
    ensures ShashLower(s, i, h) == Shash(Lower(s), i, h)
    decreases |s| - i
  {
    if i < |s| {
      ShashLowerIsShash(s, i + 1, Mix(h, LowerChar(s[i])));
    }
  }

  /** The hash is congruent with the comparator: names that compare equal, with or without case, hash alike. */
  lemma HashCongruent(a: CString, b: CString, caseless: bool)
    requires Fold(a, caseless) == Fold(b, caseless)
    ensures HashOf(a, caseless) == HashOf(b, caseless)
  {
    if caseless {
      assert |Lower(a)| == |Lower(b)|;
      ShashLowerIsShash(a, 0, |a| as bv32);
      ShashLowerIsShash(b, 0, |b| as bv32);
    }
  }

  /** shash, shashlower */
  method HashName(s: CString, caseless: bool) returns (h: bv32)
    ensures h == HashOf(s, caseless)
  {
    h := |s| as bv32;
    var i := 0;
    while i < |s|
      invariant 0 <= i <= |s|
      invariant (if caseless then ShashLower(s, i, h) else Shash(s, i, h)) == HashOf(s, caseless)
    {
      h := Mix(h, if caseless then LowerChar(s[i]) else s[i]);
      i := i + 1;
    }
  }

  // The character at an index, or the terminator.
  function CharAt(s: string, i: nat): char {
    if i < |s| then s[i] else '\0'
  }

  /** scaselesscmp */
  method CompareCaseless(a: CString, b: CString) returns (rc: int)
    ensures rc == 0 <==> Lower(a) == Lower(b)
  {
    var n, i, d := if |a| >= |b| then |a| else |b|, 0, 0;
    while i < n && CharAt(a, i) != '\0' && d == 0
      invariant 0 <= i <= n && (d == 0 ==> i <= |a| && i <= |b|)
      invariant d == 0 ==> forall j {:trigger LowerChar(a[j])} :: 0 <= j < i ==> LowerChar(a[j]) == LowerChar(b[j])
      invariant d != 0 ==> Lower(a) != Lower(b)
    {
      d := LowerChar(CharAt(a, i)) as int - LowerChar(CharAt(b, i)) as int;
      if d != 0 && i < |b| {
        assert Lower(a)[i] != Lower(b)[i];
      }
      i := i + 1;
    }
    if d != 0 {
      return if d > 0 then 1 else -1;
    }
    if i == n {
      assert |a| == |b|;
      return 0;
    }
    return if CharAt(a, i) == '\0' && CharAt(b, i) == '\0' then 0 else if CharAt(a, i) == '\0' then -1 else if CharAt(b, i) == '\0' then 1 else 0;
  }

  // ------------------------------------------------------------------ chains

  datatype Name = Name(name: CString, value: Data, flags: bv32, next: int)

  // Where an entry is: in the chain of a bucket, on the free list, or on no list.
  const FREE := -1
  const LOOSE := -2

  /** The lists of a table. Every entry knows its list (home) and how many entries follow it there (rank). */
  datatype Lists = Lists(names: seq<Name>, buckets: seq<int>, free: int, home: seq<int>, rank: seq<int>)

  ghost predicate Sized(t: Lists) {
    |t.home| == |t.names| && |t.rank| == |t.names|
  }

  ghost function Head(t: Lists, b: int): int
    requires FREE <= b < |t.buckets|
  {
    if b == FREE then t.free else t.buckets[b]
  }

  ghost predicate HeadOk(t: Lists, b: int)
    requires Sized(t) && FREE <= b < |t.buckets|
  {
    Head(t, b) == -1 || (0 <= Head(t, b) < |t.names| && t.home[Head(t, b)] == b)
  }

  ghost predicate Linked(t: Lists, i: int)
    requires Sized(t) && 0 <= i < |t.names|
  {
    var b := t.home[i];
    b != LOOSE ==>
      && FREE <= b < |t.buckets| && 0 <= Head(t, b) < |t.names| && 0 <= t.rank[i] <= t.rank[Head(t, b)]
      && (t.rank[i] == 0 ==> t.names[i].next == -1)
      && (t.rank[i] > 0 ==>
        0 <= t.names[i].next < |t.names| && t.home[t.names[i].next] == b && t.rank[t.names[i].next] == t.rank[i] - 1)
  }

  ghost predicate Distinct(t: Lists)
    requires Sized(t)
  {
    forall i, j {:trigger t.rank[i], t.rank[j]} ::
      0 <= i < j < |t.names| && t.home[i] == t.home[j] && t.home[i] != LOOSE ==> t.rank[i] != t.rank[j]
  }

  /** Every entry that is not loose is on exactly one list, and every list ends. */
  ghost predicate Chained(t: Lists) {
    && Sized(t)
    && (forall i {:trigger Linked(t, i)} :: 0 <= i < |t.names| ==> Linked(t, i))
    && (forall b {:trigger HeadOk(t, b)} :: FREE <= b < |t.buckets| ==> HeadOk(t, b))
    && Distinct(t)
  }

  ghost function SetHead(t: Lists, b: int, k: int): Lists
    requires FREE <= b < |t.buckets|
  {
    if b == FREE then t.(free := k) else t.(buckets := t.buckets[b := k])
  }

  ghost function Pushed(t: Lists, b: int, i: int): Lists
    requires Sized(t) && FREE <= b < |t.buckets| && 0 <= i < |t.names| && HeadOk(t, b)
  {
    var k := Head(t, b);
    SetHead(t, b, i).(names := t.names[i := t.names[i].(next := k)], home := t.home[i := b],
                      rank := t.rank[i := if k < 0 then 0 else t.rank[k] + 1])
  }

  /** A loose entry becomes the first of a list. */
  lemma PushKeeps(t: Lists, b: int, i: int)
    requires Chained(t) && FREE <= b < |t.buckets| && 0 <= i < |t.names| && t.home[i] == LOOSE
    ensures HeadOk(t, b) && Chained(Pushed(t, b, i))
  {
    assert HeadOk(t, b);
    var k, u := Head(t, b), Pushed(t, b, i);
    if k >= 0 {
      assert Linked(t, k);
    }
    forall c | FREE <= c < |u.buckets| ensures HeadOk(u, c) {
      assert HeadOk(t, c);
    }
    forall j | 0 <= j < |u.names| ensures Linked(u, j) {
      assert Linked(t, j);
      assert t.home[j] != LOOSE ==> HeadOk(t, t.home[j]);
    }
    PushDistinct(t, b, i);
  }

  lemma PushDistinct(t: Lists, b: int, i: int)
    requires Chained(t) && FREE <= b < |t.buckets| && 0 <= i < |t.names| && t.home[i] == LOOSE && HeadOk(t, b)
    ensures Distinct(Pushed(t, b, i))
  {
    var k, u := Head(t, b), Pushed(t, b, i);
    if k >= 0 {
      assert Linked(t, k);
    }
    forall x, y | 0 <= x < y < |u.names| && u.home[x] == u.home[y] && u.home[x] != LOOSE ensures u.rank[x] != u.rank[y] {
      assert Linked(t, x) && Linked(t, y);
      var _, _ := t.rank[x], t.rank[y];
    }
  }

  ghost function Popped(t: Lists, b: int): Lists
    requires Sized(t) && FREE <= b < |t.buckets| && 0 <= Head(t, b) < |t.names|
  {
    var k := Head(t, b);
    SetHead(t, b, t.names[k].next).(home := t.home[k := LOOSE])
  }

  /** The first entry of a list becomes loose. */
  lemma PopKeeps(t: Lists, b: int)
    requires Chained(t) && FREE <= b < |t.buckets| && Head(t, b) >= 0
    ensures HeadOk(t, b) && t.home[Head(t, b)] == b && Chained(Popped(t, b))
  {
    assert HeadOk(t, b);
    var k, u := Head(t, b), Popped(t, b);
    assert Linked(t, k);
    forall c | FREE <= c < |u.buckets| ensures HeadOk(u, c) {
      assert HeadOk(t, c);
    }
    forall j | 0 <= j < |u.names| ensures Linked(u, j) {
      assert Linked(t, j);
      var _, _ := t.rank[j], t.rank[k];
    }
    forall x, y | 0 <= x < y < |u.names| && u.home[x] == u.home[y] && u.home[x] != LOOSE ensures u.rank[x] != u.rank[y] {
      var _, _ := t.rank[x], t.rank[y];
    }
  }

  ghost function Unlinked(t: Lists, p: int): Lists
    requires Sized(t) && 0 <= p < |t.names| && 0 <= t.names[p].next < |t.names|
  {
    var k := t.names[p].next;
    t.(names := t.names[p := t.names[p].(next := t.names[k].next)], home := t.home[k := LOOSE],
       rank := seq(|t.rank|, i requires 0 <= i < |t.rank| =>
         if t.home[i] == t.home[k] && t.rank[i] > t.rank[k] then t.rank[i] - 1 else t.rank[i]))
  }

  /** The entry behind p becomes loose. */
  lemma UnlinkKeeps(t: Lists, p: int)
    requires Chained(t) && 0 <= p < |t.names| && t.home[p] != LOOSE && t.rank[p] > 0
    ensures Linked(t, p) && Chained(Unlinked(t, p))
  {
    assert Linked(t, p);
    var k, u := t.names[p].next, Unlinked(t, p);
    assert Linked(t, k);
    forall c | FREE <= c < |u.buckets| ensures HeadOk(u, c) {
      assert HeadOk(t, c);
    }
    forall j | 0 <= j < |u.names| ensures Linked(u, j) {
      assert Linked(t, j);
      assert t.home[j] != LOOSE ==> HeadOk(t, t.home[j]);
      if t.home[j] == t.home[k] && j != k && j != p {
        var _, _, _ := t.rank[j], t.rank[k], t.rank[p];
        assert t.rank[j] != t.rank[k] && t.rank[j] != t.rank[p];
      }
    }
    forall x, y | 0 <= x < y < |u.names| && u.home[x] == u.home[y] && u.home[x] != LOOSE ensures u.rank[x] != u.rank[y] {
      var _, _, _ := t.rank[x], t.rank[y], t.rank[k];
      assert t.rank[x] != t.rank[y] && (t.home[x] == t.home[k] ==> t.rank[x] != t.rank[k] && t.rank[y] != t.rank[k]);
    }
  }

  // The entries from k to the end of its list.
  lemma {:induction false} Followers(t: Lists, k: int) returns (s: set<int>)
    requires Chained(t) && 0 <= k < |t.names| && t.home[k] != LOOSE
    ensures |s| == t.rank[k] + 1 && forall x :: x in s ==> 0 <= x < |t.names| && t.rank[x] <= t.rank[k]
    decreases t.rank[k]
  {
    assert Linked(t, k);
    s := {};
    if t.rank[k] > 0 {
      s := Followers(t, t.names[k].next);
    }
    assert k !in s;
    s := s + {k};
  }

  /** No list is longer than the table: the guard against circular chains cannot fire. */
  lemma ChainShort(t: Lists, k: int)
    requires Chained(t) && 0 <= k < |t.names| && t.home[k] != LOOSE
    ensures 0 <= t.rank[k] < |t.names|
  {
    var s := Followers(t, k);
    assert Linked(t, k);
    BoundedCard(s, |t.names|);
  }

  // A new entry at the end of the array, on no list yet.
  ghost function Extended(t: Lists): Lists {
    t.(names := t.names + [Name("", 0, 0, 0)], home := t.home + [LOOSE], rank := t.rank + [0])
  }

  lemma ExtendKeeps(t: Lists)
    requires Chained(t)
    ensures Chained(Extended(t))
  {
    var u := Extended(t);
    forall c | FREE <= c < |u.buckets| ensures HeadOk(u, c) {
      assert HeadOk(t, c);
    }
    forall j | 0 <= j < |u.names| ensures Linked(u, j) {
      if j < |t.names| {
        assert Linked(t, j);
      }
    }
    forall x, y | 0 <= x < y < |u.names| && u.home[x] == u.home[y] && u.home[x] != LOOSE ensures u.rank[x] != u.rank[y] {
      var _, _ := t.rank[x], t.rank[y];
    }
  }

  // The lists with more free entries.
  ghost predicate Extends(t: Lists, u: Lists) {
    && |t.names| <= |u.names| == |u.home| && |t.home| == |t.names| && Chained(u) && u.buckets == t.buckets
    && (forall i {:trigger u.names[i]} {:trigger u.home[i]} :: 0 <= i < |t.names| ==> u.names[i] == t.names[i] && u.home[i] == t.home[i])
    && (forall i {:trigger u.home[i]} :: |t.names| <= i < |u.names| ==> u.home[i] == FREE && u.names[i].flags == 0)
  }

  lemma ExtendsFurther(t: Lists, u: Lists, v: Lists)
    requires Extends(t, u) && Extends(u, v)
    ensures Extends(t, v)
  {
    forall i {:trigger v.home[i]} | 0 <= i < |v.names|
      ensures if i < |t.names| then v.names[i] == t.names[i] && v.home[i] == t.home[i] else v.home[i] == FREE && v.names[i].flags == 0
    {
      if i < |t.names| {
        assert u.names[i] == t.names[i] && v.names[i] == u.names[i];
      } else if i < |u.names| {
        assert u.home[i] == FREE && v.home[i] == u.home[i];
      }
    }
  }

  // New buckets, all of them empty; the free list stays.
  ghost function Cleared(t: Lists, size: nat): Lists {
    t.(buckets := seq(size, i => -1), home := seq(|t.home|, i requires 0 <= i < |t.home| => if t.home[i] == FREE then FREE else LOOSE))
  }

  lemma ClearKeeps(t: Lists, size: nat)
    requires Chained(t)
    ensures Chained(Cleared(t, size))
  {
    var u := Cleared(t, size);
    assert HeadOk(t, FREE);
    assert HeadOk(u, FREE);
    forall j | 0 <= j < |u.names| ensures Linked(u, j) {
      assert Linked(t, j);
    }
    forall x, y | 0 <= x < y < |u.names| && u.home[x] == u.home[y] && u.home[x] != LOOSE ensures u.rank[x] != u.rank[y] {
      var _, _ := t.rank[x], t.rank[y];
    }
  }

  // The bucket of an entry.
  ghost function HomeOf(t: Lists, caseless: bool, i: int): int
    requires 0 <= i < |t.names| && t.buckets != []
  {
    HashOf(t.names[i].name, caseless) as int % |t.buckets|
  }

  // The chains hold the entries in front of `upto` that have flags; the others wait, or are forgotten.
  ghost predicate Relinked(t: Lists, u: Lists, caseless: bool, upto: int) {
    && Chained(u) && u.buckets != [] && SameNames(u.names, t.names) && |t.home| == |t.names|
    && forall i {:trigger u.home[i]} :: 0 <= i < |u.names| ==>
      u.home[i] == if t.home[i] == FREE then FREE else if u.names[i].flags != 0 && i < upto then HomeOf(u, caseless, i) else LOOSE
  }

  lemma RelinkedNext(t: Lists, u: Lists, v: Lists, caseless: bool, i: int)
    requires Relinked(t, u, caseless, i) && 0 <= i < |u.names| && (t.home[i] == FREE ==> t.names[i].flags == 0)
    requires Chained(v) && SameNames(v.names, u.names) && |v.buckets| == |u.buckets| && |v.home| == |u.home|
    requires forall j {:trigger v.home[j]} :: 0 <= j < |v.names| ==> v.home[j] == if j == i && v.names[i].flags != 0 then HomeOf(v, caseless, i) else u.home[j]
    ensures Relinked(t, v, caseless, i + 1)
  {
    forall j {:trigger v.home[j]} | 0 <= j < |v.names|
      ensures v.home[j] == if t.home[j] == FREE then FREE else if v.names[j].flags != 0 && j < i + 1 then HomeOf(v, caseless, j) else LOOSE
    {
      var _ := v.names[j];
    }
  }

  // Only the links differ.
  ghost predicate SameNames(a: seq<Name>, b: seq<Name>) {
    |a| == |b| && forall i {:trigger a[i]} {:trigger b[i]} :: 0 <= i < |a| ==>
      a[i].name == b[i].name && a[i].value == b[i].value && a[i].flags == b[i].flags
  }

  // ------------------------------------------------------------------ flags

  const NAME_MASK: bv32 := 0x38
  const VALUE_MASK: bv32 := 0x7
  const OWNERSHIP: bv32 := 0x3f
  const CASELESS: bv32 := 0x40
  const STATIC: bv32 := 0x12

  /** The flags rAddName stores, in the six bits there are for them. */
  function EntryFlags(table: bv32, flags: bv32): bv32 {
    var f := if flags == 0 then table else flags;
    var g := if f & NAME_MASK == 0 then f | (table & NAME_MASK) else f;
    var h := if g & VALUE_MASK == 0 then g | (table & VALUE_MASK) else g;
    h & OWNERSHIP
  }

  /** An entry is stored without any flag exactly if neither the table nor the call says who owns names or values. */
  lemma NoFlags(table: bv32, flags: bv32)
    ensures EntryFlags(table, flags) == 0 <==> table & OWNERSHIP == 0 && flags & OWNERSHIP == 0
  {
  }

  // ------------------------------------------------------------------ sizes

  function HashSizes(): seq<int> {
    [19, 29, 59, 79, 97, 193, 389, 769, 1543, 3079, 6151, 12289, 24593, 49157, 98317, 196613]
  }

  lemma SizesAscend(i: int, j: int)
    requires 0 <= i < j < |HashSizes()|
    ensures HashSizes()[i] < HashSizes()[j]
  {
  }

  /** The least size above n; the largest one if there is none. */
  ghost predicate IsBucketSize(n: nat, size: int) {
    size in HashSizes() && if n < 196613 then n < size && forall s :: s in HashSizes() && n < s ==> size <= s else size == 196613
  }

  lemma LeastAbove(n: nat, i: nat)
    requires i < |HashSizes()| && n < HashSizes()[i] && forall j {:trigger HashSizes()[j]} :: 0 <= j < i ==> HashSizes()[j] <= n
    ensures forall s :: s in HashSizes() && n < s ==> HashSizes()[i] <= s
  {
    forall s | s in HashSizes() && n < s ensures HashSizes()[i] <= s {
      var j :| 0 <= j < |HashSizes()| && HashSizes()[j] == s;
      if i < j {
        SizesAscend(i, j);
      }
    }
  }

  /** getBucketSize */
  method GetBucketSize(n: nat) returns (size: nat)
    ensures IsBucketSize(n, size) && size > 0
  {
    var sizes := HashSizes();
    var i := 0;
    while i < |sizes|
      invariant 0 <= i <= |sizes|
      invariant forall j :: 0 <= j < i ==> sizes[j] <= n
    {
      if n < sizes[i] {
        LeastAbove(n, i);
        return sizes[i];
      }
      i := i + 1;
    }
    return sizes[i - 1];
  }

  // ------------------------------------------------------------------ what names are mapped to

  ghost predicate Within(index: map<string, int>, names: seq<Name>) {
    forall k {:trigger index[k]} :: k in index ==> 0 <= index[k] < |names|
  }

  ghost function Values(index: map<string, int>, names: seq<Name>): map<string, Data>
    requires Within(index, names)
  {
    map k | k in index :: names[index[k]].value
  }

  ghost function FlaggedOnly(index: map<string, int>, names: seq<Name>): (r: map<string, int>)
    requires Within(index, names)
    ensures Within(r, names)
  {
    map k | k in index && names[index[k]].flags != 0 :: index[k]
  }

  // The entries but one hold the same.
  ghost predicate SameBut(a: seq<Name>, b: seq<Name>, k: int) {
    |a| == |b| && forall i {:trigger a[i]} {:trigger b[i]} :: 0 <= i < |a| && i != k ==>
      a[i].name == b[i].name && a[i].value == b[i].value && a[i].flags == b[i].flags
  }

  lemma ValuesSame(index: map<string, int>, a: seq<Name>, b: seq<Name>)
    requires Within(index, a) && SameNames(a, b)
    ensures Values(index, a) == Values(index, b) && FlaggedOnly(index, a) == FlaggedOnly(index, b)
  {
    assert Within(index, b);
  }

  lemma ValuesSet(index: map<string, int>, a: seq<Name>, b: seq<Name>, key: string, k: int)
    requires Within(index, a) && SameBut(a, b, k) && 0 <= k < |a|
    requires forall x {:trigger index[x]} :: x in index && x != key ==> index[x] != k
    ensures Within(index[key := k], b) && Values(index[key := k], b) == Values(index, a)[key := b[k].value]
  {
  }

  lemma FlaggedSet(index: map<string, int>, a: seq<Name>, b: seq<Name>, key: string, k: int)
    requires Within(index, a) && SameBut(a, b, k) && 0 <= k < |a|
    requires forall x {:trigger index[x]} :: x in index && x != key ==> index[x] != k
    ensures Within(index[key := k], b)
    ensures FlaggedOnly(index[key := k], b) == if b[k].flags != 0 then FlaggedOnly(index, a)[key := k] else FlaggedOnly(index, a) - {key}
  {
  }

  lemma ValuesGone(index: map<string, int>, a: seq<Name>, b: seq<Name>, key: string, k: int)
    requires Within(index, a) && SameBut(a, b, k)
    requires forall x {:trigger index[x]} :: x in index && x != key ==> index[x] != k
    ensures Within(index - {key}, b) && Values(index - {key}, b) == Values(index, a) - {key}
  {
  }

  // ------------------------------------------------------------------ the table

  class Hash {
    const flags: bv32
    const caseless: bool
    var buckets: seq<int>
    var names: seq<Name>
    var free: int
    var length: nat

    ghost var home: seq<int>
    ghost var rank: seq<int>
    // The entry of every name, by its canonical form.
    ghost var index: map<string, int>

    ghost function View(): Lists
      reads this
    {
      Lists(names, buckets, free, home, rank)
    }

    ghost function Key(i: int): string
      reads this
      requires 0 <= i < |names|
    {
      Fold(names[i].name, caseless)
    }

    ghost function Bucket(name: CString): int
      reads this
      requires buckets != []
    {
      HashOf(name, caseless) as int % |buckets|
    }

    // An entry lies in the chain of its hash and is the one entry of its name, or has no flags.
    ghost predicate Placed(i: int)
      reads this
      requires 0 <= i < |names| == |home|
    {
      if home[i] >= 0 then buckets != [] && home[i] == Bucket(names[i].name) && Key(i) in index && index[Key(i)] == i
      else names[i].flags == 0
    }

    ghost predicate Valid()
      reads this
    {
      && caseless == (flags & CASELESS != 0) && Chained(View())
      && (forall i {:trigger Placed(i)} :: 0 <= i < |names| ==> Placed(i))
      && (forall k {:trigger index[k]} :: k in index ==> 0 <= index[k] < |names| && home[index[k]] >= 0 && Key(index[k]) == k)
      && |index| <= length && (names == [] || |names| >= MIN_HASH)
    }

    /** What the table maps names to, names in their canonical form. */
    ghost function Contents(): map<string, Data>
      reads this
      requires Valid()
    {
      Values(index, names)
    }

    /** What is left of it by a rehash: names whose entries have flags. */
    ghost function Kept(): map<string, Data>
      reads this
      requires Valid()
    {
      Values(FlaggedOnly(index, names), names)
    }

    /** Every entry is free, or has flags and lies in a chain; `length` counts the latter. */
    ghost predicate Flagged()
      reads this
      requires Valid()
    {
      && length == |index| && (forall k {:trigger index[k]} :: k in index ==> names[index[k]].flags != 0)
      && (forall i {:trigger home[i]} :: 0 <= i < |names| ==> home[i] != LOOSE)
    }

    /** rAllocHash */
    constructor (size: nat, flags0: bv32)
      ensures Valid() && Flagged() && Contents() == map[] && length == 0
      ensures flags == (if flags0 == 0 then STATIC else flags0) & 0xff && caseless == (flags & CASELESS != 0)
      ensures size == 0 ==> buckets == []
    {
      flags := (if flags0 == 0 then STATIC else flags0) & 0xff;
      caseless := ((if flags0 == 0 then STATIC else flags0) & 0xff) & CASELESS != 0;
      buckets, names, free, length := [], [], -1, 0;
      home, rank, index := [], [], map[];
      new;
      assert HeadOk(View(), FREE);
      if size > 0 {
        GrowBuckets(size);
        GrowNames(size);
      }
    }

    // ---------------------------------------------------------------- lookup

    lemma EmptyWithoutBuckets()
      requires Valid()
      ensures buckets == [] ==> index == map[]
    {
      forall k | k in index ensures buckets != [] {
        assert Placed(index[k]);
      }
    }

    // No entry of the chain with more than `rank` followers has the name.
    ghost predicate Passed(key: string, b: int, above: int)
      reads this
      requires Sized(View())
    {
      forall i {:trigger Linked(View(), i)} :: 0 <= i < |names| && Linked(View(), i) && home[i] == b && rank[i] > above ==> Key(i) != key
    }

    lemma PassedAll(key: string, b: int)
      requires Valid() && 0 <= b < |buckets|
      ensures buckets[b] == -1 || (0 <= buckets[b] < |names| && home[buckets[b]] == b)
      ensures Passed(key, b, if buckets[b] < 0 then -1 else rank[buckets[b]])
    {
      assert HeadOk(View(), b);
    }

    lemma PassedOne(key: string, b: int, k: int)
      requires Valid() && 0 <= k < |names| && home[k] == b >= 0 && Passed(key, b, rank[k]) && Key(k) != key
      ensures Passed(key, b, rank[k] - 1)
    {
      forall i {:trigger Linked(View(), i)} | 0 <= i < |names| && home[i] == b && rank[i] > rank[k] - 1 ensures Key(i) != key {
        assert Linked(View(), i);
        var _, _ := View().rank[i], View().rank[k];
      }
    }

    lemma NotInIndex(name: CString, b: int)
      requires Valid() && buckets != [] && b == Bucket(name) && Passed(Fold(name, caseless), b, -1)
      ensures Fold(name, caseless) !in index
    {
      if Fold(name, caseless) in index {
        var i := index[Fold(name, caseless)];
        assert Placed(i) && Linked(View(), i);
        HashCongruent(names[i].name, name, caseless);
      }
    }

    /** lookupHash: the entry of a name, its bucket and the entry in front of it, or -1. */
    method LookupHash(name: CString) returns (kindex: int, bindex: int, prior: int)
      requires Valid()
      ensures if Fold(name, caseless) in index then kindex == index[Fold(name, caseless)] else kindex == -1
      ensures buckets != [] ==> bindex == Bucket(name)
      ensures kindex >= 0 ==> buckets != [] && home[kindex] == bindex
      ensures kindex >= 0 ==> if prior < 0 then buckets[bindex] == kindex
        else prior < |names| && home[prior] == bindex && rank[prior] > 0 && names[prior].next == kindex
    {
      kindex, bindex, prior := -1, -1, -1;
      if |buckets| == 0 {
        EmptyWithoutBuckets();
        return;
      }
      var h := HashName(name, caseless);
      bindex := h as int % |buckets|;
      kindex := buckets[bindex];
      ghost var key := Fold(name, caseless);
      PassedAll(key, bindex);
      ghost var head := kindex;
      var iterations := 0;
      while kindex >= 0
        invariant kindex == -1 || (0 <= kindex < |names| && home[kindex] == bindex)
        invariant Passed(key, bindex, if kindex < 0 then -1 else rank[kindex])
        invariant if prior < 0 then buckets[bindex] == kindex
          else prior < |names| && home[prior] == bindex && names[prior].next == kindex && (kindex >= 0 ==> rank[prior] > 0)
        invariant kindex >= 0 ==> 0 <= head < |names| && home[head] == bindex && iterations + rank[kindex] == rank[head]
        decreases if kindex < 0 then 0 else rank[kindex] + 1
      {
        assert Linked(View(), kindex);
        ChainShort(View(), head);
        // The guard against circular chains is not taken.
        assert iterations <= |names|;
        iterations := iterations + 1;
        var rc := Compare(names[kindex].name, name);
        if rc == 0 {
          assert Placed(kindex);
          return;
        }
        PassedOne(key, bindex, kindex);
        prior := kindex;
        kindex := names[kindex].next;
      }
      NotInIndex(name, bindex);
    }

    // strcmp or scaselesscmp
    method Compare(a: CString, b: CString) returns (rc: int)
      ensures rc == 0 <==> Fold(a, caseless) == Fold(b, caseless)
    {
      if caseless {
        rc := CompareCaseless(a, b);
      } else {
        rc := if a == b then 0 else 1;
      }
    }

    /** rLookupName: the value of a name, or NULL. */
    method LookupName(name: CString) returns (value: Data)
      requires Valid()
      ensures value == if Fold(name, caseless) in Contents() then Contents()[Fold(name, caseless)] else 0
    {
      if |buckets| == 0 {
        EmptyWithoutBuckets();
        return 0;
      }
      var kindex, _, _ := LookupHash(name);
      if kindex < 0 {
        return 0;
      }
      return names[kindex].value;
    }

    // ---------------------------------------------------------------- growth

    // Make a loose entry the first of a list.
    method Push(b: int, i: int)
      requires Chained(View()) && FREE <= b < |buckets| && 0 <= i < |names| && home[i] == LOOSE
      modifies this`names, this`buckets, this`free, this`home, this`rank
      ensures HeadOk(old(View()), b) && View() == Pushed(old(View()), b, i) && Chained(View())
    {
      PushKeeps(View(), b, i);
      ghost var t := View();
      var head := if b == FREE then free else buckets[b];
      names := names[i := names[i].(next := head)];
      if b == FREE {
        free := i;
      } else {
        buckets := buckets[b := i];
      }
      home, rank := home[i := b], rank[i := if head < 0 then 0 else rank[head] + 1];
    }

    // More free entries, and nothing else.
    twostate predicate Grown()
      reads this
    {
      Extends(old(View()), View()) && index == old(index) && length == old(length)
    }

    twostate lemma GrownValid()
      requires old(Valid()) && Grown() && |names| >= MIN_HASH
      ensures Valid()
    {
      forall i | 0 <= i < |names| ensures Placed(i) {
        assert i < |old(names)| ==> old(Placed(i));
      }
    }

    twostate lemma GrownContents()
      requires old(Valid()) && Grown() && Valid()
      ensures Contents() == old(Contents()) && Kept() == old(Kept())
    {
      forall k {:trigger index[k]} | k in index ensures names[index[k]] == old(names)[index[k]] {
      }
      assert FlaggedOnly(index, names) == FlaggedOnly(index, old(names));
    }

    method AddFree()
      requires Chained(View())
      modifies this`names, this`buckets, this`free, this`home, this`rank
      ensures |names| == |old(names)| + 1 && free == |old(names)| && Extends(old(View()), View())
    {
      ExtendKeeps(View());
      names, home, rank := names + [Name("", 0, 0, 0)], home + [LOOSE], rank + [0];
      Push(FREE, |names| - 1);
    }

    /** growNames: more entries, all of them free. */
    method GrowNames(wanted: nat)
      requires Valid()
      modifies this`names, this`buckets, this`free, this`home, this`rank
      ensures Valid() && Grown() && Contents() == old(Contents()) && Kept() == old(Kept())
      ensures |names| == var size := if wanted < MIN_HASH then MIN_HASH else wanted; if |old(names)| > size then |old(names)| + MIN_HASH else size
      ensures |names| > |old(names)| ==> free >= 0
      ensures old(Flagged()) ==> Flagged()
    {
      var size := if wanted < MIN_HASH then MIN_HASH else wanted;
      if |names| > size {
        size := |names| + MIN_HASH;
      }
      ghost var t := View();
      while |names| < size
        invariant |names| <= size && Extends(t, View()) && (|names| > |old(names)| ==> free >= 0)
      {
        ghost var u := View();
        AddFree();
        ExtendsFurther(t, u, View());
      }
      GrownValid();
      GrownContents();
    }

    // ---------------------------------------------------------------- rehash

    twostate predicate Rehashed(upto: int)
      reads this
    {
      Relinked(old(View()), View(), caseless, upto)
    }

    // The body of the loop of growBuckets.
    method Relink(i: int)
      requires 0 <= i < |names| && Chained(View()) && buckets != [] && (names[i].flags != 0 ==> home[i] == LOOSE)
      modifies this`names, this`buckets, this`free, this`home, this`rank
      ensures Chained(View()) && |buckets| == |old(buckets)| && SameNames(names, old(names)) && |home| == |old(home)|
      ensures forall j {:trigger home[j]} :: 0 <= j < |names| ==> home[j] == if j == i && names[i].flags != 0 then Bucket(names[i].name) else old(home)[j]
    {
      if names[i].flags != 0 {
        var h := HashName(names[i].name, caseless);
        Push(h as int % |buckets|, i);
      }
    }

    // What a rehash leaves: the entries with flags.
    ghost function Survivors(): map<string, int>
      reads this
      requires Valid()
    {
      FlaggedOnly(index, names)
    }

    twostate lemma RehashedValid()
      requires old(Valid()) && Rehashed(|names|) && length == old(length) && index == old(Survivors())
      ensures Valid()
    {
      forall i | 0 <= i < |names| ensures Placed(i) {
        assert old(Placed(i));
        var _ := home[i];
      }
      SubsetCard(index.Keys, old(index).Keys);
      forall k {:trigger index[k]} | k in index ensures 0 <= index[k] < |names| && home[index[k]] >= 0 && Key(index[k]) == k {
        assert old(Placed(index[k]));
      }
    }

    twostate lemma RehashedContents()
      requires old(Valid()) && SameNames(names, old(names)) && index == old(Survivors()) && Valid()
      ensures Contents() == old(Kept()) && Kept() == old(Kept())
    {
      ValuesSame(index, old(names), names);
      assert FlaggedOnly(index, names) == index;
    }

    twostate lemma RehashedHomes()
      requires old(Valid()) && old(Flagged()) && Rehashed(|names|)
      ensures forall i {:trigger home[i]} :: 0 <= i < |names| ==> home[i] != LOOSE
    {
      forall i {:trigger home[i]} | 0 <= i < |names| ensures home[i] != LOOSE {
        assert old(Placed(i)) && old(Linked(View(), i));
        if old(home)[i] >= 0 {
          assert old(index[Key(i)]) == i && old(names)[i].flags != 0;
          assert names[i].flags != 0;
        }
      }
    }

    twostate lemma RehashedFlagged()
      requires old(Valid()) && old(Flagged()) && SameNames(names, old(names)) && index == old(Survivors()) && Valid() && length == old(length)
      requires forall i {:trigger home[i]} :: 0 <= i < |names| ==> home[i] != LOOSE
      ensures Flagged() && index == old(index)
    {
      assert index == old(index);
    }

    // Empty buckets, and the loop that relinks the entries.
    method Rehash(size: nat)
      requires Valid() && size > 0
      modifies this`names, this`buckets, this`free, this`home, this`rank
      ensures Rehashed(|names|) && |buckets| == size
    {
      ClearKeeps(View(), size);
      home := Cleared(View(), size).home;
      buckets := seq(size, i => -1);
      assert View() == Cleared(old(View()), size);
      ghost var t := old(View());
      var i := 0;
      while i < |names|
        invariant 0 <= i <= |names| == |t.names| && |buckets| == size && Relinked(t, View(), caseless, i)
      {
        assert old(Placed(i));
        ghost var u := View();
        Relink(i);
        RelinkedNext(t, u, View(), caseless, i);
        i := i + 1;
      }
    }

    /** growBuckets: a rehash, unless there are more buckets than wanted. It forgets the entries without flags. */
    method GrowBuckets(wanted: nat)
      requires Valid()
      modifies this
      ensures Valid() && buckets != [] && SameNames(names, old(names)) && length == old(length)
      ensures if |old(buckets)| > (if wanted < MIN_HASH then MIN_HASH else wanted)
        then Contents() == old(Contents()) && Kept() == old(Kept()) && index == old(index) && buckets == old(buckets)
        else Contents() == old(Kept()) && Kept() == old(Kept()) && index == old(Survivors()) && IsBucketSize(if wanted < MIN_HASH then MIN_HASH else wanted, |buckets|)
      ensures old(Flagged()) ==> Flagged() && Contents() == old(Contents())
    {
      var size := if wanted < MIN_HASH then MIN_HASH else wanted;
      if |buckets| > size {
        return;
      }
      size := GetBucketSize(size);
      Rehash(size);
      index := old(Survivors());
      RehashedValid();
      RehashedContents();
      if old(Flagged()) {
        RehashedHomes();
        RehashedFlagged();
        ValuesSame(index, old(names), names);
      }
    }

    // ---------------------------------------------------------------- adding

    // A free entry moves to the front of the chain of a bucket.
    method TakeEntry(b: int) returns (k: int)
      requires Chained(View()) && 0 <= b < |buckets| && free >= 0
      modifies this`names, this`buckets, this`free, this`home, this`rank
      ensures SameNames(names, old(names)) && |old(home)| == |names| && Chained(View()) && |buckets| == |old(buckets)|
      ensures k == old(free) && 0 <= k < |names| && old(home)[k] == FREE && home == old(home)[k := b]
    {
      PopKeeps(View(), FREE);
      k := free;
      assert Linked(View(), k);
      free := names[k].next;
      home := home[k := LOOSE];
      Push(b, k);
    }

    // One entry has a new name, value and flags; `at` is where the others are found.
    twostate predicate Added(k: int, name: CString, value: Data, flags: bv32)
      requires old(Valid())
      reads this
    {
      var key := Fold(name, caseless);
      && Chained(View()) && |buckets| == |old(buckets)| && |names| == |old(names)| && 0 <= k < |names|
      && names[k].name == name && names[k].value == value && names[k].flags == flags
      && buckets != [] && home == old(home)[k := Bucket(name)] && index == old(index)[key := k]
      && SameBut(old(names), names, k)
      && (if key in old(index) then k == old(index)[key] && length == old(length)
          else old(home)[k] == FREE && length == old(length) + 1)
    }

    twostate lemma AddedPlaced(k: int)
      requires old(Valid()) && 0 <= k < |names| && Added(k, names[k].name, names[k].value, names[k].flags)
      ensures forall i {:trigger Placed(i)} :: 0 <= i < |names| ==> Placed(i)
    {
      forall i | 0 <= i < |names| ensures Placed(i) {
        if i == k {
          assert Key(i) in index && index[Key(i)] == k;
        } else {
          assert old(Placed(i)) && Key(i) == old(Key(i));
        }
      }
    }

    twostate lemma AddedIndex(k: int)
      requires old(Valid()) && 0 <= k < |names| && Added(k, names[k].name, names[k].value, names[k].flags)
      ensures forall x {:trigger index[x]} :: x in index ==> 0 <= index[x] < |names| && home[index[x]] >= 0 && Key(index[x]) == x
    {
    }

    twostate lemma AddedValid(k: int)
      requires old(Valid()) && 0 <= k < |names| && Added(k, names[k].name, names[k].value, names[k].flags)
      ensures Valid()
    {
      AddedPlaced(k);
      AddedIndex(k);
    }

    twostate lemma AddedContents(k: int)
      requires old(Valid()) && 0 <= k < |names| && Added(k, names[k].name, names[k].value, names[k].flags) && Valid()
      ensures var key := Fold(names[k].name, caseless);
        && Contents() == old(Contents())[key := names[k].value]
        && Kept() == if names[k].flags != 0 then old(Kept())[key := names[k].value] else old(Kept()) - {key}
    {
      var key := Fold(names[k].name, caseless);
      forall x {:trigger index[x]} | x in index && x != key ensures index[x] != k {
      }
      ValuesSet(old(index), old(names), names, key, k);
      FlaggedSet(old(index), old(names), names, key, k);
      var kept := FlaggedOnly(old(index), old(names));
      ValuesSet(kept, old(names), names, key, k);
      ValuesGone(kept, old(names), names, key, k);
    }

    twostate lemma AddedFlagged(k: int)
      requires old(Valid()) && old(Flagged()) && Valid()
      requires 0 <= k < |names| && Added(k, names[k].name, names[k].value, names[k].flags) && names[k].flags != 0
      ensures Flagged()
    {
    }

    // A new entry.
    method PutEntry(name: CString, value: Data, flags: bv32, bindex: int) returns (k: int)
      requires Valid() && buckets != [] && bindex == Bucket(name) && free >= 0 && Fold(name, caseless) !in index
      modifies this
      ensures Valid() && Contents() == old(Contents())[Fold(name, caseless) := value] && |buckets| == |old(buckets)|
      ensures length == old(length) + 1
      ensures 0 <= k < |names| == |old(names)| && names[k].name == name && names[k].value == value && names[k].flags == flags
      ensures Kept() == if flags != 0 then old(Kept())[Fold(name, caseless) := value] else old(Kept()) - {Fold(name, caseless)}
      ensures old(Flagged()) && flags != 0 ==> Flagged()
    {
      k := TakeEntry(bindex);
      ghost var t := View();
      names := names[k := names[k].(name := name, value := value, flags := flags)];
      length := length + 1;
      index := index[Fold(name, caseless) := k];
      RenamedChained(t, k, names[k]);
      assert Added(k, name, value, flags);
      AddedValid(k);
      AddedContents(k);
      if old(Flagged()) && flags != 0 {
        AddedFlagged(k);
      }
    }

    // The entry of a name that is there.
    method UpdateEntry(k: int, name: CString, value: Data, flags: bv32)
      requires Valid() && Fold(name, caseless) in index && k == index[Fold(name, caseless)]
      modifies this`names, this`index
      ensures Valid() && Contents() == old(Contents())[Fold(name, caseless) := value] && |names| == |old(names)|
      ensures 0 <= k < |names| && names[k].name == name && names[k].value == value && names[k].flags == flags
      ensures Kept() == if flags != 0 then old(Kept())[Fold(name, caseless) := value] else old(Kept()) - {Fold(name, caseless)}
      ensures old(Flagged()) && flags != 0 ==> Flagged()
    {
      assert Placed(k);
      HashCongruent(names[k].name, name, caseless);
      RenamedChained(View(), k, names[k].(name := name, value := value, flags := flags));
      names := names[k := names[k].(name := name, value := value, flags := flags)];
      index := index[Fold(name, caseless) := k];
      assert Added(k, name, value, flags);
      AddedValid(k);
      AddedContents(k);
      if old(Flagged()) && flags != 0 {
        AddedFlagged(k);
      }
    }

    // The entry of a name, or a new one: what rAddName does behind the growth of the buckets.
    method SetEntry(name: CString, value: Data, flags: bv32) returns (k: int)
      requires Valid() && buckets != []
      modifies this
      ensures Valid() && Contents() == old(Contents())[Fold(name, caseless) := value] && |buckets| == |old(buckets)|
      ensures length == old(length) + if Fold(name, caseless) in old(index) then 0 else 1
      ensures 0 <= k < |names| && names[k].name == name && names[k].value == value && names[k].flags == flags
      ensures Kept() == if flags != 0 then old(Kept())[Fold(name, caseless) := value] else old(Kept()) - {Fold(name, caseless)}
      ensures old(Flagged()) && flags != 0 ==> Flagged()
    {
      var kindex, bindex, _ := LookupHash(name);
      k := kindex;
      if k >= 0 {
        UpdateEntry(k, name, value, flags);
      } else {
        if free < 0 {
          GrowNames(|names| * 3 / 2);
        }
        k := PutEntry(name, value, flags, bindex);
      }
    }

    /**
      rAddName. The name has the value, and nothing else changes, except that adding to a
      table with as many names as buckets rehashes it and forgets names without flags.
    */
    method AddName(name: CString, value: Data, flags0: bv32) returns (k: int)
      requires Valid()
      modifies this
      ensures Valid() && buckets != []
      ensures Contents() == (if old(length) >= |old(buckets)| then old(Kept()) else old(Contents()))[Fold(name, caseless) := value]
      ensures 0 <= k < |names| && names[k].name == name && names[k].value == value && names[k].flags == EntryFlags(flags, flags0)
      ensures Kept() == if EntryFlags(flags, flags0) != 0 then old(Kept())[Fold(name, caseless) := value] else old(Kept()) - {Fold(name, caseless)}
      ensures length == old(length) + if Fold(name, caseless) in (if old(length) >= |old(buckets)| then old(Kept()) else old(Contents())) then 0 else 1
      ensures old(Flagged()) ==> Contents() == old(Contents())[Fold(name, caseless) := value]
      ensures old(Flagged()) && EntryFlags(flags, flags0) != 0 ==> Flagged()
      ensures if old(length) >= |old(buckets)| then IsBucketSize(if old(length) + 1 < MIN_HASH then MIN_HASH else old(length) + 1, |buckets|)
        else |buckets| == |old(buckets)|
    {
      if length >= |buckets| {
        GrowBuckets(length + 1);
      }
      k := SetEntry(name, value, EntryFlags(flags, flags0));
    }

    // ---------------------------------------------------------------- removing

    // An entry leaves its chain for the free list.
    method ReleaseEntry(b: int, k: int, prior: int)
      requires Chained(View()) && 0 <= b < |buckets| && 0 <= k < |names| && home[k] == b
      requires if prior < 0 then buckets[b] == k
        else prior < |names| && home[prior] == b && rank[prior] > 0 && names[prior].next == k
      modifies this`names, this`buckets, this`free, this`home, this`rank
      ensures Chained(View()) && |buckets| == |old(buckets)| && |names| == |old(names)| == |old(home)|
      ensures home == old(home)[k := FREE] && names[k].flags == 0 && names[k].name == old(names)[k].name
      ensures SameBut(old(names), names, k)
    {
      assert Linked(View(), k);
      if prior >= 0 {
        UnlinkKeeps(View(), prior);
        ghost var u := Unlinked(View(), prior);
        names := names[prior := names[prior].(next := names[k].next)];
        home, rank := u.home, u.rank;
        assert View() == u;
      } else {
        PopKeeps(View(), b);
        buckets := buckets[b := names[k].next];
        home := home[k := LOOSE];
      }
      RenamedChained(View(), k, names[k].(flags := 0));
      names := names[k := names[k].(flags := 0)];
      Push(FREE, k);
    }

    const CANT_FIND := -25

    // The entry of a name is free.
    twostate predicate Removed(key: string)
      requires old(Valid())
      reads this
    {
      && key in old(index) && index == old(index) - {key} && length == old(length) - 1
      && Chained(View()) && |buckets| == |old(buckets)| && |names| == |old(names)|
      && home == old(home)[old(index)[key] := FREE] && names[old(index)[key]].flags == 0
      && SameBut(old(names), names, old(index)[key])
    }

    twostate lemma RemovedValid(key: string)
      requires old(Valid()) && Removed(key)
      ensures Valid() && |old(index)| == |index| + 1
    {
      forall i | 0 <= i < |names| ensures Placed(i) {
        assert old(Placed(i));
      }
      assert old(index) == index[key := old(index)[key]];
    }

    twostate lemma RemovedContents(key: string)
      requires old(Valid()) && Removed(key) && Valid() && |old(index)| == |index| + 1
      ensures Contents() == old(Contents()) - {key}
    {
      var k := old(index)[key];
      forall x {:trigger old(index)[x]} | x in old(index) && x != key ensures old(index)[x] != k {
        assert x in index && old(index)[x] == index[x];
      }
      ValuesGone(old(index), old(names), names, key, k);
    }

    twostate lemma RemovedFlagged(key: string)
      requires old(Valid()) && Removed(key) && Valid() && |old(index)| == |index| + 1 && old(Flagged())
      ensures Flagged()
    {
    }

    method DropEntry(ghost key: string, b: int, k: int, prior: int)
      requires Valid() && key in index && k == index[key] && 0 <= b < |buckets| && home[k] == b
      requires if prior < 0 then buckets[b] == k
        else prior < |names| && home[prior] == b && rank[prior] > 0 && names[prior].next == k
      modifies this
      ensures Valid() && Contents() == old(Contents()) - {key} && length == old(length) - 1
      ensures old(Flagged()) ==> Flagged()
    {
      ReleaseEntry(b, k, prior);
      length := length - 1;
      index := index - {key};
      RemovedValid(key);
      RemovedContents(key);
      if old(Flagged()) {
        RemovedFlagged(key);
      }
    }

    /** rRemoveName: the name is gone, and nothing else changes. */
    method RemoveName(name: CString) returns (rc: int)
      requires Valid()
      modifies this
      ensures Valid() && Contents() == old(Contents()) - {Fold(name, caseless)}
      ensures rc == if old(buckets) == [] || Fold(name, caseless) in old(Contents()) then 0 else CANT_FIND
      ensures length == old(length) - if Fold(name, caseless) in old(Contents()) then 1 else 0
      ensures old(Flagged()) ==> Flagged()
    {
      if |buckets| == 0 {
        EmptyWithoutBuckets();
        return 0;
      }
      var k, b, prior := LookupHash(name);
      if k < 0 {
        return CANT_FIND;
      }
      DropEntry(Fold(name, caseless), b, k, prior);
      return 0;
    }

    // ---------------------------------------------------------------- iterating

    /** rGetNextName: the next entry with flags, or -1; the entries that are in a chain, in the order of the array. */
    method GetNextName(after: int) returns (k: int)
      requires Valid() && Flagged() && -1 <= after < |names|
      ensures k == -1 || (after < k < |names| && home[k] >= 0)
      ensures forall i :: after < i < (if k < 0 then |names| else k) ==> home[i] < 0
    {
      k := after + 1;
      while k < |names|
        invariant after < k <= |names| && forall i :: after < i < k ==> home[i] < 0
      {
        assert Placed(k) && (home[k] >= 0 ==> index[Key(k)] == k);
        if names[k].flags != 0 {
          return;
        }
        k := k + 1;
      }
      return -1;
    }

    // ---------------------------------------------------------------- when the table is a map

    /** Adding is updating the map exactly if there is no rehash, or no other name has an entry without flags. */
    lemma AddIsUpdateIff(key: string, value: Data)
      requires Valid()
      ensures (if length >= |buckets| then Kept() else Contents())[key := value] == Contents()[key := value]
        <==> (length < |buckets| || forall k {:trigger index[k]} :: k in index && k != key ==> names[index[k]].flags != 0)
    {
      var after, should := (if length >= |buckets| then Kept() else Contents())[key := value], Contents()[key := value];
      if after == should && length >= |buckets| {
        forall k {:trigger index[k]} | k in index && k != key ensures names[index[k]].flags != 0 {
          assert k in should && k in after;
        }
      }
    }

    /** `length` is the number of entries in the chains. */
    lemma LengthCounts()
      requires Valid() && Flagged()
      ensures length == |set i | 0 <= i < |names| && home[i] >= 0|
    {
      var live := set i | 0 <= i < |names| && home[i] >= 0;
      forall i | i in live ensures i in ImageOf(index) {
        assert Placed(i) && index[Key(i)] == i;
      }
      assert live == ImageOf(index);
      ImageCard(index);
    }
  }

  ghost function ImageOf(m: map<string, int>): set<int> {
    set k | k in m :: m[k]
  }

  lemma {:induction false} ImageCard(m: map<string, int>)
    requires forall x, y {:trigger m[x], m[y]} :: x in m && y in m && m[x] == m[y] ==> x == y
    ensures |ImageOf(m)| == |m|
    decreases |m|
  {
    if m == map[] {
      assert ImageOf(m) == {};
    } else {
      var x :| x in m;
      var n := m - {x};
      assert m == n[x := m[x]];
      ImageCard(n);
      assert ImageOf(m) == ImageOf(n) + {m[x]};
    }
  }

  // A name of n letters.
  function Letters(n: nat): CString
    requires n <= 20
    ensures |Letters(n)| == n && Lower(Letters(n)) == Letters(n)
  {
    seq(n, i => 'a')
  }

  lemma LeastSize(size: int)
    requires IsBucketSize(MIN_HASH, size)
    ensures size == 19
  {
    assert HashSizes()[0] == 19 && 19 in HashSizes();
    var i :| 0 <= i < |HashSizes()| && HashSizes()[i] == size;
    if i > 0 {
      SizesAscend(0, i);
    }
  }

  // A table that ignores case, with i names, none of which has flags.
  ghost predicate Unflagged(h: Hash, i: nat)
    reads h
  {
    && h.Valid() && h.flags == CASELESS && h.Kept() == map[] && h.length == i
    && (if i == 0 then h.buckets == [] else |h.buckets| == 19)
  }

  method AddLetters(h: Hash, i: nat)
    requires Unflagged(h, i) && i < 20 && Letters(i) !in h.Contents()
    modifies h
    ensures h.Valid()
    ensures h.Contents() == if 0 < i < 19 then old(h.Contents())[Letters(i) := 1] else map[Letters(i) := 1]
    ensures i < 19 ==> Unflagged(h, i + 1)
  {
    NoFlags(CASELESS, 0);
    assert Fold(Letters(i), h.caseless) == Letters(i);
    if i == 0 {
      h.EmptyWithoutBuckets();
    }
    var _ := h.AddName(Letters(i), 1, 0);
    if i == 0 {
      LeastSize(|h.buckets|);
    }
  }

  /**
    Where the condition fails: a table that is only asked to ignore case stores entries
    without flags, and the twentieth name makes it forget the nineteen before it.
  */
  method CaselessForgets() returns (h: Hash)
    ensures h.Valid() && h.Contents() == map[Letters(19) := 1]
  {
    h := new Hash(0, CASELESS);
    var i := 0;
    while i < 19
      invariant 0 <= i <= 19 && fresh(h) && Unflagged(h, i)
      invariant forall n {:trigger Letters(n)} :: i <= n <= 20 ==> Letters(n) !in h.Contents()
    {
      AddLetters(h, i);
      i := i + 1;
    }
    AddLetters(h, i);
  }

  // ------------------------------------------------------------------ runs

  datatype Op = Put(name: CString, value: Data, flags: bv32) | Drop(name: CString)

  /** What a sequence of operations makes of a map. */
  function Applied(m: map<string, Data>, caseless: bool, ops: seq<Op>): map<string, Data> {
    if ops == [] then m else Apply(Applied(m, caseless, ops[..|ops| - 1]), caseless, ops[|ops| - 1])
  }

  function Apply(m: map<string, Data>, caseless: bool, op: Op): map<string, Data> {
    match op
    case Put(name, value, _) => m[Fold(name, caseless) := value]
    case Drop(name) => m - {Fold(name, caseless)}
  }

  /** The table or every addition says who owns names or values. */
  ghost predicate Owned(table: bv32, ops: seq<Op>) {
    table & OWNERSHIP != 0 || forall i {:trigger ops[i]} :: 0 <= i < |ops| && ops[i].Put? ==> ops[i].flags & OWNERSHIP != 0
  }

  method Perform(h: Hash, op: Op)
    requires h.Valid() && h.Flagged() && (op.Put? ==> h.flags & OWNERSHIP != 0 || op.flags & OWNERSHIP != 0)
    modifies h
    ensures h.Valid() && h.Flagged() && h.Contents() == Apply(old(h.Contents()), h.caseless, op)
  {
    match op {
      case Put(name, value, flags) =>
        NoFlags(h.flags, flags);
        var _ := h.AddName(name, value, flags);
      case Drop(name) =>
        var _ := h.RemoveName(name);
    }
  }

  /** Any sequence of operations on a table, with any rehashes on the way: the table is the map it should be. */
  method Execute(h: Hash, ops: seq<Op>)
    requires h.Valid() && h.Flagged() && Owned(h.flags, ops)
    modifies h
    ensures h.Valid() && h.Flagged() && h.Contents() == Applied(old(h.Contents()), h.caseless, ops)
  {
    ghost var m := h.Contents();
    var i := 0;
    while i < |ops|
      invariant 0 <= i <= |ops| && h.Valid() && h.Flagged() && h.Contents() == Applied(m, h.caseless, ops[..i])
    {
      AppliedNext(m, h.caseless, ops, i);
      Perform(h, ops[i]);
      i := i + 1;
    }
    assert ops[..i] == ops;
  }

  lemma AppliedNext(m: map<string, Data>, caseless: bool, ops: seq<Op>, i: nat)
    requires i < |ops|
    ensures Applied(m, caseless, ops[..i + 1]) == Apply(Applied(m, caseless, ops[..i]), caseless, ops[i])
  {
    assert ops[..i + 1][..i] == ops[..i];
  }

  // The last operation on a name, or -1.
  function LastOn(key: string, caseless: bool, ops: seq<Op>): (i: int)
    ensures -1 <= i < |ops|
  {
    if ops == [] then -1
    else if Fold(ops[|ops| - 1].name, caseless) == key then |ops| - 1
    else LastOn(key, caseless, ops[..|ops| - 1])
  }

  /** What a name is mapped to is decided by the last operation on it. */
  lemma {:induction false} LastDecides(m: map<string, Data>, caseless: bool, ops: seq<Op>, key: string)
    ensures var i, r := LastOn(key, caseless, ops), Applied(m, caseless, ops);
      if i < 0 then key in r <==> key in m
      else key in r <==> ops[i].Put?
    ensures var i, r := LastOn(key, caseless, ops), Applied(m, caseless, ops);
      key in r ==> r[key] == if i < 0 then m[key] else ops[i].value
    decreases |ops|
  {
    if ops != [] {
      LastDecides(m, caseless, ops[..|ops| - 1], key);
    }
  }

  // The lists do not depend on what the entries hold.
  lemma RenamedChained(t: Lists, k: int, n: Name)
    requires Chained(t) && 0 <= k < |t.names| && n.next == t.names[k].next
    ensures Chained(t.(names := t.names[k := n]))
  {
    var u := t.(names := t.names[k := n]);
    forall c | FREE <= c < |u.buckets| ensures HeadOk(u, c) {
      assert HeadOk(t, c);
    }
    forall j | 0 <= j < |u.names| ensures Linked(u, j) {
      assert Linked(t, j);
    }
  }
}
