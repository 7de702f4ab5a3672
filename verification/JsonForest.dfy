/**
  JSON documents (bin/json.c, "json.c"; layout in include/json.h).

  A document is one pre-order array of nodes. A node stores only `last`, the index one
  past the end of its subtree. This module relates such arrays to the ordered forests
  they stand for, and says what replacing a subtree of the forest does to the array.
*/
module JsonForest {

  datatype Opt = None | Some(s: string)

  // Node types. Unset is the zero type of a node that was never given one.
  datatype Kind = Unset | Object | Array | String | Primitive | Regexp

  datatype JsonNode = JsonNode(name: Opt, value: Opt, kind: Kind, last: int)

  // A forest is its first tree (label and children) and the trees after it.
  datatype Forest = Nil | Cons(name: Opt, value: Opt, kind: Kind, kids: Forest, rest: Forest)

  function Size(f: Forest): nat {
    match f
    case Nil => 0
    case Cons(_, _, _, kids, rest) => 1 + Size(kids) + Size(rest)
  }

  function Append(f: Forest, g: Forest): (h: Forest)
    ensures Size(h) == Size(f) + Size(g)
    ensures g == Nil ==> h == f
  {
    match f
    case Nil => g
    case Cons(name, value, kind, kids, rest) => Cons(name, value, kind, kids, Append(rest, g))
  }

  /** The array holds the forest in pre-order from index `at` on. */
  ghost predicate Holds(ns: seq<JsonNode>, at: int, f: Forest)
    decreases f
  {
    match f
    case Nil => 0 <= at <= |ns|
    case Cons(name, value, kind, kids, rest) =>
      && 0 <= at < |ns| && ns[at] == JsonNode(name, value, kind, at + 1 + Size(kids))
      && Holds(ns, at + 1, kids) && Holds(ns, at + 1 + Size(kids), rest)
  }

  /** The array is a document: it holds the forest and nothing else. */
  ghost predicate Represents(ns: seq<JsonNode>, f: Forest) {
    |ns| == Size(f) && Holds(ns, 0, f)
  }

  // ------------------------------------------------------------------ nesting

  /** Within lo..hi every subtree interval is proper and lies within the intervals it starts in. */
  ghost predicate Nested(ns: seq<JsonNode>, lo: int, hi: int) {
    && 0 <= lo <= hi <= |ns|
    && (forall i {:trigger ns[i]} :: lo <= i < hi ==> i < ns[i].last <= hi)
    && (forall i, j {:trigger ns[i], ns[j]} :: lo <= i < j < hi && j < ns[i].last ==> ns[j].last <= ns[i].last)
  }

  /** The forest that lo..hi of an array of nested intervals stands for. */
  ghost function Build(ns: seq<JsonNode>, lo: int, hi: int): (f: Forest)
    requires Nested(ns, lo, hi)
    ensures Size(f) == hi - lo
    decreases hi - lo
  {
    if lo == hi then Nil
    else
      var n := ns[lo];
      Cons(n.name, n.value, n.kind, Build(ns, lo + 1, n.last), Build(ns, n.last, hi))
  }

  /** Nested intervals hold a forest ... */
  lemma {:induction false} NestedHolds(ns: seq<JsonNode>, lo: int, hi: int)
    requires Nested(ns, lo, hi)
    ensures Holds(ns, lo, Build(ns, lo, hi))
    decreases hi - lo
  {
    if lo < hi {
      NestedHolds(ns, lo + 1, ns[lo].last);
      NestedHolds(ns, ns[lo].last, hi);
    }
  }

  lemma NestedJoin(ns: seq<JsonNode>, lo: int, mid: int, hi: int)
    requires 0 <= lo < mid && Nested(ns, lo + 1, mid) && Nested(ns, mid, hi) && ns[lo].last == mid
    ensures Nested(ns, lo, hi)
  {
  }

  /** ... and a forest is held by nested intervals ... */
  lemma {:induction false} HoldsNested(ns: seq<JsonNode>, at: int, f: Forest)
    requires Holds(ns, at, f)
    ensures Nested(ns, at, at + Size(f))
    decreases f
  {
    match f
    case Nil =>
    case Cons(_, _, _, kids, rest) =>
      HoldsNested(ns, at + 1, kids);
      HoldsNested(ns, at + 1 + Size(kids), rest);
      NestedJoin(ns, at, at + 1 + Size(kids), at + Size(f));
  }

  /** ... which determine it. */
  lemma {:induction false} HoldsBuild(ns: seq<JsonNode>, at: int, f: Forest)
    requires Holds(ns, at, f)
    ensures Nested(ns, at, at + Size(f)) && Build(ns, at, at + Size(f)) == f
    decreases f
  {
    HoldsNested(ns, at, f);
    match f
    case Nil =>
    case Cons(_, _, _, kids, rest) =>
      HoldsBuild(ns, at + 1, kids);
      HoldsBuild(ns, at + 1 + Size(kids), rest);
  }

  // ------------------------------------------------------------------ one subtree

  /** The tree whose root has index `nid`, in a forest whose first root has index `at`. */
  function At(f: Forest, at: int, nid: int): (t: Forest)
    requires at <= nid < at + Size(f)
    ensures t.Cons? && t.rest == Nil
  {
    var end := at + 1 + Size(f.kids);
    if nid == at then f.(rest := Nil)
    else if nid < end then At(f.kids, at + 1, nid)
    else At(f.rest, end, nid)
  }

  lemma {:induction false} AtBounds(f: Forest, at: int, nid: int)
    requires at <= nid < at + Size(f)
    ensures 1 <= Size(At(f, at, nid)) && nid + Size(At(f, at, nid)) <= at + Size(f)
    decreases f
  {
    var end := at + 1 + Size(f.kids);
    if nid == at {
      assert At(f, at, nid) == f.(rest := Nil);
    } else if nid < end {
      AtBounds(f.kids, at + 1, nid);
    } else {
      AtBounds(f.rest, end, nid);
    }
  }

  lemma {:induction false} AtHolds(ns: seq<JsonNode>, f: Forest, at: int, nid: int)
    requires Holds(ns, at, f) && at <= nid < at + Size(f)
    decreases f
    ensures var t := At(f, at, nid); Holds(ns, nid, t) && ns[nid] == JsonNode(t.name, t.value, t.kind, nid + Size(t))
  {
    var end := at + 1 + Size(f.kids);
    if nid == at {
      HoldsBounds(ns, at + 1, f.kids);
    } else if nid < end {
      AtHolds(ns, f.kids, at + 1, nid);
    } else {
      AtHolds(ns, f.rest, end, nid);
    }
  }

  lemma {:induction false} HoldsBounds(ns: seq<JsonNode>, at: int, f: Forest)
    requires Holds(ns, at, f)
    ensures 0 <= at && at + Size(f) <= |ns|
    decreases f
  {
    match f
    case Nil =>
    case Cons(_, _, _, kids, rest) => HoldsBounds(ns, at + 1 + Size(kids), rest);
  }

  /** Put the trees `g` in the place of the tree at `nid`. */
  function ReplaceAt(f: Forest, at: int, nid: int, g: Forest): (h: Forest)
    requires at <= nid < at + Size(f)
  {
    var end := at + 1 + Size(f.kids);
    if nid == at then Append(g, f.rest)
    else if nid < end then f.(kids := ReplaceAt(f.kids, at + 1, nid, g))
    else f.(rest := ReplaceAt(f.rest, end, nid, g))
  }

  lemma {:induction false} ReplaceSize(f: Forest, at: int, nid: int, g: Forest)
    requires at <= nid < at + Size(f)
    ensures Size(ReplaceAt(f, at, nid, g)) == Size(f) - Size(At(f, at, nid)) + Size(g)
    decreases f
  {
    var end := at + 1 + Size(f.kids);
    if nid == at {
      assert At(f, at, nid) == f.(rest := Nil);
    } else if nid < end {
      ReplaceSize(f.kids, at + 1, nid, g);
    } else {
      ReplaceSize(f.rest, end, nid, g);
    }
  }

  // ------------------------------------------------------------------ replacing, on the array

  /** Subtrees that end behind `nid` now end `d` later. */
  function Moved(n: JsonNode, nid: int, d: int): JsonNode {
    if n.last > nid then n.(last := n.last + d) else n
  }

  lemma {:induction false} HoldsAppend(ns: seq<JsonNode>, at: int, f: Forest, g: Forest)
    requires Holds(ns, at, f) && Holds(ns, at + Size(f), g)
    ensures Holds(ns, at, Append(f, g))
    decreases f
  {
    match f
    case Nil =>
    case Cons(_, _, _, kids, rest) => HoldsAppend(ns, at + 1 + Size(kids), rest, g);
  }

  // The node at index i keeps its index.
  ghost predicate Stays(ns: seq<JsonNode>, ms: seq<JsonNode>, nid: int, d: int, i: int) {
    0 <= i < |ns| && i < |ms| && ms[i] == Moved(ns[i], nid, d)
  }

  // The node at index i moves to i + d.
  ghost predicate Slides(ns: seq<JsonNode>, ms: seq<JsonNode>, nid: int, d: int, i: int) {
    0 <= i < |ns| && 0 <= i + d < |ms| && ms[i + d] == Moved(ns[i], nid, d)
  }

  // A forest behind nid moves as a whole.
  lemma {:induction false} HoldsBehind(ns: seq<JsonNode>, ms: seq<JsonNode>, at: int, f: Forest, nid: int, d: int)
    requires Holds(ns, at, f) && nid <= at && 0 <= at + d && at + Size(f) + d <= |ms|
    requires forall i {:trigger Slides(ns, ms, nid, d, i)} :: at <= i < at + Size(f) ==> Slides(ns, ms, nid, d, i)
    ensures Holds(ms, at + d, f)
    decreases f
  {
    match f
    case Nil =>
    case Cons(_, _, _, kids, rest) =>
      HoldsBehind(ns, ms, at + 1, kids, nid, d);
      HoldsBehind(ns, ms, at + 1 + Size(kids), rest, nid, d);
      assert Slides(ns, ms, nid, d, at);
  }

  // A forest that ends by nid stays.
  lemma {:induction false} HoldsBefore(ns: seq<JsonNode>, ms: seq<JsonNode>, at: int, f: Forest, nid: int, d: int)
    requires Holds(ns, at, f) && at + Size(f) <= nid <= |ms|
    requires forall i {:trigger Stays(ns, ms, nid, d, i)} :: at <= i < at + Size(f) ==> Stays(ns, ms, nid, d, i)
    ensures Holds(ms, at, f)
    decreases f
  {
    match f
    case Nil =>
    case Cons(_, _, _, kids, rest) =>
      HoldsBefore(ns, ms, at + 1, kids, nid, d);
      HoldsBefore(ns, ms, at + 1 + Size(kids), rest, nid, d);
      assert Stays(ns, ms, nid, d, at);
  }

  /** What replacing the subtree of `size` nodes at `nid` does to the nodes before and behind it in lo..hi. */
  ghost predicate Spliced(ns: seq<JsonNode>, ms: seq<JsonNode>, lo: int, hi: int, nid: int, size: int, d: int) {
    && 0 <= lo <= nid && 0 <= size && nid + size <= hi <= |ns| && 0 <= size + d && hi + d <= |ms|
    && (forall i {:trigger Stays(ns, ms, nid, d, i)} :: lo <= i < nid ==> Stays(ns, ms, nid, d, i))
    && (forall i {:trigger Slides(ns, ms, nid, d, i)} :: nid + size <= i < hi ==> Slides(ns, ms, nid, d, i))
  }

  /** The array `ms` is `ns` with the subtree at `nid` of its forest `f` replaced by `g`. */
  ghost predicate Replacing(ns: seq<JsonNode>, ms: seq<JsonNode>, f: Forest, at: int, nid: int, g: Forest) {
    && Holds(ns, at, f) && at <= nid < at + Size(f) && at + Size(f) <= |ns| && Holds(ms, nid, g)
    && var t := At(f, at, nid); Spliced(ns, ms, at, at + Size(f), nid, Size(t), Size(g) - Size(t))
  }

  /** Replacing a subtree of the forest: the array is spliced. */
  lemma {:induction false} ReplaceHolds(ns: seq<JsonNode>, ms: seq<JsonNode>, f: Forest, at: int, nid: int, g: Forest)
    requires Replacing(ns, ms, f, at, nid, g)
    ensures Holds(ms, at, ReplaceAt(f, at, nid, g))
    decreases f, 1
  {
    if nid == at {
      assert At(f, at, nid) == f.(rest := Nil) && Size(f.(rest := Nil)) == 1 + Size(f.kids);
      ReplaceFirst(ns, ms, f.rest, at, at + 1 + Size(f.kids), Size(g) - 1 - Size(f.kids), g);
    } else if nid < at + 1 + Size(f.kids) {
      ReplaceHoldsInKids(ns, ms, f, at, nid, g);
    } else {
      ReplaceHoldsInRest(ns, ms, f, at, nid, g);
    }
  }

  lemma {:induction false} ReplaceHoldsInKids(ns: seq<JsonNode>, ms: seq<JsonNode>, f: Forest, at: int, nid: int, g: Forest)
    requires Replacing(ns, ms, f, at, nid, g) && at < nid < at + 1 + Size(f.kids)
    ensures Holds(ms, at, ReplaceAt(f, at, nid, g))
    decreases f, 0
  {
    var size := Size(At(f, at, nid));
    AtBounds(f.kids, at + 1, nid);
    ReplaceSize(f.kids, at + 1, nid, g);
    SplicedParts(ns, ms, at, at + 1, at + 1 + Size(f.kids), at + Size(f), nid, size, Size(g) - size);
    ReplaceHolds(ns, ms, f.kids, at + 1, nid, g);
    ReplaceInKids(ns, ms, f, at, nid, size, Size(g) - size, ReplaceAt(f.kids, at + 1, nid, g));
  }

  lemma {:induction false} ReplaceHoldsInRest(ns: seq<JsonNode>, ms: seq<JsonNode>, f: Forest, at: int, nid: int, g: Forest)
    requires Replacing(ns, ms, f, at, nid, g) && at + 1 + Size(f.kids) <= nid
    ensures Holds(ms, at, ReplaceAt(f, at, nid, g))
    decreases f, 0
  {
    var end, size := at + 1 + Size(f.kids), Size(At(f, at, nid));
    SplicedParts(ns, ms, at, end, at + Size(f), at + Size(f), nid, size, Size(g) - size);
    ReplaceHolds(ns, ms, f.rest, end, nid, g);
    ReplaceInRest(ns, ms, f, at, nid, size, Size(g) - size, ReplaceAt(f.rest, end, nid, g));
  }

  lemma ReplaceInKids(ns: seq<JsonNode>, ms: seq<JsonNode>, f: Forest, at: int, nid: int, size: int, d: int, kids: Forest)
    requires f.Cons? && Holds(ns, at, f) && Spliced(ns, ms, at, at + Size(f), nid, size, d)
    requires at < nid < at + 1 + Size(f.kids) && nid + size <= at + 1 + Size(f.kids)
    requires Holds(ms, at + 1, kids) && Size(kids) == Size(f.kids) + d
    ensures Holds(ms, at, f.(kids := kids))
  {
    HoldsBehind(ns, ms, at + 1 + Size(f.kids), f.rest, nid, d);
    assert Stays(ns, ms, nid, d, at);
  }

  lemma ReplaceInRest(ns: seq<JsonNode>, ms: seq<JsonNode>, f: Forest, at: int, nid: int, size: int, d: int, rest: Forest)
    requires f.Cons? && Holds(ns, at, f) && Spliced(ns, ms, at, at + Size(f), nid, size, d)
    requires at + 1 + Size(f.kids) <= nid && Holds(ms, at + 1 + Size(f.kids), rest)
    ensures Holds(ms, at, f.(rest := rest))
  {
    HoldsBefore(ns, ms, at + 1, f.kids, nid, d);
    assert Stays(ns, ms, nid, d, at);
  }

  lemma SplicedParts(ns: seq<JsonNode>, ms: seq<JsonNode>, lo: int, a: int, b: int, hi: int, nid: int, size: int, d: int)
    requires Spliced(ns, ms, lo, hi, nid, size, d) && lo <= a <= nid && nid + size <= b <= hi
    ensures Spliced(ns, ms, a, b, nid, size, d)
  {
  }

  lemma ReplaceFirst(ns: seq<JsonNode>, ms: seq<JsonNode>, rest: Forest, at: int, end: int, d: int, g: Forest)
    requires Holds(ns, end, rest) && Holds(ms, at, g) && at <= end && end + d == at + Size(g)
    requires end + Size(rest) + d <= |ms|
    requires forall i {:trigger Slides(ns, ms, at, d, i)} :: end <= i < end + Size(rest) ==> Slides(ns, ms, at, d, i)
    ensures Holds(ms, at, Append(g, rest))
  {
    HoldsBounds(ms, at, g);
    HoldsBehind(ns, ms, end, rest, at, d);
    HoldsAppend(ms, at, g, rest);
  }

  // ------------------------------------------------------------------ laws of replacing

  predicate Single(t: Forest) {
    t.Cons? && t.rest == Nil
  }

  lemma {:induction false} AtReplaced(f: Forest, at: int, nid: int, g: Forest)
    requires at <= nid < at + Size(f) && Single(g)
    ensures nid < at + Size(ReplaceAt(f, at, nid, g)) && At(ReplaceAt(f, at, nid, g), at, nid) == g
    decreases f
  {
    var end := at + 1 + Size(f.kids);
    if nid == at {
    } else if nid < end {
      AtReplaced(f.kids, at + 1, nid, g);
    } else {
      AtReplaced(f.rest, end, nid, g);
    }
  }

  lemma {:induction false} ReplaceReplaced(f: Forest, at: int, nid: int, g: Forest, h: Forest)
    requires at <= nid < at + Size(f) && Single(g)
    ensures nid < at + Size(ReplaceAt(f, at, nid, g))
    ensures ReplaceAt(ReplaceAt(f, at, nid, g), at, nid, h) == ReplaceAt(f, at, nid, h)
    decreases f
  {
    var end := at + 1 + Size(f.kids);
    if nid == at {
      assert Append(g, f.rest) == g.(rest := Append(g.rest, f.rest));
      assert Append(g.rest, f.rest) == f.rest;
    } else if nid < end {
      ReplaceReplaced(f.kids, at + 1, nid, g, h);
      var kids := ReplaceAt(f.kids, at + 1, nid, g);
      assert ReplaceAt(f.(kids := kids), at, nid, h) == f.(kids := ReplaceAt(kids, at + 1, nid, h));
    } else {
      ReplaceReplaced(f.rest, end, nid, g, h);
      var rest := ReplaceAt(f.rest, end, nid, g);
      assert ReplaceAt(f.(rest := rest), at, nid, h) == f.(rest := ReplaceAt(rest, end, nid, h));
    }
  }

  /** A subtree of a subtree: finding and replacing it can go through the outer one. */
  lemma {:induction false} Inner(f: Forest, at: int, nid: int, id: int, g: Forest)
    requires at <= nid < at + Size(f)
    requires nid <= id < nid + Size(At(f, at, nid))
    ensures id < at + Size(f) && At(f, at, id) == At(At(f, at, nid), nid, id)
    ensures ReplaceAt(f, at, id, g) == ReplaceAt(f, at, nid, ReplaceAt(At(f, at, nid), nid, id, g))
    decreases f
  {
    var end := at + 1 + Size(f.kids);
    if nid == at {
      InnerFirst(f, at, id, g);
    } else if nid < end {
      Inner(f.kids, at + 1, nid, id, g);
    } else {
      Inner(f.rest, end, nid, id, g);
    }
  }

  lemma InnerFirst(f: Forest, at: int, id: int, g: Forest)
    requires f.Cons? && at <= id < at + 1 + Size(f.kids)
    ensures var t := f.(rest := Nil); At(f, at, id) == At(t, at, id) && ReplaceAt(f, at, id, g) == Append(ReplaceAt(t, at, id, g), f.rest)
  {
    if id == at {
      AppendNil(g);
    }
  }

  lemma {:induction false} AppendNil(g: Forest)
    ensures Append(g, Nil) == g
  {
  }

  lemma ReplaceKid(t: Forest, nid: int, id: int, g: Forest)
    requires Single(t) && nid < id < nid + Size(t)
    ensures At(t, nid, id) == At(t.kids, nid + 1, id)
    ensures ReplaceAt(t, nid, id, g) == t.(kids := ReplaceAt(t.kids, nid + 1, id, g))
  {
  }
}
