/**
  jsonBlend and jsonClone (bin/json.c:2821-3025), without blend flags: the source tree is
  merged into the destination, member by member, by edits of the destination array.

  Where a source array overwrites a tree that has to grow, blendRecurse goes on to use a
  pointer into the block that it had before (bin/json.c:2966-2982). What is left then depends
  on whether the allocator moved the block; `MergeIn` says exactly how.
*/
module JsonBlend {
  import opened JsonForest
  import opened JsonArray
  import opened JsonQuery

  const MAX_RECURSION := 32

  predicate Container(kind: Kind) {
    kind == Object || kind == Array
  }

  // ------------------------------------------------------------------ the block of nodes

  /** What the allocator's part in a blend depends on: nodes in use, capacity, and when the block moves. */
  datatype Block = Block(count: int, size: int, moves: set<int>)

  /** The block after room was made for `num` nodes, or after -num nodes were removed. */
  function Grow(b: Block, num: int): Block {
    Block(b.count + num, Capacity(b.size, b.count, num), b.moves)
  }

  /** Making room for `num` nodes moves the block. */
  predicate Moving(b: Block, num: int) {
    Capacity(b.size, b.count, num) != b.size && b.size in b.moves
  }

  ghost function BlockOf(json: Json): Block
    reads json
  {
    Block(|json.nodes|, json.size, json.moves)
  }

  // ------------------------------------------------------------------ what is merged

  // The index of the member that a source member meets in the destination, or a negative code.
  function Meets(t: Forest, nid: int, name: Opt): (id: int)
    requires Single(t) && 0 <= nid
    ensures id < 0 || nid + 1 <= id < nid + 1 + Size(t.kids)
  {
    if name == None || name.s == "" then CANT_FIND else KidNamed(t.kids, nid + 1, name.s)
  }

  /** The destination before its members are merged: anything but an object becomes one. */
  function AsObject(d: Forest): (t: Forest)
    requires Single(d)
    ensures Single(t) && Size(t) == Size(d)
  {
    if d.kind == Object then d else Labelled(d, d.name, None, Object)
  }

  /** A member that an object is about to replace becomes an empty object; others stay. */
  function Prepared(d: Forest, c: Forest): (t: Forest)
    requires Single(d) && c.Cons?
    ensures Single(t)
  {
    if c.kind == Object && d.kind != Object then Cons(c.name, None, Object, Nil, Nil) else d
  }

  /** The trees as copyNodes copies them: every missing name and value becomes an empty string. */
  function Copies(f: Forest): (g: Forest)
    ensures Size(g) == Size(f)
  {
    match f
    case Nil => Nil
    case Cons(name, value, kind, kids, rest) => Cons(Cloned(name), Cloned(value), kind, Copies(kids), Copies(rest))
  }

  /**
    The tree at `d` after the array `s` was blended into it. An empty source only empties it.
    The type is written, and the value cleared, through the old pointer: in vain if the block moved.
  */
  function ArrayOver(d: Forest, s: Forest, moved: bool): (t: Forest)
    requires Single(d) && Single(s)
    ensures Single(t) && Size(t) == Size(s)
  {
    if s.kids == Nil then Cons(d.name, d.value, d.kind, Nil, Nil)
    else if moved then Cons(d.name, d.value, d.kind, Copies(s.kids), Nil)
    else Cons(d.name, None, Array, Copies(s.kids), Nil)
  }

  function ScalarOver(d: Forest, s: Forest): (t: Forest)
    requires Single(d) && Single(s)
    ensures Single(t)
  {
    Cons(Cloned(s.name), Cloned(s.value), s.kind, d.kids, Nil)
  }

  /** A new member before anything is blended into it. */
  function Empty(c: Forest): (t: Forest)
    requires Single(c)
    ensures Single(t) && Size(t) == 1
  {
    Cons(c.name, None, c.kind, Nil, Nil)
  }

  function First(f: Forest): (t: Forest)
    requires f.Cons?
    ensures Single(t) && Size(t) == 1 + Size(f.kids) <= Size(f)
  {
    f.(rest := Nil)
  }

  // A tree, and the block that holds it.
  datatype Outcome = Outcome(tree: Forest, block: Block)

  /** The tree that a source tree leaves in the place of the destination tree at `nid`. */
  function MergeIn(d: Forest, nid: int, s: Forest, b: Block): (o: Outcome)
    requires Single(d) && Single(s) && 0 <= nid
    ensures Single(o.tree)
    decreases Size(s), 0
  {
    if s.kind == Object then MergeMembersIn(AsObject(d), nid, s.kids, b)
    else if s.kind == Array then
      Outcome(ArrayOver(d, s, Moving(b, Size(s) - Size(d))), Grow(b, Size(s) - Size(d)))
    else Outcome(ScalarOver(d, s), b)
  }

  /** Merge a list of members, first to last: present ones in place, new ones at the end. */
  function MergeMembersIn(t: Forest, nid: int, members: Forest, b: Block): (o: Outcome)
    requires Single(t) && 0 <= nid
    ensures Single(o.tree)
    decreases Size(members), 3
  {
    if members == Nil then Outcome(t, b)
    else
      var o := MergeMemberIn(t, nid, First(members), b);
      MergeMembersIn(o.tree, nid, members.rest, o.block)
  }

  function MergeMemberIn(t: Forest, nid: int, c: Forest, b: Block): (o: Outcome)
    requires Single(t) && 0 <= nid && Single(c)
    ensures Single(o.tree)
    decreases Size(c), 2
  {
    var id := Meets(t, nid, c.name);
    if id < 0 then
      var o := AddedIn(nid + Size(t), c, b);
      Outcome(t.(kids := Append(t.kids, o.tree)), o.block)
    else
      var k := At(t.kids, nid + 1, id);
      var p := Prepared(k, c);
      var o := MergeIn(p, id, c, Grow(b, Size(p) - Size(k)));
      Outcome(t.(kids := ReplaceAt(t.kids, nid + 1, id, o.tree)), o.block)
  }

  // The tree that a member without a counterpart adds.
  function AddedIn(at: int, c: Forest, b: Block): (o: Outcome)
    requires Single(c) && 0 <= at
    ensures Single(o.tree)
    decreases Size(c), 1
  {
    if Container(c.kind) then MergeIn(Empty(c), at, c, Grow(b, 1))
    else Outcome(Cons(c.name, c.value, c.kind, Nil, Nil), Grow(b, 1))
  }

  /** Scalars are leaves on both sides, wherever they meet: the array edits are defined on these. */
  ghost predicate Mergeable(d: Forest, nid: int, s: Forest, b: Block)
    requires Single(d) && Single(s) && 0 <= nid
    decreases Size(s), 0
  {
    if s.kind == Object then MembersMergeable(AsObject(d), nid, s.kids, b)
    else s.kind == Array || (s.kids == Nil && d.kids == Nil)
  }

  ghost predicate MembersMergeable(t: Forest, nid: int, members: Forest, b: Block)
    requires Single(t) && 0 <= nid
    decreases Size(members), 2
  {
    members == Nil ||
    (&& MemberMergeable(t, nid, First(members), b)
     && var o := MergeMemberIn(t, nid, First(members), b); MembersMergeable(o.tree, nid, members.rest, o.block))
  }

  ghost predicate MemberMergeable(t: Forest, nid: int, c: Forest, b: Block)
    requires Single(t) && 0 <= nid && Single(c)
    decreases Size(c), 1
  {
    var id := Meets(t, nid, c.name);
    if id < 0 then if Container(c.kind) then Mergeable(Empty(c), nid + Size(t), c, Grow(b, 1)) else c.kids == Nil
    else
      var k := At(t.kids, nid + 1, id);
      var p := Prepared(k, c);
      Mergeable(p, id, c, Grow(b, Size(p) - Size(k)))
  }

  /** The recursion depth a source tree needs; arrays are copied without recursion. */
  function Nesting(f: Forest): (n: nat) {
    match f
    case Nil => 0
    case Cons(_, _, kind, kids, rest) =>
      var k, r := 1 + (if kind == Object then Nesting(kids) else 0), Nesting(rest);
      if k > r then k else r
  }

  /** How deep containers nest; an array counts, but not what is in it. */
  function Deep(f: Forest): (n: nat) {
    match f
    case Nil => 0
    case Cons(_, _, kind, kids, rest) =>
      var k, r := if kind == Object then 1 + Deep(kids) else if kind == Array then 1 else 0, Deep(rest);
      if k > r then k else r
  }

  lemma DeepFirst(f: Forest)
    requires f.Cons?
    ensures Deep(f) == if Deep(First(f)) > Deep(f.rest) then Deep(First(f)) else Deep(f.rest)
  {
  }

  // ------------------------------------------------------------------ arrays

  /** The effect on the array of overwriting the tree at `did` by an array with the elements of `src` behind `sid`. */
  ghost predicate Overwritten(ns: seq<JsonNode>, ms: seq<JsonNode>, did: int, dlen: int, d: int, src: seq<JsonNode>, sid: int, slen: int, e: int) {
    && d == slen - dlen && e == did - sid
    && 0 <= did && 1 <= dlen && did + dlen <= |ns| && 1 <= slen && 0 <= sid && sid + slen <= |src| && |ms| == |ns| + d
    && (forall i {:trigger Stays(ns, ms, did, d, i)} :: 0 <= i < did ==> Stays(ns, ms, did, d, i))
    && (forall i {:trigger Slides(src, ms, sid, e, i)} :: sid < i < sid + slen ==> Slides(src, ms, sid, e, i))
    && (forall i {:trigger Slides(ns, ms, did, d, i)} :: did + dlen <= i < |ns| ==> Slides(ns, ms, did, d, i))
    && ms[did].name == ns[did].name && ms[did].last == did + slen
  }

  lemma OverwrittenHolds(ns: seq<JsonNode>, ms: seq<JsonNode>, f: Forest, did: int, d: int, src: seq<JsonNode>, sid: int, kids: Forest, e: int)
    requires Represents(ns, f) && 0 <= did < |ns| && Holds(src, sid + 1, kids)
    requires Overwritten(ns, ms, did, Size(At(f, 0, did)), d, src, sid, 1 + Size(kids), e)
    ensures Represents(ms, ReplaceAt(f, 0, did, Cons(ms[did].name, ms[did].value, ms[did].kind, kids, Nil)))
  {
    var t, g := At(f, 0, did), Cons(ms[did].name, ms[did].value, ms[did].kind, kids, Nil);
    AtHolds(ns, f, 0, did);
    HoldsBehind(src, ms, sid + 1, kids, sid, e);
    assert d == Size(g) - Size(t);
    assert Spliced(ns, ms, 0, |ns|, did, Size(t), d);
    ReplaceHolds(ns, ms, f, 0, did, g);
    ReplaceSize(f, 0, did, g);
  }

  // Make the tree at `did` as large as the source array.
  method FitArray(json: Json, did: int, slen: int, ghost f: Forest) returns (moved: bool)
    requires Represents(json.nodes, f) && json.Valid() && 0 <= did < Size(f) && slen >= 1
    modifies json
    ensures json.Valid() && BlockOf(json) == Grow(old(BlockOf(json)), slen - Size(At(f, 0, did)))
    ensures moved <==> Moving(old(BlockOf(json)), slen - Size(At(f, 0, did)))
    ensures var dlen := Size(At(f, 0, did)); Fitted(old(json.nodes), json.nodes, did, dlen, slen - dlen)
  {
    AtHolds(json.nodes, f, 0, did);
    AtBounds(f, 0, did);
    ghost var ns := json.nodes;
    var dlen := json.nodes[did].last - did;
    moved := false;
    if dlen > slen {
      var _ := json.RemoveNodes(did + 1, dlen - slen);
      FitShrunk(ns, json.nodes, f, did, dlen - slen);
    } else if dlen < slen {
      var _, m := json.InsertNodes(did + 1, slen - dlen, did);
      moved := m;
      FitGrown(ns, json.nodes, f, did, slen - dlen);
    } else {
      FitSame(ns, f, did);
    }
  }

  // The nodes of a source as copyNodes copies them.
  ghost function Clones(src: seq<JsonNode>): seq<JsonNode> {
    seq(|src|, i requires 0 <= i < |src| => src[i].(name := Cloned(src[i].name), value := Cloned(src[i].value)))
  }

  lemma {:induction false} ClonesHold(src: seq<JsonNode>, at: int, f: Forest)
    requires Holds(src, at, f)
    ensures Holds(Clones(src), at, Copies(f))
    decreases f
  {
    match f
    case Nil =>
    case Cons(_, _, _, kids, rest) =>
      ClonesHold(src, at + 1, kids);
      ClonesHold(src, at + 1 + Size(kids), rest);
  }

  // Copy the elements. The writes through the pointer to the array node are in vain if the block has moved.
  method FillArray(json: Json, did: int, src: seq<JsonNode>, sid: int, slen: int, moved: bool)
    requires json.Valid() && 0 <= did && did + slen <= |json.nodes| && 0 <= sid && sid + slen <= |src| && 1 <= slen
    modifies json`nodes
    ensures json.Valid() && |json.nodes| == |old(json.nodes)|
    ensures forall k {:trigger json.nodes[k]} :: 0 <= k < |json.nodes| && k != did ==>
      json.nodes[k] == if did < k < did + slen then Copied(src[sid + k - did], did - sid) else old(json.nodes)[k]
    ensures var n := old(json.nodes)[did];
      json.nodes[did] == if slen > 1 && !moved then n.(value := None, kind := Array) else n
  {
    if slen - 1 > 0 {
      json.CopyNodes(did + 1, src, sid + 1, slen - 1);
      if !moved {
        json.nodes := json.nodes[did := json.nodes[did].(value := None, kind := Array)];
      }
    }
  }

  /** The default of blendRecurse for a source array: make the sizes equal, then copy the elements. */
  method OverwriteArray(json: Json, did: int, src: seq<JsonNode>, sid: int, ghost f: Forest, ghost s: Forest)
    requires Represents(json.nodes, f) && json.Valid() && 0 <= did < Size(f) && Single(s) && Holds(src, sid, s)
    modifies json
    ensures json.Valid() && BlockOf(json) == Grow(old(BlockOf(json)), Size(s) - Size(At(f, 0, did)))
    ensures var d := At(f, 0, did);
      Represents(json.nodes, ReplaceAt(f, 0, did, ArrayOver(d, s, Moving(old(BlockOf(json)), Size(s) - Size(d)))))
  {
    AtHolds(json.nodes, f, 0, did);
    HoldsBounds(src, sid, s);
    ghost var ns, t := json.nodes, At(f, 0, did);
    assert Size(s) == 1 + Size(s.kids);
    var slen := src[sid].last - sid;
    ghost var d, e := slen - Size(t), did - sid;
    var moved := FitArray(json, did, slen, f);
    ghost var ms := json.nodes;
    assert Stays(ns, ms, did, d, did);
    FillArray(json, did, src, sid, slen, moved);
    ArrayCopied(ns, ms, json.nodes, f, did, d, src, sid, s, e);
  }

  lemma ArrayCopied(ns: seq<JsonNode>, ms: seq<JsonNode>, ks: seq<JsonNode>, f: Forest, did: int, d: int,
                    src: seq<JsonNode>, sid: int, s: Forest, e: int)
    requires Represents(ns, f) && 0 <= did < |ns| && Single(s) && Holds(src, sid, s) && d == Size(s) - Size(At(f, 0, did)) && e == did - sid
    requires Fitted(ns, ms, did, Size(At(f, 0, did)), d) && |ks| == |ms| && 0 <= sid && sid + Size(s) <= |src|
    requires forall k {:trigger ks[k]} :: 0 <= k < |ks| && k != did ==>
      ks[k] == if did < k < did + Size(s) then Copied(src[sid + k - did], e) else ms[k]
    requires ks[did].name == ms[did].name && ks[did].last == ms[did].last
    ensures Represents(ks, ReplaceAt(f, 0, did, Cons(ks[did].name, ks[did].value, ks[did].kind, Copies(s.kids), Nil)))
  {
    AtHolds(ns, f, 0, did);
    HoldsBounds(src, sid, s);
    assert Size(s) == 1 + Size(s.kids);
    CopiedOver(ns, ms, ks, did, Size(At(f, 0, did)), d, src, sid, s, Size(s), e);
    ClonesHold(src, sid + 1, s.kids);
    OverwrittenHolds(ns, ks, f, did, d, Clones(src), sid, Copies(s.kids), e);
  }

  /** The array around the tree at `did` after its size was fitted. */
  ghost predicate Fitted(ns: seq<JsonNode>, ms: seq<JsonNode>, did: int, dlen: int, d: int) {
    && 0 <= did && 1 <= dlen && did + dlen <= |ns| && 1 <= dlen + d && |ms| == |ns| + d
    && (forall i {:trigger Stays(ns, ms, did, d, i)} :: 0 <= i <= did ==> Stays(ns, ms, did, d, i))
    && (forall i {:trigger Slides(ns, ms, did, d, i)} :: did + dlen <= i < |ns| ==> Slides(ns, ms, did, d, i))
  }

  lemma FitShrunk(ns: seq<JsonNode>, ms: seq<JsonNode>, f: Forest, did: int, num: int)
    requires Represents(ns, f) && 0 <= did < |ns| && num < ns[did].last - did && RoomClosed(ns, ms, did + 1, num)
    ensures ns[did].last <= |ns| && Fitted(ns, ms, did, ns[did].last - did, -num)
  {
    HoldsNested(ns, 0, f);
    var d := -num;
    forall i {:trigger Stays(ns, ms, did, d, i)} | 0 <= i <= did ensures Stays(ns, ms, did, d, i) {
      assert ms[i] == Shrunk(ns[i], did + 1, num) && ns[did].last > did + 1;
    }
    forall i {:trigger Slides(ns, ms, did, d, i)} | ns[did].last <= i < |ns| ensures Slides(ns, ms, did, d, i) {
      assert ms[i - num] == Shrunk(ns[i], did + 1, num);
    }
  }

  lemma FitGrown(ns: seq<JsonNode>, ms: seq<JsonNode>, f: Forest, did: int, num: int)
    requires Represents(ns, f) && 0 <= did < |ns| && RoomMade(ns, ms, did + 1, num, did)
    ensures ns[did].last <= |ns| && Fitted(ns, ms, did, ns[did].last - did, num)
  {
    HoldsNested(ns, 0, f);
    forall i {:trigger Stays(ns, ms, did, num, i)} | 0 <= i <= did ensures Stays(ns, ms, did, num, i) {
      assert ms[i] == Grown(ns[i], i, did + 1, num, did);
    }
    forall i {:trigger Slides(ns, ms, did, num, i)} | ns[did].last <= i < |ns| ensures Slides(ns, ms, did, num, i) {
      assert ms[i + num] == Grown(ns[i], i + num, did + 1, num, did);
    }
  }

  lemma FitSame(ns: seq<JsonNode>, f: Forest, did: int)
    requires Represents(ns, f) && 0 <= did < |ns|
    ensures did < ns[did].last <= |ns| && Fitted(ns, ns, did, ns[did].last - did, 0)
  {
    HoldsNested(ns, 0, f);
  }

  lemma CopiedOver(ns: seq<JsonNode>, ms: seq<JsonNode>, ks: seq<JsonNode>, did: int, dlen: int, d: int,
                   src: seq<JsonNode>, sid: int, s: Forest, slen: int, e: int)
    requires Fitted(ns, ms, did, dlen, d) && d == slen - dlen && e == did - sid && ns[did].last == did + dlen
    requires |ks| == |ms| && Holds(src, sid, s) && Size(s) == slen && 0 <= sid && sid + slen <= |src|
    requires forall k {:trigger ks[k]} :: 0 <= k < |ks| && k != did ==>
      ks[k] == if did < k < did + slen then Copied(src[sid + k - did], e) else ms[k]
    requires ks[did].name == ms[did].name && ks[did].last == ms[did].last
    ensures Overwritten(ns, ks, did, dlen, d, Clones(src), sid, slen, e)
  {
    HoldsNested(src, sid, s);
    forall i {:trigger Stays(ns, ks, did, d, i)} | 0 <= i < did ensures Stays(ns, ks, did, d, i) {
      assert Stays(ns, ms, did, d, i) && ks[i] == ms[i];
    }
    ClonesSlide(src, ks, did, sid, slen, e);
    forall i {:trigger Slides(ns, ks, did, d, i)} | did + dlen <= i < |ns| ensures Slides(ns, ks, did, d, i) {
      assert Slides(ns, ms, did, d, i) && ks[i + d] == ms[i + d];
    }
    assert Stays(ns, ms, did, d, did);
  }

  // The copied elements, as clones that move.
  lemma ClonesSlide(src: seq<JsonNode>, ks: seq<JsonNode>, did: int, sid: int, slen: int, e: int)
    requires 0 <= did && 0 <= sid && sid + slen <= |src| && did + slen <= |ks| && e == did - sid && Nested(src, sid, sid + slen)
    requires forall k {:trigger ks[k]} :: did < k < did + slen ==> ks[k] == Copied(src[sid + k - did], e)
    ensures var copies := Clones(src);
      forall i {:trigger Slides(copies, ks, sid, e, i)} :: sid < i < sid + slen ==> Slides(copies, ks, sid, e, i)
  {
    var copies := Clones(src);
    forall i {:trigger Slides(copies, ks, sid, e, i)} | sid < i < sid + slen ensures Slides(copies, ks, sid, e, i) {
      var k := i + e;
      assert ks[k] == Copied(src[sid + k - did], e) && sid + k - did == i;
      assert src[i].last > i;
    }
  }

  // ------------------------------------------------------------------ members

  // An absent scalar member: make room, copy the node, label it.
  method AddScalar(json: Json, did: int, src: seq<JsonNode>, sid: int, ghost g: Forest, ghost c: Forest)
    requires Represents(json.nodes, g) && json.Valid() && 0 <= did < Size(g) && Single(c) && c.kids == Nil && Holds(src, sid, c)
    modifies json
    ensures Represents(json.nodes, AppendKids(g, did, c)) && json.Valid() && BlockOf(json) == Grow(old(BlockOf(json)), 1)
  {
    AtHolds(json.nodes, g, 0, did);
    AtBounds(g, 0, did);
    ghost var before := json.nodes;
    var at := json.nodes[did].last;
    var _, _ := json.InsertNodes(at, 1, did);
    ghost var ms, blank := json.nodes, Leaves(json.nodes, at, 1);
    InsertAppends(before, ms, g, at, 1, did);
    AppendLabelled(g, did, blank, c);
    LabelSet(ms, AppendKids(g, did, blank), at, c.name, c.value, c.kind);
    json.CopyNodes(at, src, sid, 1);
    json.SetNode(at, src[sid].kind, src[sid].name, src[sid].value);
    assert Blank(ms[at], at) && json.nodes == ms[at := JsonNode(c.name, c.value, c.kind, ms[at].last)];
  }

  // A member of another type that an object is about to replace is emptied first.
  method Prepare(json: Json, didc: int, kind: Kind, name: Opt, ghost g: Forest, ghost c: Forest)
    requires Represents(json.nodes, g) && json.Valid() && 0 <= didc < Size(g) && Single(c) && c.kind == kind && c.name == name
    modifies json
    ensures var t := At(g, 0, didc); var p := Prepared(t, c);
      && Represents(json.nodes, ReplaceAt(g, 0, didc, p))
      && json.Valid() && BlockOf(json) == Grow(old(BlockOf(json)), Size(p) - Size(t))
  {
    AtHolds(json.nodes, g, 0, didc);
    AtBounds(g, 0, didc);
    ghost var h, t := g, At(g, 0, didc);
    if kind == Object && json.nodes[didc].kind != Object {
      ghost var ns := json.nodes;
      var _ := json.RemoveNodes(didc, json.nodes[didc].last - didc - 1);
      if ns[didc].last - didc - 1 > 0 {
        var n := ns[ns[didc].last - 1];
        RemoveToLastLeaf(ns, json.nodes, g, didc);
        h := ReplaceAt(g, 0, didc, Cons(n.name, n.value, n.kind, Nil, Nil));
        AtReplaced(g, 0, didc, Cons(n.name, n.value, n.kind, Nil, Nil));
        ReplaceReplaced(g, 0, didc, Cons(n.name, n.value, n.kind, Nil, Nil), Cons(name, None, Object, Nil, Nil));
      } else {
        assert Size(t) == 1 + Size(t.kids) && t.kids == Nil;
      }
      LabelSet(json.nodes, h, didc, name, None, Object);
      json.SetNode(didc, Object, name, None);
    } else {
      ReplaceSame(g, 0, didc);
    }
  }

  lemma {:induction false} ReplaceSame(f: Forest, at: int, nid: int)
    requires at <= nid < at + Size(f)
    ensures ReplaceAt(f, at, nid, At(f, at, nid)) == f
    decreases f
  {
    var end := at + 1 + Size(f.kids);
    if nid == at {
      assert Append(First(f), f.rest) == First(f).(rest := Append(First(f).rest, f.rest));
      assert Append(First(f).rest, f.rest) == f.rest;
    } else if nid < end {
      ReplaceSame(f.kids, at + 1, nid);
    } else {
      ReplaceSame(f.rest, end, nid);
    }
  }

  lemma MemberPresent(g: Forest, did: int, id: int, c: Forest, m: Forest)
    requires 0 <= did < Size(g) && Single(c) && Single(m) && id == Meets(At(g, 0, did), did, c.name) && id >= 0
    ensures var t := At(g, 0, did); var p := Prepared(At(t.kids, did + 1, id), c);
      && id < Size(g) && At(g, 0, id) == At(t.kids, did + 1, id)
      && var h := ReplaceAt(g, 0, id, p);
         && id < Size(h) && At(h, 0, id) == p
         && ReplaceAt(h, 0, id, m) == ReplaceAt(g, 0, did, t.(kids := ReplaceAt(t.kids, did + 1, id, m)))
  {
    var t := At(g, 0, did);
    var p := Prepared(At(t.kids, did + 1, id), c);
    assert Size(t) == 1 + Size(t.kids);
    Inner(g, 0, did, id, m);
    ReplaceKid(t, did, id, m);
    AtReplaced(g, 0, id, p);
    ReplaceReplaced(g, 0, id, p, m);
  }

  // ------------------------------------------------------------------ the recursion

  // What blendRecurse returns: its own failure at the limit is BAD_STATE, one of a member BAD_ARGS.
  predicate Coded(rc: int) {
    rc == 0 || rc == BAD_ARGS || rc == BAD_STATE
  }

  // A container that the destination lacks is blended into a new empty one.
  method AddContainer(json: Json, did: int, src: seq<JsonNode>, sid: int, depth: nat, ghost g: Forest, ghost c: Forest) returns (rc: int)
    requires Represents(json.nodes, g) && json.Valid() && 0 <= did < Size(g)
    requires Single(c) && Holds(src, sid, c) && Mergeable(Empty(c), did + Size(At(g, 0, did)), c, Grow(BlockOf(json), 1))
    requires depth <= MAX_RECURSION
    modifies json
    decreases Size(c), 3
    ensures json.Valid() && Coded(rc)
    ensures rc == 0 ==>
      var o := MergeIn(Empty(c), did + Size(At(g, 0, did)), c, Grow(old(BlockOf(json)), 1));
      Represents(json.nodes, AppendKids(g, did, o.tree)) && BlockOf(json) == o.block
    ensures depth + Nesting(c) <= MAX_RECURSION ==> rc == 0
    ensures rc == 0 ==> depth + Deep(c) <= MAX_RECURSION
  {
    var at := AddChild(json, did, src[sid].name, None, src[sid].kind, g);
    AppendLabelled(g, did, Empty(c), MergeIn(Empty(c), at, c, BlockOf(json)).tree);
    rc := BlendNode(json, at, src, sid, depth + 1, AppendKids(g, did, Empty(c)), c);
  }

  // A member that the destination lacks.
  method AddMember(json: Json, did: int, src: seq<JsonNode>, sid: int, depth: nat, ghost g: Forest, ghost c: Forest) returns (rc: int)
    requires Represents(json.nodes, g) && json.Valid() && 0 <= did < Size(g)
    requires Single(c) && Holds(src, sid, c) && MemberMergeable(At(g, 0, did), did, c, BlockOf(json))
    requires Meets(At(g, 0, did), did, c.name) < 0
    requires depth <= MAX_RECURSION
    modifies json
    decreases Size(c), 4
    ensures json.Valid() && Coded(rc)
    ensures rc == 0 ==>
      var o := AddedIn(did + Size(At(g, 0, did)), c, old(BlockOf(json)));
      Represents(json.nodes, AppendKids(g, did, o.tree)) && BlockOf(json) == o.block
    ensures depth + Nesting(c) <= MAX_RECURSION ==> rc == 0
    ensures rc == 0 ==> depth + Deep(c) <= MAX_RECURSION
  {
    if Container(src[sid].kind) {
      rc := AddContainer(json, did, src, sid, depth, g, c);
    } else {
      AddScalar(json, did, src, sid, g, c);
      rc := 0;
    }
  }

  method BlendMember(json: Json, did: int, src: seq<JsonNode>, sid: int, depth: nat, ghost g: Forest, ghost c: Forest) returns (rc: int)
    requires Represents(json.nodes, g) && json.Valid() && 0 <= did < Size(g) && At(g, 0, did).kind == Object
    requires Single(c) && Holds(src, sid, c) && MemberMergeable(At(g, 0, did), did, c, BlockOf(json))
    requires depth <= MAX_RECURSION
    modifies json
    decreases Size(c), 5
    ensures json.Valid() && Coded(rc)
    ensures rc == 0 ==>
      var o := MergeMemberIn(At(g, 0, did), did, c, old(BlockOf(json)));
      Represents(json.nodes, ReplaceAt(g, 0, did, o.tree)) && BlockOf(json) == o.block
    ensures depth + Nesting(c) <= MAX_RECURSION ==> rc == 0
    ensures rc == 0 ==> depth + Deep(c) <= MAX_RECURSION
  {
    var property := src[sid].name;
    ghost var t := At(g, 0, did);
    var didc := CANT_FIND;
    if property.Some? {
      didc := FindProperty(json, did, property.s, g);
    }
    assert didc == Meets(t, did, property);
    if didc < 0 {
      rc := AddMember(json, did, src, sid, depth, g, c);
    } else {
      ghost var p := Prepared(At(t.kids, did + 1, didc), c);
      ghost var b := Grow(BlockOf(json), Size(p) - Size(At(t.kids, did + 1, didc)));
      MemberPresent(g, did, didc, c, MergeIn(p, didc, c, b).tree);
      Prepare(json, didc, src[sid].kind, property, g, c);
      rc := BlendNode(json, didc, src, sid, depth + 1, ReplaceAt(g, 0, didc, p), c);
    }
  }

  // The loop over the members of a source object.
  method BlendMembers(json: Json, did: int, src: seq<JsonNode>, sid: int, depth: nat, ghost f: Forest, ghost s: Forest) returns (rc: int)
    requires Represents(json.nodes, f) && json.Valid() && 0 <= did < Size(f) && At(f, 0, did).kind == Object && s.Cons? && s.kind == Object
    requires Single(s) && Holds(src, sid, s) && MembersMergeable(At(f, 0, did), did, s.kids, BlockOf(json))
    requires depth <= MAX_RECURSION
    modifies json
    decreases Size(s), 1
    ensures json.Valid() && (rc == 0 || rc == BAD_ARGS)
    ensures rc == 0 ==>
      var o := MergeMembersIn(At(f, 0, did), did, s.kids, old(BlockOf(json)));
      Represents(json.nodes, ReplaceAt(f, 0, did, o.tree)) && BlockOf(json) == o.block
    ensures depth + Nesting(s) <= MAX_RECURSION + 1 ==> rc == 0
    ensures rc == 0 ==> depth + Deep(s) <= MAX_RECURSION + 1
  {
    ghost var g, left := f, s.kids;
    ghost var end := MergeMembersIn(At(f, 0, did), did, left, BlockOf(json));
    ghost var goal := ReplaceAt(f, 0, did, end.tree);
    var sidc := sid + 1;
    rc := 0;
    while sidc < src[sid].last
      invariant sid < sidc <= src[sid].last && Holds(src, sidc, left) && sidc + Size(left) == src[sid].last
      invariant Remaining(json.nodes, BlockOf(json), g, did, left, end, goal) && json.Valid() && rc == 0
      invariant Shallower(depth, left, s.kids) && Size(left) <= Size(s.kids)
      decreases Size(left)
    {
      HoldsFirst(src, sidc, left);
      ghost var h;
      rc, h := BlendFirst(json, did, src, sidc, depth, g, left, end, goal);
      if rc < 0 {
        return BAD_ARGS;
      }
      sidc := src[sidc].last;
      g, left := h, left.rest;
    }
    RemainingNone(json.nodes, BlockOf(json), g, did, end, goal);
  }

  // The members left need no more depth than all, and if they find it, all do.
  ghost predicate Shallower(depth: nat, left: Forest, members: Forest) {
    Nesting(left) <= Nesting(members) && (depth + Deep(left) <= MAX_RECURSION ==> depth + Deep(members) <= MAX_RECURSION)
  }

  /** With the members left merged into the tree at `did` of g, the document is `goal`. */
  ghost predicate Remaining(ns: seq<JsonNode>, b: Block, g: Forest, did: int, left: Forest, end: Outcome, goal: Forest) {
    && Represents(ns, g) && 0 <= did < Size(g) && At(g, 0, did).kind == Object && MembersMergeable(At(g, 0, did), did, left, b)
    && MergeMembersIn(At(g, 0, did), did, left, b) == end && ReplaceAt(g, 0, did, end.tree) == goal
  }

  lemma RemainingNone(ns: seq<JsonNode>, b: Block, g: Forest, did: int, end: Outcome, goal: Forest)
    requires Remaining(ns, b, g, did, Nil, end, goal)
    ensures Represents(ns, goal) && b == end.block
  {
    ReplaceSame(g, 0, did);
  }

  lemma RemainingNext(was: seq<JsonNode>, b: Block, g: Forest, did: int, left: Forest, end: Outcome, goal: Forest, ns: seq<JsonNode>, o: Outcome)
    requires Remaining(was, b, g, did, left, end, goal) && left.Cons? && o == MergeMemberIn(At(g, 0, did), did, First(left), b)
    requires Represents(ns, ReplaceAt(g, 0, did, o.tree))
    ensures Remaining(ns, o.block, ReplaceAt(g, 0, did, o.tree), did, left.rest, end, goal)
  {
    AtReplaced(g, 0, did, o.tree);
    ReplaceReplaced(g, 0, did, o.tree, end.tree);
  }

  // One member.
  method BlendFirst(json: Json, did: int, src: seq<JsonNode>, sid: int, depth: nat, ghost g: Forest, ghost left: Forest, ghost end: Outcome,
                    ghost goal: Forest) returns (rc: int, ghost h: Forest)
    requires json.Valid() && Remaining(json.nodes, BlockOf(json), g, did, left, end, goal) && left.Cons? && Holds(src, sid, First(left))
    requires depth <= MAX_RECURSION
    modifies json
    decreases Size(left), 6
    ensures json.Valid() && Coded(rc)
    ensures rc == 0 ==> Remaining(json.nodes, BlockOf(json), h, did, left.rest, end, goal)
    ensures depth + Nesting(First(left)) <= MAX_RECURSION ==> rc == 0
    ensures rc == 0 && depth + Deep(left.rest) <= MAX_RECURSION ==> depth + Deep(left) <= MAX_RECURSION
  {
    ghost var o := MergeMemberIn(At(g, 0, did), did, First(left), BlockOf(json));
    rc := BlendMember(json, did, src, sid, depth, g, First(left));
    h := ReplaceAt(g, 0, did, o.tree);
    DeepFirst(left);
    if rc == 0 {
      RemainingNext(old(json.nodes), old(BlockOf(json)), g, did, left, end, goal, json.nodes, o);
    }
  }

  /** blendRecurse: the destination tree becomes the merge with the source tree, within the recursion limit. */
  method BlendNode(json: Json, did: int, src: seq<JsonNode>, sid: int, depth: nat, ghost f: Forest, ghost s: Forest) returns (rc: int)
    requires Represents(json.nodes, f) && json.Valid() && 0 <= did < Size(f)
    requires Single(s) && Holds(src, sid, s) && Mergeable(At(f, 0, did), did, s, BlockOf(json))
    modifies json
    decreases Size(s), 2
    ensures json.Valid() && Coded(rc) && (rc == BAD_STATE <==> depth > MAX_RECURSION)
    ensures rc == 0 ==>
      var o := MergeIn(At(f, 0, did), did, s, old(BlockOf(json)));
      Represents(json.nodes, ReplaceAt(f, 0, did, o.tree)) && BlockOf(json) == o.block
    ensures depth + Nesting(s) <= MAX_RECURSION + 1 ==> rc == 0
    ensures rc == 0 ==> depth + Deep(s) <= MAX_RECURSION + 1
  {
    if depth > MAX_RECURSION {
      return BAD_STATE;
    }
    var kind := src[sid].kind;
    ghost var d, g := At(f, 0, did), f;
    AtHolds(json.nodes, f, 0, did);
    if kind == Object {
      if json.nodes[did].kind != Object {
        LabelSet(json.nodes, f, did, json.nodes[did].name, None, Object);
        json.SetNode(did, Object, json.nodes[did].name, None);
        g := ReplaceAt(f, 0, did, AsObject(d));
        AtReplaced(f, 0, did, AsObject(d));
        ReplaceReplaced(f, 0, did, AsObject(d), MergeIn(d, did, s, BlockOf(json)).tree);
      }
      rc := BlendMembers(json, did, src, sid, depth, g, s);
    } else if kind == Array {
      OverwriteArray(json, did, src, sid, f, s);
      rc := 0;
    } else {
      LabelSet(json.nodes, f, did, Cloned(s.name), Cloned(s.value), s.kind);
      json.CopyNodes(did, src, sid, 1);
      assert json.nodes == old(json.nodes)[did := JsonNode(Cloned(s.name), Cloned(s.value), s.kind, old(json.nodes)[did].last)];
      rc := 0;
    }
  }

  lemma HoldsFirst(ns: seq<JsonNode>, at: int, f: Forest)
    requires f.Cons? && Holds(ns, at, f)
    ensures Holds(ns, at, First(f)) && Nesting(First(f)) <= Nesting(f)
  {
    HoldsBounds(ns, at + 1, f.kids);
  }

  /** jsonBlend without keys: an empty destination gets a root object; an empty source changes nothing. */
  method Blend(json: Json, did: int, src: seq<JsonNode>, sid: int, ghost f: Forest, ghost sf: Forest) returns (rc: int)
    requires Represents(json.nodes, f) && json.Valid() && Represents(src, sf)
    requires src != [] ==> 0 <= sid < |src| && 0 <= did < Size(Rooted(f))
    requires src != [] ==> Mergeable(At(Rooted(f), 0, did), did, At(sf, 0, sid), Block(Size(Rooted(f)), json.size, json.moves))
    modifies json
    ensures json.Valid() && (rc == 0 || rc == BAD_ARGS)
    ensures src == [] ==> rc == 0 && json.nodes == old(json.nodes)
    ensures src != [] && rc == 0 ==>
      var o := MergeIn(At(Rooted(f), 0, did), did, At(sf, 0, sid), Block(Size(Rooted(f)), old(json.size), json.moves));
      Represents(json.nodes, ReplaceAt(Rooted(f), 0, did, o.tree)) && BlockOf(json) == o.block
    ensures src != [] && Nesting(At(sf, 0, sid)) <= MAX_RECURSION + 1 ==> rc == 0
    ensures src != [] && Deep(At(sf, 0, sid)) > MAX_RECURSION + 1 ==> rc == BAD_ARGS
  {
    if |src| == 0 {
      return 0;
    }
    if |json.nodes| == 0 {
      var _ := json.AllocNode(Object, None, None);
    }
    AtHolds(src, sf, 0, sid);
    rc := BlendNode(json, did, src, sid, 0, Rooted(f), At(sf, 0, sid));
  }

  /** What jsonClone makes of a tree, with an allocator that moves the block at the given capacities. */
  function CloneOf(s: Forest, moves: set<int>): (t: Forest)
    requires Single(s)
    ensures Single(t)
  {
    MergeIn(Rooted(Nil), 0, s, Block(1, INC, moves)).tree
  }

  /** jsonClone: blend the source into an empty document; a failure is not reported. */
  method Clone(src: seq<JsonNode>, moves: set<int>, ghost sf: Forest) returns (json: Json)
    requires Represents(src, sf)
    requires src != [] ==> Mergeable(Rooted(Nil), 0, At(sf, 0, 0), Block(1, INC, moves))
    ensures fresh(json) && json.Valid() && json.moves == moves
    ensures src == [] ==> json.nodes == []
    ensures src != [] && Nesting(At(sf, 0, 0)) <= MAX_RECURSION + 1 ==> Represents(json.nodes, CloneOf(At(sf, 0, 0), moves))
  {
    json := new Json(moves);
    var rc := Blend(json, 0, src, 0, Nil, sf);
    if |src| > 0 {
      ghost var t := CloneOf(At(sf, 0, 0), moves);
      AppendNil(t);
      assert ReplaceAt(Rooted(Nil), 0, 0, t) == Append(t, Nil);
    }
  }
}
