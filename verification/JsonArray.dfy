/**
  The edits of the node array (bin/json.c:988-1256): allocating, making room, removing,
  setting and copying nodes, with the repair of every `last`. Each method is proved against a
  pointwise description of the new array; the lemmas say which forest the new array holds.
*/
module JsonArray {
  import opened JsonForest

  /** A node now at index `i`, after room for `num` nodes was made at `nid` for the parent `pid`. */
  function Grown(n: JsonNode, i: int, nid: int, num: int, pid: int): JsonNode {
    if n.last == nid && i > pid then n
    else if n.last >= nid then n.(last := n.last + num)
    else n
  }

  /** A node after `num` nodes were removed at `nid`. */
  function Shrunk(n: JsonNode, nid: int, num: int): JsonNode {
    if n.last > nid then n.(last := n.last - num) else n
  }

  ghost predicate Blank(n: JsonNode, i: int) {
    n.name == None && n.value == None && n.last == i + 1
  }

  /** The whole effect of insertNodes. */
  ghost predicate RoomMade(ns: seq<JsonNode>, ms: seq<JsonNode>, nid: int, num: int, pid: int) {
    && 0 <= nid <= |ns| && 0 < num && |ms| == |ns| + num
    && (forall i {:trigger ms[i]} :: 0 <= i < nid ==> ms[i] == Grown(ns[i], i, nid, num, pid))
    && (forall i {:trigger ms[i]} :: nid <= i < nid + num ==> Blank(ms[i], i))
    && (forall i {:trigger ms[i]} :: nid + num <= i < |ms| ==> ms[i] == Grown(ns[i - num], i, nid, num, pid))
  }

  /** The whole effect of removeNodes. */
  ghost predicate RoomClosed(ns: seq<JsonNode>, ms: seq<JsonNode>, nid: int, num: int) {
    && 0 <= nid && 0 < num && nid + num <= |ns| && |ms| == |ns| - num
    && (forall i {:trigger ms[i]} :: 0 <= i < nid ==> ms[i] == Shrunk(ns[i], nid, num))
    && (forall i {:trigger ms[i]} :: nid <= i < |ms| ==> ms[i] == Shrunk(ns[i + num], nid, num))
  }

  /** A string that copyNodes copies: the clone of none is the empty string. */
  function Cloned(s: Opt): Opt {
    if s == None then Some("") else s
  }

  /** A node as copyNodes leaves it in the place `d` behind its own. */
  function Copied(n: JsonNode, d: int): JsonNode {
    JsonNode(Cloned(n.name), Cloned(n.value), n.kind, n.last + d)
  }

  // Nodes by which the array grows at least.
  const INC := 64

  /** The capacity after growNodes was asked for room for `num` nodes behind `count`. */
  function Capacity(size: int, count: int, num: int): int {
    if num > 0 && count + num > size then size + (if num > INC then num else INC) else size
  }

  const BAD_ARGS := -6

  /**
    The node array of a document. `moves` stands for the allocator: the capacities from which
    a reallocation moves the block. As the capacity grows with every reallocation, this
    covers every behaviour.
  */
  class Json {
    var nodes: seq<JsonNode>
    var size: int
    const moves: set<int>

    ghost predicate Valid()
      reads this
    {
      |nodes| <= size && INC <= size
    }

    /** jsonAlloc */
    constructor (moves: set<int>)
      ensures Valid() && nodes == [] && size == INC && this.moves == moves
    {
      nodes := [];
      size := INC;
      this.moves := moves;
    }

    /** growNodes: room for `num` more nodes; tells whether the block has moved. */
    method GrowNodes(num: int) returns (moved: bool)
      requires Valid()
      modifies this`size
      ensures Valid() && |nodes| + num <= size && size == Capacity(old(size), |nodes|, num)
      ensures moved <==> size != old(size) && old(size) in moves
      ensures size == old(size) <==> num <= 0 || |nodes| + num <= old(size)
      ensures size != old(size) ==> size - old(size) >= 64 && size - old(size) in {num, 64}
    {
      moved := false;
      if num > 0 && |nodes| + num > size {
        moved := size in moves;
        size := size + (if num > INC then num else INC);
      }
    }

    /** allocNode: one more node behind all others. */
    method AllocNode(kind: Kind, name: Opt, value: Opt) returns (nid: int)
      requires Valid()
      modifies this
      ensures Valid() && nid == |old(nodes)| && nodes == old(nodes) + [JsonNode(name, value, kind, nid + 1)]
      ensures size == Capacity(old(size), |old(nodes)|, 1)
    {
      if |nodes| >= size {
        var _ := GrowNodes(1);
      }
      nid := |nodes|;
      nodes := nodes + [JsonNode(name, value, kind, nid + 1)];
    }

    // Nodes of a freshly opened gap: nothing is known about them.
    method Scratch(num: nat) returns (junk: seq<JsonNode>)
      ensures |junk| == num
    {
      junk := seq(num, _ => JsonNode(None, None, Unset, 0));
    }

    /** insertNodes: make room for `num` nodes at `nid`, below the parent `pid`; the block may have moved. */
    method InsertNodes(nid: int, num: int, pid: int) returns (rc: int, moved: bool)
      requires Valid()
      modifies this
      ensures Valid() && (moved <==> size != old(size) && old(size) in moves)
      ensures if nid < 0 || nid > |old(nodes)| || num <= 0 then rc == BAD_ARGS && nodes == old(nodes) && size == old(size)
              else rc == nid && RoomMade(old(nodes), nodes, nid, num, pid) && size == Capacity(old(size), |old(nodes)|, num)
    {
      moved := false;
      if nid < 0 || nid > |nodes| || num <= 0 {
        return BAD_ARGS, moved;
      }
      if |nodes| + num >= size {
        moved := GrowNodes(num);
      }
      OpenRoom(nid, num, pid);
      rc := nid;
    }

    // The rest of insertNodes: move the nodes, repair every `last`, blank the room.
    method OpenRoom(nid: int, num: int, pid: int)
      requires 0 <= nid <= |nodes| && 0 < num
      modifies this`nodes
      ensures RoomMade(old(nodes), nodes, nid, num, pid)
    {
      var junk := Scratch(num);
      nodes := nodes[..nid] + junk + nodes[nid..];
      ghost var moved := nodes;
      var i := 0;
      while i < |nodes|
        invariant 0 <= i <= |nodes| == |moved|
        invariant forall k {:trigger nodes[k]} :: 0 <= k < |nodes| ==>
          nodes[k] == if k < i && !(nid <= k < nid + num) then Grown(moved[k], k, nid, num, pid) else moved[k]
      {
        if !(nid <= i < nid + num) {
          var node := nodes[i];
          if node.last == nid && i > pid {
            // the current oldest sibling
          } else if node.last >= nid {
            nodes := nodes[i := node.(last := node.last + num)];
          }
        }
        i := i + 1;
      }
      ghost var grown := nodes;
      i := 0;
      while i < num
        invariant 0 <= i <= num && |nodes| == |grown|
        invariant forall k {:trigger nodes[k]} :: 0 <= k < |nodes| ==>
          if nid <= k < nid + i then Blank(nodes[k], k) else nodes[k] == grown[k]
      {
        nodes := nodes[nid + i := nodes[nid + i].(name := None, value := None, last := nid + i + 1)];
        i := i + 1;
      }
    }

    /** removeNodes: remove the `num` nodes from `nid` on. */
    method RemoveNodes(nid: int, num: int) returns (rc: int)
      requires nid + num <= |nodes|
      modifies this`nodes
      ensures if nid < 0 || nid >= |old(nodes)| || num <= 0 then rc == BAD_ARGS && nodes == old(nodes)
              else rc == nid && RoomClosed(old(nodes), nodes, nid, num)
    {
      if nid < 0 || nid >= |nodes| || num <= 0 {
        return BAD_ARGS;
      }
      nodes := nodes[..nid] + nodes[nid + num..];
      ghost var moved := nodes;
      var i := 0;
      while i < |nodes|
        invariant 0 <= i <= |nodes| == |moved|
        invariant forall k {:trigger nodes[k]} :: 0 <= k < |nodes| ==>
          nodes[k] == if k < i then Shrunk(moved[k], nid, num) else moved[k]
      {
        var node := nodes[i];
        if node.last > nid {
          nodes := nodes[i := node.(last := node.last - num)];
        }
        i := i + 1;
      }
      rc := nid;
    }

    /** setNode. */
    method SetNode(nid: int, kind: Kind, name: Opt, value: Opt)
      modifies this`nodes
      ensures nodes == if 0 <= nid < |old(nodes)| then old(nodes)[nid := JsonNode(name, value, kind, old(nodes)[nid].last)]
                       else old(nodes)
    {
      if nid < 0 || nid >= |nodes| {
        return;
      }
      nodes := nodes[nid := nodes[nid].(kind := kind)];
      if name != nodes[nid].name {
        nodes := nodes[nid := nodes[nid].(name := name)];
      }
      if value != nodes[nid].value {
        nodes := nodes[nid := nodes[nid].(value := value)];
      }
    }

    /** copyNodes: overwrite `count` nodes with clones of nodes of another document, rebasing every `last`. */
    method CopyNodes(did: int, src: seq<JsonNode>, sid: int, count: nat)
      requires 0 <= did && did + count <= |nodes| && 0 <= sid && sid + count <= |src|
      modifies this`nodes
      ensures |nodes| == |old(nodes)|
      ensures forall k {:trigger nodes[k]} :: 0 <= k < |nodes| ==>
        nodes[k] == if did <= k < did + count then Copied(src[sid + k - did], did - sid) else old(nodes)[k]
    {
      var i := 0;
      while i < count
        invariant 0 <= i <= count && |nodes| == |old(nodes)|
        invariant forall k {:trigger nodes[k]} :: 0 <= k < |nodes| ==>
          nodes[k] == if did <= k < did + i then Copied(src[sid + k - did], did - sid) else old(nodes)[k]
      {
        nodes := nodes[did + i := Copied(src[sid + i], did - sid)];
        i := i + 1;
      }
    }
  }

  // ------------------------------------------------------------------ what the edits mean

  /** The blank leaves that occupy at..at + num. */
  ghost function Leaves(ms: seq<JsonNode>, at: int, num: nat): (f: Forest)
    requires 0 <= at && at + num <= |ms|
    ensures Size(f) == num
    decreases num
  {
    if num == 0 then Nil else Cons(None, None, ms[at].kind, Nil, Leaves(ms, at + 1, num - 1))
  }

  lemma {:induction false} LeavesHeld(ms: seq<JsonNode>, at: int, num: nat)
    requires 0 <= at && at + num <= |ms| && forall i {:trigger ms[i]} :: at <= i < at + num ==> Blank(ms[i], i)
    ensures Holds(ms, at, Leaves(ms, at, num))
    decreases num
  {
    if num > 0 {
      LeavesHeld(ms, at + 1, num - 1);
      assert ms[at] == JsonNode(None, None, ms[at].kind, at + 1);
    }
  }

  /** The forest with `g` appended to the children of the node at `pid`. */
  ghost function AppendKids(f: Forest, pid: int, g: Forest): Forest
    requires 0 <= pid < Size(f)
  {
    var t := At(f, 0, pid);
    ReplaceAt(f, 0, pid, t.(kids := Append(t.kids, g)))
  }

  /** insertNodes at a node's `last` appends that many blank leaves to its children, and nothing else changes. */
  lemma InsertAppends(ns: seq<JsonNode>, ms: seq<JsonNode>, f: Forest, nid: int, num: int, pid: int)
    requires Represents(ns, f) && 0 <= pid < |ns| && ns[pid].last == nid && RoomMade(ns, ms, nid, num, pid)
    ensures Represents(ms, AppendKids(f, pid, Leaves(ms, nid, num)))
  {
    var t := At(f, 0, pid);
    var g := t.(kids := Append(t.kids, Leaves(ms, nid, num)));
    GrownTree(ns, ms, f, nid, num, pid);
    InsertSplices(ns, ms, f, nid, num, pid);
    assert Size(g) == Size(t) + num && Size(t) == nid - pid;
    ReplaceHolds(ns, ms, f, 0, pid, g);
    ReplaceSize(f, 0, pid, g);
  }

  lemma GrownTree(ns: seq<JsonNode>, ms: seq<JsonNode>, f: Forest, nid: int, num: int, pid: int)
    requires Represents(ns, f) && 0 <= pid < |ns| && ns[pid].last == nid && RoomMade(ns, ms, nid, num, pid)
    ensures var t := At(f, 0, pid); Size(t) == nid - pid && Holds(ms, pid, t.(kids := Append(t.kids, Leaves(ms, nid, num))))
  {
    var t := At(f, 0, pid);
    AtHolds(ns, f, 0, pid);
    assert Size(t) == 1 + Size(t.kids);
    KidsGrow(ns, ms, pid, t.kids, nid, num);
    assert ms[pid] == Grown(ns[pid], pid, nid, num, pid);
  }

  lemma KidsGrow(ns: seq<JsonNode>, ms: seq<JsonNode>, pid: int, kids: Forest, nid: int, num: int)
    requires 0 <= pid && Holds(ns, pid + 1, kids) && pid + 1 + Size(kids) == nid && RoomMade(ns, ms, nid, num, pid)
    ensures Holds(ms, pid + 1, Append(kids, Leaves(ms, nid, num)))
  {
    LeavesHeld(ms, nid, num);
    KidsStay(ns, ms, pid, kids, nid, num);
    HoldsAppend(ms, pid + 1, kids, Leaves(ms, nid, num));
  }

  lemma EndsWithin(ns: seq<JsonNode>, at: int, f: Forest, i: int)
    requires Holds(ns, at, f) && at <= i < at + Size(f)
    ensures 0 <= i < |ns| && i < ns[i].last <= at + Size(f)
  {
    HoldsNested(ns, at, f);
  }

  lemma DescendantStays(ns: seq<JsonNode>, ms: seq<JsonNode>, pid: int, kids: Forest, nid: int, num: int, i: int)
    requires 0 <= pid && Holds(ns, pid + 1, kids) && pid + 1 + Size(kids) == nid && RoomMade(ns, ms, nid, num, pid) && pid < i < nid
    ensures Stays(ns, ms, nid, num, i)
  {
    EndsWithin(ns, pid + 1, kids, i);
    assert ms[i] == Grown(ns[i], i, nid, num, pid);
  }

  // Descendants of pid keep their `last`, even one that equals the insertion point.
  lemma KidsStay(ns: seq<JsonNode>, ms: seq<JsonNode>, pid: int, kids: Forest, nid: int, num: int)
    requires 0 <= pid && Holds(ns, pid + 1, kids) && pid + 1 + Size(kids) == nid && RoomMade(ns, ms, nid, num, pid)
    ensures Holds(ms, pid + 1, kids)
  {
    forall i {:trigger Stays(ns, ms, nid, num, i)} | pid + 1 <= i < nid ensures Stays(ns, ms, nid, num, i) {
      DescendantStays(ns, ms, pid, kids, nid, num, i);
    }
    HoldsBefore(ns, ms, pid + 1, kids, nid, num);
  }

  lemma InsertSplices(ns: seq<JsonNode>, ms: seq<JsonNode>, f: Forest, nid: int, num: int, pid: int)
    requires Represents(ns, f) && 0 <= pid < |ns| && ns[pid].last == nid && RoomMade(ns, ms, nid, num, pid)
    ensures Spliced(ns, ms, 0, |ns|, pid, nid - pid, num)
  {
    HoldsNested(ns, 0, f);
    forall i | 0 <= i < pid ensures Stays(ns, ms, pid, num, i) {
      assert ms[i] == Grown(ns[i], i, nid, num, pid);
      assert ns[pid].last == nid;
    }
    forall i | nid <= i < |ns| ensures Slides(ns, ms, pid, num, i) {
      assert ms[i + num] == Grown(ns[i], i + num, nid, num, pid);
    }
  }

  /** Exactly the parent and its ancestors grow: a node before the room grows if and only if it contains the parent. */
  lemma OnlyAncestorsGrow(ns: seq<JsonNode>, ms: seq<JsonNode>, f: Forest, nid: int, num: int, pid: int, i: int)
    requires Represents(ns, f) && 0 <= pid < |ns| && ns[pid].last == nid && RoomMade(ns, ms, nid, num, pid) && 0 <= i < nid
    ensures ms[i] == if i <= pid < ns[i].last then ns[i].(last := ns[i].last + num) else ns[i]
  {
    HoldsNested(ns, 0, f);
    assert ms[i] == Grown(ns[i], i, nid, num, pid) && ns[pid].last == nid;
  }

  /** removeNodes on a complete subtree deletes that subtree, and nothing else changes. */
  lemma RemoveDeletes(ns: seq<JsonNode>, ms: seq<JsonNode>, f: Forest, nid: int)
    requires Represents(ns, f) && 0 <= nid < |ns| && RoomClosed(ns, ms, nid, ns[nid].last - nid)
    ensures Represents(ms, ReplaceAt(f, 0, nid, Nil))
  {
    AtHolds(ns, f, 0, nid);
    RemoveSplices(ns, ms, f, nid, ns[nid].last - nid);
    ReplaceHolds(ns, ms, f, 0, nid, Nil);
    ReplaceSize(f, 0, nid, Nil);
  }

  // Removing the first `num` nodes of the subtree at nid.
  lemma RemoveSplices(ns: seq<JsonNode>, ms: seq<JsonNode>, f: Forest, nid: int, num: int)
    requires Represents(ns, f) && 0 <= nid < |ns| && num <= ns[nid].last - nid && RoomClosed(ns, ms, nid, num)
    ensures ns[nid].last <= |ns| && Spliced(ns, ms, 0, |ns|, nid, ns[nid].last - nid, -num)
    ensures nid < |ms| ==> ns[nid + num].last > nid + num
    ensures ns[ns[nid].last - 1].last == ns[nid].last
  {
    HoldsNested(ns, 0, f);
    forall i {:trigger Stays(ns, ms, nid, -num, i)} | 0 <= i < nid ensures Stays(ns, ms, nid, -num, i) {
      assert ms[i] == Shrunk(ns[i], nid, num);
    }
    forall i {:trigger Slides(ns, ms, nid, -num, i)} | ns[nid].last <= i < |ns| ensures Slides(ns, ms, nid, -num, i) {
      assert ms[i - num] == Shrunk(ns[i], nid, num);
    }
  }

  /** Deleting a container and all but its final descendant leaves that descendant in its place, as one leaf. */
  lemma RemoveToLastLeaf(ns: seq<JsonNode>, ms: seq<JsonNode>, f: Forest, nid: int)
    requires Represents(ns, f) && 0 <= nid < |ns| && RoomClosed(ns, ms, nid, ns[nid].last - nid - 1)
    ensures 0 < ns[nid].last <= |ns|
    ensures var n := ns[ns[nid].last - 1]; Represents(ms, ReplaceAt(f, 0, nid, Cons(n.name, n.value, n.kind, Nil, Nil)))
  {
    AtHolds(ns, f, 0, nid);
    var num := ns[nid].last - nid - 1;
    RemoveSplices(ns, ms, f, nid, num);
    var n := ns[nid + num];
    assert ms[nid] == Shrunk(n, nid, num);
    ReplaceHolds(ns, ms, f, 0, nid, Cons(n.name, n.value, n.kind, Nil, Nil));
    ReplaceSize(f, 0, nid, Cons(n.name, n.value, n.kind, Nil, Nil));
  }
}
