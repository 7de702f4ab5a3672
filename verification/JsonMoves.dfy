/**
  What a blend leaves behind when making room moves the block of nodes: it is the merge for
  every allocator if and only if the arrays that overwrite something find room for their elements.
*/
module JsonMoves {
  import opened JsonForest
  import opened JsonArray
  import opened JsonQuery
  import opened JsonPaths
  import opened JsonBlend
  import opened JsonMerge

  /** The same block, with another allocator. */
  function With(b: Block, moves: set<int>): Block {
    b.(moves := moves)
  }

  // ------------------------------------------------------------------ an allocator that never moves the block

  /** If no block ever moves, a blend leaves the merge. */
  lemma {:induction false} StillMerges(d: Forest, nid: int, s: Forest, b: Block)
    requires Single(d) && Single(s) && 0 <= nid && b.moves == {}
    ensures MergeIn(d, nid, s, b).tree == Merge(d, nid, s) && MergeIn(d, nid, s, b).block.moves == {}
    decreases Size(s), 0
  {
    if s.kind == Object {
      StillMembers(AsObject(d), nid, s.kids, b);
    }
  }

  lemma {:induction false} StillMembers(t: Forest, nid: int, members: Forest, b: Block)
    requires Single(t) && 0 <= nid && b.moves == {}
    ensures var o := MergeMembersIn(t, nid, members, b); o.tree == MergeMembers(t, nid, members) && o.block.moves == {}
    decreases Size(members), 2
  {
    if members != Nil {
      StillMember(t, nid, First(members), b);
      var o := MergeMemberIn(t, nid, First(members), b);
      StillMembers(o.tree, nid, members.rest, o.block);
    }
  }

  lemma {:induction false} StillMember(t: Forest, nid: int, c: Forest, b: Block)
    requires Single(t) && 0 <= nid && Single(c) && b.moves == {}
    ensures var o := MergeMemberIn(t, nid, c, b); o.tree == MergeMember(t, nid, c) && o.block.moves == {}
    decreases Size(c), 1
  {
    var id := Meets(t, nid, c.name);
    if id >= 0 {
      var k := At(t.kids, nid + 1, id);
      StillMerges(Prepared(k, c), id, c, Grow(b, Size(Prepared(k, c)) - Size(k)));
    } else if Container(c.kind) {
      StillMerges(Empty(c), nid + Size(t), c, Grow(b, 1));
    }
  }

  // ------------------------------------------------------------------ room

  /**
    Wherever a source array with elements meets a tree, that tree is an array already, or not
    smaller, or the block has room for the difference when the blend comes to it.
  */
  ghost predicate Fitting(d: Forest, nid: int, s: Forest, b: Block)
    requires Single(d) && Single(s) && 0 <= nid
    decreases Size(s), 0
  {
    if s.kind == Object then MembersFitting(AsObject(d), nid, s.kids, b)
    else s.kind == Array ==>
      s.kids == Nil || (d.kind == Array && d.value == None) || Size(s) <= Size(d) || b.count + Size(s) - Size(d) <= b.size
  }

  ghost predicate MembersFitting(t: Forest, nid: int, members: Forest, b: Block)
    requires Single(t) && 0 <= nid
    decreases Size(members), 2
  {
    members == Nil ||
    (&& MemberFitting(t, nid, First(members), b)
     && var o := MergeMemberIn(t, nid, First(members), b); MembersFitting(o.tree, nid, members.rest, o.block))
  }

  ghost predicate MemberFitting(t: Forest, nid: int, c: Forest, b: Block)
    requires Single(t) && 0 <= nid && Single(c)
    decreases Size(c), 1
  {
    var id := Meets(t, nid, c.name);
    if id < 0 then Container(c.kind) ==> Fitting(Empty(c), nid + Size(t), c, Grow(b, 1))
    else
      var k := At(t.kids, nid + 1, id);
      Fitting(Prepared(k, c), id, c, Grow(b, Size(Prepared(k, c)) - Size(k)))
  }

  /** With room for the arrays, no allocator makes a difference. */
  lemma {:induction false} FittingStays(d: Forest, nid: int, s: Forest, b: Block, moves: set<int>)
    requires Single(d) && Single(s) && 0 <= nid && b.moves == {} && Fitting(d, nid, s, b)
    ensures var o := MergeIn(d, nid, s, b); MergeIn(d, nid, s, With(b, moves)) == Outcome(o.tree, With(o.block, moves)) && o.block.moves == {}
    decreases Size(s), 0
  {
    if s.kind == Object {
      FittingMembersStay(AsObject(d), nid, s.kids, b, moves);
    }
  }

  lemma {:induction false} FittingMembersStay(t: Forest, nid: int, members: Forest, b: Block, moves: set<int>)
    requires Single(t) && 0 <= nid && b.moves == {} && MembersFitting(t, nid, members, b)
    ensures var o := MergeMembersIn(t, nid, members, b);
      MergeMembersIn(t, nid, members, With(b, moves)) == Outcome(o.tree, With(o.block, moves)) && o.block.moves == {}
    decreases Size(members), 2
  {
    if members != Nil {
      FittingMemberStays(t, nid, First(members), b, moves);
      var o := MergeMemberIn(t, nid, First(members), b);
      FittingMembersStay(o.tree, nid, members.rest, o.block, moves);
    }
  }

  lemma {:induction false} FittingMemberStays(t: Forest, nid: int, c: Forest, b: Block, moves: set<int>)
    requires Single(t) && 0 <= nid && Single(c) && b.moves == {} && MemberFitting(t, nid, c, b)
    ensures var o := MergeMemberIn(t, nid, c, b);
      MergeMemberIn(t, nid, c, With(b, moves)) == Outcome(o.tree, With(o.block, moves)) && o.block.moves == {}
    decreases Size(c), 1
  {
    var id := Meets(t, nid, c.name);
    if id >= 0 {
      var k := At(t.kids, nid + 1, id);
      FittingStays(Prepared(k, c), id, c, Grow(b, Size(Prepared(k, c)) - Size(k)), moves);
    } else if Container(c.kind) {
      FittingStays(Empty(c), nid + Size(t), c, Grow(b, 1), moves);
    }
  }

  // ------------------------------------------------------------------ what one member leaves to the others

  lemma {:induction false} MergeInName(d: Forest, nid: int, s: Forest, b: Block)
    requires Single(d) && Single(s) && 0 <= nid && d.name == s.name && s.name.Some?
    ensures MergeIn(d, nid, s, b).tree.name == d.name
  {
    if s.kind == Object {
      MembersInLabel(AsObject(d), nid, s.kids, b);
    }
  }

  lemma {:induction false} MembersInLabel(t: Forest, nid: int, members: Forest, b: Block)
    requires Single(t) && 0 <= nid
    ensures MergeMembersIn(t, nid, members, b).tree.name == t.name
    decreases Size(members)
  {
    if members != Nil {
      var o := MergeMemberIn(t, nid, First(members), b);
      assert o.tree.name == t.name;
      MembersInLabel(o.tree, nid, members.rest, o.block);
    }
  }

  /** The tree that a member becomes. */
  function MergedIn(t: Forest, nid: int, c: Forest, b: Block): (m: Forest)
    requires Single(t) && 0 <= nid && Single(c)
    ensures Single(m)
  {
    var id := Meets(t, nid, c.name);
    if id < 0 then AddedIn(nid + Size(t), c, b).tree
    else
      var k := At(t.kids, nid + 1, id);
      MergeIn(Prepared(k, c), id, c, Grow(b, Size(Prepared(k, c)) - Size(k))).tree
  }

  lemma MergedInName(t: Forest, nid: int, c: Forest, b: Block)
    requires Single(t) && 0 <= nid && Single(c) && c.name.Some?
    ensures MergedIn(t, nid, c, b).name == c.name
  {
    var id := Meets(t, nid, c.name);
    if id >= 0 {
      var k := At(t.kids, nid + 1, id);
      NamedAt(t.kids, nid + 1, c.name.s);
      MergeInName(Prepared(k, c), id, c, Grow(b, Size(Prepared(k, c)) - Size(k)));
    } else if Container(c.kind) {
      MergeInName(Empty(c), nid + Size(t), c, Grow(b, 1));
    }
  }

  /** A member of the source is found under its name; the other members stay. */
  lemma MemberInChild(t: Forest, nid: int, c: Forest, b: Block, name: string)
    requires Single(t) && 0 <= nid && Single(c) && c.name.Some? && c.name.s != ""
    ensures ChildNamed(MergeMemberIn(t, nid, c, b).tree.kids, name) ==
      if c.name == Some(name) then MergedIn(t, nid, c, b) else ChildNamed(t.kids, name)
  {
    var m := MergedIn(t, nid, c, b);
    MergedInName(t, nid, c, b);
    KidNamedChild(t.kids, nid + 1, c.name.s);
    if Meets(t, nid, c.name) < 0 {
      ChildAppended(t.kids, m, name);
    } else {
      ChildReplaced(t.kids, nid + 1, c.name.s, m, name);
    }
  }

  /** A member that no other member is named like keeps its tree. */
  lemma {:induction false} MembersInKeep(t: Forest, nid: int, members: Forest, b: Block, name: string)
    requires Single(t) && 0 <= nid && CleanMembers(members) && Lacks(members, name)
    ensures ChildNamed(MergeMembersIn(t, nid, members, b).tree.kids, name) == ChildNamed(t.kids, name)
    decreases Size(members)
  {
    if members != Nil {
      var o := MergeMemberIn(t, nid, First(members), b);
      MemberInChild(t, nid, First(members), b, name);
      MembersInKeep(o.tree, nid, members.rest, o.block, name);
    }
  }

  // ------------------------------------------------------------------ without room

  /** Without room for some array, an allocator that moves the block just there leaves another tree. */
  lemma {:induction false} Unfit(d: Forest, nid: int, s: Forest, b: Block) returns (moves: set<int>)
    requires Single(d) && Single(s) && 0 <= nid && b.moves == {} && Clean(s) && !Fitting(d, nid, s, b)
    ensures MergeIn(d, nid, s, With(b, moves)).tree != MergeIn(d, nid, s, b).tree
    decreases Size(s), 0
  {
    if s.kind == Object {
      moves := MembersUnfit(AsObject(d), nid, s.kids, b);
    } else {
      moves := {b.size};
    }
  }

  lemma {:induction false} MembersUnfit(t: Forest, nid: int, members: Forest, b: Block) returns (moves: set<int>)
    requires Single(t) && 0 <= nid && b.moves == {} && CleanMembers(members) && !MembersFitting(t, nid, members, b)
    ensures MergeMembersIn(t, nid, members, With(b, moves)).tree != MergeMembersIn(t, nid, members, b).tree
    decreases Size(members), 2
  {
    var c := First(members);
    var o := MergeMemberIn(t, nid, c, b);
    if MemberFitting(t, nid, c, b) {
      FittingMemberStays(t, nid, c, b, {});
      moves := MembersUnfit(o.tree, nid, members.rest, o.block);
      FittingMemberStays(t, nid, c, b, moves);
    } else {
      moves := MemberUnfit(t, nid, c, b);
      var p := MergeMemberIn(t, nid, c, With(b, moves));
      MembersInKeep(o.tree, nid, members.rest, o.block, c.name.s);
      MembersInKeep(p.tree, nid, members.rest, p.block, c.name.s);
      MemberInChild(t, nid, c, b, c.name.s);
      MemberInChild(t, nid, c, With(b, moves), c.name.s);
    }
  }

  lemma {:induction false} MemberUnfit(t: Forest, nid: int, c: Forest, b: Block) returns (moves: set<int>)
    requires Single(t) && 0 <= nid && Single(c) && Clean(c) && b.moves == {} && !MemberFitting(t, nid, c, b)
    ensures MergedIn(t, nid, c, With(b, moves)) != MergedIn(t, nid, c, b)
    decreases Size(c), 1
  {
    var id := Meets(t, nid, c.name);
    if id < 0 {
      moves := Unfit(Empty(c), nid + Size(t), c, Grow(b, 1));
    } else {
      var k := At(t.kids, nid + 1, id);
      moves := Unfit(Prepared(k, c), id, c, Grow(b, Size(Prepared(k, c)) - Size(k)));
    }
  }

  /** A blend leaves the merge for every allocator if and only if the arrays find room. */
  lemma BlendIsMergeIff(d: Forest, nid: int, s: Forest, count: int, size: int)
    requires Single(d) && Single(s) && Clean(s) && 0 <= nid
    ensures (forall moves: set<int> :: MergeIn(d, nid, s, Block(count, size, moves)).tree == Merge(d, nid, s))
      <==> Fitting(d, nid, s, Block(count, size, {}))
  {
    var b := Block(count, size, {});
    StillMerges(d, nid, s, b);
    if Fitting(d, nid, s, b) {
      forall moves: set<int> ensures MergeIn(d, nid, s, Block(count, size, moves)).tree == Merge(d, nid, s) {
        FittingStays(d, nid, s, b, moves);
      }
    } else {
      var moves := Unfit(d, nid, s, b);
      assert MergeIn(d, nid, s, Block(count, size, moves)).tree != Merge(d, nid, s);
    }
  }

  // ------------------------------------------------------------------ enough room

  /** Room for as many nodes as the source has below its root is room enough. */
  lemma {:induction false} RoomEnough(d: Forest, nid: int, s: Forest, b: Block)
    requires Single(d) && Single(s) && 0 <= nid && b.count + Size(s.kids) <= b.size
    ensures Fitting(d, nid, s, b)
    ensures var o := MergeIn(d, nid, s, b); o.block.size == b.size && o.block.count <= b.count + Size(s.kids)
    decreases Size(s), 0
  {
    assert Size(d) == 1 + Size(d.kids) && Size(s) == 1 + Size(s.kids);
    if s.kind == Object {
      RoomForMembers(AsObject(d), nid, s.kids, b);
    }
  }

  lemma {:induction false} RoomForMembers(t: Forest, nid: int, members: Forest, b: Block)
    requires Single(t) && 0 <= nid && b.count + Size(members) <= b.size
    ensures MembersFitting(t, nid, members, b)
    ensures var o := MergeMembersIn(t, nid, members, b); o.block.size == b.size && o.block.count <= b.count + Size(members)
    decreases Size(members), 2
  {
    if members != Nil {
      var o := MergeMemberIn(t, nid, First(members), b);
      RoomForMember(t, nid, First(members), b);
      RoomForMembers(o.tree, nid, members.rest, o.block);
    }
  }

  lemma {:induction false} RoomForMember(t: Forest, nid: int, c: Forest, b: Block)
    requires Single(t) && 0 <= nid && Single(c) && b.count + Size(c) <= b.size
    ensures MemberFitting(t, nid, c, b)
    ensures var o := MergeMemberIn(t, nid, c, b); o.block.size == b.size && o.block.count <= b.count + Size(c)
    decreases Size(c), 1
  {
    var id := Meets(t, nid, c.name);
    assert Size(c) == 1 + Size(c.kids);
    if id >= 0 {
      var k := At(t.kids, nid + 1, id);
      assert Size(k) == 1 + Size(k.kids);
      RoomEnough(Prepared(k, c), id, c, Grow(b, Size(Prepared(k, c)) - Size(k)));
    } else if Container(c.kind) {
      RoomEnough(Empty(c), nid + Size(t), c, Grow(b, 1));
    }
  }
}
