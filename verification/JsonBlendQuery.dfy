/**
  What queries find after a blend (bin/json.c:2821-3025): what the source has, overwrites; what
  it does not mention, stays. All of this holds for every allocator.
*/
module JsonBlendQuery {
  import opened JsonForest
  import opened JsonArray
  import opened JsonQuery
  import opened JsonPaths
  import opened JsonBlend
  import opened JsonMerge
  import opened JsonMoves

  /** A string as a blend copies it: a missing one may become an empty one. */
  predicate Passed(a: Opt, b: Opt) {
    b == a || (a == None && b == Some(""))
  }

  /** The steps lead from t through objects. */
  ghost predicate ThroughObjects(t: Forest, steps: seq<Step>)
    requires Single(t) || t == Nil
    decreases |steps|
  {
    steps == [] || t == Nil || (t.kind == Object && ThroughObjects(Child(t, steps[0].name), steps[1..]))
  }

  /** No object has a value. */
  ghost predicate Valueless(f: Forest) {
    match f
    case Nil => true
    case Cons(_, value, kind, kids, rest) => (kind == Object ==> value == None) && Valueless(kids) && Valueless(rest)
  }

  lemma {:induction false} ChildValueless(f: Forest, name: string)
    requires Valueless(f)
    ensures Valueless(ChildNamed(f, name))
  {
    match f
    case Nil =>
    case Cons(n, _, _, _, rest) =>
      if n == Some(name) {
        assert Valueless(Nil);
      } else {
        ChildValueless(rest, name);
      }
  }

  /**
    What a blend leaves of a tree c of the source: of a scalar its type, value and name; of an
    array copies of its elements, and the type unless an allocator moves the block, or there are
    none; of an object an object. It was blended into d.
  */
  ghost predicate Arrived(d: Forest, c: Forest, r: Forest, still: bool)
    requires Single(c) && Single(r)
  {
    if c.kind == Object then r.kind == Object && (Valueless(d) ==> r.value == None)
    else if c.kind == Array then r.kids == Copies(c.kids) && (still && c.kids != Nil ==> r.kind == Array && r.value == None)
    else r.kind == c.kind && Passed(c.value, r.value) && Passed(c.name, r.name)
  }

  // ------------------------------------------------------------------ one member

  /** A blend does not change the allocator. */
  lemma {:induction false} MovesStay(d: Forest, nid: int, s: Forest, b: Block)
    requires Single(d) && Single(s) && 0 <= nid
    ensures MergeIn(d, nid, s, b).block.moves == b.moves
    decreases Size(s), 0
  {
    if s.kind == Object {
      MembersMovesStay(AsObject(d), nid, s.kids, b);
    }
  }

  lemma {:induction false} MembersMovesStay(t: Forest, nid: int, members: Forest, b: Block)
    requires Single(t) && 0 <= nid
    ensures MergeMembersIn(t, nid, members, b).block.moves == b.moves
    decreases Size(members), 2
  {
    if members != Nil {
      MemberMovesStay(t, nid, First(members), b);
      var o := MergeMemberIn(t, nid, First(members), b);
      MembersMovesStay(o.tree, nid, members.rest, o.block);
    }
  }

  lemma {:induction false} MemberMovesStay(t: Forest, nid: int, c: Forest, b: Block)
    requires Single(t) && 0 <= nid && Single(c)
    ensures MergeMemberIn(t, nid, c, b).block.moves == b.moves
    decreases Size(c), 1
  {
    var id := Meets(t, nid, c.name);
    if id >= 0 {
      var k := At(t.kids, nid + 1, id);
      MovesStay(Prepared(k, c), id, c, Grow(b, Size(Prepared(k, c)) - Size(k)));
    } else if Container(c.kind) {
      MovesStay(Empty(c), nid + Size(t), c, Grow(b, 1));
    }
  }

  // The member named `name` is merged when its turn comes, with the tree that was there before the first.
  lemma {:induction false} MembersInChild(t: Forest, nid: int, members: Forest, b: Block, name: string)
    returns (u: Forest, at: Block)
    requires Single(t) && 0 <= nid && CleanMembers(members) && ChildNamed(members, name) != Nil
    ensures Single(u) && u.kind == t.kind && ChildNamed(u.kids, name) == ChildNamed(t.kids, name) && at.moves == b.moves
    ensures ChildNamed(MergeMembersIn(t, nid, members, b).tree.kids, name) == MergedIn(u, nid, ChildNamed(members, name), at)
    decreases Size(members)
  {
    var c := First(members);
    var o := MergeMemberIn(t, nid, c, b);
    MemberInChild(t, nid, c, b, name);
    if c.name == Some(name) {
      u, at := t, b;
      MembersInKeep(o.tree, nid, members.rest, o.block, name);
    } else {
      MemberMovesStay(t, nid, c, b);
      u, at := MembersInChild(o.tree, nid, members.rest, o.block, name);
    }
  }

  lemma {:induction false} ChildClean(f: Forest, name: string)
    requires CleanMembers(f) && ChildNamed(f, name) != Nil
    ensures var c := ChildNamed(f, name); Clean(c) && c.name == Some(name) && name != "" && Size(c) <= Size(f)
    decreases Size(f)
  {
    if f.name != Some(name) {
      ChildClean(f.rest, name);
    }
  }

  // What a member becomes: itself, or the merge with what was there.
  lemma Became(u: Forest, nid: int, c: Forest, b: Block) returns (d: Forest, at: int, k: Block)
    requires Single(u) && 0 <= nid && Single(c) && c.name.Some? && c.name.s != ""
    ensures Single(d) && 0 <= at && k.moves == b.moves
    ensures ChildNamed(u.kids, c.name.s) == Nil ==> d == Empty(c)
    ensures var old_ := ChildNamed(u.kids, c.name.s); old_ != Nil ==> d == Prepared(old_, c)
    ensures MergedIn(u, nid, c, b) == if ChildNamed(u.kids, c.name.s) == Nil && !Container(c.kind)
      then Cons(c.name, c.value, c.kind, Nil, Nil) else MergeIn(d, at, c, k).tree
  {
    var id := Meets(u, nid, c.name);
    KidNamedChild(u.kids, nid + 1, c.name.s);
    if id < 0 {
      d, at, k := Empty(c), nid + Size(u), Grow(b, 1);
    } else {
      var old_ := At(u.kids, nid + 1, id);
      d, at, k := Prepared(old_, c), id, Grow(b, Size(Prepared(old_, c)) - Size(old_));
    }
  }

  // ------------------------------------------------------------------ what the source has

  /** Wherever member names lead in the source, the same names lead to what a blend leaves of it. */
  lemma {:induction false} Arrives(d: Forest, nid: int, s: Forest, b: Block, steps: seq<Step>)
    requires Single(d) && Single(s) && Clean(s) && 0 <= nid && ThroughObjects(s, steps) && Follow(s, steps) != Nil
    ensures var r := Follow(MergeIn(d, nid, s, b).tree, steps); r != Nil && Arrived(d, Follow(s, steps), r, b.moves == {})
    decreases |steps|
  {
    if s.kind == Object {
      MembersInLabels(AsObject(d), nid, s.kids, b);
    }
    if steps != [] {
      var name := steps[0].name;
      var c := ChildNamed(s.kids, name);
      assert c == Child(s, name);
      ChildClean(s.kids, name);
      var u, at := MembersInChild(AsObject(d), nid, s.kids, b, name);
      var e, eid, k := Became(u, nid, c, at);
      StillValueless(d, name, c, e);
      if !(ChildNamed(u.kids, name) == Nil && !Container(c.kind)) {
        Arrives(e, eid, c, k, steps[1..]);
      } else {
        assert steps[1..] == [] by {
          ScalarEnds(c, steps[1..]);
        }
      }
    }
  }

  // So is what a member is blended into.
  lemma StillValueless(d: Forest, name: string, c: Forest, e: Forest)
    requires Single(d) && Single(c)
    requires e == if ChildNamed(d.kids, name) == Nil then Empty(c) else Prepared(ChildNamed(d.kids, name), c)
    ensures Valueless(d) ==> Valueless(e)
  {
    if Valueless(d) {
      ChildValueless(d.kids, name);
      assert Valueless(Nil);
    }
  }

  // Nothing is below a scalar.
  lemma ScalarEnds(c: Forest, steps: seq<Step>)
    requires Single(c) && !Container(c.kind) && ThroughObjects(c, steps)
    ensures steps == []
  {
  }

  lemma {:induction false} MembersInLabels(t: Forest, nid: int, members: Forest, b: Block)
    requires Single(t) && 0 <= nid
    ensures var u := MergeMembersIn(t, nid, members, b).tree; u.kind == t.kind && u.value == t.value && u.name == t.name
    decreases Size(members)
  {
    if members != Nil {
      var o := MergeMemberIn(t, nid, First(members), b);
      assert o.tree.kind == t.kind && o.tree.value == t.value && o.tree.name == t.name;
      MembersInLabels(o.tree, nid, members.rest, o.block);
    }
  }

  /** jsonBlend, then a query for a path of the source: it finds what the source has there, whatever the destination had. */
  lemma BlendThenQuery(f: Forest, did: int, s: Forest, b: Block, steps: seq<Step>)
    requires 0 <= did < Size(f) && Single(s) && Clean(s) && ThroughObjects(s, steps) && Follow(s, steps) != Nil
    ensures var g := ReplaceAt(f, 0, did, MergeIn(At(f, 0, did), did, s, b).tree);
      did < Size(g) && var id := Walk(g, did, steps);
      0 <= id < Size(g) && Arrived(At(f, 0, did), Follow(s, steps), At(g, 0, id), b.moves == {})
  {
    var u := MergeIn(At(f, 0, did), did, s, b).tree;
    AtReplaced(f, 0, did, u);
    Arrives(At(f, 0, did), did, s, b, steps);
    WalkFollows(ReplaceAt(f, 0, did, u), did, steps);
  }

  // ------------------------------------------------------------------ what the source does not mention

  /** The steps lead through objects of the source to one that lacks the next name; on the way the destination has objects, if anything. */
  ghost predicate Unmentioned(d: Forest, s: Forest, steps: seq<Step>)
    requires (Single(d) || d == Nil) && Single(s)
    decreases |steps|
  {
    && steps != [] && steps[0].name != "" && s.kind == Object && (d == Nil || d.kind == Object)
    && var c := ChildNamed(s.kids, steps[0].name);
    c == Nil || Unmentioned(if d == Nil then Nil else ChildNamed(d.kids, steps[0].name), c, steps[1..])
  }

  lemma {:induction false} Remains(d: Forest, nid: int, s: Forest, b: Block, steps: seq<Step>)
    requires Single(d) && Single(s) && Clean(s) && 0 <= nid && Unmentioned(d, s, steps)
    ensures Follow(MergeIn(d, nid, s, b).tree, steps) == Follow(d, steps)
    decreases |steps|
  {
    var name := steps[0].name;
    var c := ChildNamed(s.kids, name);
    MembersInLabels(d, nid, s.kids, b);
    if c == Nil {
      LacksChild(s.kids, name);
      MembersInKeep(d, nid, s.kids, b, name);
    } else {
      ChildClean(s.kids, name);
      var u, at := MembersInChild(d, nid, s.kids, b, name);
      var e, eid, k := Became(u, nid, c, at);
      MoreUnmentioned(ChildNamed(d.kids, name), e, c, steps[1..]);
      Remains(e, eid, c, k, steps[1..]);
    }
  }

  // A member that is new starts without members.
  lemma MoreUnmentioned(d: Forest, e: Forest, c: Forest, steps: seq<Step>)
    requires (Single(d) || d == Nil) && Single(e) && Single(c) && Unmentioned(d, c, steps)
    requires e == if d == Nil then Empty(c) else Prepared(d, c)
    ensures Unmentioned(e, c, steps) && Follow(e, steps) == Follow(d, steps)
  {
  }

  /** jsonBlend, then a query for a path that the source does not mention: it finds what it found before. */
  lemma BlendThenOtherQuery(f: Forest, did: int, s: Forest, b: Block, steps: seq<Step>)
    requires 0 <= did < Size(f) && Single(s) && Clean(s) && Unmentioned(At(f, 0, did), s, steps)
    ensures var g := ReplaceAt(f, 0, did, MergeIn(At(f, 0, did), did, s, b).tree);
      did < Size(g) && var old_, new_ := Walk(f, did, steps), Walk(g, did, steps);
      && (old_ < 0 <==> new_ < 0)
      && (old_ >= 0 ==> old_ < Size(f) && new_ < Size(g) && At(g, 0, new_) == At(f, 0, old_))
  {
    var u := MergeIn(At(f, 0, did), did, s, b).tree;
    AtReplaced(f, 0, did, u);
    Remains(At(f, 0, did), did, s, b, steps);
    WalkFollows(f, did, steps);
    WalkFollows(ReplaceAt(f, 0, did, u), did, steps);
  }
}
