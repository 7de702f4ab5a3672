/**
  What a blend without flags leaves behind as long as no array is overwritten through a stale
  pointer: the merge of two trees, and its laws.
*/
module JsonMerge {
  import opened JsonForest
  import opened JsonArray
  import opened JsonQuery
  import opened JsonPaths
  import opened JsonBlend

  // ------------------------------------------------------------------ the merge

  /** The tree that a source tree leaves in the place of the destination tree at `nid`. */
  function Merge(d: Forest, nid: int, s: Forest): (t: Forest)
    requires Single(d) && Single(s) && 0 <= nid
    ensures Single(t)
    decreases Size(s), 0
  {
    if s.kind == Object then MergeMembers(AsObject(d), nid, s.kids)
    else if s.kind == Array then ArrayOver(d, s, false)
    else ScalarOver(d, s)
  }

  /** Merge a list of members, first to last: present ones in place, new ones at the end. */
  function MergeMembers(t: Forest, nid: int, members: Forest): (u: Forest)
    requires Single(t) && 0 <= nid
    ensures Single(u)
    decreases Size(members), 3
  {
    if members == Nil then t else MergeMembers(MergeMember(t, nid, First(members)), nid, members.rest)
  }

  function MergeMember(t: Forest, nid: int, c: Forest): (u: Forest)
    requires Single(t) && 0 <= nid && Single(c)
    ensures Single(u)
    decreases Size(c), 2
  {
    var id := Meets(t, nid, c.name);
    if id < 0 then t.(kids := Append(t.kids, Added(nid + Size(t), c)))
    else t.(kids := ReplaceAt(t.kids, nid + 1, id, Merge(Prepared(At(t.kids, nid + 1, id), c), id, c)))
  }

  // The tree that a member without a counterpart adds.
  function Added(at: int, c: Forest): (t: Forest)
    requires Single(c) && 0 <= at
    ensures Single(t)
    decreases Size(c), 1
  {
    if Container(c.kind) then Merge(Empty(c), at, c) else Cons(c.name, c.value, c.kind, Nil, Nil)
  }

  // ------------------------------------------------------------------ indices do not matter

  lemma {:induction false} KidNamedBase(f: Forest, a: int, b: int, name: string)
    requires 0 <= a && 0 <= b
    ensures KidNamed(f, a, name) < 0 <==> KidNamed(f, b, name) < 0
    ensures KidNamed(f, a, name) >= 0 ==> KidNamed(f, a, name) - a == KidNamed(f, b, name) - b
    decreases f
  {
    match f
    case Nil =>
    case Cons(_, _, _, kids, rest) => KidNamedBase(rest, a + 1 + Size(kids), b + 1 + Size(kids), name);
  }

  lemma {:induction false} AtBase(f: Forest, a: int, b: int, i: int, g: Forest)
    requires 0 <= i < Size(f)
    ensures At(f, a, a + i) == At(f, b, b + i) && ReplaceAt(f, a, a + i, g) == ReplaceAt(f, b, b + i, g)
    decreases f
  {
    var k := 1 + Size(f.kids);
    if i == 0 {
    } else if i < k {
      AtBase(f.kids, a + 1, b + 1, i - 1, g);
    } else {
      AtBase(f.rest, a + k, b + k, i - k, g);
    }
  }

  /** The merged tree does not depend on where in the document it is. */
  lemma {:induction false} MergeBase(d: Forest, a: int, b: int, s: Forest)
    requires Single(d) && Single(s) && 0 <= a && 0 <= b
    ensures Merge(d, a, s) == Merge(d, b, s)
    decreases Size(s), 0
  {
    if s.kind == Object {
      MembersBase(AsObject(d), a, b, s.kids);
    }
  }

  lemma {:induction false} MembersBase(t: Forest, a: int, b: int, members: Forest)
    requires Single(t) && 0 <= a && 0 <= b
    ensures MergeMembers(t, a, members) == MergeMembers(t, b, members)
    decreases Size(members), 2
  {
    if members != Nil {
      MemberBase(t, a, b, First(members));
      MembersBase(MergeMember(t, a, First(members)), a, b, members.rest);
    }
  }

  lemma {:induction false} MemberBase(t: Forest, a: int, b: int, c: Forest)
    requires Single(t) && Single(c) && 0 <= a && 0 <= b
    ensures MergeMember(t, a, c) == MergeMember(t, b, c)
    decreases Size(c), 1
  {
    var x, y := Meets(t, a, c.name), Meets(t, b, c.name);
    if c.name.Some? {
      KidNamedBase(t.kids, a + 1, b + 1, c.name.s);
    }
    if x < 0 {
      if Container(c.kind) {
        MergeBase(Empty(c), a + Size(t), b + Size(t), c);
      }
    } else {
      var p := Prepared(At(t.kids, a + 1, x), c);
      AtBase(t.kids, a + 1, b + 1, x - a - 1, Merge(p, x, c));
      MergeBase(p, x, y, c);
    }
  }

  // ------------------------------------------------------------------ copying

  /** No root is named `name`. */
  ghost predicate Lacks(f: Forest, name: string) {
    f == Nil || (f.name != Some(name) && Lacks(f.rest, name))
  }

  /** A tree as the parser makes it: containers have no value, scalars no children, members distinct names. */
  ghost predicate Clean(s: Forest)
    requires Single(s)
    decreases Size(s), 1
  {
    && (Container(s.kind) ==> s.value == None)
    && (s.kind == Object ==> CleanMembers(s.kids))
    && (!Container(s.kind) ==> s.kids == Nil)
  }

  ghost predicate CleanMembers(f: Forest)
    decreases Size(f), 2
  {
    f == Nil ||
    (f.name.Some? && f.name.s != "" && Lacks(f.rest, f.name.s) && Clean(First(f)) && CleanMembers(f.rest))
  }

  lemma {:induction false} LacksNoKid(f: Forest, at: int, name: string)
    requires 0 <= at
    ensures Lacks(f, name) <==> KidNamed(f, at, name) < 0
    decreases f
  {
    match f
    case Nil =>
    case Cons(_, _, _, kids, rest) => LacksNoKid(rest, at + 1 + Size(kids), name);
  }

  lemma {:induction false} LacksAppended(f: Forest, c: Forest, name: string)
    requires Lacks(f, name) && Single(c) && c.name != Some(name)
    ensures Lacks(Append(f, c), name)
  {
    match f
    case Nil =>
    case Cons(_, _, _, _, rest) => LacksAppended(rest, c, name);
  }

  /** None of the roots of `members` is named like a root of `f`. */
  ghost predicate Disjoint(f: Forest, members: Forest) {
    members == Nil || (members.name.Some? && Lacks(f, members.name.s) && Disjoint(f, members.rest))
  }

  lemma {:induction false} DisjointAppended(f: Forest, c: Forest, members: Forest)
    requires Single(c) && c.name.Some? && Lacks(members, c.name.s) && Disjoint(f, members)
    ensures Disjoint(Append(f, c), members)
  {
    if members != Nil {
      LacksAppended(f, c, members.name.s);
      DisjointAppended(f, c, members.rest);
    }
  }

  lemma {:induction false} DisjointNil(members: Forest)
    requires CleanMembers(members)
    ensures Disjoint(Nil, members)
    decreases members
  {
    if members != Nil {
      DisjointNil(members.rest);
    }
  }

  lemma {:induction false} AppendAssociative(f: Forest, g: Forest, h: Forest)
    ensures Append(Append(f, g), h) == Append(f, Append(g, h))
  {
    match f
    case Nil =>
    case Cons(_, _, _, _, rest) => AppendAssociative(rest, g, h);
  }

  /** The copies that a blend makes of new members: below arrays, missing names and values become empty strings. */
  function Duplicate(f: Forest): (g: Forest)
    ensures Size(g) == Size(f) && (Single(f) ==> Single(g))
  {
    match f
    case Nil => Nil
    case Cons(name, value, kind, kids, rest) =>
      Cons(name, value, kind, if kind == Object then Duplicate(kids) else if kind == Array then Copies(kids) else kids, Duplicate(rest))
  }

  /** Merging a clean tree into an empty container of its kind and name duplicates it. */
  lemma {:induction false} MergeCopies(nid: int, s: Forest)
    requires Single(s) && Clean(s) && Container(s.kind) && 0 <= nid
    ensures Merge(Empty(s), nid, s) == Duplicate(s)
    decreases Size(s), 1
  {
    assert Duplicate(Nil) == Nil;
    if s.kind == Object {
      DisjointNil(s.kids);
      MembersCopied(Empty(s), nid, s.kids);
    }
  }

  /** New members are appended in the order of the source. */
  lemma {:induction false} MembersCopied(t: Forest, nid: int, members: Forest)
    requires Single(t) && CleanMembers(members) && Disjoint(t.kids, members) && 0 <= nid
    ensures MergeMembers(t, nid, members) == t.(kids := Append(t.kids, Duplicate(members)))
    decreases Size(members), 3
  {
    if members == Nil {
      AppendNil(t.kids);
    } else {
      var c := First(members);
      MemberCopied(t, nid, c);
      DisjointAppended(t.kids, Duplicate(c), members.rest);
      MembersCopied(t.(kids := Append(t.kids, Duplicate(c))), nid, members.rest);
      AppendAssociative(t.kids, Duplicate(c), Duplicate(members.rest));
      FirstDuplicated(members);
    }
  }

  lemma {:induction false} MemberCopied(t: Forest, nid: int, c: Forest)
    requires Single(t) && 0 <= nid && Single(c) && Clean(c) && c.name.Some? && Lacks(t.kids, c.name.s)
    ensures MergeMember(t, nid, c) == t.(kids := Append(t.kids, Duplicate(c)))
    decreases Size(c), 2
  {
    LacksNoKid(t.kids, nid + 1, c.name.s);
    assert Duplicate(Nil) == Nil;
    if Container(c.kind) {
      MergeCopies(nid + Size(t), c);
    }
  }

  lemma FirstDuplicated(members: Forest)
    requires members.Cons?
    ensures Append(Duplicate(First(members)), Duplicate(members.rest)) == Duplicate(members)
  {
    var c := Duplicate(First(members));
    assert Duplicate(Nil) == Nil;
    assert Append(c, Duplicate(members.rest)) == c.(rest := Append(c.rest, Duplicate(members.rest)));
    assert Append(c.rest, Duplicate(members.rest)) == Duplicate(members.rest);
  }

  // ------------------------------------------------------------------ merging member by member

  /** What a member of the source leaves in the destination: merged with the member it meets, or duplicated. */
  function MergedMember(old_: Forest, c: Forest): (t: Forest)
    requires (Single(old_) || old_ == Nil) && Single(c)
  {
    if old_ == Nil then Duplicate(c) else Merge(Prepared(old_, c), 0, c)
  }

  lemma MergeMemberChild(t: Forest, nid: int, c: Forest, name: string)
    requires Single(t) && 0 <= nid && Single(c) && Clean(c) && c.name.Some? && c.name.s != ""
    ensures ChildNamed(MergeMember(t, nid, c).kids, name) ==
      if c.name == Some(name) then MergedMember(ChildNamed(t.kids, name), c) else ChildNamed(t.kids, name)
  {
    var id := Meets(t, nid, c.name);
    KidNamedChild(t.kids, nid + 1, c.name.s);
    LacksNoKid(t.kids, nid + 1, c.name.s);
    if id < 0 {
      MemberCopied(t, nid, c);
      ChildAppended(t.kids, Duplicate(c), name);
    } else {
      var p := Prepared(At(t.kids, nid + 1, id), c);
      NamedAt(t.kids, nid + 1, c.name.s);
      MergeName(p, id, c);
      MergeBase(p, id, 0, c);
      ChildReplaced(t.kids, nid + 1, c.name.s, Merge(p, id, c), name);
    }
  }

  lemma {:induction false} MergeName(d: Forest, nid: int, s: Forest)
    requires Single(d) && Single(s) && 0 <= nid && d.name == s.name && s.name.Some?
    ensures Merge(d, nid, s).name == d.name
  {
    if s.kind == Object {
      MembersLabel(AsObject(d), nid, s.kids);
    }
  }

  lemma {:induction false} MembersLabel(t: Forest, nid: int, members: Forest)
    requires Single(t) && 0 <= nid
    ensures var u := MergeMembers(t, nid, members); u.name == t.name && u.value == t.value && u.kind == t.kind
    decreases Size(members)
  {
    if members != Nil {
      MembersLabel(MergeMember(t, nid, First(members)), nid, members.rest);
    }
  }

  /** A merged object has the members of both: those of one side as they are, those of both sides merged. */
  lemma {:induction false} MergeMembersChild(t: Forest, nid: int, members: Forest, name: string)
    requires Single(t) && 0 <= nid && CleanMembers(members)
    ensures ChildNamed(MergeMembers(t, nid, members).kids, name) ==
      if ChildNamed(members, name) == Nil then ChildNamed(t.kids, name)
      else MergedMember(ChildNamed(t.kids, name), ChildNamed(members, name))
    decreases Size(members)
  {
    if members != Nil {
      var c := First(members);
      MergeMemberChild(t, nid, c, name);
      MergeMembersChild(MergeMember(t, nid, c), nid, members.rest, name);
      if c.name == Some(name) {
        LacksChild(members.rest, name);
      }
    }
  }

  lemma {:induction false} LacksChild(f: Forest, name: string)
    ensures Lacks(f, name) <==> ChildNamed(f, name) == Nil
  {
    match f
    case Nil =>
    case Cons(_, _, _, _, rest) => LacksChild(rest, name);
  }

  /** The names of the roots, in order. */
  function Names(f: Forest): seq<Opt> {
    match f
    case Nil => []
    case Cons(name, _, _, _, rest) => [name] + Names(rest)
  }

  /** The names of the members that `f` lacks, in order. */
  ghost function NewNames(f: Forest, members: Forest): seq<Opt> {
    match members
    case Nil => []
    case Cons(name, _, _, _, rest) => (if name.Some? && Lacks(f, name.s) then [name] else []) + NewNames(f, rest)
  }

  lemma {:induction false} NamesAppended(f: Forest, c: Forest)
    requires Single(c)
    ensures Names(Append(f, c)) == Names(f) + [c.name]
  {
    match f
    case Nil =>
    case Cons(_, _, _, _, rest) => NamesAppended(rest, c);
  }

  lemma {:induction false} NamesReplaced(f: Forest, at: int, name: string, c: Forest)
    requires 0 <= at && Single(c) && c.name == Some(name) && KidNamed(f, at, name) >= 0
    ensures Names(ReplaceAt(f, at, KidNamed(f, at, name), c)) == Names(f)
    decreases f
  {
    if f.name == Some(name) {
      assert Append(c, f.rest) == c.(rest := Append(c.rest, f.rest));
      assert Append(c.rest, f.rest) == f.rest;
    } else {
      NamesReplaced(f.rest, at + 1 + Size(f.kids), name, c);
    }
  }

  lemma {:induction false} LacksNames(f: Forest, name: string)
    ensures Lacks(f, name) <==> Some(name) !in Names(f)
  {
    match f
    case Nil =>
    case Cons(_, _, _, _, rest) => LacksNames(rest, name);
  }

  lemma {:induction false} NewNamesSame(f: Forest, g: Forest, members: Forest)
    requires forall n: string :: members != Nil && Some(n) in Names(members) ==> (Lacks(f, n) <==> Lacks(g, n))
    ensures NewNames(f, members) == NewNames(g, members)
  {
    match members
    case Nil =>
    case Cons(name, _, _, _, rest) =>
      assert forall n :: n in Names(rest) ==> n in Names(members);
      NewNamesSame(f, g, rest);
      assert name in Names(members);
  }

  /** Members that were there stay in place; new ones follow in the order of the source. */
  lemma {:induction false} MergeMembersNames(t: Forest, nid: int, members: Forest)
    requires Single(t) && 0 <= nid && CleanMembers(members)
    ensures Names(MergeMembers(t, nid, members).kids) == Names(t.kids) + NewNames(t.kids, members)
    decreases Size(members)
  {
    if members != Nil {
      var c := First(members);
      var u := MergeMember(t, nid, c);
      MergeMemberNames(t, nid, c);
      NewNamesLeft(t, nid, c, members.rest);
      MergeMembersNames(u, nid, members.rest);
    }
  }

  // The new names of the other members are the same after a member was merged.
  lemma NewNamesLeft(t: Forest, nid: int, c: Forest, members: Forest)
    requires Single(t) && 0 <= nid && Single(c) && Clean(c) && c.name.Some? && c.name.s != "" && Lacks(members, c.name.s)
    ensures NewNames(MergeMember(t, nid, c).kids, members) == NewNames(t.kids, members)
  {
    var u := MergeMember(t, nid, c);
    MergeMemberNames(t, nid, c);
    LacksNames(members, c.name.s);
    forall n: string | Some(n) in Names(members) ensures Lacks(u.kids, n) <==> Lacks(t.kids, n) {
      LacksNames(t.kids, n);
      LacksNames(u.kids, n);
    }
    NewNamesSame(u.kids, t.kids, members);
  }

  lemma MergeMemberNames(t: Forest, nid: int, c: Forest)
    requires Single(t) && 0 <= nid && Single(c) && Clean(c) && c.name.Some? && c.name.s != ""
    ensures Names(MergeMember(t, nid, c).kids) == Names(t.kids) + (if Lacks(t.kids, c.name.s) then [c.name] else [])
  {
    var id := Meets(t, nid, c.name);
    LacksNoKid(t.kids, nid + 1, c.name.s);
    if id < 0 {
      MemberCopied(t, nid, c);
      NamesAppended(t.kids, Duplicate(c));
    } else {
      var p := Prepared(At(t.kids, nid + 1, id), c);
      NamedAt(t.kids, nid + 1, c.name.s);
      MergeName(p, id, c);
      NamesReplaced(t.kids, nid + 1, c.name.s, Merge(p, id, c));
    }
  }
}
