/**
  What an update means for every query: the path just set yields the value set, and a path
  that is neither a prefix nor an extension of it answers as before.
*/
module JsonPaths {
  import opened JsonForest
  import opened JsonArray
  import opened JsonQuery

  // ------------------------------------------------------------------ queries without indices

  /** The first tree of the list with the given name, or Nil. */
  function ChildNamed(f: Forest, name: string): (c: Forest)
    ensures c == Nil || Single(c)
  {
    match f
    case Nil => Nil
    case Cons(n, _, _, _, rest) => if n == Some(name) then f.(rest := Nil) else ChildNamed(rest, name)
  }

  function ChildValued(f: Forest, value: string): (c: Forest)
    ensures c == Nil || Single(c)
  {
    match f
    case Nil => Nil
    case Cons(_, v, _, _, rest) => if v == Some(value) then f.(rest := Nil) else ChildValued(rest, value)
  }

  function ChildAt(f: Forest, n: nat): (c: Forest)
    ensures c == Nil || Single(c)
  {
    match f
    case Nil => Nil
    case Cons(_, _, _, _, rest) => if n == 0 then f.(rest := Nil) else ChildAt(rest, n - 1)
  }

  /** The child that a property names, or Nil. */
  function Child(t: Forest, property: string): (c: Forest)
    requires Single(t)
    ensures c == Nil || Single(c)
  {
    if property == "" then Nil
    else if t.kind == Array then
      if !IsDigit(property[0]) then ChildValued(t.kids, property) else ChildAt(t.kids, Digits(property, 0))
    else if t.kind == Object then ChildNamed(t.kids, property)
    else Nil
  }

  /** The subtree that the steps lead to, or Nil. */
  function Follow(t: Forest, steps: seq<Step>): (u: Forest)
    requires Single(t) || t == Nil
    ensures Single(u) || u == Nil
    decreases |steps|
  {
    if t == Nil || steps == [] then t
    else
      Follow(Child(t, steps[0].name), steps[1..])
  }

  lemma {:induction false} KidNamedChild(f: Forest, at: int, name: string)
    requires 0 <= at
    ensures var id := KidNamed(f, at, name); ChildNamed(f, name) == if id < 0 then Nil else At(f, at, id)
    decreases f
  {
    match f
    case Nil =>
    case Cons(_, _, _, kids, rest) => KidNamedChild(rest, at + 1 + Size(kids), name);
  }

  lemma {:induction false} KidValuedChild(f: Forest, at: int, value: string)
    requires 0 <= at
    ensures var id := KidValued(f, at, value); ChildValued(f, value) == if id < 0 then Nil else At(f, at, id)
    decreases f
  {
    match f
    case Nil =>
    case Cons(_, _, _, kids, rest) => KidValuedChild(rest, at + 1 + Size(kids), value);
  }

  lemma {:induction false} KidAtChild(f: Forest, at: int, n: nat)
    requires 0 <= at
    ensures var id := KidAt(f, at, n); ChildAt(f, n) == if id < 0 then Nil else At(f, at, id)
    ensures n >= Size(f) ==> KidAt(f, at, n) < 0
    decreases f
  {
    match f
    case Nil =>
    case Cons(_, _, _, kids, rest) => if n > 0 { KidAtChild(rest, at + 1 + Size(kids), n - 1); }
  }

  /** findProperty finds the index of the child that the property names. */
  lemma FindChild(t: Forest, nid: int, property: string)
    requires Single(t) && 0 <= nid
    ensures var id := Find(t, nid, property); Child(t, property) == if id < 0 then Nil else At(t, nid, id)
  {
    KidNamedChild(t.kids, nid + 1, property);
    KidValuedChild(t.kids, nid + 1, property);
    KidAtChild(t.kids, nid + 1, Digits(property, 0));
  }

  /** A query answers the index of the subtree that the steps lead to. */
  lemma {:induction false} WalkFollows(f: Forest, nid: int, steps: seq<Step>)
    requires 0 <= nid < Size(f)
    ensures var id := Walk(f, nid, steps);
      if id < 0 then Follow(At(f, 0, nid), steps) == Nil
      else id < Size(f) && Follow(At(f, 0, nid), steps) == At(f, 0, id)
    decreases |steps|
  {
    if steps != [] {
      var t := At(f, 0, nid);
      var id := Find(t, nid, steps[0].name);
      FindChild(t, nid, steps[0].name);
      AtBounds(f, 0, nid);
      if id >= 0 {
        Inner(f, 0, nid, id, Nil);
        WalkFollows(f, id, steps[1..]);
      }
    }
  }

  // ------------------------------------------------------------------ the effect of an update

  lemma {:induction false} ChildAppended(kids: Forest, kid: Forest, name: string)
    requires Single(kid)
    ensures ChildNamed(Append(kids, kid), name) ==
      if ChildNamed(kids, name) != Nil then ChildNamed(kids, name) else if kid.name == Some(name) then kid else Nil
  {
    match kids
    case Nil =>
    case Cons(_, _, _, _, rest) => ChildAppended(rest, kid, name);
  }

  lemma {:induction false} ChildReplaced(kids: Forest, at: int, set_: string, kid: Forest, name: string)
    requires 0 <= at && Single(kid) && kid.name == Some(set_) && KidNamed(kids, at, set_) >= 0
    ensures ChildNamed(ReplaceAt(kids, at, KidNamed(kids, at, set_), kid), name) ==
      if name == set_ then kid else ChildNamed(kids, name)
    decreases kids
  {
    if kids.name == Some(set_) {
      assert Append(kid, kids.rest) == kid.(rest := Append(kid.rest, kids.rest));
      assert Append(kid.rest, kids.rest) == kids.rest;
    } else {
      ChildReplaced(kids.rest, at + 1 + Size(kids.kids), set_, kid, name);
    }
  }

  /** The child stored by SetIn under its first step. */
  function Stored(t: Forest, nid: int, steps: seq<Step>, value: string, kind: Kind): (kid: Forest)
    requires Single(t) && 0 <= nid && steps != []
    ensures Single(kid)
  {
    var id := KidNamed(t.kids, nid + 1, steps[0].name);
    if |steps| == 1 then Labelled(Next(t, nid, steps), Some(steps[0].name), Some(value), kind)
    else SetIn(Next(t, nid, steps), if id < 0 then nid + Size(t) else id, steps[1..], value, kind)
  }

  /** SetIn replaces or appends one child, under the name of the first step, and touches no other child. */
  lemma SetInChild(t: Forest, nid: int, steps: seq<Step>, value: string, kind: Kind, name: string)
    requires 0 <= nid && Single(t) && Settable(t, nid, steps)
    ensures Child(SetIn(t, nid, steps, value, kind), name) ==
      if name == steps[0].name then Stored(t, nid, steps, value, kind) else Child(t, name)
  {
    var set_ := steps[0].name;
    var kid := Stored(t, nid, steps, value, kind);
    var id := KidNamed(t.kids, nid + 1, set_);
    KidNamedChild(t.kids, nid + 1, set_);
    NextNamed(t, nid, steps);
    assert kid.name == Some(set_);
    if id < 0 {
      ChildAppended(t.kids, kid, name);
    } else {
      ChildReplaced(t.kids, nid + 1, set_, kid, name);
    }
  }

  lemma {:induction false} NamedAt(f: Forest, at: int, name: string)
    requires 0 <= at && KidNamed(f, at, name) >= 0
    ensures At(f, at, KidNamed(f, at, name)).name == Some(name)
    decreases f
  {
    if f.name != Some(name) {
      NamedAt(f.rest, at + 1 + Size(f.kids), name);
    }
  }

  lemma NextNamed(t: Forest, nid: int, steps: seq<Step>)
    requires Single(t) && 0 <= nid && steps != []
    ensures Next(t, nid, steps).name == Some(steps[0].name)
  {
    if KidNamed(t.kids, nid + 1, steps[0].name) >= 0 {
      NamedAt(t.kids, nid + 1, steps[0].name);
    }
  }

  /** The steps just set lead to a leaf with the value and the type set. */
  lemma {:induction false} FollowSet(t: Forest, nid: int, steps: seq<Step>, value: string, kind: Kind)
    requires 0 <= nid && Single(t) && Settable(t, nid, steps)
    ensures Follow(SetIn(t, nid, steps, value, kind), steps) == Leaf(steps[|steps| - 1].name, Some(value), kind)
    decreases |steps|
  {
    SetInChild(t, nid, steps, value, kind, steps[0].name);
    var id := KidNamed(t.kids, nid + 1, steps[0].name);
    if |steps| > 1 {
      FollowSet(Next(t, nid, steps), if id < 0 then nid + Size(t) else id, steps[1..], value, kind);
    } else {
      assert Follow(Stored(t, nid, steps, value, kind), []) == Stored(t, nid, steps, value, kind);
    }
  }

  /** Some step of both paths names different properties: neither path is a prefix of the other. */
  ghost predicate Diverge(p: seq<Step>, q: seq<Step>) {
    exists i {:trigger p[i]} {:trigger q[i]} :: 0 <= i < |p| && i < |q| && p[i].name != q[i].name
  }

  // Retyping or making a node on the way adds no child that a query could find.
  lemma NextChildren(t: Forest, nid: int, p: seq<Step>, name: string)
    requires 0 <= nid && Single(t) && Settable(t, nid, p) && |p| > 1
    ensures Child(Next(t, nid, p), name) ==
      if ChildNamed(t.kids, p[0].name) == Nil then Nil else Child(ChildNamed(t.kids, p[0].name), name)
  {
    KidNamedChild(t.kids, nid + 1, p[0].name);
  }

  lemma FollowNext(t: Forest, nid: int, p: seq<Step>, q: seq<Step>)
    requires 0 <= nid && Single(t) && Settable(t, nid, p) && |p| > 1 && |q| > 1 && p[0].name == q[0].name
    ensures Follow(Next(t, nid, p), q[1..]) == Follow(t, q)
  {
    NextChildren(t, nid, p, q[1].name);
    assert q[1..][0] == q[1];
  }

  /** Paths that diverge from the one just set lead where they led before. */
  lemma {:induction false} FollowOther(t: Forest, nid: int, p: seq<Step>, q: seq<Step>, value: string, kind: Kind)
    requires 0 <= nid && Single(t) && Settable(t, nid, p) && Diverge(p, q)
    ensures Follow(SetIn(t, nid, p, value, kind), q) == Follow(t, q)
    decreases |p|
  {
    SetInChild(t, nid, p, value, kind, q[0].name);
    if p[0].name == q[0].name {
      var i :| 0 <= i < |p| && i < |q| && p[i].name != q[i].name;
      assert p[1..][i - 1].name != q[1..][i - 1].name;
      var id := KidNamed(t.kids, nid + 1, p[0].name);
      FollowOther(Next(t, nid, p), if id < 0 then nid + Size(t) else id, p[1..], q[1..], value, kind);
      FollowNext(t, nid, p, q);
    }
  }

  // ------------------------------------------------------------------ in the document

  /** The document after an update that starts at the node `start`. */
  function Updated(f: Forest, start: int, steps: seq<Step>, value: string, kind: Kind): Forest
    requires 0 <= start < Size(Rooted(f)) && steps != []
  {
    ReplaceAt(Rooted(f), 0, start, SetIn(At(Rooted(f), 0, start), start, steps, value, kind))
  }

  lemma {:induction false} NamedAppended(kids: Forest, at: int, kid: Forest, name: string)
    requires 0 <= at && Single(kid) && kid.name == Some(name) && KidNamed(kids, at, name) < 0
    ensures KidNamed(Append(kids, kid), at, name) == at + Size(kids)
    decreases kids
  {
    match kids
    case Nil =>
    case Cons(_, _, _, ks, rest) => NamedAppended(rest, at + 1 + Size(ks), kid, name);
  }

  lemma {:induction false} NamedReplaced(kids: Forest, at: int, kid: Forest, name: string)
    requires 0 <= at && Single(kid) && kid.name == Some(name) && KidNamed(kids, at, name) >= 0
    ensures KidNamed(ReplaceAt(kids, at, KidNamed(kids, at, name), kid), at, name) == KidNamed(kids, at, name)
    decreases kids
  {
    if kids.name != Some(name) {
      NamedReplaced(kids.rest, at + 1 + Size(kids.kids), kid, name);
    }
  }

  // The first step finds the node that the update went through.
  lemma SetFinds(t: Forest, nid: int, steps: seq<Step>, value: string, kind: Kind)
    requires 0 <= nid && Single(t) && Settable(t, nid, steps)
    ensures Find(SetIn(t, nid, steps, value, kind), nid, steps[0].name) == SetAt(t, nid, steps)
  {
    var kid := Stored(t, nid, steps, value, kind);
    NextNamed(t, nid, steps);
    assert Size(t) == 1 + Size(t.kids) && kid.name == Some(steps[0].name);
    if KidNamed(t.kids, nid + 1, steps[0].name) < 0 {
      NamedAppended(t.kids, nid + 1, kid, steps[0].name);
    } else {
      NamedReplaced(t.kids, nid + 1, kid, steps[0].name);
    }
  }

  // The walk goes on from the node that the update went through.
  lemma FirstFound(f: Forest, nid: int, steps: seq<Step>, value: string, kind: Kind)
    requires 0 <= nid < Size(f) && Settable(At(f, 0, nid), nid, steps)
    ensures var t := At(f, 0, nid); var g := ReplaceAt(f, 0, nid, SetIn(t, nid, steps, value, kind)); var at := SetAt(t, nid, steps);
      nid < Size(g) && at < Size(g) && Walk(g, nid, steps) == Walk(g, at, steps[1..])
  {
    var t := At(f, 0, nid);
    AtReplaced(f, 0, nid, SetIn(t, nid, steps, value, kind));
    SetFinds(t, nid, steps, value, kind);
    AtBounds(ReplaceAt(f, 0, nid, SetIn(t, nid, steps, value, kind)), 0, nid);
  }

  /** The index that an update answers is the one that a query for the same key answers afterwards. */
  lemma {:induction false} LeafIsWalk(f: Forest, nid: int, steps: seq<Step>, value: string, kind: Kind)
    requires 0 <= nid < Size(f) && Settable(At(f, 0, nid), nid, steps)
    ensures var g := ReplaceAt(f, 0, nid, SetIn(At(f, 0, nid), nid, steps, value, kind));
      nid < Size(g) && Walk(g, nid, steps) == LeafAt(At(f, 0, nid), nid, steps)
    decreases |steps|
  {
    var t, at := At(f, 0, nid), SetAt(At(f, 0, nid), nid, steps);
    var g := ReplaceAt(f, 0, nid, SetIn(t, nid, steps, value, kind));
    FirstFound(f, nid, steps, value, kind);
    if |steps| > 1 {
      Descend(f, nid, steps, value, kind);
      LeafIsWalk(Entered(f, nid, steps), at, steps[1..], value, kind);
    } else {
      assert steps[1..] == [];
    }
  }

  /** jsonSet, then a query for the same key: the query finds a leaf with the value set. */
  lemma SetThenQuery(f: Forest, start: int, p: seq<Step>, value: string, kind: Kind)
    requires 0 <= start < Size(Rooted(f)) && Settable(At(Rooted(f), 0, start), start, p)
    ensures var g := Updated(f, start, p, value, kind);
      start < Size(g) && var id := Walk(g, start, p);
      && 0 <= id < Size(g) && At(g, 0, id) == Leaf(p[|p| - 1].name, Some(value), kind)
      && id == LeafAt(At(Rooted(f), 0, start), start, p)
  {
    var h := Rooted(f);
    var u := SetIn(At(h, 0, start), start, p, value, kind);
    AtReplaced(h, 0, start, u);
    WalkFollows(Updated(f, start, p, value, kind), start, p);
    FollowSet(At(h, 0, start), start, p, value, kind);
    LeafIsWalk(h, start, p, value, kind);
  }

  /** jsonSet, then a query for a key that diverges: the query finds what it found before. */
  lemma SetThenOtherQuery(f: Forest, start: int, p: seq<Step>, q: seq<Step>, value: string, kind: Kind)
    requires 0 <= start < Size(Rooted(f)) && Settable(At(Rooted(f), 0, start), start, p) && Diverge(p, q)
    ensures var g := Updated(f, start, p, value, kind); var h := Rooted(f);
      start < Size(g) && var old_, new_ := Walk(h, start, q), Walk(g, start, q);
      && (old_ < 0 <==> new_ < 0)
      && (old_ >= 0 ==> old_ < Size(h) && new_ < Size(g) && At(g, 0, new_) == At(h, 0, old_))
  {
    var h := Rooted(f);
    var u := SetIn(At(h, 0, start), start, p, value, kind);
    AtReplaced(h, 0, start, u);
    WalkFollows(Updated(f, start, p, value, kind), start, q);
    WalkFollows(h, start, q);
    FollowOther(At(h, 0, start), start, p, q, value, kind);
  }

  // ------------------------------------------------------------------ dotted keys

  /** A name that can be a term of a key as it is. */
  predicate IsPlain(name: string) {
    name != "" && !IsSpace(name[0]) && forall i :: 0 <= i < |name| ==> !IsSeparator(name[i])
  }

  ghost predicate AllPlain(names: seq<string>) {
    forall i {:trigger names[i]} :: 0 <= i < |names| ==> IsPlain(names[i])
  }

  /** The names with dots between them. */
  function Dotted(names: seq<string>): string
    requires names != []
  {
    if |names| == 1 then names[0] else names[0] + "." + Dotted(names[1..])
  }

  lemma PlainTerm(name: string, rest: string, qtype: Kind)
    requires IsPlain(name)
    ensures NextTerm(name, qtype) == Term(name, None, qtype)
    ensures NextTerm(name + "." + rest, qtype) == Term(name, Some(rest), Object)
  {
    var key := name + "." + rest;
    assert key[0] == name[0] && key[|name|] == '.';
    assert forall i :: 0 <= i < |name| ==> key[i] == name[i];
    assert Span(key) == |name| && Span(name) == |name|;
    assert key[..|name|] == name && key[|name| + 1..] == rest;
  }

  lemma PlainSteps(name: string, rest: string, qtype: Kind)
    requires IsPlain(name)
    ensures Steps(Some(name), qtype) == [Step(name, true, qtype)]
    ensures Steps(Some(name + "." + rest), qtype) == [Step(name, false, Object)] + Steps(Some(rest), Object)
  {
    PlainTerm(name, rest, qtype);
    assert Steps(None, qtype) == [];
  }

  // The steps of a dotted key.
  function NameSteps(names: seq<string>, qtype: Kind): (steps: seq<Step>)
    requires names != []
    decreases |names|
  {
    if |names| == 1 then [Step(names[0], true, qtype)]
    else [Step(names[0], false, Object)] + NameSteps(names[1..], Object)
  }

  lemma {:induction false} NameStepsAt(names: seq<string>, qtype: Kind)
    requires names != []
    ensures |NameSteps(names, qtype)| == |names|
    ensures forall i {:trigger names[i]} :: 0 <= i < |names| ==>
        NameSteps(names, qtype)[i] == Step(names[i], i == |names| - 1, if |names| == 1 then qtype else Object)
    decreases |names|
  {
    if |names| > 1 {
      var rest, steps := names[1..], NameSteps(names, qtype);
      NameStepsAt(rest, Object);
      forall i {:trigger names[i]} | 0 <= i < |names|
        ensures steps[i] == Step(names[i], i == |names| - 1, if |names| == 1 then qtype else Object)
      {
        if i > 0 {
          assert steps[i] == NameSteps(rest, Object)[i - 1] && rest[i - 1] == names[i];
        }
      }
    }
  }

  lemma {:induction false} StepsNamed(names: seq<string>, qtype: Kind)
    requires names != [] && AllPlain(names)
    ensures Steps(Some(Dotted(names)), qtype) == NameSteps(names, qtype)
    decreases |names|
  {
    var _ := IsPlain(names[0]);
    if |names| == 1 {
      PlainSteps(names[0], "", qtype);
    } else {
      var rest := names[1..];
      assert forall i {:trigger rest[i]} :: 0 <= i < |rest| ==> rest[i] == names[i + 1];
      StepsNamed(rest, Object);
      PlainSteps(names[0], Dotted(rest), qtype);
    }
  }

  /** The terms of a dotted key are its names; all but a lone one ask for objects. */
  lemma DottedSteps(names: seq<string>, qtype: Kind)
    requires names != [] && AllPlain(names)
    ensures var steps := Steps(Some(Dotted(names)), qtype);
      |steps| == |names| && forall i {:trigger steps[i]} {:trigger names[i]} :: 0 <= i < |names| ==>
        steps[i] == Step(names[i], i == |names| - 1, if |names| == 1 then qtype else Object)
  {
    StepsNamed(names, qtype);
    NameStepsAt(names, qtype);
  }

  // The first difference of two lists that agree up to i.
  lemma {:induction false} Difference(p: seq<string>, q: seq<string>, i: nat) returns (j: nat)
    requires !(p <= q) && !(q <= p) && i <= |p| && i <= |q| && p[..i] == q[..i]
    ensures j < |p| && j < |q| && p[j] != q[j]
    decreases |p| - i
  {
    assert p[..|p|] == p && q[..|q|] == q;
    if p[i] == q[i] {
      j := Difference(p, q, i + 1);
    } else {
      j := i;
    }
  }

  /** Keys of which neither continues the other diverge. */
  lemma KeysDiverge(p: seq<string>, q: seq<string>)
    requires p != [] && q != [] && AllPlain(p) && AllPlain(q) && !(p <= q) && !(q <= p)
    ensures Diverge(Steps(Some(Dotted(p)), Unset), Steps(Some(Dotted(q)), Unset))
  {
    var i := Difference(p, q, 0);
    DottedSteps(p, Unset);
    DottedSteps(q, Unset);
    var a, b := Steps(Some(Dotted(p)), Unset), Steps(Some(Dotted(q)), Unset);
    assert a[i].name != b[i].name;
  }
}
