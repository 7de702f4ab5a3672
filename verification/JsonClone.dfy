/**
  Clones of documents: what jsonClone (bin/json.c:3016-3025) leaves, when it is equal to the
  source node by node, and when it prints as the source does.
*/
module JsonClone {
  import opened JsonForest
  import opened JsonArray
  import opened JsonQuery
  import opened JsonPaths
  import opened JsonBlend
  import opened JsonMerge
  import opened JsonMoves
  import P = JsonPrinter

  // ------------------------------------------------------------------ where the blocks do not matter

  /** The members find the same counterparts among `f` and among `g`. */
  ghost predicate Agree(f: Forest, g: Forest, members: Forest) {
    members == Nil ||
    (members.name.Some? && ChildNamed(f, members.name.s) == ChildNamed(g, members.name.s) && Agree(f, g, members.rest))
  }

  lemma {:induction false} AgreeSelf(f: Forest, members: Forest)
    requires CleanMembers(members)
    ensures Agree(f, f, members)
    decreases members
  {
    if members != Nil {
      AgreeSelf(f, members.rest);
    }
  }

  lemma {:induction false} AgreeKept(t: Forest, a: int, b: Block, u: Forest, e: int, h: Block, c: Forest, members: Forest)
    requires Single(t) && Single(u) && 0 <= a && 0 <= e && Single(c) && c.name.Some? && c.name.s != ""
    requires Agree(t.kids, u.kids, members) && Lacks(members, c.name.s)
    ensures Agree(MergeMemberIn(t, a, c, b).tree.kids, MergeMemberIn(u, e, c, h).tree.kids, members)
    decreases members
  {
    if members != Nil {
      MemberInChild(t, a, c, b, members.name.s);
      MemberInChild(u, e, c, h, members.name.s);
      AgreeKept(t, a, b, u, e, h, c, members.rest);
    }
  }

  /** Whether a clean source can be blended in depends neither on the place nor on the block. */
  lemma {:induction false} MergeableAny(d: Forest, a: int, b: Block, e: int, h: Block, s: Forest)
    requires Single(d) && Single(s) && 0 <= a && 0 <= e && Clean(s) && Mergeable(d, a, s, b)
    ensures Mergeable(d, e, s, h)
    decreases Size(s), 0
  {
    if s.kind == Object {
      AgreeSelf(d.kids, s.kids);
      MembersMergeableAny(AsObject(d), a, b, AsObject(d), e, h, s.kids);
    }
  }

  lemma {:induction false} MembersMergeableAny(t: Forest, a: int, b: Block, u: Forest, e: int, h: Block, members: Forest)
    requires Single(t) && Single(u) && 0 <= a && 0 <= e && CleanMembers(members)
    requires Agree(t.kids, u.kids, members) && MembersMergeable(t, a, members, b)
    ensures MembersMergeable(u, e, members, h)
    decreases Size(members), 2
  {
    if members != Nil {
      var c := First(members);
      MemberMergeableAny(t, a, b, u, e, h, c);
      AgreeKept(t, a, b, u, e, h, c, members.rest);
      var o, p := MergeMemberIn(t, a, c, b), MergeMemberIn(u, e, c, h);
      MembersMergeableAny(o.tree, a, o.block, p.tree, e, p.block, members.rest);
    }
  }

  lemma {:induction false} MemberMergeableAny(t: Forest, a: int, b: Block, u: Forest, e: int, h: Block, c: Forest)
    requires Single(t) && Single(u) && 0 <= a && 0 <= e && Single(c) && Clean(c) && c.name.Some? && c.name.s != ""
    requires ChildNamed(t.kids, c.name.s) == ChildNamed(u.kids, c.name.s) && MemberMergeable(t, a, c, b)
    ensures MemberMergeable(u, e, c, h)
    decreases Size(c), 1
  {
    KidNamedChild(t.kids, a + 1, c.name.s);
    KidNamedChild(u.kids, e + 1, c.name.s);
    var id, jd := Meets(t, a, c.name), Meets(u, e, c.name);
    if id >= 0 {
      var k := At(t.kids, a + 1, id);
      var p := Prepared(k, c);
      MergeableAny(p, id, Grow(b, Size(p) - Size(k)), jd, Grow(h, Size(p) - Size(k)), c);
    } else if Container(c.kind) {
      MergeableAny(Empty(c), a + Size(t), Grow(b, 1), e + Size(u), Grow(h, 1), c);
    }
  }

  /** A clean tree can be blended into an empty one, and no array in it needs to find room. */
  lemma {:induction false} CopyFits(nid: int, s: Forest, b: Block)
    requires Single(s) && Clean(s) && Container(s.kind) && 0 <= nid
    ensures Mergeable(Empty(s), nid, s, b) && Fitting(Empty(s), nid, s, b)
    decreases Size(s), 1
  {
    if s.kind == Object {
      DisjointNil(s.kids);
      MembersFit(Empty(s), nid, s.kids, b);
    }
  }

  lemma {:induction false} MembersFit(t: Forest, nid: int, members: Forest, b: Block)
    requires Single(t) && CleanMembers(members) && Disjoint(t.kids, members) && 0 <= nid
    ensures MembersMergeable(t, nid, members, b) && MembersFitting(t, nid, members, b)
    decreases Size(members), 2
  {
    if members != Nil {
      var c := First(members);
      LacksNoKid(t.kids, nid + 1, c.name.s);
      if Container(c.kind) {
        CopyFits(nid + Size(t), c, Grow(b, 1));
      }
      MergedInName(t, nid, c, b);
      DisjointAppended(t.kids, MergedIn(t, nid, c, b), members.rest);
      var o := MergeMemberIn(t, nid, c, b);
      MembersFit(o.tree, nid, members.rest, o.block);
    }
  }

  // ------------------------------------------------------------------ clones

  /** The clone of a tree, with or without the block of the clone being moved for a root array. */
  function CloneTree(s: Forest, moved: bool): (t: Forest)
    requires Single(s)
    ensures Single(t)
  {
    if s.kind == Object then Duplicate(s)
    else if s.kind == Array then ArrayOver(Rooted(Nil), s, moved)
    else ScalarOver(Rooted(Nil), s)
  }

  /** Every clean document can be cloned; only the first reallocation, for a root array, can make a difference. */
  lemma CloneIs(s: Forest, moves: set<int>)
    requires Single(s) && Clean(s) && s.name == None
    ensures Mergeable(Rooted(Nil), 0, s, Block(1, INC, moves))
    ensures CloneOf(s, moves) == CloneTree(s, Size(s) > INC && INC in moves)
  {
    var b := Block(1, INC, {});
    if s.kind == Object {
      CopyFits(0, s, b);
      CopyFits(0, s, With(b, moves));
      FittingStays(Empty(s), 0, s, b, moves);
      StillMerges(Empty(s), 0, s, b);
      MergeCopies(0, s);
    }
  }

  /** A tree as the parser makes it: the members of objects have names, scalars values and no children. */
  ghost predicate Parsed(f: Forest, keyed: bool) {
    match f
    case Nil => true
    case Cons(name, value, kind, kids, rest) =>
      && (keyed <==> name.Some?)
      && (if Container(kind) then value == None else value.Some? && kids == Nil)
      && Parsed(kids, kind == Object) && Parsed(rest, keyed)
  }

  /** No array that is reached through objects has elements. */
  predicate NoElements(f: Forest) {
    match f
    case Nil => true
    case Cons(_, _, kind, kids, rest) => (if kind == Object then NoElements(kids) else kind == Array ==> kids == Nil) && NoElements(rest)
  }

  lemma {:induction false} DuplicateSame(f: Forest, keyed: bool)
    requires Parsed(f, keyed)
    ensures Duplicate(f) == f <==> NoElements(f)
    decreases f
  {
    match f
    case Nil =>
    case Cons(_, _, kind, kids, rest) =>
      DuplicateSame(kids, kind == Object);
      DuplicateSame(rest, keyed);
  }

  /**
    A clone is equal to its source, node by node and for every allocator, exactly if the root is an
    object and all arrays are empty: elements have no names, and copyNodes gives them empty ones.
  */
  lemma CloneEqualIff(s: Forest)
    requires Single(s) && Clean(s) && Parsed(s, false)
    ensures (forall moves: set<int> :: CloneOf(s, moves) == s) <==> s.kind == Object && NoElements(s.kids)
  {
    DuplicateSame(s, false);
    CloneIs(s, {});
    forall moves: set<int> ensures CloneOf(s, moves) == CloneTree(s, Size(s) > INC && INC in moves) {
      CloneIs(s, moves);
    }
  }

  // ------------------------------------------------------------------ what clones print

  /** What of a tree its text shows: names only in objects, values only of scalars. */
  function Visible(f: Forest, keyed: bool): (g: Forest)
    ensures Size(g) == Size(f)
  {
    match f
    case Nil => Nil
    case Cons(name, value, kind, kids, rest) =>
      Cons(if keyed then name else None, if Container(kind) then None else value, kind, Visible(kids, kind == Object), Visible(rest, keyed))
  }

  lemma {:induction false} VisibleCopies(f: Forest, keyed: bool)
    requires Parsed(f, keyed)
    ensures Visible(Copies(f), keyed) == Visible(f, keyed)
    decreases f
  {
    match f
    case Nil =>
    case Cons(_, _, kind, kids, rest) =>
      VisibleCopies(kids, kind == Object);
      VisibleCopies(rest, keyed);
  }

  lemma {:induction false} VisibleDuplicate(f: Forest, keyed: bool)
    requires Parsed(f, keyed)
    ensures Visible(Duplicate(f), keyed) == Visible(f, keyed)
    decreases f
  {
    match f
    case Nil =>
    case Cons(_, _, kind, kids, rest) =>
      VisibleDuplicate(rest, keyed);
      if kind == Object {
        VisibleDuplicate(kids, true);
      } else if kind == Array {
        VisibleCopies(kids, false);
      }
  }

  /** A document whose clone shows the same: not an empty array, and no array that makes the block move. */
  predicate Faithful(s: Forest, moves: set<int>)
    requires Single(s)
  {
    s.kind != Array || (s.kids != Nil && (Size(s) <= INC || INC !in moves))
  }

  lemma CloneVisibleIff(s: Forest, moves: set<int>)
    requires Single(s) && Clean(s) && Parsed(s, false)
    ensures Visible(CloneOf(s, moves), false) == Visible(s, false) <==> Faithful(s, moves)
    ensures !Faithful(s, moves) ==> CloneOf(s, moves).kind == Object
  {
    CloneIs(s, moves);
    if s.kind == Object {
      VisibleDuplicate(s, false);
    } else if s.kind == Array {
      VisibleCopies(s.kids, false);
    }
  }

  /** With any allocator, clones show what their sources show, if and only if the root is no array or has 1 to 63 descendants. */
  lemma CloneShowsIff(s: Forest)
    requires Single(s) && Clean(s) && Parsed(s, false)
    ensures (forall moves: set<int> :: Visible(CloneOf(s, moves), false) == Visible(s, false))
      <==> s.kind != Array || (s.kids != Nil && Size(s) <= INC)
  {
    forall moves: set<int>
      ensures Visible(CloneOf(s, moves), false) == Visible(s, false) <==> Faithful(s, moves)
    {
      CloneVisibleIff(s, moves);
    }
    assert Faithful(s, {INC}) <==> s.kind != Array || (s.kids != Nil && Size(s) <= INC);
  }

  /** An empty array is cloned to an empty object. */
  lemma EmptyArrayClone(moves: set<int>)
    ensures CloneOf(Cons(None, None, Array, Nil, Nil), moves) == Cons(None, None, Object, Nil, Nil)
  {
    CloneIs(Cons(None, None, Array, Nil, Nil), moves);
  }

  // `n` numbers, as elements of an array.
  function Ones(n: nat): (f: Forest)
    ensures Size(f) == n
  {
    if n == 0 then Nil else Cons(None, Some("1"), Primitive, Nil, Ones(n - 1))
  }

  lemma OnesClone(n: nat, moves: set<int>)
    requires n > 0
    ensures CloneOf(Cons(None, None, Array, Ones(n), Nil), moves).kind == if n >= INC && INC in moves then Object else Array
  {
    CloneIs(Cons(None, None, Array, Ones(n), Nil), moves);
  }

  /** An array of 64 numbers is cloned to an object, if the block moves: the 65th node makes it grow. */
  lemma BigArrayClone()
    ensures CloneOf(Cons(None, None, Array, Ones(64), Nil), {INC}).kind == Object
    ensures CloneOf(Cons(None, None, Array, Ones(64), Nil), {}).kind == Array
    ensures forall moves: set<int> :: CloneOf(Cons(None, None, Array, Ones(63), Nil), moves).kind == Array
  {
    OnesClone(64, {INC});
    OnesClone(64, {});
    forall moves: set<int> ensures CloneOf(Cons(None, None, Array, Ones(63), Nil), moves).kind == Array {
      OnesClone(63, moves);
    }
  }

  /** Scalars have no children. */
  predicate Leafy(f: Forest) {
    match f
    case Nil => true
    case Cons(_, _, kind, kids, rest) => (Container(kind) || kids == Nil) && Leafy(kids) && Leafy(rest)
  }

  // The text of a node, given the text of its members.
  function LabelText(kind: Kind, value: Opt, members: string, st: P.Style): string {
    match kind
    case Primitive => P.Plain(value)
    case Regexp => "/" + P.Plain(value) + "/"
    case String => P.ValueText(value, false, st)
    case Array => "[" + members + "]"
    case Object => "{" + members + "}"
    case Unset => "undefined"
  }

  // The text of a member, given the text of its node; nothing, if the node has no type.
  function MemberText(name: Opt, node: string, untyped: bool, last: bool, keyed: bool, st: P.Style): string {
    if untyped then ""
    else ((if keyed then P.ValueText(name, true, st) + ":" else "") + node) + (if last then "" else ",")
  }

  /** The text of some members, as a function of their trees. */
  function TreeText(f: Forest, keyed: bool, st: P.Style): string {
    match f
    case Nil => ""
    case Cons(name, value, kind, kids, rest) =>
      MemberText(name, LabelText(kind, value, TreeText(kids, kind == Object, st), st), kind == Unset, rest == Nil, keyed, st)
      + TreeText(rest, keyed, st)
  }

  // The printer, one member on.
  lemma MembersStep(ns: seq<JsonNode>, lo: int, hi: int, keyed: bool, st: P.Style)
    requires Nested(ns, lo, hi) && lo < hi
    ensures P.Whole(ns, lo)
    ensures var mid := if ns[lo].kind == Unset then lo + 1 else P.After(ns, lo);
      && Nested(ns, mid, hi)
      && P.MembersText(ns, lo, hi, keyed, st) ==
           (if ns[lo].kind == Unset then "" else P.MemberText(ns, lo, keyed, st) + (if mid < hi then "," else ""))
           + P.MembersText(ns, mid, hi, keyed, st)
  {
  }

  lemma NestedParts(ns: seq<JsonNode>, at: int, f: Forest, hi: int)
    requires f.Cons? && Holds(ns, at, f) && Leafy(f) && hi == at + Size(f) && Nested(ns, at, hi)
    ensures P.Whole(ns, at) && Nested(ns, ns[at].last, hi)
    ensures Holds(ns, ns[at].last, f.rest) && Leafy(f.rest) && hi == ns[at].last + Size(f.rest)
  {
  }

  lemma TreeTextSplit(f: Forest, keyed: bool, st: P.Style)
    requires f.Cons?
    ensures TreeText(f, keyed, st) ==
      MemberText(f.name, LabelText(f.kind, f.value, TreeText(f.kids, f.kind == Object, st), st), f.kind == Unset, f.rest == Nil, keyed, st)
      + TreeText(f.rest, keyed, st)
  {
  }

  lemma {:induction false} MembersPrinted(ns: seq<JsonNode>, at: int, f: Forest, hi: int, keyed: bool, st: P.Style)
    requires Holds(ns, at, f) && Leafy(f) && hi == at + Size(f) && Nested(ns, at, hi)
    ensures P.MembersText(ns, at, hi, keyed, st) == TreeText(f, keyed, st)
    decreases f, 2
  {
    if f != Nil {
      NestedParts(ns, at, f, hi);
      FirstPrinted(ns, at, f, hi, keyed, st);
      TreeTextSplit(f, keyed, st);
      OthersPrinted(ns, ns[at].last, f.rest, hi, keyed, st);
    }
  }

  lemma {:induction false} OthersPrinted(ns: seq<JsonNode>, at: int, f: Forest, hi: int, keyed: bool, st: P.Style)
    requires Holds(ns, at, f) && Leafy(f) && hi == at + Size(f) && Nested(ns, at, hi)
    ensures P.MembersText(ns, at, hi, keyed, st) == TreeText(f, keyed, st)
    decreases f, 3
  {
    MembersPrinted(ns, at, f, hi, keyed, st);
  }

  lemma {:induction false} FirstPrinted(ns: seq<JsonNode>, at: int, f: Forest, hi: int, keyed: bool, st: P.Style)
    requires f.Cons? && Holds(ns, at, f) && Leafy(f) && hi == at + Size(f) && Nested(ns, at, hi)
    requires P.Whole(ns, at) && Nested(ns, ns[at].last, hi)
    ensures P.MembersText(ns, at, hi, keyed, st) ==
      MemberText(f.name, LabelText(f.kind, f.value, TreeText(f.kids, f.kind == Object, st), st), f.kind == Unset, f.rest == Nil, keyed, st)
      + P.MembersText(ns, ns[at].last, hi, keyed, st)
    decreases f, 1
  {
    MembersStep(ns, at, hi, keyed, st);
    NodePrinted(ns, at, f, st);
  }

  lemma {:induction false} NodePrinted(ns: seq<JsonNode>, at: int, f: Forest, st: P.Style)
    requires f.Cons? && Holds(ns, at, f) && Leafy(f) && P.Whole(ns, at)
    ensures P.NodeText(ns, at, st) == LabelText(f.kind, f.value, TreeText(f.kids, f.kind == Object, st), st)
    decreases f, 0
  {
    MembersPrinted(ns, at + 1, f.kids, ns[at].last, f.kind == Object, st);
  }

  /** The text depends on what is visible only. */
  lemma {:induction false} VisibleText(f: Forest, keyed: bool, st: P.Style)
    ensures TreeText(Visible(f, keyed), keyed, st) == TreeText(f, keyed, st) && (Leafy(Visible(f, keyed)) <==> Leafy(f))
    decreases f
  {
    match f
    case Nil =>
    case Cons(_, _, kind, kids, rest) =>
      VisibleText(kids, kind == Object, st);
      VisibleText(rest, keyed, st);
  }

  lemma {:induction false} ParsedLeafy(f: Forest, keyed: bool)
    requires Parsed(f, keyed)
    ensures Leafy(f)
    decreases f
  {
    match f
    case Nil =>
    case Cons(_, _, kind, kids, rest) =>
      ParsedLeafy(kids, kind == Object);
      ParsedLeafy(rest, keyed);
  }

  lemma RootText(s: Forest, t: Forest, st: P.Style)
    requires Single(s) && Single(t) && Visible(s, false) == Visible(t, false)
    ensures LabelText(s.kind, s.value, TreeText(s.kids, s.kind == Object, st), st)
         == LabelText(t.kind, t.value, TreeText(t.kids, t.kind == Object, st), st)
  {
    VisibleText(s.kids, s.kind == Object, st);
    VisibleText(t.kids, t.kind == Object, st);
  }

  lemma ClonePrinted(src: seq<JsonNode>, s: Forest, ns: seq<JsonNode>, t: Forest, st: P.Style)
    requires Represents(src, s) && Single(s) && Parsed(s, false) && Represents(ns, t) && Single(t) && Visible(s, false) == Visible(t, false)
    ensures P.Whole(src, 0) && P.Whole(ns, 0) && P.NodeText(ns, 0, st) == P.NodeText(src, 0, st)
  {
    ParsedLeafy(s, false);
    VisibleText(s, false, st);
    VisibleText(t, false, st);
    HoldsNested(src, 0, s);
    HoldsNested(ns, 0, t);
    NodePrinted(src, 0, s, st);
    NodePrinted(ns, 0, t, st);
    RootText(s, t, st);
  }

  // The first character that is printed tells the kind of a container.
  lemma BracketPrinted(ns: seq<JsonNode>, s: Forest, st: P.Style)
    requires Represents(ns, s) && Single(s)
    ensures P.Whole(ns, 0)
    ensures s.kind == Object ==> P.NodeText(ns, 0, st)[..1] == "{"
    ensures s.kind == Array ==> P.NodeText(ns, 0, st)[..1] == "["
  {
    HoldsNested(ns, 0, s);
  }

  /** The clone of a document prints as the document does, if and only if it shows the same. */
  lemma ClonePrintsIff(src: seq<JsonNode>, s: Forest, moves: set<int>, ns: seq<JsonNode>, st: P.Style)
    requires Represents(src, s) && Single(s) && Clean(s) && Parsed(s, false) && Represents(ns, CloneOf(s, moves))
    ensures P.Whole(src, 0) && P.Whole(ns, 0)
    ensures P.NodeText(ns, 0, st) == P.NodeText(src, 0, st) <==> Faithful(s, moves)
  {
    CloneVisibleIff(s, moves);
    BracketPrinted(src, s, st);
    BracketPrinted(ns, CloneOf(s, moves), st);
    if Faithful(s, moves) {
      ClonePrinted(src, s, ns, CloneOf(s, moves), st);
    }
  }
}
