/**
  Dotted-path access to a document (bin/json.c:1932-2111, 2324-2339, 2442-2454):
  splitting a key into terms, finding a property, and the query/update walk.
*/
module JsonQuery {
  import opened JsonForest
  import opened JsonArray

  const CANT_FIND := -25
  const BAD_STATE := -14

  // ------------------------------------------------------------------ keys

  predicate IsSpace(c: char) {
    c == ' ' || 9 as char <= c <= 13 as char
  }

  predicate IsSeparator(c: char) {
    c == '.' || c == '[' || c == ']'
  }

  predicate IsDigit(c: char) {
    '0' <= c <= '9'
  }

  function SkipSpaces(s: string): (t: string)
    ensures |t| <= |s| && (t != "" ==> !IsSpace(t[0]))
  {
    if s != "" && IsSpace(s[0]) then SkipSpaces(s[1..]) else s
  }

  function SkipSeparators(s: string): (t: string)
    ensures |t| <= |s| && (t != "" ==> !IsSeparator(t[0]))
  {
    if s != "" && IsSeparator(s[0]) then SkipSeparators(s[1..]) else s
  }

  // The length of the prefix without separators.
  function Span(s: string): (n: nat)
    ensures n <= |s| && (n < |s| ==> IsSeparator(s[n])) && forall i :: 0 <= i < n ==> !IsSeparator(s[i])
  {
    if s != "" && !IsSeparator(s[0]) then 1 + Span(s[1..]) else 0
  }

  // One term: its text, what is left of the key, and the type the separator asks for.
  datatype Term = Term(name: string, rest: Opt, qtype: Kind) | NoTerm

  /** getNextTerm. Without a separator the type of the previous term stays. */
  function NextTerm(key: string, qtype: Kind): (t: Term)
    ensures t.Term? && t.rest.Some? ==> |t.rest.s| < |key|
  {
    var start := SkipSeparators(SkipSpaces(key));
    var n := Span(start);
    if start == "" then NoTerm
    else if n == |start| then Term(start, None, qtype)
    else if start[n] == '[' then Term(start[..n], Some(start[n + 1..]), Array)
    else if start[n] == '.' then Term(start[..n], Some(start[n + 1..]), Object)
    else
      var quoted := (start[0] == '"' || start[0] == '\'') && start[n - 1] == start[0];
      var rest := SkipSeparators(start[n + 1..]);
      Term(if !quoted then start[..n] else if n == 1 then "" else start[1..n - 1],
           if rest == "" then None else Some(rest), Object)
  }

  // A step of the walk: the property, whether it is the last term, and the container type asked for.
  datatype Step = Step(name: string, leaf: bool, qtype: Kind)

  /** The terms of a key, in order. */
  function Steps(key: Opt, qtype: Kind): (steps: seq<Step>)
    decreases if key.Some? then |key.s| + 1 else 0
  {
    match key
    case None => []
    case Some(s) =>
      match NextTerm(s, qtype)
      case NoTerm => []
      case Term(name, rest, qt) => [Step(name, rest.None?, qt)] + Steps(rest, qt)
  }

  // ------------------------------------------------------------------ one property

  /** The index of the first root named `name`, or CANT_FIND. */
  function KidNamed(f: Forest, at: int, name: string): (id: int)
    requires 0 <= at
    ensures id == CANT_FIND || at <= id < at + Size(f)
  {
    match f
    case Nil => CANT_FIND
    case Cons(n, _, _, kids, rest) => if n == Some(name) then at else KidNamed(rest, at + 1 + Size(kids), name)
  }

  function KidValued(f: Forest, at: int, value: string): (id: int)
    requires 0 <= at
    ensures id == CANT_FIND || at <= id < at + Size(f)
  {
    match f
    case Nil => CANT_FIND
    case Cons(_, v, _, kids, rest) => if v == Some(value) then at else KidValued(rest, at + 1 + Size(kids), value)
  }

  /** The index of root number `n`. */
  function KidAt(f: Forest, at: int, n: nat): (id: int)
    requires 0 <= at
    ensures id == CANT_FIND || at <= id < at + Size(f)
  {
    match f
    case Nil => CANT_FIND
    case Cons(_, _, _, kids, rest) => if n == 0 then at else KidAt(rest, at + 1 + Size(kids), n - 1)
  }

  // The value of the leading digits, as strtoll reads them.
  function Digits(s: string, acc: nat): nat {
    if s != "" && IsDigit(s[0]) then Digits(s[1..], 10 * acc + (s[0] as int - '0' as int)) else acc
  }

  /** What findProperty finds in the tree `t` at `nid`. */
  function Find(t: Forest, nid: int, property: string): (id: int)
    requires Single(t) && 0 <= nid
    ensures id >= 0 ==> nid < id < nid + Size(t)
  {
    if property == "" then CANT_FIND
    else if t.kind == Array then
      if !IsDigit(property[0]) then KidValued(t.kids, nid + 1, property)
      else if Digits(property, 0) >= Size(t.kids) then CANT_FIND
      else KidAt(t.kids, nid + 1, Digits(property, 0))
    else if t.kind == Object then KidNamed(t.kids, nid + 1, property)
    else BAD_STATE
  }

  // The root at `id` of the trees that end at `end`, and the next one.
  lemma FirstHeld(ns: seq<JsonNode>, id: int, left: Forest, end: int)
    requires Holds(ns, id, left) && id + Size(left) == end && id < end
    ensures 0 <= id < |ns| && left.Cons? && ns[id] == JsonNode(left.name, left.value, left.kind, id + 1 + Size(left.kids))
    ensures id < ns[id].last <= end && Holds(ns, ns[id].last, left.rest) && ns[id].last + Size(left.rest) == end
  {
  }

  // The loop of findProperty over the elements of an array, by value.
  method FindValue(json: Json, from: int, end: int, property: string, ghost kids: Forest) returns (id: int)
    requires 0 <= from && Holds(json.nodes, from, kids) && from + Size(kids) == end
    ensures id == KidValued(kids, from, property)
  {
    id := from;
    ghost var left := kids;
    while id < end
      invariant from <= id <= end && Holds(json.nodes, id, left) && id + Size(left) == end
      invariant KidValued(kids, from, property) == KidValued(left, id, property)
      decreases end - id
    {
      FirstHeld(json.nodes, id, left, end);
      var np := json.nodes[id];
      if np.value == Some(property) {
        return id;
      }
      id := np.last;
      left := left.rest;
    }
    return CANT_FIND;
  }

  // The loop of findProperty over the elements of an array, by number.
  method FindIndex(json: Json, from: int, end: int, index: nat, ghost kids: Forest) returns (id: int)
    requires 0 <= from && Holds(json.nodes, from, kids) && from + Size(kids) == end
    ensures id == KidAt(kids, from, index)
  {
    id := from;
    ghost var left := kids;
    var n := index;
    while n > 0 && id < end
      invariant from <= id <= end && Holds(json.nodes, id, left) && id + Size(left) == end
      invariant KidAt(kids, from, index) == KidAt(left, id, n)
      decreases end - id
    {
      FirstHeld(json.nodes, id, left, end);
      n := n - 1;
      id := json.nodes[id].last;
      left := left.rest;
    }
    if id >= end {
      return CANT_FIND;
    }
  }

  // The loop of findProperty over the members of an object.
  method FindName(json: Json, from: int, end: int, property: string, ghost kids: Forest) returns (id: int)
    requires 0 <= from && Holds(json.nodes, from, kids) && from + Size(kids) == end
    ensures id == KidNamed(kids, from, property)
  {
    id := from;
    ghost var left := kids;
    while id < end
      invariant from <= id <= end && Holds(json.nodes, id, left) && id + Size(left) == end
      invariant KidNamed(kids, from, property) == KidNamed(left, id, property)
      decreases end - id
    {
      FirstHeld(json.nodes, id, left, end);
      var np := json.nodes[id];
      if np.name == Some(property) {
        return id;
      }
      id := np.last;
      left := left.rest;
    }
    return CANT_FIND;
  }

  /** findProperty */
  method FindProperty(json: Json, nid: int, property: string, ghost f: Forest) returns (id: int)
    requires Represents(json.nodes, f)
    ensures id == if nid < 0 || nid >= Size(f) then BAD_ARGS else Find(At(f, 0, nid), nid, property)
  {
    if nid < 0 || nid >= |json.nodes| {
      return BAD_ARGS;
    }
    AtHolds(json.nodes, f, 0, nid);
    ghost var t := At(f, 0, nid);
    var node := json.nodes[nid];
    if property == "" {
      return CANT_FIND;
    }
    if node.kind == Array {
      if !IsDigit(property[0]) {
        id := FindValue(json, nid + 1, node.last, property, t.kids);
      } else {
        var index := Digits(property, 0);
        if index >= node.last - nid - 1 {
          return CANT_FIND;
        }
        id := FindIndex(json, nid + 1, node.last, index, t.kids);
      }
    } else if node.kind == Object {
      id := FindName(json, nid + 1, node.last, property, t.kids);
    } else {
      id := BAD_STATE;
    }
  }

  // ------------------------------------------------------------------ queries

  /** Follow the steps from the node at `nid`. */
  function Walk(f: Forest, nid: int, steps: seq<Step>): (id: int)
    requires 0 <= nid <= Size(f)
    ensures id == CANT_FIND || 0 <= id <= Size(f)
    decreases |steps|
  {
    if steps == [] then nid
    else
      var id := if nid < Size(f) then Find(At(f, 0, nid), nid, steps[0].name) else BAD_ARGS;
      if id < 0 then CANT_FIND
      else if nid < Size(f) then
        AtBounds(f, 0, nid);
        Walk(f, id, steps[1..])
      else CANT_FIND
  }

  // A walk from a node leads to a node.
  lemma {:induction false} WalkInside(f: Forest, nid: int, steps: seq<Step>)
    requires 0 <= nid < Size(f)
    ensures Walk(f, nid, steps) < Size(f)
    decreases |steps|
  {
    if steps != [] {
      var id := Find(At(f, 0, nid), nid, steps[0].name);
      AtBounds(f, 0, nid);
      if id >= 0 {
        WalkInside(f, id, steps[1..]);
      }
    }
  }

  /** jquery, as a query. */
  method Query(json: Json, start: int, key: Opt, ghost f: Forest) returns (nid: int)
    requires Represents(json.nodes, f)
    ensures nid == if start < 0 || start > Size(f) then BAD_ARGS
                   else if key == None || key == Some("") then CANT_FIND
                   else Walk(f, start, Steps(key, Unset))
  {
    if start < 0 || start > |json.nodes| {
      return BAD_ARGS;
    }
    if key == None || key == Some("") {
      return CANT_FIND;
    }
    nid := start;
    var rest, qtype := key, Unset;
    var term := NextTerm(rest.s, qtype);
    while term.Term?
      invariant 0 <= nid <= Size(f)
      invariant term == (if rest.Some? then NextTerm(rest.s, qtype) else NoTerm)
      invariant Walk(f, start, Steps(key, Unset)) == Walk(f, nid, Steps(rest, qtype))
      decreases if rest.Some? then |rest.s| + 1 else 0
    {
      ghost var steps := Steps(rest, qtype);
      assert steps[0].name == term.name && steps[1..] == Steps(term.rest, term.qtype);
      var id := FindProperty(json, nid, term.name, f);
      if id < 0 {
        return CANT_FIND;
      }
      AtBounds(f, 0, nid);
      if term.rest == None {
        nid := id;
        break;
      }
      nid := id;
      rest, qtype := term.rest, term.qtype;
      term := NextTerm(rest.s, qtype);
    }
  }

  // A node goes, with all that is below it.
  method RemoveSubtree(json: Json, nid: int, ghost f: Forest) returns (ghost g: Forest)
    requires Represents(json.nodes, f) && json.Valid() && 0 <= nid < Size(f)
    modifies json
    ensures Represents(json.nodes, g) && json.Valid() && g == ReplaceAt(f, 0, nid, Nil)
  {
    AtHolds(json.nodes, f, 0, nid);
    AtBounds(f, 0, nid);
    var _ := json.RemoveNodes(nid, json.nodes[nid].last - nid);
    RemoveDeletes(old(json.nodes), json.nodes, f, nid);
    g := ReplaceAt(f, 0, nid, Nil);
  }

  /** jsonRemove: the subtree that the key leads to is deleted. The code reads the node it is about to remove. */
  method Remove(json: Json, start: int, key: Opt, ghost f: Forest) returns (rc: int, ghost g: Forest)
    requires Represents(json.nodes, f) && json.Valid()
    requires start == Size(f) ==> key != None && (key == Some("") || Steps(key, Unset) != [] || f == Nil)
    modifies json
    ensures Represents(json.nodes, g) && json.Valid()
    ensures var nid := if key == None then start else if key == Some("") then CANT_FIND
                       else if start < 0 || start > Size(f) then BAD_ARGS else Walk(f, start, Steps(key, Unset));
      if start < 0 || start > Size(f) then rc == BAD_ARGS && g == f
      else if key != None && nid <= 0 then rc == CANT_FIND && g == f
      else rc == 0 && 0 <= nid < Size(f) && g == ReplaceAt(f, 0, nid, Nil)
  {
    g := f;
    if start < 0 || start > |json.nodes| {
      return BAD_ARGS, g;
    }
    var nid := start;
    if key != None {
      nid := Query(json, start, key, f);
      if nid <= 0 {
        return CANT_FIND, g;
      }
      if start < Size(f) {
        WalkInside(f, start, Steps(key, Unset));
      }
    }
    rc := 0;
    g := RemoveSubtree(json, nid, f);
  }

  // ------------------------------------------------------------------ updates

  function Labelled(t: Forest, name: Opt, value: Opt, kind: Kind): (u: Forest)
    requires Single(t)
    ensures Single(u) && Size(u) == Size(t)
  {
    Cons(name, value, kind, t.kids, Nil)
  }

  /** Setting a label: the subtree keeps its place and its children. */
  lemma LabelSet(ns: seq<JsonNode>, f: Forest, nid: int, name: Opt, value: Opt, kind: Kind)
    requires Represents(ns, f) && 0 <= nid < |ns|
    ensures Represents(ns[nid := JsonNode(name, value, kind, ns[nid].last)],
                       ReplaceAt(f, 0, nid, Labelled(At(f, 0, nid), name, value, kind)))
  {
    var ms, t := ns[nid := JsonNode(name, value, kind, ns[nid].last)], At(f, 0, nid);
    var g := Labelled(t, name, value, kind);
    AtHolds(ns, f, 0, nid);
    AtBounds(f, 0, nid);
    KidsUntouched(ns, ms, nid, t.kids);
    forall i {:trigger Stays(ns, ms, nid, 0, i)} | 0 <= i < nid ensures Stays(ns, ms, nid, 0, i) {
    }
    forall i {:trigger Slides(ns, ms, nid, 0, i)} | nid + Size(t) <= i < |ns| ensures Slides(ns, ms, nid, 0, i) {
    }
    assert Size(g) == Size(t);
    ReplaceHolds(ns, ms, f, 0, nid, g);
    ReplaceSize(f, 0, nid, g);
  }

  lemma KidsUntouched(ns: seq<JsonNode>, ms: seq<JsonNode>, nid: int, kids: Forest)
    requires 0 <= nid && Holds(ns, nid + 1, kids) && |ms| == |ns| && forall i {:trigger ms[i]} :: nid < i < |ns| ==> ms[i] == ns[i]
    ensures Holds(ms, nid + 1, kids)
  {
    HoldsBounds(ns, nid + 1, kids);
    forall i {:trigger Slides(ns, ms, nid, 0, i)} | nid < i < |ns| ensures Slides(ns, ms, nid, 0, i) {
    }
    HoldsBehind(ns, ms, nid + 1, kids, nid, 0);
  }

  function Leaf(name: string, value: Opt, kind: Kind): Forest {
    Cons(Some(name), value, kind, Nil, Nil)
  }

  /** Relabelling the last child just appended is appending the child with that label. */
  lemma AppendLabelled(f: Forest, pid: int, blank: Forest, g: Forest)
    requires 0 <= pid < Size(f) && Single(blank) && blank.kids == Nil && Single(g)
    ensures var cid := pid + Size(At(f, 0, pid));
      && cid < Size(AppendKids(f, pid, blank))
      && At(AppendKids(f, pid, blank), 0, cid) == blank
      && ReplaceAt(AppendKids(f, pid, blank), 0, cid, g) == AppendKids(f, pid, g)
  {
    var t := At(f, 0, pid);
    var cid := pid + Size(t);
    var u := t.(kids := Append(t.kids, blank));
    AtReplaced(f, 0, pid, u);
    assert Size(t) == 1 + Size(t.kids) && Size(u) == 1 + Size(u.kids);
    ReplaceLast(t.kids, pid + 1, blank, g);
    ReplaceKid(u, pid, cid, g);
    Inner(AppendKids(f, pid, blank), 0, pid, cid, g);
    ReplaceReplaced(f, 0, pid, u, u.(kids := Append(t.kids, g)));
  }

  lemma {:induction false} ReplaceLast(kids: Forest, at: int, blank: Forest, g: Forest)
    requires Single(blank) && blank.kids == Nil && Single(g)
    ensures Size(Append(kids, blank)) == Size(kids) + 1
    ensures At(Append(kids, blank), at, at + Size(kids)) == blank
    ensures ReplaceAt(Append(kids, blank), at, at + Size(kids), g) == Append(kids, g)
    decreases kids
  {
    match kids
    case Nil => AppendNil(g);
    case Cons(_, _, _, ks, rest) => ReplaceLast(rest, at + 1 + Size(ks), blank, g);
  }

  /** The steps pass through objects, missing properties and childless values; a target that exists is a leaf. */
  ghost predicate Settable(t: Forest, nid: int, steps: seq<Step>)
    requires Single(t) && 0 <= nid
    decreases |steps|
  {
    && steps != [] && t.kind == Object && steps[0].name != "" && (steps[0].leaf <==> |steps| == 1)
    && var id := KidNamed(t.kids, nid + 1, steps[0].name);
       && (id >= 0 && (|steps| == 1 || At(t.kids, nid + 1, id).kind != Object) ==> At(t.kids, nid + 1, id).kids == Nil)
       && (|steps| > 1 ==>
             steps[0].qtype == Object && Settable(Next(t, nid, steps), if id < 0 then nid + Size(t) else id, steps[1..]))
  }

  /** A node of the wrong type on the way is given the type asked for, except an object taken for an array. */
  predicate Mismatch(kind: Kind, qtype: Kind) {
    kind != qtype && !(kind == Object && qtype == Array)
  }

  /** The node one step on: the present one, retyped if need be, or the one to be made. */
  function Next(t: Forest, nid: int, steps: seq<Step>): (u: Forest)
    requires Single(t) && 0 <= nid && steps != []
    ensures Single(u)
  {
    var id := KidNamed(t.kids, nid + 1, steps[0].name);
    if id < 0 then Leaf(steps[0].name, None, steps[0].qtype)
    else
      var kid := At(t.kids, nid + 1, id);
      if |steps| > 1 && Mismatch(kid.kind, steps[0].qtype) then Labelled(kid, Some(steps[0].name), None, steps[0].qtype) else kid
  }

  // The index of the node one step on.
  function SetAt(t: Forest, nid: int, steps: seq<Step>): (at: int)
    requires Single(t) && 0 <= nid && steps != []
    ensures nid < at <= nid + Size(t)
  {
    var id := KidNamed(t.kids, nid + 1, steps[0].name);
    if id < 0 then nid + Size(t) else id
  }

  /** The index of the leaf that an update sets. */
  function LeafAt(t: Forest, nid: int, steps: seq<Step>): (at: int)
    requires Single(t) && 0 <= nid && steps != []
    decreases |steps|
  {
    if |steps| == 1 then SetAt(t, nid, steps) else LeafAt(Next(t, nid, steps), SetAt(t, nid, steps), steps[1..])
  }

  /** The tree after the value is stored under the steps: missing containers are made, the leaf is set or appended. */
  function SetIn(t: Forest, nid: int, steps: seq<Step>, value: string, kind: Kind): (u: Forest)
    requires Single(t) && 0 <= nid && steps != []
    ensures Single(u)
    decreases |steps|
  {
    var id := KidNamed(t.kids, nid + 1, steps[0].name);
    var at := if id < 0 then nid + Size(t) else id;
    var kid :=
      if |steps| == 1 then Labelled(Next(t, nid, steps), Some(steps[0].name), Some(value), kind)
      else SetIn(Next(t, nid, steps), at, steps[1..], value, kind);
    t.(kids := if id < 0 then Append(t.kids, kid) else ReplaceAt(t.kids, nid + 1, id, kid))
  }

  /** The document after one step that is not the last: the next node is there, with the type asked for. */
  ghost function Entered(f: Forest, nid: int, steps: seq<Step>): Forest
    requires 0 <= nid < Size(f) && steps != []
  {
    var t := At(f, 0, nid);
    var id := KidNamed(t.kids, nid + 1, steps[0].name);
    AtBounds(f, 0, nid);
    if id < 0 then AppendKids(f, nid, Next(t, nid, steps))
    else if Mismatch(At(t.kids, nid + 1, id).kind, steps[0].qtype) then ReplaceAt(f, 0, id, Next(t, nid, steps))
    else f
  }

  /** One step of the walk: what is left to do moves to the next container. */
  lemma Descend(f: Forest, nid: int, steps: seq<Step>, value: string, kind: Kind)
    requires 0 <= nid < Size(f) && |steps| > 1
    ensures var t := At(f, 0, nid); var id := KidNamed(t.kids, nid + 1, steps[0].name);
      var at := if id < 0 then nid + Size(t) else id;
      var g := Entered(f, nid, steps);
      && (id >= 0 ==> id < Size(f) && At(f, 0, id) == At(t.kids, nid + 1, id))
      && at < Size(g) && At(g, 0, at) == Next(t, nid, steps)
      && ReplaceAt(g, 0, at, SetIn(At(g, 0, at), at, steps[1..], value, kind))
         == ReplaceAt(f, 0, nid, SetIn(t, nid, steps, value, kind))
  {
    var t := At(f, 0, nid);
    var id := KidNamed(t.kids, nid + 1, steps[0].name);
    assert Size(t) == 1 + Size(t.kids);
    if id < 0 {
      AppendLabelled(f, nid, Next(t, nid, steps), SetIn(Next(t, nid, steps), nid + Size(t), steps[1..], value, kind));
    } else {
      var u := SetIn(Next(t, nid, steps), id, steps[1..], value, kind);
      Inner(f, 0, nid, id, u);
      ReplaceKid(t, nid, id, u);
      AtReplaced(f, 0, id, Next(t, nid, steps));
      ReplaceReplaced(f, 0, id, Next(t, nid, steps), u);
    }
  }

  lemma Finish(f: Forest, nid: int, steps: seq<Step>, value: string, kind: Kind)
    requires 0 <= nid < Size(f) && |steps| == 1
    ensures var t := At(f, 0, nid); var id := KidNamed(t.kids, nid + 1, steps[0].name);
      var leaf := Labelled(Next(t, nid, steps), Some(steps[0].name), Some(value), kind);
      && id < Size(f) && (id >= 0 ==> At(f, 0, id) == Next(t, nid, steps))
      && ReplaceAt(f, 0, nid, SetIn(t, nid, steps, value, kind)) ==
           (if id < 0 then AppendKids(f, nid, leaf) else ReplaceAt(f, 0, id, leaf))
  {
    var t := At(f, 0, nid);
    var id := KidNamed(t.kids, nid + 1, steps[0].name);
    AtBounds(f, 0, nid);
    assert Size(t) == 1 + Size(t.kids);
    if id >= 0 {
      var leaf := Labelled(Next(t, nid, steps), Some(steps[0].name), Some(value), kind);
      Inner(f, 0, nid, id, leaf);
      ReplaceKid(t, nid, id, leaf);
    }
  }

  // The node for a missing property: make room after the last child, then label it.
  method AddChild(json: Json, nid: int, name: Opt, value: Opt, kind: Kind, ghost f: Forest) returns (cid: int)
    requires Represents(json.nodes, f) && json.Valid() && 0 <= nid < Size(f)
    modifies json
    ensures cid == nid + Size(At(f, 0, nid)) && Represents(json.nodes, AppendKids(f, nid, Cons(name, value, kind, Nil, Nil)))
    ensures json.Valid() && |json.nodes| == Size(f) + 1 && json.size == Capacity(old(json.size), Size(f), 1)
  {
    AtHolds(json.nodes, f, 0, nid);
    AtBounds(f, 0, nid);
    ghost var before := json.nodes;
    var at := json.nodes[nid].last;
    var id, _ := json.InsertNodes(at, 1, nid);
    cid := id;
    ghost var blank := Leaves(json.nodes, cid, 1);
    InsertAppends(before, json.nodes, f, cid, 1, nid);
    AppendLabelled(f, nid, blank, Cons(name, value, kind, Nil, Nil));
    LabelSet(json.nodes, AppendKids(f, nid, blank), cid, name, value, kind);
    json.SetNode(cid, kind, name, value);
  }

  // setNode on one node.
  method Relabel(json: Json, id: int, name: Opt, value: Opt, kind: Kind, ghost g: Forest) returns (ghost h: Forest)
    requires Represents(json.nodes, g) && json.Valid() && 0 <= id < Size(g)
    modifies json`nodes
    ensures json.Valid() && Represents(json.nodes, h) && h == ReplaceAt(g, 0, id, Labelled(At(g, 0, id), name, value, kind))
  {
    LabelSet(json.nodes, g, id, name, value, kind);
    json.SetNode(id, kind, name, value);
    h := ReplaceAt(g, 0, id, Labelled(At(g, 0, id), name, value, kind));
  }

  // One term of an update: find the property; make it if it is missing, set it if it is the leaf.
  method UpdateStep(json: Json, nid: int, term: Term, value: string, kind: Kind, ghost g: Forest, ghost steps: seq<Step>)
    returns (id: int, ghost h: Forest)
    requires Represents(json.nodes, g) && json.Valid() && 0 <= nid < Size(g) && Settable(At(g, 0, nid), nid, steps)
    requires term.Term? && steps[0] == Step(term.name, term.rest.None?, term.qtype)
    modifies json
    ensures Represents(json.nodes, h) && json.Valid()
    ensures id == SetAt(At(g, 0, nid), nid, steps)
    ensures var goal := ReplaceAt(g, 0, nid, SetIn(At(g, 0, nid), nid, steps, value, kind));
      if |steps| == 1 then h == goal
      else
        && 0 <= id < Size(h) && At(h, 0, id) == Next(At(g, 0, nid), nid, steps) && Settable(At(h, 0, id), id, steps[1..])
        && goal == ReplaceAt(h, 0, id, SetIn(At(h, 0, id), id, steps[1..], value, kind))
  {
    AtBounds(g, 0, nid);
    ghost var t := At(g, 0, nid);
    id := FindProperty(json, nid, term.name, g);
    assert id == KidNamed(t.kids, nid + 1, term.name);
    assert Size(t) == 1 + Size(t.kids);
    h := g;
    if |steps| > 1 {
      Descend(g, nid, steps, value, kind);
    } else {
      Finish(g, nid, steps, value, kind);
    }
    if id < 0 {
      if term.rest.Some? {
        id := AddChild(json, nid, Some(term.name), None, term.qtype, g);
        h := AppendKids(g, nid, Leaf(term.name, None, term.qtype));
      } else {
        id := AddChild(json, nid, Some(term.name), Some(value), kind, g);
        h := AppendKids(g, nid, Leaf(term.name, Some(value), kind));
      }
    } else if term.rest.None? {
      h := Relabel(json, id, Some(term.name), Some(value), kind, g);
    } else {
      AtHolds(json.nodes, g, 0, id);
      var ntype := json.nodes[id].kind;
      if ntype != term.qtype && !(ntype == Object && term.qtype == Array) {
        h := Relabel(json, id, Some(term.name), None, term.qtype, g);
      }
    }
  }

  /** jquery, as an update: the document becomes SetIn of the steps, and the answer is the index of the leaf. */
  method Update(json: Json, start: int, key: string, value: string, kind: Kind, ghost f: Forest) returns (nid: int, ghost g: Forest)
    requires Represents(json.nodes, f) && json.Valid() && key != ""
    requires (f == Nil && start == 0) || 0 <= start < Size(f)
    requires Settable(At(Rooted(f), 0, start), start, Steps(Some(key), Unset))
    modifies json
    ensures Represents(json.nodes, g) && json.Valid()
    ensures g == ReplaceAt(Rooted(f), 0, start, SetIn(At(Rooted(f), 0, start), start, Steps(Some(key), Unset), value, kind))
    ensures nid == LeafAt(At(Rooted(f), 0, start), start, Steps(Some(key), Unset))
  {
    nid := start;
    g := Rooted(f);
    if nid >= |json.nodes| {
      var _ := json.AllocNode(Object, None, None);
    }
    ghost var goal := ReplaceAt(g, 0, start, SetIn(At(g, 0, start), start, Steps(Some(key), Unset), value, kind));
    ghost var leaf := LeafAt(At(g, 0, start), start, Steps(Some(key), Unset));
    var rest, qtype := Some(key), Unset;
    var term := NextTerm(rest.s, qtype);
    while term.Term?
      invariant Represents(json.nodes, g) && json.Valid()
      invariant term == (if rest.Some? then NextTerm(rest.s, qtype) else NoTerm)
      invariant term.Term? ==> 0 <= nid < Size(g) && Settable(At(g, 0, nid), nid, Steps(rest, qtype))
      invariant goal == if term.Term? then ReplaceAt(g, 0, nid, SetIn(At(g, 0, nid), nid, Steps(rest, qtype), value, kind)) else g
      invariant leaf == if term.Term? then LeafAt(At(g, 0, nid), nid, Steps(rest, qtype)) else nid
      decreases if rest.Some? then |rest.s| + 1 else 0
    {
      ghost var steps := Steps(rest, qtype);
      assert steps[0] == Step(term.name, term.rest.None?, term.qtype) && steps[1..] == Steps(term.rest, term.qtype);
      nid, g := UpdateStep(json, nid, term, value, kind, g, steps);
      rest, qtype := term.rest, term.qtype;
      term := if rest.Some? then NextTerm(rest.s, qtype) else NoTerm;
    }
  }

  /** The document an update starts from: an empty one gets a root object. */
  function Rooted(f: Forest): (g: Forest)
    ensures g.Cons?
  {
    if f == Nil then Cons(None, None, Object, Nil, Nil) else f
  }
}
