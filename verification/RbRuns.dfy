/**
  Whole runs of a red/black tree: what every sequence of insertions and removals keeps, on the
  items and on the tree itself.
*/
module RedBlackRuns {
  import opened Order
  import opened RedBlack

  // The items stored, those passed to the callback, those handed back to the caller, and those
  // that a tree without a callback drops.
  datatype State = State(items: seq<Data>, freed: seq<Data>, kept: seq<Data>, lost: seq<Data>)

  datatype Op = Insert(data: Data, at: nat) | Remove(k: nat, keep: bool)

  ghost predicate Step(cmp: Compare, dup: bool, hasFree: bool, s: State, op: Op, t: State) {
    match op
    case Insert(data, at) =>
      var gone := Dropped(cmp, dup, s.items, data, at);
      && InsertStep(cmp, dup, s.items, data, at, t.items) && t.kept == s.kept && Discarded(hasFree, s, gone, t)
    case Remove(k, keep) =>
      && k < |s.items| && t.items == s.items[..k] + s.items[k + 1..]
      && t.kept == s.kept + (if keep then [s.items[k]] else [])
      && Discarded(hasFree, s, if keep then [] else [s.items[k]], t)
  }

  // Items that are given up go to the callback, if there is one.
  ghost predicate Discarded(hasFree: bool, s: State, gone: seq<Data>, t: State) {
    t.freed == s.freed + (if hasFree then gone else []) && t.lost == s.lost + (if hasFree then [] else gone)
  }

  ghost predicate Run(cmp: Compare, dup: bool, hasFree: bool, ss: seq<State>, ops: seq<Op>) {
    && |ss| == |ops| + 1 && ss[0] == State([], [], [], [])
    && forall i {:trigger ops[i]} :: 0 <= i < |ops| ==> Step(cmp, dup, hasFree, ss[i], ops[i], ss[i + 1])
  }

  ghost function Given(ops: seq<Op>): multiset<Data> {
    if ops == [] then multiset{}
    else Given(ops[..|ops| - 1]) + Gain(ops[|ops| - 1])
  }

  ghost function Held(s: State): multiset<Data> {
    multiset(s.items) + multiset(s.freed) + multiset(s.kept) + multiset(s.lost)
  }

  ghost function Gain(op: Op): multiset<Data> {
    match op
    case Insert(data, _) => multiset{data}
    case Remove(_, _) => multiset{}
  }

  lemma ReplaceConserves(s: seq<Data>, k: nat, data: Data)
    requires k < |s|
    ensures multiset(s[k := data]) + multiset{s[k]} == multiset(s) + multiset{data}
  {
    assert s == s[..k] + [s[k]] + s[k + 1..];
    assert s[k := data] == s[..k] + [data] + s[k + 1..];
  }

  lemma InsertConserves(s: seq<Data>, k: nat, data: Data)
    requires k <= |s|
    ensures multiset(s[..k] + [data] + s[k..]) == multiset(s) + multiset{data}
  {
    assert s == s[..k] + s[k..];
  }

  lemma RemoveConserves(s: seq<Data>, k: nat)
    requires k < |s|
    ensures multiset(s[..k] + s[k + 1..]) + multiset{s[k]} == multiset(s)
  {
    assert s == s[..k] + [s[k]] + s[k + 1..];
  }

  lemma InsertStepConserves(cmp: Compare, dup: bool, s: seq<Data>, data: Data, at: nat, t: seq<Data>)
    requires InsertStep(cmp, dup, s, data, at, t)
    ensures multiset(t) + multiset(Dropped(cmp, dup, s, data, at)) == multiset(s) + multiset{data}
  {
    if !dup && at < |s| && cmp(data, s[at], NULL) == 0 {
      ReplaceConserves(s, at, data);
      assert multiset(Dropped(cmp, dup, s, data, at)) == multiset{s[at]};
    } else {
      InsertConserves(s, at, data);
    }
  }

  // The items lose what the others gain.
  lemma Balance(items: multiset<Data>, gone: multiset<Data>, was: multiset<Data>, given: multiset<Data>,
                others: multiset<Data>, more: multiset<Data>)
    requires items + gone == was + given && more == others + gone
    ensures items + more == (was + others) + given
  {
    assert items + (others + gone) == (items + gone) + others;
  }

  lemma HeldAs(s: State)
    ensures Held(s) == multiset(s.items) + (multiset(s.freed) + multiset(s.lost) + multiset(s.kept))
  {
  }

  lemma HeldDiscarded(hasFree: bool, s: State, gone: seq<Data>, t: State, back: seq<Data>)
    requires Discarded(hasFree, s, gone, t) && t.kept == s.kept + back
    ensures multiset(t.freed) + multiset(t.lost) + multiset(t.kept)
         == multiset(s.freed) + multiset(s.lost) + multiset(s.kept) + multiset(gone + back)
  {
  }

  lemma InsertConserved(cmp: Compare, dup: bool, hasFree: bool, s: State, data: Data, at: nat, t: State)
    requires Step(cmp, dup, hasFree, s, Insert(data, at), t)
    ensures Held(t) == Held(s) + multiset{data}
  {
    var gone := Dropped(cmp, dup, s.items, data, at);
    InsertStepConserves(cmp, dup, s.items, data, at, t.items);
    HeldDiscarded(hasFree, s, gone, t, []);
    assert gone + [] == gone;
    HeldAs(s);
    HeldAs(t);
    Balance(multiset(t.items), multiset(gone), multiset(s.items), multiset{data},
            multiset(s.freed) + multiset(s.lost) + multiset(s.kept), multiset(t.freed) + multiset(t.lost) + multiset(t.kept));
  }

  lemma RemoveConserved(cmp: Compare, dup: bool, hasFree: bool, s: State, k: nat, keep: bool, t: State)
    requires Step(cmp, dup, hasFree, s, Remove(k, keep), t)
    ensures Held(t) == Held(s)
  {
    var item := s.items[k];
    var gone, back := if keep then [] else [item], if keep then [item] else [];
    RemoveConserves(s.items, k);
    HeldDiscarded(hasFree, s, gone, t, back);
    assert gone + back == [item] && multiset([item]) == multiset{item};
    HeldAs(s);
    HeldAs(t);
    Balance(multiset(t.items), multiset{item}, multiset(s.items), multiset{},
            multiset(s.freed) + multiset(s.lost) + multiset(s.kept), multiset(t.freed) + multiset(t.lost) + multiset(t.kept));
  }

  lemma StepConserves(cmp: Compare, dup: bool, hasFree: bool, s: State, op: Op, t: State)
    requires Step(cmp, dup, hasFree, s, op, t)
    ensures Held(t) == Held(s) + Gain(op)
    ensures hasFree && s.lost == [] ==> t.lost == []
  {
    match op
    case Insert(data, at) => InsertConserved(cmp, dup, hasFree, s, data, at, t);
    case Remove(k, keep) => RemoveConserved(cmp, dup, hasFree, s, k, keep, t);
  }

  lemma StepSorted(cmp: Compare, dup: bool, hasFree: bool, s: State, op: Op, t: State)
    requires TotalPreorder(cmp) && Sorted(cmp, dup, s.items) && Step(cmp, dup, hasFree, s, op, t)
    ensures Sorted(cmp, dup, t.items)
  {
    match op
    case Insert(data, at) =>
      if Dropped(cmp, dup, s.items, data, at) != [] {
        SortedReplace(cmp, s.items, data, at);
      } else {
        SortedInsert(cmp, dup, s.items, data, at);
      }
    case Remove(k, keep) => SortedDelete(cmp, dup, s.items, k);
  }

  /** In every run the items stay in order, and every item given is stored, freed, kept or lost exactly once. */
  lemma {:induction false} RunConserves(cmp: Compare, dup: bool, hasFree: bool, ss: seq<State>, ops: seq<Op>)
    requires TotalPreorder(cmp) && Run(cmp, dup, hasFree, ss, ops)
    ensures Given(ops) == Held(ss[|ops|]) && Sorted(cmp, dup, ss[|ops|].items)
    ensures hasFree ==> ss[|ops|].lost == []
    decreases |ops|
  {
    if ops != [] {
      var n := |ops| - 1;
      var before := ops[..n];
      assert forall i {:trigger before[i]} :: 0 <= i < n ==> before[i] == ops[i];
      RunConserves(cmp, dup, hasFree, ss[..n + 1], before);
      assert Step(cmp, dup, hasFree, ss[n], ops[n], ss[n + 1]);
      StepConserves(cmp, dup, hasFree, ss[n], ops[n], ss[n + 1]);
      StepSorted(cmp, dup, hasFree, ss[n], ops[n], ss[n + 1]);
    }
  }

  /** The place of an insertion is determined by the items alone: after every item not greater. */
  lemma InsertStepUnique(cmp: Compare, dup: bool, s: seq<Data>, data: Data, a: int, t: seq<Data>, b: int, u: seq<Data>)
    requires TotalPreorder(cmp) && Sorted(cmp, dup, s)
    requires InsertStep(cmp, dup, s, data, a, t) && InsertStep(cmp, dup, s, data, b, u)
    ensures a == b && t == u
  {
    if !dup && 0 <= a < |s| && cmp(data, s[a], NULL) == 0 {
      SortedReplace(cmp, s, data, a);
    } else {
      assert 0 <= a < |s| ==> cmp(data, s[a], NULL) < 0;
      assert 0 <= b < |s| ==> cmp(data, s[b], NULL) < 0;
    }
  }

  // ------------------------------------------------------------------ runs of a tree

  /** The tree stores the items of the state, and has freed those that the state says. */
  ghost predicate In(tree: RbTree, s: State)
    reads tree, tree.root, tree.nil, tree.nodes
  {
    tree.Valid() && tree.Items() == s.items && tree.freed == s.freed
  }

  /** rbInsert performs a step. */
  method InsertInto(tree: RbTree, data: Data, ghost s: State) returns (node: RbNode, ghost op: Op, ghost t: State)
    requires In(tree, s) && data != NULL
    modifies tree`freed, tree`nodes, tree`order, tree`min, tree.root`left, tree.root`right, tree.nodes
    ensures In(tree, t) && Step(tree.compare, tree.dup, tree.hasFree, s, op, t) && op.Insert? && op.data == data
    ensures fresh(tree.nodes - old(tree.nodes))
  {
    ghost var at;
    node, at := tree.Insert(data);
    ghost var gone := Dropped(tree.compare, tree.dup, s.items, data, at);
    op := Insert(data, at);
    t := State(tree.Items(), tree.freed, s.kept, s.lost + if tree.hasFree then [] else gone);
  }

  /** rbRemove performs a step. */
  method RemoveFrom(tree: RbTree, node: RbNode, keep: bool, ghost s: State) returns (data: Data, ghost op: Op, ghost t: State)
    requires In(tree, s) && node in tree.nodes
    modifies tree`freed, tree`nodes, tree`order, tree`min, tree`doomed, tree.root`left, tree.nodes
    ensures In(tree, t) && Step(tree.compare, tree.dup, tree.hasFree, s, op, t)
    ensures op.Remove? && op.keep == keep && t.kept == s.kept + (if keep then [data] else [])
    ensures tree.nodes <= old(tree.nodes)
  {
    ghost var k := node.pos;
    assert tree.Linked(node);
    assert tree.order[k] == node;
    data := tree.Remove(node, keep);
    op := Remove(k, keep);
    ghost var item := s.items[k];
    t := State(tree.Items(), tree.freed, s.kept + if keep then [item] else [], s.lost + if keep || tree.hasFree then [] else [item]);
  }

  // What a caller does: insert an item, or look one up and remove what is found.
  datatype Command = Add(data: Data) | Take(data: Data, keep: bool)

  /** The items that the caller has inserted. */
  function Handed(cmds: seq<Command>): multiset<Data> {
    if cmds == [] then multiset{} else Handed(cmds[..|cmds| - 1]) + HandedBy(cmds[|cmds| - 1])
  }

  function HandedBy(cmd: Command): multiset<Data> {
    match cmd
    case Add(data) => multiset{data}
    case Take(_, _) => multiset{}
  }

  // Any item can be looked up by the order it is stored in.
  lemma OrderedMonotone(tree: RbTree, data: Data)
    requires tree.Valid()
    ensures tree.Monotone(data, NULL)
  {
    var s := tree.Items();
    forall i, j {:trigger tree.order[i], tree.order[j]}
      | 0 <= i < j < |tree.order| && tree.order[i] in tree.nodes && tree.order[j] in tree.nodes
      ensures tree.compare(data, tree.order[i].data, NULL) < 0 ==> tree.compare(data, tree.order[j].data, NULL) < 0
      ensures tree.compare(data, tree.order[i].data, NULL) == 0 ==> tree.compare(data, tree.order[j].data, NULL) <= 0
    {
      assert Ordered(tree.compare, tree.dup, s, i, j) && s[i] == tree.order[i].data && s[j] == tree.order[j].data;
      Transitive(tree.compare, data, s[i], s[j]);
    }
  }

  // What a command has done: a step, or nothing.
  ghost predicate Did(tree: RbTree, cmd: Command, s: State, ops: seq<Op>, t: State) {
    if ops == [] then t == s && HandedBy(cmd) == multiset{}
    else |ops| == 1 && Step(tree.compare, tree.dup, tree.hasFree, s, ops[0], t) && Gain(ops[0]) == HandedBy(cmd)
  }

  /** One command. */
  method Perform(tree: RbTree, cmd: Command, ghost s: State) returns (got: seq<Data>, ghost ops: seq<Op>, ghost t: State)
    requires In(tree, s) && (cmd.Add? ==> cmd.data != NULL)
    modifies tree, tree.root, tree.nodes
    ensures In(tree, t) && Did(tree, cmd, s, ops, t) && t.kept == s.kept + got && fresh(tree.nodes - old(tree.nodes))
  {
    got, ops, t := [], [], s;
    ghost var op: Op;
    match cmd {
      case Add(data) =>
        var node;
        node, op, t := InsertInto(tree, data, s);
        ops := [op];
      case Take(data, keep) =>
        OrderedMonotone(tree, data);
        var found, _ := tree.Lookup(data, NULL);
        if found != null {
          var item;
          item, op, t := RemoveFrom(tree, found, keep, s);
          got := if keep then [item] else [];
          ops := [op];
        }
    }
  }

  lemma RunMore(tree: RbTree, cmd: Command, ss: seq<State>, ops: seq<Op>, more: seq<Op>, t: State)
    requires Run(tree.compare, tree.dup, tree.hasFree, ss, ops) && Did(tree, cmd, ss[|ops|], more, t)
    ensures Run(tree.compare, tree.dup, tree.hasFree, if more == [] then ss else ss + [t], ops + more)
    ensures Given(ops + more) == Given(ops) + HandedBy(cmd)
  {
    if more == [] {
      assert ops + more == ops;
    } else {
      assert (ops + more)[..|ops|] == ops && (ops + more)[|ops|] == more[0];
    }
  }

  /** The operations so far are a run, at whose end the tree is. */
  ghost predicate Ran(tree: RbTree, ss: seq<State>, ops: seq<Op>, kept: seq<Data>)
    reads tree, tree.root, tree.nil, tree.nodes
  {
    Run(tree.compare, tree.dup, tree.hasFree, ss, ops) && In(tree, ss[|ops|]) && ss[|ops|].kept == kept
  }

  // One more command of a run.
  method Advance(tree: RbTree, cmd: Command, kept0: seq<Data>, ghost ss0: seq<State>, ghost ops0: seq<Op>)
    returns (kept: seq<Data>, ghost ss: seq<State>, ghost ops: seq<Op>)
    requires Ran(tree, ss0, ops0, kept0) && (cmd.Add? ==> cmd.data != NULL)
    modifies tree, tree.root, tree.nodes
    ensures Ran(tree, ss, ops, kept)
    ensures Given(ops) == Given(ops0) + HandedBy(cmd) && fresh(tree.nodes - old(tree.nodes))
  {
    var got;
    ghost var more, t;
    got, more, t := Perform(tree, cmd, ss0[|ops0|]);
    RunMore(tree, cmd, ss0, ops0, more, t);
    kept, ss, ops := kept0 + got, if more == [] then ss0 else ss0 + [t], ops0 + more;
  }

  // A new tree, and one command after the other.
  method Replay(cmds: seq<Command>, dup: bool, compare: Compare, hasFree: bool)
    returns (tree: RbTree, kept: seq<Data>, ghost ss: seq<State>, ghost ops: seq<Op>)
    requires TotalPreorder(compare) && forall i {:trigger cmds[i]} :: 0 <= i < |cmds| && cmds[i].Add? ==> cmds[i].data != NULL
    ensures tree.dup == dup && tree.compare == compare && tree.hasFree == hasFree
    ensures Ran(tree, ss, ops, kept) && Given(ops) == Handed(cmds)
    ensures fresh(tree) && fresh(tree.root) && fresh(tree.nodes)
    decreases |cmds|
  {
    if cmds == [] {
      tree := new RbTree(dup, compare, hasFree);
      kept, ss, ops := [], [State([], [], [], [])], [];
      return;
    }
    var n := |cmds| - 1;
    tree, kept, ss, ops := Replay(cmds[..n], dup, compare, hasFree);
    kept, ss, ops := Advance(tree, cmds[n], kept, ss, ops);
  }

  /**
    Any sequence of commands on a new tree is a run; so every item inserted is stored, freed,
    handed back or lost, exactly once.
  */
  method Execute(cmds: seq<Command>, dup: bool, compare: Compare, hasFree: bool)
    returns (tree: RbTree, kept: seq<Data>, ghost ss: seq<State>, ghost ops: seq<Op>)
    requires TotalPreorder(compare) && forall i {:trigger cmds[i]} :: 0 <= i < |cmds| && cmds[i].Add? ==> cmds[i].data != NULL
    ensures tree.dup == dup && tree.compare == compare && tree.hasFree == hasFree
    ensures Ran(tree, ss, ops, kept) && Handed(cmds) == Given(ops) == Held(ss[|ops|])
    ensures hasFree ==> ss[|ops|].lost == []
  {
    tree, kept, ss, ops := Replay(cmds, dup, compare, hasFree);
    RunConserves(compare, dup, hasFree, ss, ops);
  }
}
