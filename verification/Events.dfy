/**
  The event queue of the Safe Runtime (bin/json.c:4180-4529).

  Pending events are a linked list in the order of their due times. `Queue` is that list;
  its methods do what the functions on sequences in front of it say.
*/
module EventQueue {
  import opened Sets

  const MAXINT64 := 0x7fff_ffff_ffff_ffff

  /**
    What the queue knows about an event. The serial number says which event it is, as ids
    may be reused; the stamp says when it was linked.
  */
  datatype Item = Item(serial: nat, id: int, when: int, stamp: nat)

  // ------------------------------------------------------------------ what the operations do

  // Where linkEvent puts an event: in front of the first one that is due later.
  function Place(s: seq<Item>, when: int): (p: nat)
    ensures p <= |s|
  {
    if s == [] || s[0].when > when then 0 else 1 + Place(s[1..], when)
  }

  /** That is the only place with no later event in front of it and a later one behind it. */
  lemma {:induction false} PlaceIs(s: seq<Item>, when: int, p: nat)
    requires p <= |s|
    ensures Place(s, when) == p <==> (forall i {:trigger s[i]} :: 0 <= i < p ==> s[i].when <= when) && (p < |s| ==> s[p].when > when)
    decreases |s|
  {
    if s != [] && s[0].when <= when {
      var r := s[1..];
      assert forall i {:trigger s[i]} :: 1 <= i < |s| ==> s[i] == r[i - 1];
      assert forall i {:trigger r[i]} :: 0 <= i < |r| ==> r[i] == s[i + 1];
      if p > 0 {
        PlaceIs(r, when, p - 1);
      }
    }
  }

  function Link(s: seq<Item>, e: Item): seq<Item> {
    var p := Place(s, e.when);
    s[..p] + [e] + s[p..]
  }

  // The events due at a time, and the others, in their order.
  function Due(s: seq<Item>, now: int): seq<Item> {
    if s == [] then [] else Due(s[..|s| - 1], now) + if s[|s| - 1].when <= now then [s[|s| - 1]] else []
  }

  function Later(s: seq<Item>, now: int): seq<Item> {
    if s == [] then [] else Later(s[..|s| - 1], now) + if s[|s| - 1].when <= now then [] else [s[|s| - 1]]
  }

  // The least due time, MAXINT64 if there is none.
  function Deadline(s: seq<Item>): (d: int)
    ensures d <= MAXINT64 && forall i :: 0 <= i < |s| ==> d <= s[i].when
    ensures d == MAXINT64 || exists i :: 0 <= i < |s| && s[i].when == d
  {
    if s == [] then MAXINT64
    else
      var d, when := Deadline(s[..|s| - 1]), s[|s| - 1].when;
      if when < d then when else d
  }

  // The first event with an id, or -1.
  function Find(s: seq<Item>, id: int): (i: int)
    ensures -1 <= i < |s|
  {
    if s == [] then -1
    else if s[0].id == id then 0
    else
      var i := Find(s[1..], id);
      if i < 0 then -1 else i + 1
  }

  lemma {:induction false} FindIs(s: seq<Item>, id: int, p: int)
    requires -1 <= p < |s|
    ensures Find(s, id) == p <==> (forall i {:trigger s[i]} :: 0 <= i < (if p < 0 then |s| else p) ==> s[i].id != id) && (p >= 0 ==> s[p].id == id)
    decreases |s|
  {
    if s != [] && s[0].id != id {
      var r := s[1..];
      assert forall i {:trigger s[i]} :: 1 <= i < |s| ==> s[i] == r[i - 1];
      assert forall i {:trigger r[i]} :: 0 <= i < |r| ==> r[i] == s[i + 1];
      if p != 0 {
        FindIs(r, id, if p < 0 then -1 else p - 1);
      }
    }
  }

  function Without(s: seq<Item>, i: int): seq<Item>
    requires 0 <= i < |s|
  {
    s[..i] + s[i + 1..]
  }

  // ------------------------------------------------------------------ order

  /** By due time, and by the order of linking where that is the same. */
  ghost predicate InOrder(s: seq<Item>) {
    forall i, j {:trigger s[i], s[j]} :: 0 <= i < j < |s| ==> s[i].when < s[j].when || (s[i].when == s[j].when && s[i].stamp < s[j].stamp)
  }

  /** Linking keeps the order: the event comes behind all that are due at the same time. */
  lemma LinkInOrder(s: seq<Item>, e: Item)
    requires InOrder(s) && forall i {:trigger s[i]} :: 0 <= i < |s| ==> s[i].stamp < e.stamp
    ensures InOrder(Link(s, e))
  {
    var p, t := Place(s, e.when), Link(s, e);
    PlaceIs(s, e.when, p);
    forall i, j {:trigger t[i], t[j]} | 0 <= i < j < |t| ensures t[i].when < t[j].when || (t[i].when == t[j].when && t[i].stamp < t[j].stamp) {
      assert i < p ==> t[i] == s[i];
      assert i > p ==> t[i] == s[i - 1];
      assert j < p ==> t[j] == s[j];
      assert j > p ==> t[j] == s[j - 1];
      if p < |s| {
        var _ := s[p];
      }
    }
  }

  lemma CutLast(s: seq<Item>, k: nat)
    requires k < |s|
    ensures var n := |s| - 1; s[..k] == s[..n][..k] && s[k..] == s[..n][k..] + [s[n]]
  {
  }

  lemma {:induction false} DueSplit(s: seq<Item>, now: int, k: nat)
    requires k <= |s| && forall i {:trigger s[i]} :: 0 <= i < |s| ==> (s[i].when <= now <==> i < k)
    ensures Due(s, now) == s[..k] && Later(s, now) == s[k..]
    decreases |s|
  {
    if s == [] {
    } else {
      var n := |s| - 1;
      var r := s[..n];
      assert s[n].when <= now <==> n < k;
      assert forall i {:trigger r[i]} :: 0 <= i < n ==> r[i] == s[i];
      if k == |s| {
        DueSplit(r, now, n);
        assert r[..n] == r && r[n..] == [] && s[..k] == s == r + [s[n]] && s[k..] == [];
      } else {
        DueSplit(r, now, k);
        CutLast(s, k);
      }
    }
  }

  /** In an ordered queue the due events are the first ones, and the deadline is that of the next one. */
  lemma DueIsPrefix(s: seq<Item>, now: int)
    requires InOrder(s)
    ensures Due(s, now) == s[..Place(s, now)] && Later(s, now) == s[Place(s, now)..]
    ensures Deadline(Later(s, now)) == var k := Place(s, now); if k < |s| && s[k].when < MAXINT64 then s[k].when else MAXINT64
  {
    var k := Place(s, now);
    PlaceIs(s, now, k);
    FirstIsLeast(s, k);
    DueSplit(s, now, k);
  }

  lemma FirstIsLeast(s: seq<Item>, k: nat)
    requires InOrder(s) && k <= |s|
    ensures forall i {:trigger s[i]} :: k <= i < |s| ==> s[k].when <= s[i].when
    ensures Deadline(s[k..]) == if k < |s| && s[k].when < MAXINT64 then s[k].when else MAXINT64
  {
    var rest := s[k..];
    if k < |s| {
      forall i {:trigger s[i]} | k <= i < |s| ensures s[k].when <= s[i].when {
        var _ := s[k];
      }
      assert rest[0] == s[k];
      assert forall i :: 0 <= i < |rest| ==> rest[i] == s[k + i];
    }
  }

  // ------------------------------------------------------------------ what is taken out when

  /** Exactly the events that are due are taken out; nothing is lost. */
  lemma {:induction false} DueExactly(s: seq<Item>, now: int, e: Item)
    ensures e in Due(s, now) <==> e in s && now >= e.when
    ensures e in Later(s, now) <==> e in s && now < e.when
    ensures multiset(Due(s, now)) + multiset(Later(s, now)) == multiset(s)
    decreases |s|
  {
    if s != [] {
      var n := |s| - 1;
      DueExactly(s[..n], now, e);
      assert s == s[..n] + [s[n]];
    }
  }

  /** t is s and one more event, at p. */
  ghost predicate Gained(s: seq<Item>, t: seq<Item>, p: int) {
    0 <= p < |t| && t[..p] + t[p + 1..] == s
  }

  lemma LinkGains(s: seq<Item>, e: Item)
    ensures Gained(s, Link(s, e), Place(s, e.when)) && Link(s, e)[Place(s, e.when)] == e
  {
    var p, t := Place(s, e.when), Link(s, e);
    assert t[..p] == s[..p] && t[p + 1..] == s[p..] && s[..p] + s[p..] == s;
  }

  // ------------------------------------------------------------------ runs

  /**
    The events that were allocated so far: pending, due (taken out by rRunEvents, and not
    yet run), fired or stopped. `clock` counts the linkings.
  */
  datatype State = State(pending: seq<Item>, due: seq<Item>, fired: set<nat>, stopped: set<nat>, born: nat, clock: nat)

  // Alloc is rAllocEvent, Stop is rStopEvent, Extract is the first loop of rRunEvents, and
  // every iteration of its second loop is a Fire, or a PutBack if there is no fiber.
  datatype Op = Alloc(id: int, when: int) | Stop(id: int) | Extract(now: int) | Fire | PutBack(when: int)

  predicate Possible(st: State, op: Op) {
    match op
    case Extract(_) => st.due == []
    case Fire => st.due != []
    case PutBack(_) => st.due != []
    case _ => true
  }

  function Allocated(st: State, id: int, when: int): State {
    st.(pending := Link(st.pending, Item(st.born, id, when, st.clock)), born := st.born + 1, clock := st.clock + 1)
  }

  function Stopped(st: State, id: int): State {
    var i := Find(st.pending, id);
    if id == 0 || i < 0 then st
    else st.(pending := Without(st.pending, i), stopped := st.stopped + {st.pending[i].serial})
  }

  function Extracted(st: State, now: int): State {
    st.(pending := Later(st.pending, now), due := Due(st.pending, now))
  }

  function Fired(st: State): State
    requires st.due != []
  {
    st.(due := st.due[1..], fired := st.fired + {st.due[0].serial})
  }

  function ReturnedTo(st: State, when: int): State
    requires st.due != []
  {
    st.(pending := Link(st.pending, st.due[0].(when := when, stamp := st.clock)), due := st.due[1..], clock := st.clock + 1)
  }

  function Apply(st: State, op: Op): State
    requires Possible(st, op)
  {
    match op
    case Alloc(id, when) => Allocated(st, id, when)
    case Stop(id) => Stopped(st, id)
    case Extract(now) => Extracted(st, now)
    case Fire => Fired(st)
    case PutBack(when) => ReturnedTo(st, when)
  }

  /**
    An allocation adds one pending event, with the id and the due time given, and the next
    rRunEvents runs it at a time `now` exactly if that is not before the due time.
  */
  lemma AllocThenExtract(st: State, id: int, when: int, now: int) returns (p: int)
    ensures var u := Apply(st, Alloc(id, when));
      && Gained(st.pending, u.pending, p) && u.due == st.due && u.fired == st.fired && u.stopped == st.stopped
      && var e := u.pending[p];
      && e.serial == st.born && e.id == id && e.when == when
      && (u.due == [] ==> (e in Apply(u, Extract(now)).due <==> now >= when) && (e in Apply(u, Extract(now)).pending <==> now < when))
  {
    p := LinkThenTake(st.pending, Item(st.born, id, when, st.clock), now);
  }

  lemma LinkThenTake(s: seq<Item>, e: Item, now: int) returns (p: int)
    ensures var t := Link(s, e);
      Gained(s, t, p) && t[p] == e && (e in Due(t, now) <==> now >= e.when) && (e in Later(t, now) <==> now < e.when)
  {
    p := Place(s, e.when);
    LinkGains(s, e);
    DueExactly(Link(s, e), now, e);
  }

  /** An event that is put back is pending again, the same event but for its due time, and leaves the due list. */
  lemma PutBackThenExtract(st: State, when: int, now: int) returns (p: int)
    requires st.due != []
    ensures var u := Apply(st, PutBack(when));
      && Gained(st.pending, u.pending, p) && st.due == [st.due[0]] + u.due && u.fired == st.fired && u.stopped == st.stopped
      && var e := u.pending[p];
      && e.serial == st.due[0].serial && e.id == st.due[0].id && e.when == when
      && (u.due == [] ==> (e in Apply(u, Extract(now)).due <==> now >= when) && (e in Apply(u, Extract(now)).pending <==> now < when))
  {
    p := LinkThenTake(st.pending, st.due[0].(when := when, stamp := st.clock), now);
  }

  lemma ReturnGives(st: State, u: State, when: int)
    requires st.due != [] && var e := st.due[0].(when := when, stamp := st.clock);
      u == st.(pending := Link(st.pending, e), due := st.due[1..], clock := st.clock + 1)
    ensures u == ReturnedTo(st, when)
  {
  }

  lemma AllocGives(st: State, u: State, id: int, when: int)
    requires var e := Item(st.born, id, when, st.clock); u == st.(pending := Link(st.pending, e), born := st.born + 1, clock := st.clock + 1)
    ensures u == Allocated(st, id, when)
  {
  }

  predicate AllPossible(st: State, ops: seq<Op>)
    decreases |ops|
  {
    ops == [] || (Possible(st, ops[0]) && AllPossible(Apply(st, ops[0]), ops[1..]))
  }

  function Run(st: State, ops: seq<Op>): State
    requires AllPossible(st, ops)
    decreases |ops|
  {
    if ops == [] then st else Run(Apply(st, ops[0]), ops[1..])
  }

  ghost function Serials(s: seq<Item>): set<nat> {
    set i | 0 <= i < |s| :: s[i].serial
  }

  ghost predicate NoneTwiceIn(s: seq<Item>) {
    forall i, j {:trigger s[i], s[j]} :: 0 <= i < j < |s| ==> s[i].serial != s[j].serial
  }

  /** Every event is in exactly one place, once. */
  ghost predicate Accounted(st: State) {
    && NoneTwiceIn(st.pending) && NoneTwiceIn(st.due)
    && Serials(st.pending) !! Serials(st.due) && (Serials(st.pending) + Serials(st.due)) !! st.fired
    && (Serials(st.pending) + Serials(st.due) + st.fired) !! st.stopped
    && forall n: nat :: n in Known(st) <==> n < st.born
  }

  ghost function Known(st: State): set<nat> {
    Serials(st.pending) + Serials(st.due) + st.fired + st.stopped
  }

  ghost predicate Stamped(s: seq<Item>, clock: nat) {
    forall i {:trigger s[i]} :: 0 <= i < |s| ==> s[i].stamp < clock
  }

  /** What every reachable state is like. */
  ghost predicate Good(st: State) {
    InOrder(st.pending) && Stamped(st.pending, st.clock) && Accounted(st)
  }

  lemma LinkSerials(s: seq<Item>, e: Item)
    requires NoneTwiceIn(s) && e.serial !in Serials(s)
    ensures Serials(Link(s, e)) == Serials(s) + {e.serial} && NoneTwiceIn(Link(s, e))
  {
    var p, t := Place(s, e.when), Link(s, e);
    forall i {:trigger t[i]} | 0 <= i < |t| ensures t[i] == if i < p then s[i] else if i == p then e else s[i - 1] {
    }
    forall n | n in Serials(s) + {e.serial} ensures n in Serials(t) {
      if n == e.serial {
        assert t[p].serial == n;
      } else {
        var i :| 0 <= i < |s| && s[i].serial == n;
        assert t[if i < p then i else i + 1].serial == n;
      }
    }
  }

  lemma WithoutSerials(s: seq<Item>, p: nat)
    requires NoneTwiceIn(s) && p < |s|
    ensures Serials(Without(s, p)) == Serials(s) - {s[p].serial} && NoneTwiceIn(Without(s, p))
    ensures InOrder(s) ==> InOrder(Without(s, p))
  {
    var t := Without(s, p);
    forall i {:trigger t[i]} | 0 <= i < |t| ensures t[i] == s[if i < p then i else i + 1] {
    }
    forall n | n in Serials(s) - {s[p].serial} ensures n in Serials(t) {
      var i :| 0 <= i < |s| && s[i].serial == n;
      assert t[if i < p then i else i - 1].serial == n;
    }
  }

  lemma SplitSerials(s: seq<Item>, k: nat)
    requires NoneTwiceIn(s) && k <= |s|
    ensures Serials(s[..k]) + Serials(s[k..]) == Serials(s) && Serials(s[..k]) !! Serials(s[k..])
    ensures NoneTwiceIn(s[..k]) && NoneTwiceIn(s[k..])
    ensures InOrder(s) ==> InOrder(s[k..])
  {
    var a, b := s[..k], s[k..];
    forall n | n in Serials(s) ensures n in Serials(a) + Serials(b) {
      var i :| 0 <= i < |s| && s[i].serial == n;
      if i < k {
        assert a[i].serial == n;
      } else {
        assert b[i - k].serial == n;
      }
    }
    forall i {:trigger a[i]} | 0 <= i < |a| ensures a[i] == s[i] {
    }
    forall i {:trigger b[i]} | 0 <= i < |b| ensures b[i] == s[k + i] {
    }
  }

  lemma AllocKeepsGood(st: State, id: int, when: int)
    requires Good(st)
    ensures Good(Apply(st, Alloc(id, when)))
  {
    var e := Item(st.born, id, when, st.clock);
    assert st.born in Known(st) ==> st.born < st.born;
    LinkInOrder(st.pending, e);
    LinkSerials(st.pending, e);
    LinkStamps(st.pending, e, st.clock);
    var t := Apply(st, Alloc(id, when));
    forall n: nat ensures n in Known(t) <==> n < t.born {
      assert n in Known(t) <==> n in Known(st) || n == st.born;
    }
  }

  lemma LinkStamps(s: seq<Item>, e: Item, clock: nat)
    requires Stamped(s, clock) && e.stamp == clock
    ensures Stamped(Link(s, e), clock + 1)
  {
    var t := Link(s, e);
    forall i {:trigger t[i]} | 0 <= i < |t| ensures t[i].stamp < clock + 1 {
      assert t[i] == e || t[i] in s;
    }
  }

  lemma StopKeepsGood(st: State, id: int)
    requires Good(st)
    ensures Good(Apply(st, Stop(id)))
  {
    var i := Find(st.pending, id);
    if id != 0 && i >= 0 {
      WithoutSerials(st.pending, i);
      var t := Apply(st, Stop(id));
      forall j {:trigger t.pending[j]} | 0 <= j < |t.pending| ensures t.pending[j].stamp < t.clock {
        assert t.pending[j] == st.pending[if j < i then j else j + 1];
      }
      assert Known(t) == Known(st);
    }
  }

  lemma TakenOut(st: State, a: seq<Item>, b: seq<Item>)
    requires Accounted(st) && st.due == [] && NoneTwiceIn(a) && NoneTwiceIn(b)
    requires Serials(a) !! Serials(b) && Serials(a) + Serials(b) == Serials(st.pending)
    ensures Accounted(st.(pending := b, due := a))
  {
    assert Serials(st.due) == {};
    assert Known(st.(pending := b, due := a)) == Known(st);
  }

  lemma LaterStamps(s: seq<Item>, k: nat, clock: nat)
    requires Stamped(s, clock) && k <= |s|
    ensures Stamped(s[k..], clock)
  {
    forall j {:trigger s[k..][j]} | 0 <= j < |s[k..]| ensures s[k..][j].stamp < clock {
      assert s[k..][j] == s[k + j];
    }
  }

  lemma ExtractKeepsGood(st: State, now: int)
    requires Good(st) && st.due == []
    ensures Good(Apply(st, Extract(now)))
  {
    var k := Place(st.pending, now);
    DueIsPrefix(st.pending, now);
    SplitSerials(st.pending, k);
    LaterStamps(st.pending, k, st.clock);
    TakenOut(st, st.pending[..k], st.pending[k..]);
  }

  lemma FireKeepsGood(st: State)
    requires Good(st) && st.due != []
    ensures Good(Apply(st, Fire))
  {
    SplitSerials(st.due, 1);
    assert Serials(st.due[..1]) == {st.due[0].serial};
    assert Known(Apply(st, Fire)) == Known(st);
  }

  lemma PutBackKeepsGood(st: State, when: int)
    requires Good(st) && st.due != []
    ensures Good(Apply(st, PutBack(when)))
  {
    SplitSerials(st.due, 1);
    var e := st.due[0].(when := when, stamp := st.clock);
    assert Serials(st.due[..1]) == {e.serial};
    assert e.serial in Serials(st.due);
    LinkInOrder(st.pending, e);
    LinkSerials(st.pending, e);
    LinkStamps(st.pending, e, st.clock);
    assert Known(Apply(st, PutBack(when))) == Known(st);
  }

  /**
    In every state of every run the pending events are in the order of their due times, and
    of linking where those are the same, and every event that was allocated is in exactly
    one place. What was fired or stopped stays so: in particular a stopped event never fires.
  */
  lemma {:induction false} RunKeepsGood(st: State, ops: seq<Op>)
    requires Good(st) && AllPossible(st, ops)
    ensures Good(Run(st, ops)) && st.fired <= Run(st, ops).fired && st.stopped <= Run(st, ops).stopped
    decreases |ops|
  {
    if ops != [] {
      match ops[0] {
        case Alloc(id, when) => AllocKeepsGood(st, id, when);
        case Stop(id) => StopKeepsGood(st, id);
        case Extract(now) => ExtractKeepsGood(st, now);
        case Fire => FireKeepsGood(st);
        case PutBack(when) => PutBackKeepsGood(st, when);
      }
      RunKeepsGood(Apply(st, ops[0]), ops[1..]);
    }
  }

  // ------------------------------------------------------------------ the list

  class Event {
    const id: int
    const fast: bool
    var when: int
    var fiber: bool
    var next: Event?
    ghost const serial: nat
    ghost var stamp: nat

    constructor (id: int, when: int, fast: bool, fiber: bool, ghost serial: nat, ghost stamp: nat)
      ensures this.id == id && this.when == when && this.fast == fast && this.fiber == fiber && next == null
      ensures this.serial == serial && this.stamp == stamp
    {
      this.id, this.when, this.fast, this.fiber, next := id, when, fast, fiber, null;
      this.serial, this.stamp := serial, stamp;
    }

    ghost function ToItem(): Item
      reads this`when, this`stamp
    {
      Item(serial, id, when, stamp)
    }
  }

  /** The events of l, linked in their order from `first` on. */
  ghost predicate Chain(first: Event?, l: seq<Event>)
    reads (set e | e in l)`next
  {
    && first == (if l == [] then null else l[0])
    && (forall i {:trigger l[i].next} :: 0 <= i < |l| ==> l[i].next == if i + 1 < |l| then l[i + 1] else null)
    && (forall i, j {:trigger l[i], l[j]} :: 0 <= i < j < |l| ==> l[i] != l[j])
  }

  ghost predicate Hold(l: seq<Event>, s: seq<Item>)
    reads SetOf(l)`when, SetOf(l)`stamp
  {
    |s| == |l| && forall i {:trigger s[i]} {:trigger l[i]} :: 0 <= i < |l| ==> s[i] == l[i].ToItem()
  }

  ghost function SetOf(l: seq<Event>): set<Event> {
    set e | e in l
  }

  ghost predicate NoneTwice(l: seq<Event>) {
    forall i, j {:trigger l[i], l[j]} :: 0 <= i < j < |l| ==> l[i] != l[j]
  }

  // m is l with e at p ...
  ghost predicate SplicedIn(l: seq<Event>, p: nat, e: Event, m: seq<Event>) {
    && p <= |l| && |m| == |l| + 1 && m[p] == e && SetOf(m) == SetOf(l) + {e}
    && forall i {:trigger m[i]} :: 0 <= i < |m| && i != p ==> m[i] == if i < p then l[i] else l[i - 1]
  }

  // ... or without the element at p.
  ghost predicate SplicedOut(l: seq<Event>, p: nat, m: seq<Event>) {
    && p < |l| && |m| == |l| - 1 && SetOf(l) == SetOf(m) + {l[p]}
    && forall i {:trigger m[i]} :: 0 <= i < |m| ==> m[i] == if i < p then l[i] else l[i + 1]
  }

  lemma SpliceIn(l: seq<Event>, p: nat, e: Event) returns (m: seq<Event>)
    requires p <= |l| && NoneTwice(l) && e !in l
    ensures SplicedIn(l, p, e, m) && NoneTwice(m)
  {
    m := l[..p] + [e] + l[p..];
    forall x | x in SetOf(l) + {e} ensures x in m {
      if x != e {
        var i :| 0 <= i < |l| && l[i] == x;
        assert m[if i < p then i else i + 1] == x;
      } else {
        assert m[p] == x;
      }
    }
  }

  lemma SpliceOut(l: seq<Event>, p: nat) returns (m: seq<Event>)
    requires p < |l| && NoneTwice(l)
    ensures SplicedOut(l, p, m) && NoneTwice(m) && l[p] !in m
  {
    m := l[..p] + l[p + 1..];
    forall x | x in l && x != l[p] ensures x in m {
      var i :| 0 <= i < |l| && l[i] == x;
      assert m[if i < p then i else i - 1] == x;
    }
  }

  // The same of their items.
  lemma ItemsIn(l: seq<Event>, s: seq<Item>, p: nat, e: Event, m: seq<Event>)
    requires Hold(l, s) && SplicedIn(l, p, e, m) && p == Place(s, e.when)
    ensures Hold(m, Link(s, e.ToItem()))
  {
    forall i {:trigger m[i]} | 0 <= i < |m| ensures Link(s, e.ToItem())[i] == m[i].ToItem() {
      assert i != p ==> m[i].ToItem() == s[if i < p then i else i - 1];
    }
  }

  lemma ItemsOut(l: seq<Event>, s: seq<Item>, p: nat, m: seq<Event>)
    requires Hold(l, s) && SplicedOut(l, p, m)
    ensures Hold(m, Without(s, p))
  {
    forall i {:trigger m[i]} | 0 <= i < |m| ensures Without(s, p)[i] == m[i].ToItem() {
      assert m[i].ToItem() == s[if i < p then i else i + 1];
    }
  }

  // The loop of rRunEvents after k events: p of them were kept.
  ghost predicate Sifted(s: seq<Item>, k: nat, now: int, stopping: bool, kept: seq<Item>, due: seq<Item>, p: nat) {
    && k <= |s| && p <= |kept| && kept[p..] == s[k..]
    && kept[..p] == (if stopping then s[..k] else Later(s[..k], now))
    && due == (if stopping then [] else Due(s[..k], now))
  }

  lemma SiftNone(s: seq<Item>, k: nat, now: int, stopping: bool, kept: seq<Item>, due: seq<Item>, p: nat)
    requires Sifted(s, k, now, stopping, kept, due, p) && p < |kept|
    ensures k < |s| && kept[p] == s[k]
  {
    assert kept[p..][0] == s[k..][0] && |kept[p..]| == |s[k..]|;
  }

  lemma SiftDue(s: seq<Item>, k: nat, now: int, stopping: bool, kept: seq<Item>, due: seq<Item>, p: nat)
    requires Sifted(s, k, now, stopping, kept, due, p) && p < |kept| && kept[p].when <= now && !stopping
    ensures k < |s| && Sifted(s, k + 1, now, stopping, Without(kept, p), due + [kept[p]], p)
    ensures Deadline(Without(kept, p)[..p]) == Deadline(kept[..p])
  {
    SiftNone(s, k, now, stopping, kept, due, p);
    assert s[..k + 1][..k] == s[..k] && s[k + 1..] == s[k..][1..] && kept[p + 1..] == kept[p..][1..];
    assert Without(kept, p)[p..] == kept[p + 1..] && Without(kept, p)[..p] == kept[..p];
  }

  lemma SiftKept(s: seq<Item>, k: nat, now: int, stopping: bool, kept: seq<Item>, due: seq<Item>, p: nat)
    requires Sifted(s, k, now, stopping, kept, due, p) && p < |kept| && (kept[p].when > now || stopping)
    ensures k < |s| && Sifted(s, k + 1, now, stopping, kept, due, p + 1)
    ensures Deadline(kept[..p + 1]) == if kept[p].when < Deadline(kept[..p]) then kept[p].when else Deadline(kept[..p])
  {
    SiftNone(s, k, now, stopping, kept, due, p);
    assert s[..k + 1][..k] == s[..k] && s[k + 1..] == s[k..][1..] && kept[p + 1..] == kept[p..][1..];
    assert kept[..p + 1][..p] == kept[..p] && kept[..p + 1] == kept[..p] + [s[k]] && s[..k + 1] == s[..k] + [s[k]];
  }

  lemma SiftedAll(s: seq<Item>, k: nat, now: int, stopping: bool, kept: seq<Item>, due: seq<Item>, p: nat)
    requires Sifted(s, k, now, stopping, kept, due, p) && p == |kept|
    ensures kept[..p] == kept && if stopping then kept == s && due == [] else kept == Later(s, now) && due == Due(s, now)
  {
    assert |kept[p..]| == |s[k..]|;
    assert s[..k] == s;
  }

  class Queue {
    var events: Event?
    var nextID: int
    // The list that rRunEvents builds and then runs.
    var due: seq<Event>

    ghost var list: seq<Event>
    ghost var items: seq<Item>
    ghost var dueItems: seq<Item>
    ghost var fired: set<nat>
    ghost var stopped: set<nat>
    ghost var born: nat
    ghost var clock: nat

    ghost function Value(): State
      reads this`items, this`dueItems, this`fired, this`stopped, this`born, this`clock
    {
      State(items, dueItems, fired, stopped, born, clock)
    }

    // The pending list.
    ghost predicate Queued()
      reads this`events, this`list, this`items, SetOf(list)`next, SetOf(list)`when, SetOf(list)`stamp
    {
      Chain(events, list) && Hold(list, items)
    }

    ghost predicate Valid()
      reads this`events, this`list, this`items, this`due, this`dueItems, this`nextID
      reads SetOf(list)`next, SetOf(list)`when, SetOf(list)`stamp, SetOf(due)`when, SetOf(due)`stamp
    {
      Queued() && Hold(due, dueItems) && SetOf(list) !! SetOf(due) && 1 <= nextID <= MAXINT64
    }

    constructor ()
      ensures Valid() && Value() == State([], [], {}, {}, 0, 0) && Good(Value())
    {
      events, nextID, due := null, 1, [];
      list, items, dueItems, fired, stopped, born, clock := [], [], [], {}, {}, 0, 0;
    }

    // Splice an event in behind `prior`, in front of everything if that is null.
    method Insert(event: Event, prior: Event?, ghost p: nat)
      requires Chain(events, list) && event !in list && p <= |list| && prior == if p == 0 then null else list[p - 1]
      modifies this`events, this`list, event`next, SetOf(list)`next
      ensures Chain(events, list) && SplicedIn(old(list), p, event, list)
    {
      if prior == null {
        event.next := events;
        events := event;
      } else {
        event.next := prior.next;
        prior.next := event;
      }
      list := SpliceIn(list, p, event);
      ghost var was := old(list);
      forall i {:trigger list[i].next} | 0 <= i < |list| ensures list[i].next == if i + 1 < |list| then list[i + 1] else null {
        var _ := list[i];
        if p <= i + 1 < |list| {
          var _ := list[i + 1];
        }
      }
    }

    // Splice an event out.
    method Detach(ep: Event, prior: Event?, ghost p: nat)
      requires Chain(events, list) && p < |list| && ep == list[p] && prior == if p == 0 then null else list[p - 1]
      modifies this`events, this`list, SetOf(list)`next
      ensures Chain(events, list) && SplicedOut(old(list), p, list) && ep !in list && ep.next == old(ep.next)
    {
      if ep == events {
        events := ep.next;
      } else if prior != null {
        prior.next := ep.next;
      }
      list := SpliceOut(list, p);
      forall i {:trigger list[i].next} | 0 <= i < |list| ensures list[i].next == if i + 1 < |list| then list[i + 1] else null {
        var _ := list[i];
        if i + 1 < |list| {
          var _ := list[i + 1];
        }
      }
    }

    method Remove(ep: Event, prior: Event?, ghost p: nat)
      requires Queued() && p < |list| && ep == list[p] && prior == if p == 0 then null else list[p - 1]
      modifies this`events, this`list, this`items, SetOf(list)`next
      ensures Queued() && SplicedOut(old(list), p, list) && ep !in list && ep.next == old(ep.next)
      ensures items == Without(old(items), p)
    {
      Detach(ep, prior, p);
      ItemsOut(old(list), items, p, list);
      items := Without(items, p);
    }

    /** linkEvent */
    method LinkEvent(event: Event)
      requires Queued() && event !in list
      modifies this`events, this`list, this`items, event`next, SetOf(list)`next
      ensures Queued() && SplicedIn(old(list), Place(old(items), event.when), event, list)
      ensures items == Link(old(items), event.ToItem())
    {
      var ep, prior: Event? := events, null;
      ghost var p := 0;
      while ep != null && ep.when <= event.when
        invariant 0 <= p <= |list| && ep == (if p < |list| then list[p] else null) && prior == (if p == 0 then null else list[p - 1])
        invariant forall i {:trigger items[i]} :: 0 <= i < p ==> items[i].when <= event.when
        decreases |list| - p
      {
        prior := ep;
        ep := ep.next;
        p := p + 1;
      }
      PlaceIs(items, event.when, p);
      InsertItem(event, prior, p);
    }

    method InsertItem(event: Event, prior: Event?, ghost p: nat)
      requires Queued() && event !in list && p <= |list| && prior == (if p == 0 then null else list[p - 1]) && p == Place(items, event.when)
      modifies this`events, this`list, this`items, event`next, SetOf(list)`next
      ensures Queued() && SplicedIn(old(list), p, event, list) && items == Link(old(items), event.ToItem())
    {
      Insert(event, prior, p);
      ItemsIn(old(list), items, p, event, list);
      items := Link(items, event.ToItem());
    }

    /** lookupEvent: the event with an id and the one in front of it. */
    method LookupEvent(id: int) returns (ep: Event?, prior: Event?, ghost p: int)
      requires Queued()
      ensures ep == (if Find(items, id) < 0 then null else list[Find(items, id)]) && p == Find(items, id)
      ensures p >= 0 ==> prior == if p == 0 then null else list[p - 1]
    {
      ep, prior, p := events, null, 0;
      while ep != null
        invariant 0 <= p <= |list| && ep == (if p < |list| then list[p] else null) && prior == (if p == 0 then null else list[p - 1])
        invariant forall i {:trigger items[i]} :: 0 <= i < p ==> items[i].id != id
        decreases |list| - p
      {
        if ep.id == id {
          FindIs(items, id, p);
          return;
        }
        prior := ep;
        ep := ep.next;
        p := p + 1;
      }
      FindIs(items, id, -1);
      p := -1;
    }

    // The event with an id leaves the list.
    method Unlink(id: int) returns (ep: Event?)
      requires Queued()
      modifies this`events, this`list, this`items, SetOf(list)`next
      ensures Queued() && SetOf(list) <= old(SetOf(list))
      ensures var p := Find(old(items), id); if p < 0 then ep == null && items == old(items) && list == old(list)
        else ep == old(list)[p] && items == Without(old(items), p)
    {
      var found, prior, p := LookupEvent(id);
      ep := found;
      if ep != null {
        Remove(ep, prior, p);
      }
    }

    // ... and the other list stays.
    method Cancel(id: int) returns (ep: Event?)
      requires Valid()
      modifies this`events, this`list, this`items, SetOf(list)`next
      ensures Valid()
      ensures var p := Find(old(items), id); if p < 0 then ep == null && items == old(items)
        else ep != null && ep.serial == old(items)[p].serial && items == Without(old(items), p)
    {
      ghost var p := Find(items, id);
      assert p >= 0 ==> items[p] == list[p].ToItem();
      ep := Unlink(id);
    }

    ghost method Count(n: nat)
      requires Valid()
      modifies this`stopped
      ensures Valid() && stopped == old(stopped) + {n}
    {
      stopped := stopped + {n};
    }

    // ... and is counted as stopped.
    method CancelCounted(id: int) returns (ep: Event?)
      requires Valid()
      modifies this`events, this`list, this`items, this`stopped, SetOf(list)`next
      ensures Valid()
      ensures var p := Find(old(items), id);
        if p < 0 then ep == null && items == old(items) && stopped == old(stopped)
        else ep != null && items == Without(old(items), p) && stopped == old(stopped) + {old(items)[p].serial}
    {
      ghost var p := Find(items, id);
      if p >= 0 {
        Count(items[p].serial);
      }
      ep := Cancel(id);
    }

    /** rStopEvent */
    method StopEvent(id: int) returns (ok: bool)
      requires Valid()
      modifies this, SetOf(list)`next
      ensures Valid() && Value() == Stopped(old(Value()), id) && ok == (id != 0 && Find(old(items), id) >= 0)
    {
      if id == 0 {
        return false;
      }
      var ep := CancelCounted(id);
      return ep != null;
    }

    // ---------------------------------------------------------------- allocation

    /** rLookupEvent */
    method IsPending(id: int) returns (found: bool)
      requires Queued()
      ensures found == (Find(items, id) >= 0)
    {
      var ep, prior, p := LookupEvent(id);
      found := ep != null;
    }

    // The next id to try.
    method NextID(ghost first: int, ghost k: nat)
      requires 1 <= first < MAXINT64 && k < MAXINT64 - 2 && nextID == NthId(first, k)
      modifies this`nextID
      ensures nextID == NthId(first, k + 1) && 1 <= nextID < MAXINT64
    {
      nextID := nextID + 1;
      if nextID >= MAXINT64 {
        nextID := 1;
      }
    }

    /** getNextID: an id that no pending event has, as long as there are at most 10000 of them. */
    method GetNextID() returns (id: int)
      requires Queued() && 1 <= nextID <= MAXINT64
      modifies this`nextID
      ensures 1 <= nextID <= MAXINT64 && 1 <= id < MAXINT64 && (|items| <= 10000 ==> Find(items, id) < 0)
      ensures nextID == id + 1
      ensures exists k: nat {:trigger InUse(items, IdFrom(old(nextID)), k)} ::
        k <= 10000 && InUse(items, IdFrom(old(nextID)), k) && id == NthId(IdFrom(old(nextID)), k)
    {
      if nextID >= MAXINT64 {
        nextID := 1;
      }
      ghost var first := nextID;
      var found := IsPending(nextID);
      var attempts := 0;
      while found && attempts < 10000
        invariant 0 <= attempts <= 10000 && 1 <= nextID < MAXINT64 && nextID == NthId(first, attempts) && found == (Find(items, nextID) >= 0)
        invariant InUse(items, first, attempts)
        decreases 10000 - attempts
      {
        NextID(first, attempts);
        attempts := attempts + 1;
        found := IsPending(nextID);
      }
      if found {
        assert InUse(items, first, 10001);
        var _ := ManyIds(items, first, 10001);
      }
      assert InUse(items, IdFrom(old(nextID)), attempts);
      id := nextID;
      nextID := nextID + 1;
    }

    /** rAllocEvent, at a time `now`; the event is linked in behind those that are due when it is. */
    method AllocEvent(now: int, delay: int, fast: bool, fiber: bool) returns (id: int, ghost ep: Event)
      requires Valid()
      modifies this, SetOf(list)`next
      ensures Valid() && 1 <= id < MAXINT64 && (|old(items)| <= 10000 ==> Find(old(items), id) < 0)
      ensures Value() == Allocated(old(Value()), id, if delay > 0 && now > MAXINT64 - delay then MAXINT64 else now + delay)
      ensures fresh(ep) && GainsEvent(old(items), ep) && ep.id == id && ep.serial == old(born)
      ensures now <= MAXINT64 ==> ep.when == if now + delay <= MAXINT64 then now + delay else MAXINT64
      ensures ep.fiber == fiber && ep.fast == (fast && !fiber)
    {
      var when := if delay > 0 && now > MAXINT64 - delay then MAXINT64 else now + delay;
      id := GetNextID();
      ep := AllocAt(id, when, !fiber && fast, fiber);
    }

    method AllocAt(id: int, when: int, fast: bool, fiber: bool) returns (ep: Event)
      requires Valid()
      modifies this`events, this`list, this`items, this`born, this`clock, SetOf(list)`next
      ensures Valid() && Value() == Allocated(old(Value()), id, when) && GainsEvent(old(items), ep) && fresh(ep)
      ensures ep.id == id && ep.serial == old(born) && ep.when == when && ep.fast == fast && ep.fiber == fiber
    {
      ghost var was := Value();
      ep := AddNew(id, when, fast, fiber);
      AllocGives(was, Value(), id, when);
    }

    method AddNew(id: int, when: int, fast: bool, fiber: bool) returns (ep: Event)
      requires Valid()
      modifies this`events, this`list, this`items, this`born, this`clock, SetOf(list)`next
      ensures Valid() && born == old(born) + 1 && clock == old(clock) + 1
      ensures items == Link(old(items), Item(old(born), id, when, old(clock))) && GainsEvent(old(items), ep)
      ensures fresh(ep) && ep.ToItem() == Item(old(born), id, when, old(clock)) && ep.fast == fast && ep.fiber == fiber
    {
      ep := NewEvent(id, when, fast, fiber);
      AddPending(ep);
    }

    /** The pending events are those of `was` and this one. */
    ghost predicate GainsEvent(was: seq<Item>, event: Event)
      reads this`items, this`list, event`when, event`stamp
    {
      exists p {:trigger Gained(was, items, p)} :: Gained(was, items, p) && items[p] == event.ToItem() && p < |list| && list[p] == event
    }

    method NewEvent(id: int, when: int, fast: bool, fiber: bool) returns (ep: Event)
      requires Valid()
      modifies this`born, this`clock
      ensures Valid() && fresh(ep) && ep.ToItem() == Item(old(born), id, when, old(clock)) && ep.fast == fast && ep.fiber == fiber
      ensures born == old(born) + 1 && clock == old(clock) + 1
    {
      ep := new Event(id, when, fast, fiber, born, clock);
      born, clock := born + 1, clock + 1;
    }

    // linkEvent, and the other list stays.
    method AddPending(ep: Event)
      requires Valid() && ep !in list && ep !in due
      modifies this`events, this`list, this`items, ep`next, SetOf(list)`next
      ensures Valid() && items == Link(old(items), ep.ToItem())
      ensures GainsEvent(old(items), ep)
    {
      LinkGains(items, ep.ToItem());
      LinkEvent(ep);
    }

    // ---------------------------------------------------------------- running

    // An event moves from the pending list to the end of the due list.
    method MoveDue(ep: Event, prior: Event?, ghost p: nat) returns (next: Event?)
      requires Valid() && p < |list| && ep == list[p] && prior == if p == 0 then null else list[p - 1]
      modifies this`events, this`list, this`items, this`due, this`dueItems, SetOf(list)`next
      ensures Valid() && |list| == |old(list)| - 1 && due == old(due) + [ep] && SetOf(list) + SetOf(due) <= old(SetOf(list) + SetOf(due))
      ensures items == Without(old(items), p) && dueItems == old(dueItems) + [old(items)[p]]
      ensures next == (if p < |list| then list[p] else null) && (p > 0 ==> list[p - 1] == prior)
    {
      next := TakeOut(ep, prior, p);
      due, dueItems := due + [ep], dueItems + [ep.ToItem()];
    }

    method TakeOut(ep: Event, prior: Event?, ghost p: nat) returns (next: Event?)
      requires Queued() && p < |list| && ep == list[p] && prior == if p == 0 then null else list[p - 1]
      modifies this`events, this`list, this`items, SetOf(list)`next
      ensures Queued() && SplicedOut(old(list), p, list) && ep !in list && old(items)[p] == ep.ToItem() && items == Without(old(items), p)
      ensures next == (if p < |list| then list[p] else null) && (p > 0 ==> list[p - 1] == prior)
    {
      assert items[p] == list[p].ToItem();
      next := ep.next;
      Remove(ep, prior, p);
      ep.next := null;
    }

    // The loop meets a due event.
    method TakeNext(ep: Event, prior: Event?, now: int, ghost s: seq<Item>, ghost k: nat, ghost p: nat)
      returns (next: Event?, ghost j: nat)
      requires Valid() && p < |list| && ep == list[p] && prior == (if p == 0 then null else list[p - 1]) && ep.when <= now
      requires Sifted(s, k, now, false, items, dueItems, p)
      modifies this`events, this`list, this`items, this`due, this`dueItems, SetOf(list)`next
      ensures Valid() && SetOf(list) + SetOf(due) <= old(SetOf(list) + SetOf(due))
      ensures p <= |list| && next == (if p < |list| then list[p] else null) && prior == if p == 0 then null else list[p - 1]
      ensures k < |s| && j == k + 1 && Sifted(s, j, now, false, items, dueItems, p)
      ensures Deadline(items[..p]) == old(Deadline(items[..p]))
    {
      assert items[p] == list[p].ToItem();
      SiftDue(s, k, now, false, items, dueItems, p);
      j := k + 1;
      next := MoveDue(ep, prior, p);
    }

    // The loop meets another event.
    lemma KeepNext(ep: Event, now: int, stopping: bool, s: seq<Item>, k: nat, p: nat) returns (j: nat, q: nat)
      requires Valid() && p < |list| && ep == list[p] && (ep.when > now || stopping)
      requires Sifted(s, k, now, stopping, items, dueItems, p)
      ensures k < |s| && j == k + 1 && q == p + 1 && Sifted(s, j, now, stopping, items, dueItems, q)
      ensures ep == list[q - 1] && ep.next == if q < |list| then list[q] else null
      ensures Deadline(items[..q]) == if ep.when < Deadline(items[..p]) then ep.when else Deadline(items[..p])
    {
      assert items[p] == list[p].ToItem();
      SiftKept(s, k, now, stopping, items, dueItems, p);
      j, q := k + 1, p + 1;
    }

    // The body of the loop.
    method SiftNext(ep: Event, prior: Event?, now: int, stopping: bool, deadline: int, ghost s: seq<Item>, ghost k: nat, ghost p: nat)
      returns (before: Event?, next: Event?, least: int, ghost j: nat, ghost q: nat)
      requires Valid() && p < |list| && ep == list[p] && prior == (if p == 0 then null else list[p - 1])
      requires Sifted(s, k, now, stopping, items, dueItems, p) && deadline == Deadline(items[..p])
      modifies this`events, this`list, this`items, this`due, this`dueItems, SetOf(list)`next
      ensures Valid() && SetOf(list) + SetOf(due) <= old(SetOf(list) + SetOf(due)) && q <= |list|
      ensures next == (if q < |list| then list[q] else null) && before == (if q == 0 then null else list[q - 1])
      ensures k < |s| && j == k + 1 && Sifted(s, j, now, stopping, items, dueItems, q) && least == Deadline(items[..q])
    {
      before, least, q := prior, deadline, p;
      if ep.when <= now && !stopping {
        next, j := TakeNext(ep, prior, now, s, k, p);
      } else {
        j, q := KeepNext(ep, now, stopping, s, k, p);
        least := if ep.when < deadline then ep.when else deadline;
        before, next := ep, ep.next;
      }
    }

    /**
      The first loop of rRunEvents, at a time `now`: the due events move to the due list, unless
      the runtime is stopping, and the deadline is the least due time of the others.
    */
    method ExtractDue(now: int, stopping: bool) returns (deadline: int)
      requires Valid() && due == []
      modifies this`events, this`list, this`items, this`due, this`dueItems, SetOf(list)`next
      ensures Valid() && Value() == if stopping then old(Value()) else Extracted(old(Value()), now)
      ensures deadline == Deadline(items) && SetOf(list) + SetOf(due) <= old(SetOf(list))
    {
      deadline := MAXINT64;
      var ep, prior: Event? := events, null;
      ghost var s, k: nat, p: nat := items, 0, 0;
      while ep != null
        invariant Valid() && p <= |list| && ep == (if p < |list| then list[p] else null)
        invariant prior == if p == 0 then null else list[p - 1]
        invariant Sifted(s, k, now, stopping, items, dueItems, p) && deadline == Deadline(items[..p])
        invariant SetOf(list) + SetOf(due) <= old(SetOf(list))
        decreases |s| - k
      {
        var before, next, least, j, q := SiftNext(ep, prior, now, stopping, deadline, s, k, p);
        prior, ep, deadline := before, next, least;
        k, p := j, q;
      }
      SiftedAll(s, k, now, stopping, items, dueItems, p);
    }

    // The first due event is taken off the due list.
    method TakeFirst() returns (ep: Event)
      requires Valid() && due != [] && NoneTwiceIn(dueItems)
      modifies this`due, this`dueItems
      ensures Valid() && ep == old(due)[0] && ep !in due && ep !in list && SetOf(due) <= old(SetOf(due))
      ensures dueItems == old(dueItems)[1..] && ep.ToItem() == old(dueItems)[0]
    {
      ep := due[0];
      assert dueItems[0] == due[0].ToItem() && ep in SetOf(due);
      ghost var rest := due[1..];
      forall i {:trigger rest[i]} | 0 <= i < |rest| ensures rest[i] != ep && dueItems[1..][i] == rest[i].ToItem() {
        assert dueItems[i + 1] == due[i + 1].ToItem();
      }
      due, dueItems := due[1..], dueItems[1..];
    }

    method ReturnEvent(ep: Event, when: int)
      requires Valid() && ep !in list && ep !in due
      modifies this`events, this`list, this`items, this`clock, ep`when, ep`stamp, ep`next, SetOf(list)`next
      ensures Valid() && items == Link(old(items), old(ep.ToItem()).(when := when, stamp := old(clock))) && clock == old(clock) + 1
      ensures GainsEvent(old(items), ep) && ep.when == when
    {
      ep.when, ep.stamp, clock := when, clock, clock + 1;
      AddPending(ep);
    }

    // The first due event fires.
    method FireFirst() returns (ep: Event)
      requires Valid() && due != [] && NoneTwiceIn(dueItems)
      modifies this`due, this`dueItems, this`fired
      ensures Valid() && ep == old(due)[0] && dueItems == old(dueItems)[1..] && fired == old(fired) + {old(dueItems)[0].serial}
    {
      ep := TakeFirst();
      fired := fired + {ep.serial};
    }

    // The first due event is linked in again.
    method ReturnFirst(when: int) returns (ep: Event)
      requires Valid() && due != [] && NoneTwiceIn(dueItems)
      modifies this`events, this`list, this`items, this`due, this`dueItems, this`clock
      modifies SetOf(list)`next, SetOf(due)`next, SetOf(due)`when, SetOf(due)`stamp
      ensures Valid() && ep == old(due)[0] && dueItems == old(dueItems)[1..] && clock == old(clock) + 1
      ensures items == Link(old(items), old(dueItems)[0].(when := when, stamp := old(clock)))
      ensures GainsEvent(old(items), ep) && ep.when == when
    {
      ep := TakeFirst();
      ReturnEvent(ep, when);
    }

    /**
      One iteration of the second loop of rRunEvents: the event fires, or is linked in again if
      it needs a fiber and there is none. Between iterations the procedures of the events may
      allocate and stop events.
    */
    method RunNext(haveFiber: bool, ticks: int) returns (fires: bool)
      requires Valid() && Good(Value()) && due != []
      modifies this, SetOf(list)`next, SetOf(due)`next, SetOf(due)`when, SetOf(due)`stamp
      ensures Valid() && fires == (old(due[0].fast || due[0].fiber) || haveFiber)
      ensures Value() == if fires then Fired(old(Value())) else ReturnedTo(old(Value()), ticks + 1)
      ensures fires ==> items == old(items) && fired == old(fired) + {old(dueItems[0].serial)}
      ensures !fires ==> GainsEvent(old(items), old(due[0])) && old(due[0]).when == ticks + 1
    {
      ghost var was := Value();
      fires := due[0].fast || due[0].fiber || haveFiber;
      if fires {
        var _ := FireFirst();
      } else {
        var _ := ReturnFirst(ticks + 1);
        ReturnGives(was, Value(), ticks + 1);
      }
    }

    /** rGetNextDueEvent: in an ordered queue, the least due time. */
    method GetNextDueEvent(stopping: bool) returns (when: int)
      requires Valid() && InOrder(items)
      ensures stopping ==> when == 0
      ensures !stopping && items == [] ==> when == MAXINT64
      ensures !stopping && items != [] ==> when == items[0].when && forall i {:trigger items[i]} :: 0 <= i < |items| ==> when <= items[i].when
    {
      if stopping {
        return 0;
      }
      assert items != [] ==> items[0] == list[0].ToItem();
      return if events != null then events.when else MAXINT64;
    }
  }

  // Ids begin again at 1 after the largest.
  function IdFrom(nextID: int): int {
    if nextID >= MAXINT64 then 1 else nextID
  }

  // The ids that getNextID tries, from the first one on.
  function NthId(first: int, k: int): int {
    if first + k < MAXINT64 then first + k else first + k - MAXINT64 + 1
  }

  // The first m of them are in use.
  ghost predicate InUse(s: seq<Item>, first: int, m: nat) {
    forall k {:trigger NthId(first, k)} :: 0 <= k < m ==> Find(s, NthId(first, k)) >= 0
  }

  // If so, there are at least m events.
  lemma {:induction false} ManyIds(s: seq<Item>, first: int, m: nat) returns (at: set<int>)
    requires 1 <= first < MAXINT64 && m <= 10001 && InUse(s, first, m)
    ensures |at| == m <= |s| && forall i :: i in at ==> 0 <= i < |s| && exists k {:trigger NthId(first, k)} :: 0 <= k < m && s[i].id == NthId(first, k)
    decreases m
  {
    at := {};
    if m > 0 {
      at := ManyIds(s, first, m - 1);
      var i := Find(s, NthId(first, m - 1));
      FindIs(s, NthId(first, m - 1), i);
      assert forall k {:trigger NthId(first, k)} :: 0 <= k < m - 1 ==> NthId(first, k) != NthId(first, m - 1);
      assert i !in at;
      at := at + {i};
    }
    BoundedCard(at, |s|);
  }
}
