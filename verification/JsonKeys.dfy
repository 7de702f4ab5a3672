/**
  What keys mean (bin/json.c:1932-2054): names with dots, subscripts and quoted members in
  brackets; and which element of an array a subscript stands for.
*/
module JsonKeys {
  import opened JsonForest
  import opened JsonQuery
  import opened JsonPaths

  // ------------------------------------------------------------------ numerals

  function DigitOf(d: nat): char
    requires d < 10
  {
    "0123456789"[d]
  }

  /** The decimal numeral of a number. */
  function Numeral(n: nat): (s: string)
    ensures s != ""
  {
    if n < 10 then [DigitOf(n)] else Numeral(n / 10) + [DigitOf(n % 10)]
  }

  predicate AllDigits(s: string) {
    forall i :: 0 <= i < |s| ==> IsDigit(s[i])
  }

  lemma {:induction false} NumeralDigits(n: nat)
    ensures AllDigits(Numeral(n))
  {
    if n >= 10 {
      NumeralDigits(n / 10);
    }
  }

  lemma {:induction false} DigitsMore(s: string, d: nat, acc: nat)
    requires AllDigits(s) && d < 10
    ensures Digits(s + [DigitOf(d)], acc) == 10 * Digits(s, acc) + d
    decreases |s|
  {
    var t := s + [DigitOf(d)];
    if s == "" {
      assert t[1..] == "" && Digits("", 10 * acc + d) == 10 * acc + d;
    } else {
      assert t[1..] == s[1..] + [DigitOf(d)];
      DigitsMore(s[1..], d, 10 * acc + (s[0] as int - '0' as int));
    }
  }

  /** A numeral is read as its number. */
  lemma {:induction false} NumeralRead(n: nat)
    ensures Digits(Numeral(n), 0) == n
  {
    if n < 10 {
      DigitsMore("", n, 0);
      assert "" + [DigitOf(n)] == Numeral(n);
    } else {
      NumeralDigits(n / 10);
      NumeralRead(n / 10);
      DigitsMore(Numeral(n / 10), n % 10, 0);
    }
  }

  // ------------------------------------------------------------------ keys

  /** A part of a key: a name, a number in brackets, or a string in quotes and brackets. */
  datatype Part = Name(name: string) | Index(n: nat) | Member(quote: char, name: string)

  predicate HasNoSeparator(s: string) {
    forall i :: 0 <= i < |s| ==> !IsSeparator(s[i])
  }

  predicate IsPart(p: Part) {
    match p
    case Name(s) => IsPlain(s)
    case Index(_) => true
    case Member(q, s) => (q == '"' || q == '\'') && HasNoSeparator(s)
  }

  ghost predicate AreParts(ps: seq<Part>) {
    forall i {:trigger ps[i]} :: 0 <= i < |ps| ==> IsPart(ps[i])
  }

  /** What a part is written as: what stands behind a dot, or between a bracket and the next. */
  function Written(p: Part): string {
    match p
    case Name(s) => s
    case Index(n) => Numeral(n)
    case Member(q, s) => [q] + s + [q]
  }

  /** The property that a part names. */
  function Property(p: Part): string {
    if p.Index? then Numeral(p.n) else p.name
  }

  /** A key: a dot in front of every name but the first, brackets around the other parts. */
  function Key(ps: seq<Part>): string
    requires ps != []
  {
    (if ps[0].Name? then "" else "[") + Inside(ps)
  }

  // The key behind its first dot or bracket.
  function Inside(ps: seq<Part>): string
    requires ps != []
    decreases |ps|, 0
  {
    Written(ps[0]) + (if ps[0].Name? then "" else "]") + Behind(ps[1..])
  }

  function Behind(ps: seq<Part>): string
    decreases |ps|, 1
  {
    if ps == [] then "" else (if ps[0].Name? then "." else "[") + Inside(ps)
  }

  /** The container that a key asks for behind a part: an array in front of a bracket that follows a name. */
  function Asked(ps: seq<Part>, qtype: Kind): Kind
    requires ps != []
  {
    if !ps[0].Name? then Object else if |ps| == 1 then qtype else if ps[1].Name? then Object else Array
  }

  function PartSteps(ps: seq<Part>, qtype: Kind): (steps: seq<Step>)
    decreases |ps|
  {
    if ps == [] then [] else [Step(Property(ps[0]), |ps| == 1, Asked(ps, qtype))] + PartSteps(ps[1..], Asked(ps, qtype))
  }

  // A term ends at the first separator.
  lemma SpanIs(s: string, n: nat)
    requires n <= |s| && (n < |s| ==> IsSeparator(s[n])) && HasNoSeparator(s[..n])
    ensures Span(s) == n
  {
    assert forall i :: 0 <= i < n ==> s[..n][i] == s[i];
  }

  lemma WrittenPart(p: Part)
    requires IsPart(p)
    ensures Written(p) != "" && HasNoSeparator(Written(p)) && !IsSpace(Written(p)[0])
    ensures !p.Name? ==> (p.Member? <==> Written(p)[0] == '"' || Written(p)[0] == '\'')
  {
    if p.Index? {
      NumeralDigits(p.n);
      assert IsDigit(Numeral(p.n)[0]);
    } else if p.Member? {
      assert Written(p)[1..|p.name| + 1] == p.name;
      forall i | 0 <= i < |Written(p)| ensures !IsSeparator(Written(p)[i]) {
        if 0 < i <= |p.name| {
          assert Written(p)[i] == p.name[i - 1];
        }
      }
    }
  }

  lemma NameTerm(s: string, rest: string, qtype: Kind)
    requires IsPlain(s) && (rest == "" || rest[0] == '.' || rest[0] == '[')
    ensures NextTerm(s + rest, qtype) ==
      if rest == "" then Term(s, None, qtype) else Term(s, Some(rest[1..]), if rest[0] == '[' then Array else Object)
  {
    var key := s + rest;
    assert key[0] == s[0] && key[..|s|] == s;
    assert SkipSeparators(SkipSpaces(key)) == key;
    SpanIs(key, |s|);
    if rest == "" {
      assert key == s;
    } else {
      assert key[|s|] == rest[0] && key[|s| + 1..] == rest[1..];
    }
  }

  lemma BracketTerm(p: Part, rest: string, qtype: Kind)
    requires IsPart(p) && !p.Name?
    ensures NextTerm(Written(p) + "]" + rest, qtype) ==
      Term(Property(p), if SkipSeparators(rest) == "" then None else Some(SkipSeparators(rest)), Object)
  {
    WrittenPart(p);
    KeyInBrackets(Written(p), rest);
    if p.Member? {
      QuotedTerm(Written(p) + "]" + rest, p.quote, p.name, rest, qtype);
    } else {
      UnquotedTerm(Written(p) + "]" + rest, Written(p), rest, qtype);
    }
  }

  // The key ends its first term, of n characters, with a closing bracket.
  predicate EndsTerm(key: string, n: nat, rest: string) {
    0 < n < |key| && SkipSeparators(SkipSpaces(key)) == key && Span(key) == n && key[n] == ']' && key[n + 1..] == rest
  }

  lemma QuotedTerm(key: string, quote: char, name: string, rest: string, qtype: Kind)
    requires EndsTerm(key, |name| + 2, rest) && (quote == '"' || quote == '\'') && key[..|name| + 2] == [quote] + name + [quote]
    ensures NextTerm(key, qtype) == Term(name, if SkipSeparators(rest) == "" then None else Some(SkipSeparators(rest)), Object)
  {
    var w := [quote] + name + [quote];
    assert key[0] == w[0] && key[|name| + 1] == w[|name| + 1];
    assert key[1..|name| + 1] == w[1..|name| + 1] == name;
  }

  lemma UnquotedTerm(key: string, w: string, rest: string, qtype: Kind)
    requires EndsTerm(key, |w|, rest) && key[..|w|] == w && w[0] != '"' && w[0] != '\''
    ensures NextTerm(key, qtype) == Term(w, if SkipSeparators(rest) == "" then None else Some(SkipSeparators(rest)), Object)
  {
    assert key[0] == w[0];
  }

  lemma KeyInBrackets(w: string, rest: string)
    requires w != "" && HasNoSeparator(w) && !IsSpace(w[0])
    ensures var key := w + "]" + rest;
      EndsTerm(key, |w|, rest) && key[..|w|] == w
  {
    var key := w + "]" + rest;
    assert key[0] == w[0] && key[..|w|] == w && key[|w|] == ']' && key[|w| + 1..] == rest;
    SpanIs(key, |w|);
  }

  lemma InsideStarts(ps: seq<Part>)
    requires ps != [] && AreParts(ps)
    ensures Inside(ps) != "" && !IsSeparator(Inside(ps)[0]) && !IsSpace(Inside(ps)[0])
  {
    assert IsPart(ps[0]);
    WrittenPart(ps[0]);
    assert Inside(ps)[0] == Written(ps[0])[0];
  }

  // What stands behind the first part.
  lemma RestStarts(ps: seq<Part>, rest: string)
    requires ps != [] && AreParts(ps) && rest == Behind(ps[1..])
    ensures |ps| == 1 ==> rest == "" && SkipSeparators(rest) == ""
    ensures |ps| > 1 ==> Inside(ps[1..]) != "" && rest != "" && rest[0] == (if ps[1].Name? then '.' else '[')
    ensures |ps| > 1 ==> rest[1..] == Inside(ps[1..]) == SkipSeparators(rest)
  {
    if |ps| > 1 {
      PartsBehind(ps);
      InsideStarts(ps[1..]);
      Uncovered(if ps[1].Name? then '.' else '[', Inside(ps[1..]));
      assert ps[1..][0] == ps[1];
    }
  }

  // A separator in front of a key.
  lemma Uncovered(c: char, key: string)
    requires key != "" && !IsSeparator(key[0]) && IsSeparator(c)
    ensures ([c] + key)[1..] == key == SkipSeparators([c] + key) && ([c] + key)[0] == c
  {
    assert ([c] + key)[1..] == key && SkipSeparators(key) == key;
  }

  // The first term of a key whose parts are `ps`, and what is left of it.
  lemma InsideTerm(ps: seq<Part>, qtype: Kind)
    requires ps != [] && AreParts(ps)
    ensures NextTerm(Inside(ps), qtype) ==
      Term(Property(ps[0]), if |ps| == 1 then None else Some(Inside(ps[1..])), Asked(ps, qtype))
  {
    var rest := Behind(ps[1..]);
    RestStarts(ps, rest);
    if ps[0].Name? {
      NameFirst(ps, rest, qtype);
    } else {
      BracketFirst(ps, rest, qtype);
    }
  }

  lemma NameFirst(ps: seq<Part>, rest: string, qtype: Kind)
    requires ps != [] && AreParts(ps) && ps[0].Name? && rest == Behind(ps[1..])
    requires rest == "" || rest[0] == '.' || rest[0] == '['
    ensures NextTerm(Inside(ps), qtype) ==
      if rest == "" then Term(ps[0].name, None, qtype) else Term(ps[0].name, Some(rest[1..]), if rest[0] == '[' then Array else Object)
  {
    var p := ps[0];
    assert IsPart(p) && Inside(ps) == p.name + "" + rest && p.name + "" == p.name;
    NameTerm(p.name, rest, qtype);
  }

  lemma BracketFirst(ps: seq<Part>, rest: string, qtype: Kind)
    requires ps != [] && AreParts(ps) && !ps[0].Name? && rest == Behind(ps[1..])
    ensures NextTerm(Inside(ps), qtype) ==
      Term(Property(ps[0]), if SkipSeparators(rest) == "" then None else Some(SkipSeparators(rest)), Object)
  {
    assert IsPart(ps[0]) && Inside(ps) == Written(ps[0]) + "]" + rest;
    BracketTerm(ps[0], rest, qtype);
  }

  lemma PartsBehind(ps: seq<Part>)
    requires ps != [] && AreParts(ps)
    ensures AreParts(ps[1..])
  {
    forall i {:trigger ps[1..][i]} | 0 <= i < |ps[1..]| ensures IsPart(ps[1..][i]) {
      assert ps[1..][i] == ps[i + 1];
    }
  }

  lemma {:induction false} InsideSteps(ps: seq<Part>, qtype: Kind)
    requires ps != [] && AreParts(ps)
    ensures Steps(Some(Inside(ps)), qtype) == PartSteps(ps, qtype)
    decreases |ps|
  {
    InsideTerm(ps, qtype);
    if |ps| == 1 {
      assert Steps(None, Asked(ps, qtype)) == [] == PartSteps(ps[1..], Asked(ps, qtype));
    } else {
      PartsBehind(ps);
      InsideSteps(ps[1..], Asked(ps, qtype));
    }
  }

  // A bracket in front of a key is passed over.
  lemma BracketPassed(key: string, qtype: Kind)
    requires key != "" && !IsSeparator(key[0]) && !IsSpace(key[0])
    ensures NextTerm("[" + key, qtype) == NextTerm(key, qtype)
  {
    Uncovered('[', key);
    SameTerm("[" + key, key, qtype);
  }

  lemma SameTerm(k: string, key: string, qtype: Kind)
    requires SkipSeparators(SkipSpaces(k)) == SkipSeparators(SkipSpaces(key))
    ensures NextTerm(k, qtype) == NextTerm(key, qtype)
  {
  }

  /** The terms of a key are the properties of its parts. */
  lemma KeySteps(ps: seq<Part>, qtype: Kind)
    requires ps != [] && AreParts(ps)
    ensures Steps(Some(Key(ps)), qtype) == PartSteps(ps, qtype)
  {
    InsideSteps(ps, qtype);
    InsideStarts(ps);
    if ps[0].Name? {
      assert Key(ps) == Inside(ps);
    } else {
      BracketPassed(Inside(ps), qtype);
    }
  }

  // ------------------------------------------------------------------ subscripts

  function Roots(f: Forest): nat {
    match f
    case Nil => 0
    case Cons(_, _, _, _, rest) => 1 + Roots(rest)
  }

  /** `id` is the index of the root with exactly n roots in front of it. */
  ghost predicate RootAt(f: Forest, at: int, n: nat, id: int) {
    exists front, back {:trigger Append(front, back)} :: f == Append(front, back) && Roots(front) == n && back.Cons? && id == at + Size(front)
  }

  lemma {:induction false} RootFound(f: Forest, at: int, n: nat)
    requires 0 <= at
    ensures n < Roots(f) ==> n < Size(f) && RootAt(f, at, n, KidAt(f, at, n))
    ensures n >= Roots(f) ==> KidAt(f, at, n) == CANT_FIND
    decreases f
  {
    if f.Cons? {
      if n == 0 {
        assert f == Append(Nil, f);
      } else {
        RootFound(f.rest, at + 1 + Size(f.kids), n - 1);
        if n < Roots(f) {
          RootMore(f, at, n, KidAt(f, at, n));
        }
      }
    }
  }

  lemma RootMore(f: Forest, at: int, n: nat, id: int)
    requires f.Cons? && n > 0 && RootAt(f.rest, at + 1 + Size(f.kids), n - 1, id)
    ensures RootAt(f, at, n, id)
  {
    var front, back :| f.rest == Append(front, back) && Roots(front) == n - 1 && back.Cons? && id == at + 1 + Size(f.kids) + Size(front);
    var longer := f.(rest := front);
    assert Append(longer, back) == f && Roots(longer) == n && Size(longer) == 1 + Size(f.kids) + Size(front);
  }

  /** In an array, `[n]` leads to the root with n roots in front of it, and nowhere if there are not that many. */
  lemma SubscriptFinds(f: Forest, nid: int, n: nat)
    requires 0 <= nid < Size(f) && At(f, 0, nid).kind == Array
    ensures var kids := At(f, 0, nid).kids; var id := Walk(f, nid, Steps(Some("[" + Numeral(n) + "]"), Unset));
      if n < Roots(kids) then RootAt(kids, nid + 1, n, id) else id == CANT_FIND
  {
    var ps := [Index(n)];
    KeySteps(ps, Unset);
    assert ps[1..] == [] && Behind([]) == "" && Inside(ps) == Numeral(n) + "]" + "";
    assert Key(ps) == "[" + Inside(ps) == "[" + Numeral(n) + "]";
    var step := Step(Numeral(n), true, Object);
    assert Asked(ps, Unset) == Object && PartSteps([], Object) == [];
    assert PartSteps(ps, Unset) == [step] + [];
    SubscriptStep(f, nid, step, [], n);
  }

  // One step of a walk at an array.
  lemma SubscriptStep(f: Forest, nid: int, step: Step, steps: seq<Step>, n: nat)
    requires 0 <= nid < Size(f) && At(f, 0, nid).kind == Array && step.name == Numeral(n)
    ensures var kids := At(f, 0, nid).kids; var id := KidAt(kids, nid + 1, n);
      if n < Roots(kids) then
        RootAt(kids, nid + 1, n, id) && nid < id < Size(f) && Walk(f, nid, [step] + steps) == Walk(f, id, steps)
      else Walk(f, nid, [step] + steps) == CANT_FIND
  {
    var t := At(f, 0, nid);
    NumeralDigits(n);
    NumeralRead(n);
    assert IsDigit(Numeral(n)[0]);
    RootFound(t.kids, nid + 1, n);
    AtBounds(f, 0, nid);
    assert Size(t) == 1 + Size(t.kids) && ([step] + steps)[1..] == steps;
  }

  lemma LongKey(name: string, n: nat, rest: seq<Part>)
    requires IsPlain(name) && AreParts(rest)
    ensures var ps := [Name(name), Index(n)] + rest;
      AreParts(ps) && Key(ps) == name + "[" + Numeral(n) + "]" + Behind(rest)
  {
    var ps, tail := [Name(name), Index(n)] + rest, [Index(n)] + rest;
    assert ps[1..] == tail && tail[1..] == rest && ps[0] == Name(name) && tail[0] == Index(n) == ps[1];
    forall i {:trigger ps[i]} | 0 <= i < |ps| ensures IsPart(ps[i]) {
      assert i >= 2 ==> ps[i] == rest[i - 2];
    }
    InsideLong(ps, tail, name, n, Behind(rest));
  }

  lemma InsideLong(ps: seq<Part>, tail: seq<Part>, name: string, n: nat, behind: string)
    requires ps != [] && ps[0] == Name(name) && ps[1..] == tail && tail != [] && tail[0] == Index(n) && Behind(tail[1..]) == behind
    ensures Inside(ps) == name + "[" + Numeral(n) + "]" + behind
  {
    assert Inside(tail) == Numeral(n) + "]" + behind;
    assert Behind(tail) == "[" + Inside(tail) && Inside(ps) == name + "" + Behind(tail);
    Associated(name, Numeral(n), behind);
  }

  lemma Associated(name: string, n: string, behind: string)
    ensures name + "" + ("[" + (n + "]" + behind)) == name + "[" + n + "]" + behind
  {
  }

  lemma LongPartSteps(name: string, n: nat, rest: seq<Part>)
    ensures var ps := [Name(name), Index(n)] + rest;
      PartSteps(ps, Unset) == [Step(name, false, Array)] + ([Step(Numeral(n), rest == [], Object)] + PartSteps(rest, Object))
  {
    var ps, tail := [Name(name), Index(n)] + rest, [Index(n)] + rest;
    assert ps[1..] == tail && tail[1..] == rest && ps[0] == Name(name) && tail[0] == Index(n) == ps[1];
  }

  lemma LongSteps(name: string, n: nat, rest: seq<Part>) returns (steps: seq<Step>)
    requires IsPlain(name) && AreParts(rest)
    ensures steps == if rest == [] then [] else Steps(Some(Key(rest)), Object)
    ensures Steps(Some(name + "[" + Numeral(n) + "]" + Behind(rest)), Unset)
         == [Step(name, false, Array)] + ([Step(Numeral(n), rest == [], Object)] + steps)
  {
    LongKey(name, n, rest);
    LongPartSteps(name, n, rest);
    KeySteps([Name(name), Index(n)] + rest, Unset);
    steps := PartSteps(rest, Object);
    if rest != [] {
      KeySteps(rest, Object);
    }
  }

  /** `name[n]` leads to element n of the array that the name leads to; `name[n].rest` and `name[n][m]` go on from there. */
  lemma SubscriptInside(f: Forest, nid: int, name: string, n: nat, rest: seq<Part>) returns (at: int)
    requires 0 <= nid < Size(f) && IsPlain(name) && AreParts(rest)
    requires var aid := Walk(f, nid, Steps(Some(name), Unset)); 0 <= aid < Size(f) && At(f, 0, aid).kind == Array
    ensures var aid := Walk(f, nid, Steps(Some(name), Unset)); var kids := At(f, 0, aid).kids;
      var id := Walk(f, nid, Steps(Some(name + "[" + Numeral(n) + "]" + Behind(rest)), Unset));
      if n >= Roots(kids) then id == CANT_FIND
      else RootAt(kids, aid + 1, n, at) && 0 <= at < Size(f) && id == if rest == [] then at else Walk(f, at, Steps(Some(Key(rest)), Object))
  {
    var steps := LongSteps(name, n, rest);
    PlainSteps(name, "", Unset);
    at := SubscriptWalk(f, nid, name, n, rest == [], steps);
  }

  lemma SubscriptWalk(f: Forest, nid: int, name: string, n: nat, leaf: bool, steps: seq<Step>) returns (at: int)
    requires 0 <= nid < Size(f)
    requires var aid := Walk(f, nid, [Step(name, true, Unset)]); 0 <= aid < Size(f) && At(f, 0, aid).kind == Array
    ensures var aid := Walk(f, nid, [Step(name, true, Unset)]); var kids := At(f, 0, aid).kids;
      var id := Walk(f, nid, [Step(name, false, Array)] + ([Step(Numeral(n), leaf, Object)] + steps));
      if n >= Roots(kids) then id == CANT_FIND
      else RootAt(kids, aid + 1, n, at) && 0 <= at < Size(f) && id == Walk(f, at, steps) && (steps == [] ==> id == at)
  {
    var aid := Walk(f, nid, [Step(name, true, Unset)]);
    FirstStep(f, nid, Step(name, true, Unset), Step(name, false, Array), [Step(Numeral(n), leaf, Object)] + steps);
    SubscriptStep(f, aid, Step(Numeral(n), leaf, Object), steps, n);
    at := KidAt(At(f, 0, aid).kids, aid + 1, n);
  }

  // A walk goes on from where its first step leads.
  lemma FirstStep(f: Forest, nid: int, alone: Step, first: Step, steps: seq<Step>)
    requires 0 <= nid < Size(f) && alone.name == first.name && 0 <= Walk(f, nid, [alone]) < Size(f)
    ensures Walk(f, nid, [first] + steps) == Walk(f, Walk(f, nid, [alone]), steps)
  {
    assert ([first] + steps)[1..] == steps && [alone][1..] == [];
    AtBounds(f, 0, nid);
  }

  // ------------------------------------------------------------------ names and values

  function RootNames(f: Forest): (s: seq<Opt>)
    ensures |s| == Roots(f)
  {
    match f
    case Nil => []
    case Cons(name, _, _, _, rest) => [name] + RootNames(rest)
  }

  function RootValues(f: Forest): (s: seq<Opt>)
    ensures |s| == Roots(f)
  {
    match f
    case Nil => []
    case Cons(_, value, _, _, rest) => [value] + RootValues(rest)
  }

  /** The first position of x is n; there is none if n is the length. */
  ghost predicate FirstOf(s: seq<Opt>, x: Opt, n: nat) {
    n <= |s| && (n < |s| ==> s[n] == x) && forall i :: 0 <= i < n ==> s[i] != x
  }

  lemma {:induction false} KidNamedFirst(f: Forest, at: int, name: string, n: nat)
    requires 0 <= at && FirstOf(RootNames(f), Some(name), n)
    ensures if n < Roots(f) then RootAt(f, at, n, KidNamed(f, at, name)) else KidNamed(f, at, name) == CANT_FIND
    decreases f
  {
    if f.Cons? {
      var names := RootNames(f);
      if n == 0 {
        assert f == Append(Nil, f);
      } else {
        assert names[0] != Some(name);
        forall i | 0 <= i < n - 1 ensures RootNames(f.rest)[i] != Some(name) {
          assert names[i + 1] != Some(name);
        }
        KidNamedFirst(f.rest, at + 1 + Size(f.kids), name, n - 1);
        if n < Roots(f) {
          RootMore(f, at, n, KidNamed(f, at, name));
        }
      }
    }
  }

  lemma {:induction false} KidValuedFirst(f: Forest, at: int, value: string, n: nat)
    requires 0 <= at && FirstOf(RootValues(f), Some(value), n)
    ensures if n < Roots(f) then RootAt(f, at, n, KidValued(f, at, value)) else KidValued(f, at, value) == CANT_FIND
    decreases f
  {
    if f.Cons? {
      var values := RootValues(f);
      if n == 0 {
        assert f == Append(Nil, f);
      } else {
        assert values[0] != Some(value);
        forall i | 0 <= i < n - 1 ensures RootValues(f.rest)[i] != Some(value) {
          assert values[i + 1] != Some(value);
        }
        KidValuedFirst(f.rest, at + 1 + Size(f.kids), value, n - 1);
        if n < Roots(f) {
          RootMore(f, at, n, KidValued(f, at, value));
        }
      }
    }
  }

  /**
    A plain key leads, in an object, to the first member of that name; in an array, unless it
    begins with a digit, to the first element of that value; and nowhere in anything else.
  */
  lemma NameFinds(f: Forest, nid: int, name: string, n: nat)
    requires 0 <= nid < Size(f) && IsPlain(name)
    requires var t := At(f, 0, nid);
      (t.kind == Object ==> FirstOf(RootNames(t.kids), Some(name), n)) && (t.kind == Array ==> FirstOf(RootValues(t.kids), Some(name), n))
    ensures var t := At(f, 0, nid); var id := Walk(f, nid, Steps(Some(name), Unset));
      if t.kind == Object || (t.kind == Array && !IsDigit(name[0])) then
        if n < Roots(t.kids) then RootAt(t.kids, nid + 1, n, id) else id == CANT_FIND
      else t.kind != Array ==> id == CANT_FIND
  {
    var t := At(f, 0, nid);
    var step := Step(name, true, Unset);
    PlainSteps(name, "", Unset);
    AtBounds(f, 0, nid);
    assert Size(t) == 1 + Size(t.kids) && [step][1..] == [];
    if t.kind == Object {
      KidNamedFirst(t.kids, nid + 1, name, n);
    } else if t.kind == Array {
      KidValuedFirst(t.kids, nid + 1, name, n);
    }
  }
}
