/**
  What every accepted text is like (bin/json.c:1640-1782): its brackets match, and nothing that
  the parser should refuse was on the way.
*/
module JsonBrackets {
  import opened JsonForest
  import opened JsonParser
  import opened JsonRoundTrip
  import opened JsonStrict

  predicate IsBracket(c: char) {
    c == '{' || c == '[' || c == '}' || c == ']'
  }

  // The type of container that a bracket opens or closes.
  function KindOf(c: char): Kind {
    if c == '{' || c == '}' then Object else Array
  }

  /** The types of the open containers, from the inside out. */
  function Stack(ns: seq<Raw>, p: int): seq<Kind>
    decreases if p < 0 then 0 else p + 1
  {
    if 0 <= p < |ns| && ns[p].last < p then [ns[p].kind] + Stack(ns, ns[p].last) else []
  }

  /** The brackets that the loop meets from s on: those in strings, tokens, regular expressions and comments are not met. */
  ghost function Met(s: State): string
    requires Inv(s)
    decreases |s.text| - s.next, Patience(s)
  {
    if s.error || s.next >= End(s) then ""
    else
      StepKeepsInv(s);
      StepProgresses(s);
      (if IsBracket(s.text[s.next]) then [s.text[s.next]] else "") + (if Step(s).error then "" else Met(Step(s)))
  }

  /** Every closing bracket closes the innermost open container, which is of its type, and in the end all are closed. */
  predicate Balanced(b: string, open: seq<Kind>) {
    if b == "" then open == []
    else if b[0] == '{' || b[0] == '[' then Balanced(b[1..], [KindOf(b[0])] + open)
    else open != [] && open[0] == KindOf(b[0]) && Balanced(b[1..], open[1..])
  }

  lemma {:induction false} StackSame(ns: seq<Raw>, ms: seq<Raw>, p: int)
    requires p < |ns| && |ns| <= |ms|
    requires forall i {:trigger ns[i]} :: 0 <= i <= p ==> ms[i].last == ns[i].last && ms[i].kind == ns[i].kind
    ensures Stack(ms, p) == Stack(ns, p)
    decreases if p < 0 then 0 else p + 1
  {
    if 0 <= p < |ns| && ns[p].last < p {
      StackSame(ns, ms, ns[p].last);
    }
  }

  // The other characters open and close nothing.
  ghost predicate SameOpen(s: State, t: State) {
    t.parent == s.parent && t.level == s.level && |s.nodes| <= |t.nodes| && forall i {:trigger s.nodes[i]} :: 0 <= i < |s.nodes| ==> t.nodes[i] == s.nodes[i]
  }

  lemma ValueKeeps(s: State, kind: Kind, value: Ptr)
    requires -1 <= value < |s.text| && s.parent < |s.nodes|
    ensures SameOpen(s, ParseValue(s, kind, value))
  {
  }

  lemma SlashKeeps(s: State)
    requires Inv(s) && s.next < End(s)
    ensures SameOpen(s, Slash(s))
  {
    var n := s.next + 1;
    if !(n < End(s) && (s.text[n] == '*' || s.text[n] == '/')) {
      var (u, value) := ParseRegExp(s.(next := n));
      ValueKeeps(u, Regexp, value);
    }
  }

  lemma QuotedKeeps(s: State)
    requires Inv(s) && s.next < End(s)
    ensures SameOpen(s, Quoted(s))
  {
    var (u, value) := ParseString(s);
    ValueKeeps(u, String, value);
  }

  lemma BareKeeps(s: State)
    requires Inv(s) && s.next < End(s)
    ensures SameOpen(s, Bare(s))
  {
    var (u, value) := ParsePrimitive(s);
    ValueKeeps(u, Unset, value);
  }

  lemma OthersKeep(s: State, t: State)
    requires Inv(s) && !s.error && Stepped(s, t) && !IsBracket(s.text[s.next])
    ensures SameOpen(s, t)
  {
    var c := s.text[s.next];
    if c == '/' {
      SlashKeeps(s);
    } else if c == '\'' || c == '`' || c == '"' {
      QuotedKeeps(s);
    } else if !IsBlank(c) && c != ',' && c != ':' {
      BareKeeps(s);
    }
  }

  lemma OpenStacks(s: State, t: State)
    requires Inv(s) && !s.error && Stepped(s, t) && !t.error && (s.text[s.next] == '{' || s.text[s.next] == '[')
    ensures Stack(t.nodes, t.parent) == [KindOf(s.text[s.next])] + Stack(s.nodes, s.parent)
  {
    StackSame(s.nodes, t.nodes, s.parent);
  }

  lemma CloseStacks(s: State, t: State)
    requires Inv(s) && !s.error && Stepped(s, t) && !t.error && (s.text[s.next] == '}' || s.text[s.next] == ']')
    ensures Stack(s.nodes, s.parent) == [KindOf(s.text[s.next])] + Stack(t.nodes, t.parent)
  {
    ParentOpen(s);
    StackSame(s.nodes, t.nodes, t.parent);
  }

  lemma {:induction false} MetBalanced(s: State)
    requires Inv(s) && Accepted(Run(s))
    ensures Balanced(Met(s), Stack(s.nodes, s.parent))
    decreases |s.text| - s.next, Patience(s)
  {
    if s.error || s.next >= End(s) {
      ParentOpen(s);
    } else {
      Follow(s);
      var t := Step(s);
      StepProgresses(s);
      MetBalanced(t);
      var c := s.text[s.next];
      if c == '{' || c == '[' {
        OpenStacks(s, t);
        assert Met(s) == [c] + Met(t);
      } else if c == '}' || c == ']' {
        CloseStacks(s, t);
        assert Met(s) == [c] + Met(t);
      } else {
        OthersKeep(s, t);
        StackSame(s.nodes, t.nodes, s.parent);
        assert Met(s) == Met(t);
      }
    }
  }

  /** In every text that is accepted, the brackets match. */
  lemma BracketsMatch(text: string, strict: bool)
    requires text != "" && text[|text| - 1] == NUL && Accepted(Run(Start(text, strict)))
    ensures Balanced(Met(Start(text, strict)), [])
  {
    MetBalanced(Start(text, strict));
  }

  // ------------------------------------------------------------------ what is refused

  predicate Comment(s: State)
    requires 0 <= s.next < End(s)
  {
    s.next + 1 < End(s) && (s.text[s.next + 1] == '/' || s.text[s.next + 1] == '*')
  }

  // A string or word can be no name and no value here: the member lacks a comma, or the document has a value already.
  predicate Misplaced(s: State) {
    s.name == NULL && ((s.parent >= 0 && s.kind == Object && !s.flags.key) || (s.parent < 0 && s.nodes != []))
  }

  lemma MisplacedFails(s: State, u: State, kind: Kind, value: Ptr)
    requires Inv(s) && Misplaced(s) && -1 <= value < |u.text| && (value == NULL ==> u.error)
    requires u.nodes == s.nodes && u.parent == s.parent && u.kind == s.kind && u.name == s.name && u.flags == s.flags
    ensures ParseValue(u, kind, value).error
  {
  }

  /** What no iteration may meet: by the character that comes next. */
  ghost predicate Forbidden(s: State)
    requires Inv(s) && s.next < End(s)
  {
    var c, wants := s.text[s.next], s.flags.strict && (s.flags.key || s.flags.val);
    if c == '{' || c == '[' then s.flags.comma
    else if c == '}' || c == ']' then Stack(s.nodes, s.parent) == [] || Stack(s.nodes, s.parent)[0] != KindOf(c) || s.name != NULL || wants
    else if c == ',' then (s.kind != Object && s.kind != Array) || wants
    else if c == ':' then s.name == NULL
    else if c == '/' then if Comment(s) then s.flags.strict else Misplaced(s)
    else if c == '\'' || c == '`' then s.flags.strict || Misplaced(s)
    else if c == '"' then Misplaced(s)
    else !IsBlank(c) && (s.flags.comma || (s.flags.strict && s.kind == Object && s.name == NULL) || Misplaced(s))
  }

  lemma ForbiddenFails(s: State, t: State)
    requires Inv(s) && !s.error && Stepped(s, t) && Forbidden(s)
    ensures t.error
  {
    ParentOpen(s);
    if Misplaced(s) {
      MisplacedFail(s);
    }
  }

  lemma MisplacedFail(s: State)
    requires Inv(s) && s.next < End(s) && Misplaced(s)
    ensures Quoted(s).error && Bare(s).error && (!Comment(s) ==> Slash(s).error)
  {
    var (q, string_) := ParseString(s);
    MisplacedFails(s, q, String, string_);
    var (p, word) := ParsePrimitive(s);
    MisplacedFails(s, p, Unset, word);
    var (r, regexp) := ParseRegExp(s.(next := s.next + 1));
    MisplacedFails(s, r, Regexp, regexp);
  }

  /**
    No text is accepted whose parsing comes to a container or a bare value where a comma is
    missing, a wrong closing bracket, a name without a value or a colon without a name, a comma
    outside of containers, a second value outside of them or a second name; nor, while the parser is strict, to a missing name or value, a
    comment, or a name or string that is not in double quotes.
  */
  lemma ForbiddenRefused(s: State)
    requires Inv(s) && !s.error && s.next < End(s) && Forbidden(s)
    ensures !Accepted(Run(s))
  {
    Follow(s);
    ForbiddenFails(s, Step(s));
    StepFails(s);
  }
}
