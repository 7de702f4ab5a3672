/**
  The in-situ JSON parser (bin/json.c:1484-1915) as a function of its state.

  The parser neither recurses nor keeps a stack. Values and names are pointers into the
  text, which is overwritten with terminators and unescaped characters as the parser
  goes along. While a container is open, `last` of its node holds the index of the
  container around it.
*/
module JsonParser {
  import opened JsonForest

  const NUL: char := '\0'

  // An offset into the text, or NULL.
  type Ptr = int
  const NULL: Ptr := -1

  datatype Raw = Raw(name: Ptr, value: Ptr, kind: Kind, last: int)

  datatype Flags = Flags(strict: bool, key: bool, comma: bool, val: bool)

  // The fields of Json that the parser uses, and the locals of jsonParseText.
  datatype State = State(text: string, next: int, error: bool, nodes: seq<Raw>,
                         name: Ptr, parent: int, level: int, kind: Kind, flags: Flags)

  // The text is followed by its terminator.
  function End(s: State): int {
    |s.text| - 1
  }

  function Fail(s: State): State {
    s.(error := true)
  }

  // ------------------------------------------------------------------ tokens

  predicate IsBlank(c: char) {
    c == ' ' || c == '\t' || c == '\r' || c == '\n'
  }

  predicate IsAlnum(c: char) {
    '0' <= c <= '9' || 'a' <= c <= 'z' || 'A' <= c <= 'Z'
  }

  predicate InPrimitive(c: char) {
    c == '_' || c == '-' || c == '.' || IsAlnum(c)
  }

  // Where a primitive ends, or NULL for a misplaced dot.
  function PrimitiveEnd(text: string, start: int, next: int): (e: int)
    requires 0 <= start <= next < |text|
    ensures e == NULL || next <= e < |text|
    decreases |text| - next
  {
    if next == |text| - 1 then next
    else
      var c := text[next];
      if IsBlank(c) || !InPrimitive(c) then next
      else if c == '.' && (next == start || !IsAlnum(text[next - 1])) then NULL
      else PrimitiveEnd(text, start, next + 1)
  }

  /** parsePrimitive: the token, which a blank behind it terminates. */
  function ParsePrimitive(s: State): (r: (State, Ptr))
    requires 0 <= s.next < |s.text|
    ensures r.0 == s.(text := r.0.text, next := r.0.next, error := r.0.error)
    ensures |r.0.text| == |s.text| && s.next <= r.0.next < |s.text| && r.1 in {NULL, s.next}
  {
    var e := PrimitiveEnd(s.text, s.next, s.next);
    if e == NULL then (Fail(s), NULL)
    else if e < End(s) && IsBlank(s.text[e]) then (s.(text := s.text[e := NUL], next := e + 1), s.next)
    else (s.(next := e), s.next)
  }

  function RegExpEnd(text: string, start: int, next: int): (e: int)
    requires 0 <= start <= next < |text|
    ensures e == NULL || next <= e < |text| - 1
    decreases |text| - next
  {
    if next == |text| - 1 || text[next] == NUL then NULL
    else if text[next] == '/' && (next == start || text[next - 1] != '\\') then next
    else RegExpEnd(text, start, next + 1)
  }

  /** parseRegExp: up to an unescaped slash. */
  function ParseRegExp(s: State): (r: (State, Ptr))
    requires 0 <= s.next < |s.text|
    ensures r.0 == s.(text := r.0.text, next := r.0.next, error := r.0.error)
    ensures |r.0.text| == |s.text| && s.next <= r.0.next < |s.text| && r.1 in {NULL, s.next}
  {
    var e := RegExpEnd(s.text, s.next, s.next);
    if e == NULL then (Fail(s), NULL)
    else (s.(text := s.text[e := NUL], next := e + 1), s.next)
  }

  // The value of a hex digit, or -1.
  function HexDigit(c: char): int {
    if '0' <= c <= '9' then c as int - '0' as int
    else if 'a' <= c <= 'f' then c as int - 'a' as int + 10
    else if 'A' <= c <= 'F' then c as int - 'A' as int + 10
    else -1
  }

  // Four hex digits at `at` as the byte that a char keeps of them, or -1.
  function HexByte(text: string, at: int): (b: int)
    requires 0 <= at
    ensures -1 <= b < 256
  {
    if at + 4 >= |text| then -1
    else
      var a, b, c, d := HexDigit(text[at]), HexDigit(text[at + 1]), HexDigit(text[at + 2]), HexDigit(text[at + 3]);
      if a < 0 || b < 0 || c < 0 || d < 0 then -1 else (16 * c + d) % 256
  }

  // The character an escape stands for, if there is one; 'u' is not among them.
  function Unescape(c: char): Opt {
    if c == '\'' || c == '`' || c == '"' || c == '/' || c == '\\' then Some([c])
    else if c == 'b' then Some([8 as char])
    else if c == 'f' then Some([12 as char])
    else if c == 'r' then Some("\r")
    else if c == 'n' then Some("\n")
    else if c == 't' then Some("\t")
    else None
  }

  // What an escape at `next` stands for, and where it ends.
  datatype EscapeRead = Bad | Meant(c: char, next: int)

  function EscapeAt(text: string, next: int): (e: EscapeRead)
    requires 0 <= next < |text| - 1
    ensures e.Meant? ==> next + 1 < e.next < |text|
  {
    var x := text[next + 1];
    if x == 'u' then
      var b := HexByte(text, next + 2);
      if b < 0 then Bad else Meant(b as char, next + 6)
    else if Unescape(x) == None || next + 2 >= |text| then Bad
    else Meant(Unescape(x).s[0], next + 2)
  }

  // The text after a string was unescaped in place, and where parsing goes on; NULL if it is ill-formed.
  datatype Unquoted = Unquoted(text: string, next: int)

  function ParseChars(text: string, op: int, next: int, quote: char): (u: Unquoted)
    requires 0 <= op <= next < |text|
    decreases |text| - next
  {
    if next == |text| - 1 || text[next] == NUL then Unquoted(text, NULL)
    else
      var c := text[next];
      if c == '\\' then
        var e := EscapeAt(text, next);
        if e.Bad? then Unquoted(text, NULL) else ParseChars(text[op := e.c], op + 1, e.next, quote)
      else if c == quote then Unquoted(text[op := NUL], next + 1)
      else ParseChars(text[op := c], op + 1, next + 1, quote)
  }

  /** Only what was read is overwritten. */
  lemma {:induction false} CharsKept(text: string, op: int, next: int, quote: char)
    requires 0 <= op <= next < |text|
    ensures var u := ParseChars(text, op, next, quote);
      && |u.text| == |text| && (u.next == NULL || next < u.next < |text|) && u.text[|text| - 1] == text[|text| - 1]
      && (forall i {:trigger u.text[i]} :: 0 <= i < op || (u.next != NULL && u.next <= i < |text|) ==> u.text[i] == text[i])
    decreases |text| - next
  {
    if next == |text| - 1 || text[next] == NUL {
    } else {
      var c := text[next];
      if c == '\\' {
        var e := EscapeAt(text, next);
        if e.Meant? {
          CharsKept(text[op := e.c], op + 1, e.next, quote);
        }
      } else if c != quote {
        CharsKept(text[op := c], op + 1, next + 1, quote);
      }
    }
  }

  /** parseString: the characters between the quotes, unescaped in place. */
  function ParseString(s: State): (r: (State, Ptr))
    requires 0 <= s.next < End(s)
    ensures r.0 == s.(text := r.0.text, next := r.0.next, error := r.0.error)
    ensures |r.0.text| == |s.text| && s.next < r.0.next < |s.text| && r.1 in {NULL, s.next + 1}
    ensures r.0.text[End(s)] == s.text[End(s)]
  {
    var u := ParseChars(s.text, s.next + 1, s.next + 1, s.text[s.next]);
    CharsKept(s.text, s.next + 1, s.next + 1, s.text[s.next]);
    if u.next == NULL then (Fail(s.(text := u.text, next := s.next + 1)), NULL)
    else (s.(text := u.text, next := u.next), s.next + 1)
  }

  /** parseComment, behind the slash: to the end of the line, or past the closing pair; NULL if that is missing. */
  function CommentEnd(text: string, next: int, block: bool): (e: int)
    requires 0 <= next < |text|
    ensures e == NULL || next <= e < |text|
    decreases |text| - next
  {
    if block then
      if next + 2 >= |text| then NULL
      else if text[next] == '*' && text[next + 1] == '/' then next + 2
      else CommentEnd(text, next + 1, block)
    else if next == |text| - 1 || text[next] == NUL || text[next] == '\n' then next
    else CommentEnd(text, next + 1, block)
  }

  // ------------------------------------------------------------------ values

  // sncmp of the text at `p` with a word: equal in the first `len` characters. A negative length is a huge one, which sncmp refuses.
  predicate SameStart(text: string, p: int, word: string, len: int)
    requires 0 <= p
  {
    len < 0 || (p + len <= |text| && len <= |word| && forall i {:trigger word[i]} :: 0 <= i < len ==> text[p + i] == word[i])
  }

  predicate IsNumberStart(c: char) {
    c == '+' || c == '-' || '0' <= c <= '9'
  }

  predicate InNumber(c: char) {
    '0' <= c <= '9' || c == '.' || c == '+' || c == '-' || c == 'e' || c == 'E' || c == NUL
  }

  function Dots(text: string, p: int, len: int): (n: nat)
    requires 0 <= p
    decreases if len < 0 then 0 else len
  {
    if len <= 0 || p >= |text| then 0 else (if text[p] == '.' then 1 else 0) + Dots(text, p + 1, len - 1)
  }

  /** isfnumber. */
  predicate IsNumber(text: string, p: int, len: int)
    requires 0 <= p < |text|
  {
    && text[p] != NUL && IsNumberStart(text[p])
    && (forall i :: p <= i < p + len && i < |text| ==> InNumber(text[i]))
    && Dots(text, p, len) <= 1
  }

  /** sleuthValueType. */
  function SleuthKind(text: string, p: int, len: int, strict: bool): Kind
    requires 0 <= p < |text|
  {
    var c := text[p];
    if || (c == 't' && SameStart(text, p, "true", len))
       || (c == 'f' && SameStart(text, p, "false", len))
       || (c == 'n' && SameStart(text, p, "null", len))
       || (c == 'u' && SameStart(text, p, "undefined", len) && !strict)
       || IsNumber(text, p, len)
    then Primitive else String
  }

  function AddNode(s: State, name: Ptr, value: Ptr, kind: Kind): State {
    s.(nodes := s.nodes + [Raw(name, value, kind, |s.nodes| + 1)], name := NULL)
  }

  /** parseValue: the value is a member name, or a new node; Unset asks for its type to be found out. */
  function ParseValue(s: State, kind: Kind, value: Ptr): (t: State)
    requires -1 <= value < |s.text| && s.parent < |s.nodes|
    ensures t == s.(nodes := t.nodes, name := t.name, error := t.error)
  {
    if value == NULL || s.error then s.(name := NULL)
    else if s.name == NULL && s.parent >= 0 && s.nodes[s.parent].kind == Object then
      if s.flags.key then s.(name := value) else Fail(s.(name := value))
    else
      var k := if kind == Unset then SleuthKind(s.text, value, s.next - value - 1, s.flags.strict) else kind;
      if kind == Unset && s.flags.strict && k != Primitive then Fail(s.(name := NULL))
      else if k == Primitive && s.text[value] == NUL then Fail(s.(name := NULL))
      else if s.parent >= 0 && s.nodes[s.parent].kind == Array then AddNode(s, NULL, value, k).(name := s.name)
      else if s.name != NULL then AddNode(s, s.name, value, k)
      else if |s.nodes| == 0 then AddNode(s, NULL, value, k)
      else Fail(s.(name := NULL))
  }

  // ------------------------------------------------------------------ one iteration

  // Overwrite the current character and go on.
  function Terminate(s: State): (t: State)
    requires 0 <= s.next < End(s)
  {
    s.(text := s.text[s.next := NUL], next := s.next + 1)
  }

  function OpenContainer(s: State): (t: State)
    requires 0 <= s.next < End(s)
  {
    if s.flags.comma then Fail(s)
    else
      var isObject := s.text[s.next] == '{';
      var kind := if isObject then Object else Array;
      Terminate(s).(flags := Flags(s.flags.strict, isObject, false, !isObject), kind := kind, level := s.level + 1,
                    nodes := s.nodes + [Raw(s.name, NULL, kind, s.parent)], parent := |s.nodes|, name := NULL)
  }

  function CloseContainer(s: State): (t: State)
    requires 0 <= s.next < End(s) && -1 <= s.parent < |s.nodes| && (s.level >= 1 ==> s.parent >= 0)
    requires s.parent >= 0 ==> -1 <= s.nodes[s.parent].last < |s.nodes|
  {
    if s.level < 1 then Fail(s)
    else if (if s.text[s.next] == '}' then Object else Array) != s.kind then Fail(s)
    else if s.name != NULL then Fail(s)
    else if s.flags.strict && (s.flags.val || s.flags.key) then Fail(s)
    else
      var prior := s.nodes[s.parent].last;
      Terminate(s).(flags := if prior >= 0 then Flags(false, false, true, false) else Flags(s.flags.strict, false, false, false),
                    nodes := s.nodes[s.parent := s.nodes[s.parent].(last := |s.nodes|)],
                    level := s.level - 1, parent := prior, kind := if prior >= 0 then s.nodes[prior].kind else s.kind)
  }

  function Comma(s: State): (t: State)
    requires 0 <= s.next < End(s)
  {
    if s.kind != Object && s.kind != Array then Fail(s)
    else if s.flags.strict && (s.flags.val || s.flags.key) then Fail(s)
    else Terminate(s).(name := NULL, flags := Flags(s.flags.strict, s.flags.key || s.kind == Object, false, s.flags.val || s.kind == Array))
  }

  function Colon(s: State): (t: State)
    requires 0 <= s.next < End(s)
  {
    if s.name == NULL then Fail(s) else Terminate(s).(flags := s.flags.(key := false))
  }

  function Slash(s: State): (t: State)
    requires 0 <= s.next < End(s) && s.parent < |s.nodes|
  {
    var n := s.next + 1;
    if n < End(s) && (s.text[n] == '*' || s.text[n] == '/') then
      var e := CommentEnd(s.text, n + 1, s.text[n] == '*');
      if s.flags.strict || e == NULL then Fail(s.(next := n)) else s.(next := e)
    else
      var (u, value) := ParseRegExp(s.(next := n));
      ParseValue(u, Regexp, value)
  }

  function Quoted(s: State): (t: State)
    requires 0 <= s.next < End(s) && s.parent < |s.nodes|
  {
    if s.flags.strict && s.text[s.next] != '"' then Fail(s)
    else
      var (u, value) := ParseString(s);
      ParseValue(u, String, value)
  }

  function Bare(s: State): (t: State)
    requires 0 <= s.next < End(s) && s.parent < |s.nodes|
  {
    if s.flags.comma then Fail(s)
    else if s.flags.strict && s.kind == Object && s.name == NULL then Fail(s)
    else
      var (u, value) := ParsePrimitive(s);
      var t := ParseValue(u, Unset, value);
      t.(flags := Flags(t.flags.strict, false, t.flags.comma || t.name == NULL, false))
  }

  // ------------------------------------------------------------------ what every iteration keeps

  /** The number of containers from `p` outwards. */
  function Depth(ns: seq<Raw>, p: int): (d: nat)
    decreases if p < 0 then 0 else p + 1
  {
    if 0 <= p < |ns| && ns[p].last < p then 1 + Depth(ns, ns[p].last) else 0
  }

  /** One node. Containers are open while their `last` points back; closed nodes nest and hold closed nodes only. */
  ghost predicate Tidy(ns: seq<Raw>, parent: int, i: int)
    requires 0 <= i < |ns|
  {
    var last := ns[i].last;
    if last < i then
      && -1 <= last && i <= parent && (ns[i].kind == Object || ns[i].kind == Array)
      && (last >= 0 ==> ns[last].last < last)
      && (forall j {:trigger ns[j]} :: last < j < i ==> j < ns[j].last)
    else
      && i < last <= |ns|
      && (forall j {:trigger ns[j]} :: i < j < last ==> j < ns[j].last <= last)
  }

  /** The invariant of the parse loop: the open containers are the chain of `last` links from the parent, `level` long. */
  ghost predicate Inv(s: State) {
    && 0 <= s.next < |s.text| && s.text[End(s)] == NUL
    && -1 <= s.parent < |s.nodes|
    && (forall i {:trigger Tidy(s.nodes, s.parent, i)} :: 0 <= i < |s.nodes| ==> Tidy(s.nodes, s.parent, i))
    && (s.parent >= 0 ==> s.nodes[s.parent].last < s.parent && s.kind == s.nodes[s.parent].kind)
    && (forall j {:trigger s.nodes[j]} :: s.parent < j < |s.nodes| ==> j < s.nodes[j].last)
    && s.level == Depth(s.nodes, s.parent)
    && (s.name != NULL ==> s.parent >= 0 && s.kind == Object)
    && -1 <= s.name < |s.text|
  }

  lemma {:induction false} DepthSame(ns: seq<Raw>, ms: seq<Raw>, p: int)
    requires |ns| <= |ms| && forall i {:trigger ns[i]} :: 0 <= i <= p && i < |ns| ==> ms[i].last == ns[i].last
    requires p < |ns|
    ensures Depth(ms, p) == Depth(ns, p)
    decreases if p < 0 then 0 else p + 1
  {
    if 0 <= p < |ns| && ns[p].last < p {
      DepthSame(ns, ms, ns[p].last);
    }
  }

  // Fields that the invariant does not mention, and text behind the parser, do not matter.
  lemma InvFrame(s: State, t: State)
    requires Inv(s) && t.nodes == s.nodes && t.parent == s.parent && t.level == s.level && t.kind == s.kind
    requires |t.text| == |s.text| && 0 <= t.next < |t.text| && t.text[End(t)] == NUL
    requires t.name == NULL || (t.parent >= 0 && t.kind == Object && -1 <= t.name < |t.text|)
    ensures Inv(t)
  {
  }

  // A new leaf.
  lemma InvLeaf(s: State, name: Ptr, value: Ptr, kind: Kind, last: Ptr)
    requires Inv(s) && last in {NULL, s.name}
    ensures Inv(AddNode(s, name, value, kind).(name := last))
  {
    var t := AddNode(s, name, value, kind);
    forall i | 0 <= i < |t.nodes| ensures Tidy(t.nodes, t.parent, i) {
      if i < |s.nodes| {
        assert Tidy(s.nodes, s.parent, i);
      }
    }
    DepthSame(s.nodes, t.nodes, s.parent);
  }

  lemma InvOpen(s: State)
    requires Inv(s) && s.next < End(s) && !s.flags.comma
    ensures Inv(OpenContainer(s))
  {
    var t := OpenContainer(s);
    forall i | 0 <= i < |t.nodes| ensures Tidy(t.nodes, t.parent, i) {
      if i < |s.nodes| {
        assert Tidy(s.nodes, s.parent, i);
      }
    }
    DepthSame(s.nodes, t.nodes, s.parent);
  }

  lemma ParentOpen(s: State)
    requires Inv(s)
    ensures s.parent >= 0 <==> s.level >= 1
    ensures s.parent >= 0 ==> Tidy(s.nodes, s.parent, s.parent) && -1 <= s.nodes[s.parent].last < s.parent
  {
    if s.parent >= 0 {
      assert Tidy(s.nodes, s.parent, s.parent);
    }
  }

  lemma InvClose(s: State)
    requires Inv(s) && s.next < End(s) && s.level >= 1 && s.parent >= 0 && s.name == NULL && -1 <= s.nodes[s.parent].last < s.parent
    requires !CloseContainer(s).error
    ensures Inv(CloseContainer(s))
  {
    var t, p := CloseContainer(s), s.parent;
    var prior := s.nodes[p].last;
    assert Tidy(s.nodes, p, p) && t.nodes == s.nodes[p := s.nodes[p].(last := |s.nodes|)];
    forall j {:trigger s.nodes[j]} | p < j < |s.nodes| ensures j < s.nodes[j].last <= |s.nodes| {
      assert Tidy(s.nodes, p, j);
    }
    forall i | 0 <= i < |t.nodes| ensures Tidy(t.nodes, prior, i) {
      assert Tidy(s.nodes, p, i);
    }
    DepthSame(s.nodes, t.nodes, prior);
  }

  // ------------------------------------------------------------------ the loop

  /** One iteration of the loop. */
  function Step(s: State): (t: State)
    requires 0 <= s.next < End(s) && -1 <= s.parent < |s.nodes| && (s.level >= 1 ==> s.parent >= 0)
    requires s.parent >= 0 ==> -1 <= s.nodes[s.parent].last < |s.nodes|
  {
    var c := s.text[s.next];
    if c == '{' || c == '[' then OpenContainer(s)
    else if c == '}' || c == ']' then CloseContainer(s)
    else if IsBlank(c) then s.(next := s.next + 1)
    else if c == ',' then Comma(s)
    else if c == ':' then Colon(s)
    else if c == '/' then Slash(s)
    else if c == '\'' || c == '`' || c == '"' then Quoted(s)
    else Bare(s)
  }

  lemma InvValue(s: State, kind: Kind, value: Ptr)
    requires Inv(s) && -1 <= value < |s.text|
    ensures ParseValue(s, kind, value).error || Inv(ParseValue(s, kind, value))
  {
    var k := if value != NULL && kind == Unset then SleuthKind(s.text, value, s.next - value - 1, s.flags.strict) else kind;
    if s.parent >= 0 && s.nodes[s.parent].kind == Array {
      InvLeaf(s, NULL, value, k, s.name);
    } else {
      InvLeaf(s, s.name, value, k, NULL);
    }
  }

  // A value is left as a name only where there was none.
  lemma ValueNames(s: State, kind: Kind, value: Ptr)
    requires Inv(s) && -1 <= value < |s.text|
    ensures var t := ParseValue(s, kind, value); t.name != NULL ==> s.name == NULL && t.nodes == s.nodes
  {
  }

  /** Every iteration keeps the invariant, or fails. */
  lemma StepKeepsInv(s: State)
    requires Inv(s) && s.next < End(s) && !s.error
    ensures s.level >= 1 ==> s.parent >= 0
    ensures s.parent >= 0 ==> -1 <= s.nodes[s.parent].last < |s.nodes|
    ensures Step(s).error || Inv(Step(s))
  {
    ParentOpen(s);
    var c := s.text[s.next];
    if c == '{' || c == '[' {
      if !s.flags.comma {
        InvOpen(s);
      }
    } else if c == '}' || c == ']' {
      if !CloseContainer(s).error {
        InvClose(s);
      }
    } else if c == '/' {
      var n := s.next + 1;
      if n < End(s) && (s.text[n] == '*' || s.text[n] == '/') {
      } else {
        var (u, value) := ParseRegExp(s.(next := n));
        InvValue(u, Regexp, value);
      }
    } else if !IsBlank(c) && c != ',' && c != ':' {
      QuotedKeepsInv(s);
      BareKeepsInv(s);
    }
  }

  lemma QuotedKeepsInv(s: State)
    requires Inv(s) && s.next < End(s) && !s.error
    ensures Quoted(s).error || Inv(Quoted(s))
  {
    var (u, value) := ParseString(s);
    InvFrame(s, u);
    InvValue(u, String, value);
  }

  lemma BareKeepsInv(s: State)
    requires Inv(s) && s.next < End(s) && !s.error
    ensures Bare(s).error || Inv(Bare(s))
  {
    var (v, token) := ParsePrimitive(s);
    InvFrame(s, v);
    InvValue(v, Unset, token);
    var t := ParseValue(v, Unset, token);
    if !t.error {
      InvFrame(t, t.(flags := Flags(t.flags.strict, false, t.flags.comma || t.name == NULL, false)));
    }
  }

  // What is left to do: text, and for a character that is not consumed, a name to be used and a comma to be missed.
  ghost function Patience(s: State): nat {
    if s.flags.comma then 0 else if s.name != NULL then 1 else 2
  }

  /** Every iteration makes progress, even one that consumes no character. */
  lemma StepProgresses(s: State)
    requires Inv(s) && s.next < End(s) && !s.error
    requires -1 <= s.parent < |s.nodes| && (s.level >= 1 ==> s.parent >= 0)
    requires s.parent >= 0 ==> -1 <= s.nodes[s.parent].last < |s.nodes|
    ensures var t := Step(s); t.error || (|t.text| == |s.text| && (t.next > s.next || (t.next == s.next && Patience(t) < Patience(s))))
  {
    var c := s.text[s.next];
    if !(c == '{' || c == '[' || c == '}' || c == ']' || IsBlank(c) || c == ',' || c == ':' || c == '/' || c == '\'' || c == '`' || c == '"') {
      var (v, token) := ParsePrimitive(s);
      InvFrame(s, v);
      ValueNames(v, Unset, token);
    }
  }

  /** The loop of jsonParseText, from a state on to the state in which it ends. */
  function Run(s: State): (t: State)
    requires Inv(s)
    ensures t.error || (Inv(t) && t.next == End(t))
    decreases |s.text| - s.next, Patience(s)
  {
    if s.error || s.next >= End(s) then s
    else
      StepKeepsInv(s);
      StepProgresses(s);
      if Step(s).error then Step(s) else Run(Step(s))
  }

  /** The state jsonParseText starts its loop in. */
  function Start(text: string, strict: bool): (s: State)
    requires text != "" && text[|text| - 1] == NUL
    ensures Inv(s)
  {
    State(text, 0, false, [], NULL, -1, 0, Unset, Flags(strict, false, false, false))
  }

  /** jsonParseText: success if the loop ends without an error and outside all containers; strict mode wants a node. */
  predicate Accepted(s: State) {
    !s.error && s.level == 0 && !(s.flags.strict && s.nodes == [])
  }

  // ------------------------------------------------------------------ what success means

  /** The nodes with the strings their pointers lead to. */
  function CStr(text: string, p: Ptr): (r: Opt) {
    if p < 0 || p >= |text| then None else Some(Prefix(text[p..]))
  }

  // The characters before the terminator.
  function Prefix(s: string): (r: string) {
    if s == "" || s[0] == NUL then "" else [s[0]] + Prefix(s[1..])
  }

  function Decode(text: string, n: Raw): JsonNode {
    JsonNode(CStr(text, n.name), CStr(text, n.value), n.kind, n.last)
  }

  function Document(s: State): (ns: seq<JsonNode>)
    ensures |ns| == |s.nodes|
    ensures forall i {:trigger ns[i]} :: 0 <= i < |ns| ==> ns[i] == Decode(s.text, s.nodes[i])
  {
    seq(|s.nodes|, i requires 0 <= i < |s.nodes| => Decode(s.text, s.nodes[i]))
  }

  /** On any text: if parsing succeeds, no parent link is left in a `last`, and the array is the array of a forest. */
  lemma ParsedNested(text: string, strict: bool)
    requires text != "" && text[|text| - 1] == NUL && Accepted(Run(Start(text, strict)))
    ensures var ns := Document(Run(Start(text, strict))); Nested(ns, 0, |ns|) && Represents(ns, Build(ns, 0, |ns|))
  {
    var s := Run(Start(text, strict));
    var ns := Document(s);
    ParentOpen(s);
    forall i {:trigger ns[i]} | 0 <= i < |ns| ensures i < ns[i].last <= |ns| {
      assert Tidy(s.nodes, s.parent, i) && i < s.nodes[i].last;
    }
    forall i, j {:trigger ns[i], ns[j]} | 0 <= i < j < |ns| && j < ns[i].last ensures ns[j].last <= ns[i].last {
      assert Tidy(s.nodes, s.parent, i) && s.nodes[j].last <= s.nodes[i].last;
    }
    NestedHolds(ns, 0, |ns|);
  }
}
