/**
  The in-situ parser in its own form (bin/json.c:1484-1915): a loop over a buffer that it
  overwrites, without recursion and without a stack.

  Every method is proved to do to the state what the function of the same name in
  JsonParser says, so that what is proved there about `Run` holds for the loop.
*/
module JsonParse {
  import opened JsonForest
  import opened JsonParser

  // ------------------------------------------------------------------ hex codes

  // Four digits added up in a char, which keeps the low byte.
  lemma LowByte(a: int, b: int, c: int, d: int)
    requires 0 <= a < 16 && 0 <= b < 16 && 0 <= c < 16 && 0 <= d < 16
    ensures (16 * ((16 * (16 * a + b) + c) % 256) + d) % 256 == (16 * c + d) % 256
  {
    var y, z := 16 * b + c, 16 * c + d;
    assert 16 * (16 * a + b) + c == 256 * a + y;
    Below256(a, y);
    assert 16 * y + d == 256 * b + z;
    Below256(b, z);
    Below256(0, z);
  }

  // The byte after j of the digits at `at`.
  function HexPart(text: string, at: nat, j: nat): int
    requires at + j <= |text|
  {
    if j == 0 then 0 else (HexPart(text, at, j - 1) * 16 + HexDigit(text[at + j - 1])) % 256
  }

  lemma HexPartIsByte(text: string, at: nat)
    requires at + 4 < |text| && forall i {:trigger text[i]} :: at <= i < at + 4 ==> HexDigit(text[i]) >= 0
    ensures HexPart(text, at, 4) == HexByte(text, at)
  {
    var a, b, c, d := HexDigit(text[at]), HexDigit(text[at + 1]), HexDigit(text[at + 2]), HexDigit(text[at + 3]);
    assert HexPart(text, at, 1) == a;
    assert HexPart(text, at, 2) == 16 * a + b;
    assert HexPart(text, at, 3) == (16 * (16 * a + b) + c) % 256;
    LowByte(a, b, c, d);
  }

  lemma Below256(q: int, r: int)
    requires 0 <= r < 256
    ensures (256 * q + r) % 256 == r
  {
  }

  class Parser {
    // The fields of Json: the text with its terminator, ...
    const text: array<char>
    var next: int
    var error: bool
    var nodes: seq<Raw>
    // ... and the locals of jsonParseText.
    var name: Ptr
    var parent: int
    var level: int
    var kind: Kind
    var flags: Flags

    ghost function Value(): State
      reads this, text
    {
      State(text[..], next, error, nodes, name, parent, level, kind, flags)
    }

    constructor (text: array<char>, strict: bool)
      requires text.Length > 0 && text[text.Length - 1] == NUL
      ensures this.text == text && Value() == Start(text[..], strict)
    {
      this.text := text;
      next, error, nodes := 0, false, [];
      name, parent, level, kind, flags := NULL, -1, 0, Unset, Flags(strict, false, false, false);
    }

    /** parsePrimitive */
    method ParsePrimitive() returns (p: Ptr)
      requires 0 <= next < text.Length
      modifies this`next, this`error, text
      ensures (Value(), p) == old(JsonParser.ParsePrimitive(Value()))
    {
      var end, start, n := text.Length - 1, next, next;
      while n < end
        invariant start <= n <= end
        invariant PrimitiveEnd(text[..], start, start) == PrimitiveEnd(text[..], start, n)
      {
        var c := text[n];
        if IsBlank(c) {
          text[n] := NUL;
          next := n + 1;
          return start;
        }
        if !InPrimitive(c) {
          break;
        }
        if c == '.' && (n == start || !IsAlnum(text[n - 1])) {
          error := true;
          return NULL;
        }
        n := n + 1;
      }
      next := n;
      return start;
    }

    /** parseRegExp */
    method ParseRegExp() returns (p: Ptr)
      requires 0 <= next < text.Length
      modifies this`next, this`error, text
      ensures (Value(), p) == old(JsonParser.ParseRegExp(Value()))
    {
      var end, start, n := text.Length - 1, next, next;
      while n < end && text[n] != NUL
        invariant start <= n <= end
        invariant RegExpEnd(text[..], start, start) == RegExpEnd(text[..], start, n)
      {
        if text[n] == '/' && (n == start || text[n - 1] != '\\') {
          text[n] := NUL;
          next := n + 1;
          return start;
        }
        n := n + 1;
      }
      error := true;
      return NULL;
    }

    // The loop over the digits of an escaped code.
    method HexCode(at: int) returns (b: int)
      requires 0 <= at <= text.Length
      ensures b == HexByte(text[..], at)
    {
      ghost var s := text[..];
      var j, n, c := 0, at, 0;
      while j < 4 && n < text.Length - 1 && text[n] != NUL
        invariant 0 <= j <= 4 && n == at + j && (j > 0 ==> n <= text.Length - 1)
        invariant forall i {:trigger s[i]} :: at <= i < n ==> HexDigit(s[i]) >= 0
        invariant c == HexPart(s, at, j)
      {
        var d := HexDigit(text[n]);
        if d < 0 {
          return -1;
        }
        c := (c * 16 + d) % 256;
        n := n + 1;
        j := j + 1;
      }
      if j < 4 {
        return -1;
      }
      HexPartIsByte(s, at);
      return c;
    }

    // The switch of parseString, at a backslash.
    method ReadEscape(n: int) returns (e: EscapeRead)
      requires 0 <= n < text.Length - 1
      ensures e == EscapeAt(text[..], n)
    {
      var x := text[n + 1];
      if x == 'u' {
        var b := HexCode(n + 2);
        return if b < 0 then Bad else Meant(b as char, n + 6);
      }
      return if Unescape(x) == None || n + 2 >= text.Length then Bad else Meant(Unescape(x).s[0], n + 2);
    }

    /** parseString: the characters move up over the escapes in front of them. */
    method ParseString() returns (p: Ptr)
      requires 0 <= next < text.Length - 1
      modifies this`next, this`error, text
      ensures (Value(), p) == old(JsonParser.ParseString(Value()))
    {
      var end, start, quote := text.Length - 1, next + 1, text[next];
      var op, n := start, start;
      next := start;
      while n < end && text[n] != NUL
        invariant start <= op <= n <= end && next == start && error == old(error)
        invariant ParseChars(text[..], op, n, quote) == old(ParseChars(text[..], start, start, quote))
      {
        var c := text[n];
        if c == '\\' {
          var e := ReadEscape(n);
          if e.Bad? {
            error := true;
            return NULL;
          }
          text[op] := e.c;
          n := e.next;
        } else if c == quote {
          text[op] := NUL;
          next := n + 1;
          return start;
        } else {
          text[op] := c;
          n := n + 1;
        }
        op := op + 1;
      }
      error := true;
      return NULL;
    }

    /** parseComment, at the character behind the slash. */
    method ParseComment() returns (ok: bool)
      requires 0 <= next < text.Length - 1 && (text[next] == '*' || text[next] == '/')
      modifies this`next, this`error
      ensures var e := old(CommentEnd(text[..], next + 1, text[next] == '*'));
        Value() == old(if e == NULL then Fail(Value()) else Value().(next := e)) && ok == (e != NULL)
    {
      var end, n := text.Length - 1, next + 1;
      if text[next] == '/' {
        while n < end && text[n] != NUL && text[n] != '\n'
          invariant next < n <= end
          invariant CommentEnd(text[..], next + 1, false) == CommentEnd(text[..], n, false)
        {
          n := n + 1;
        }
      } else {
        while n < end - 1 && (text[n] != '*' || text[n + 1] != '/')
          invariant next < n <= end
          invariant CommentEnd(text[..], next + 1, true) == CommentEnd(text[..], n, true)
        {
          n := n + 1;
        }
        if n < end - 1 {
          n := n + 2;
        } else {
          error := true;
          return false;
        }
      }
      next := n;
      return true;
    }

    method AddNode(name: Ptr, value: Ptr, kind: Kind)
      modifies this`nodes
      ensures nodes == old(nodes) + [Raw(name, value, kind, |old(nodes)| + 1)]
    {
      nodes := nodes + [Raw(name, value, kind, |nodes| + 1)];
    }

    /** parseValue; `name` is what it returns. */
    method ParseValue(type0: Kind, value: Ptr)
      requires -1 <= value < text.Length && parent < |nodes|
      modifies this`nodes, this`name, this`error
      ensures Value() == old(JsonParser.ParseValue(Value(), type0, value))
    {
      if value == NULL || error {
        name := NULL;
        return;
      }
      if name == NULL && parent >= 0 && nodes[parent].kind == Object {
        if !flags.key {
          error := true;
        }
        name := value;
        return;
      }
      var type1 := type0;
      if type0 == Unset {
        type1 := SleuthKind(text[..], value, next - value - 1, flags.strict);
        if flags.strict && type1 != Primitive {
          error := true;
          name := NULL;
          return;
        }
      }
      if type1 == Primitive && text[value] == NUL {
        error := true;
        name := NULL;
        return;
      }
      if parent >= 0 && nodes[parent].kind == Array {
        AddNode(NULL, value, type1);
      } else if name != NULL {
        AddNode(name, value, type1);
        name := NULL;
      } else if |nodes| == 0 {
        AddNode(NULL, value, type1);
      } else {
        error := true;
        name := NULL;
      }
    }

    // ---------------------------------------------------------------- the cases of the loop

    // *json->next++ = 0
    method Terminate()
      requires 0 <= next < text.Length - 1
      modifies this`next, text
      ensures Value() == old(JsonParser.Terminate(Value()))
    {
      text[next] := NUL;
      next := next + 1;
    }

    method OpenContainer()
      requires 0 <= next < text.Length - 1
      modifies this, text
      ensures Value() == old(JsonParser.OpenContainer(Value()))
    {
      if flags.comma {
        error := true;
        return;
      }
      kind := if text[next] == '{' then Object else Array;
      flags := Flags(flags.strict, kind == Object, false, kind == Array);
      Terminate();
      level := level + 1;
      nodes := nodes + [Raw(name, NULL, kind, parent)];
      parent := |nodes| - 1;
      name := NULL;
    }

    method CloseContainer()
      requires 0 <= next < text.Length - 1 && -1 <= parent < |nodes| && (level >= 1 ==> parent >= 0)
      requires parent >= 0 ==> -1 <= nodes[parent].last < |nodes|
      modifies this, text
      ensures Value() == old(JsonParser.CloseContainer(Value()))
    {
      if level < 1 || (if text[next] == '}' then Object else Array) != kind || name != NULL || (flags.strict && (flags.val || flags.key)) {
        error := true;
        return;
      }
      Terminate();
      LeaveContainer();
    }

    // The parent is restored; behind a nested container only the expectation of a comma is left of the flags.
    method LeaveContainer()
      requires 0 <= parent < |nodes| && -1 <= nodes[parent].last < |nodes|
      modifies this`flags, this`level, this`nodes, this`parent, this`kind
      ensures level == old(level) - 1 && parent == old(nodes)[old(parent)].last
      ensures nodes == old(nodes)[old(parent) := old(nodes)[old(parent)].(last := |old(nodes)|)]
      ensures flags == if parent >= 0 then Flags(false, false, true, false) else Flags(old(flags).strict, false, false, false)
      ensures kind == if parent >= 0 then old(nodes)[parent].kind else old(kind)
    {
      flags := Flags(flags.strict, false, false, false);
      var prior := nodes[parent].last;
      if prior >= 0 {
        flags := Flags(false, false, true, false);
      }
      level := level - 1;
      nodes := nodes[parent := nodes[parent].(last := |nodes|)];
      parent := prior;
      if parent >= 0 {
        kind := nodes[parent].kind;
      }
    }

    method Comma()
      requires 0 <= next < text.Length - 1
      modifies this, text
      ensures Value() == old(JsonParser.Comma(Value()))
    {
      if (kind != Object && kind != Array) || (flags.strict && (flags.val || flags.key)) {
        error := true;
        return;
      }
      flags := Flags(flags.strict, flags.key || kind == Object, false, flags.val || kind == Array);
      name := NULL;
      Terminate();
    }

    method Colon()
      requires 0 <= next < text.Length - 1
      modifies this, text
      ensures Value() == old(JsonParser.Colon(Value()))
    {
      if name == NULL {
        error := true;
        return;
      }
      Terminate();
      flags := flags.(key := false);
    }

    method Slash()
      requires 0 <= next < text.Length - 1 && parent < |nodes|
      modifies this, text
      ensures Value() == old(JsonParser.Slash(Value()))
    {
      next := next + 1;
      if next < text.Length - 1 && (text[next] == '*' || text[next] == '/') {
        if flags.strict {
          error := true;
          return;
        }
        var _ := ParseComment();
      } else {
        var value := ParseRegExp();
        ParseValue(Regexp, value);
      }
    }

    method Quoted()
      requires 0 <= next < text.Length - 1 && parent < |nodes|
      modifies this, text
      ensures Value() == old(JsonParser.Quoted(Value()))
    {
      if flags.strict && text[next] != '"' {
        error := true;
        return;
      }
      var value := ParseString();
      ParseValue(String, value);
    }

    method Bare()
      requires 0 <= next < text.Length - 1 && parent < |nodes|
      modifies this, text
      ensures Value() == old(JsonParser.Bare(Value()))
    {
      if flags.comma || (flags.strict && kind == Object && name == NULL) {
        error := true;
        return;
      }
      var value := ParsePrimitive();
      ParseValue(Unset, value);
      if name == NULL {
        flags := flags.(comma := true);
      }
      flags := flags.(key := false, val := false);
    }

    // ---------------------------------------------------------------- the loop

    // One iteration.
    method Step()
      requires 0 <= next < text.Length - 1 && -1 <= parent < |nodes| && (level >= 1 ==> parent >= 0)
      requires parent >= 0 ==> -1 <= nodes[parent].last < |nodes|
      modifies this, text
      ensures Value() == old(JsonParser.Step(Value()))
    {
      var c := text[next];
      if c == '{' || c == '[' {
        OpenContainer();
      } else if c == '}' || c == ']' {
        CloseContainer();
      } else if IsBlank(c) {
        next := next + 1;
      } else if c == ',' {
        Comma();
      } else if c == ':' {
        Colon();
      } else if c == '/' {
        Slash();
      } else if c == '\'' || c == '`' || c == '"' {
        Quoted();
      } else {
        Bare();
      }
    }

    /**
      jsonParseText, from its loop on: success exactly if the loop ends without an error
      outside all containers; then the nodes are a document of properly nested subtrees.
    */
    method ParseText() returns (ok: bool)
      requires text.Length > 0 && text[text.Length - 1] == NUL && Value() == Start(text[..], flags.strict)
      modifies this, text
      ensures ok <==> Accepted(old(Run(Value())))
      ensures ok ==> Value() == old(Run(Value())) && Nested(Document(Value()), 0, |nodes|)
    {
      ghost var start := Value();
      while next < text.Length - 1 && !error
        invariant Inv(Value()) || error
        invariant error ==> Run(start).error
        invariant !error ==> Run(Value()) == Run(start)
        decreases if error then 0 else 1, text.Length - next, if error then 0 else Patience(Value())
      {
        ghost var s := Value();
        StepKeepsInv(s);
        StepProgresses(s);
        Step();
        assert Value() == JsonParser.Step(s);
      }
      if error {
        return false;
      }
      text[next] := NUL;
      if level != 0 || (flags.strict && nodes == []) {
        return false;
      }
      ParsedNested(start.text, start.flags.strict);
      return true;
    }
  }
}
