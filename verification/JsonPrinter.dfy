/**
  Printing a document on one line (bin/json.c:2459-2692).

  `NodeText` says what the printer writes for the node at an index of the array; the
  methods of `Printer`, which follow the code, append exactly that to their buffer.
*/
module JsonPrinter {
  import opened JsonForest
  import opened JsonParser

  // The flags that matter on one line. JSON_JSON is Style(true, true, true), JSON_JS is Style(false, false, false).
  datatype Style = Style(double: bool, quoteKeys: bool, encode: bool)

  function QuoteOf(st: Style): char {
    if st.double then '"' else '\''
  }

  // A digit of a number written by %04x.
  function HexOf(d: int): char
    requires 0 <= d < 16
  {
    "0123456789abcdef"[d]
  }

  predicate IsControl(c: char) {
    c < ' ' || c as int == 127
  }

  /** The characters written for one character of a string. */
  function Escaped(c: char, st: Style): string {
    if c == '\\' || c == QuoteOf(st) then ['\\', c]
    else if c as int == 8 then "\\b"
    else if c as int == 12 then "\\f"
    else if c == '\n' then if st.encode then "\\n" else "\n"
    else if c == '\r' then if st.encode then "\\r" else "\r"
    else if c == '\t' then if st.encode then "\\t" else "\t"
    else if IsControl(c) then ['\\', 'u', '0', '0', HexOf(c as int / 16), HexOf(c as int % 16)]
    else [c]
  }

  // The characters written for v from k on.
  function Escape(v: string, k: int, st: Style): string
    requires 0 <= k <= |v|
    decreases |v| - k
  {
    if k == |v| then "" else Escaped(v[k], st) + Escape(v, k + 1, st)
  }

  predicate IsBareChar(c: char) {
    IsAlnum(c) || c == '_'
  }

  predicate IsQuoted(v: string, key: bool, st: Style) {
    !key || st.quoteKeys || v == "" || exists i :: 0 <= i < |v| && !IsBareChar(v[i])
  }

  function ValueText(value: Opt, key: bool, st: Style): string {
    if value == None then "null"
    else if IsQuoted(value.s, key, st) then [QuoteOf(st)] + Escape(value.s, 0, st) + [QuoteOf(st)]
    else Escape(value.s, 0, st)
  }

  predicate IsContainer(n: JsonNode) {
    n.kind == Object || n.kind == Array
  }

  // Where the printer goes on after a node: it does not look for children of a scalar.
  function After(ns: seq<JsonNode>, nid: int): int
    requires 0 <= nid < |ns|
  {
    if IsContainer(ns[nid]) then ns[nid].last else nid + 1
  }

  // rPutStringToBuf writes nothing for NULL.
  function Plain(value: Opt): string {
    if value == None then "" else value.s
  }

  // A node with its whole subtree.
  ghost predicate Whole(ns: seq<JsonNode>, nid: int) {
    0 <= nid < |ns| && nid < ns[nid].last && Nested(ns, nid, ns[nid].last)
  }

  function NodeText(ns: seq<JsonNode>, nid: int, st: Style): string
    requires Whole(ns, nid)
    decreases |ns| - nid, 0
  {
    var n := ns[nid];
    match n.kind
    case Primitive => Plain(n.value)
    case Regexp => "/" + Plain(n.value) + "/"
    case String => ValueText(n.value, false, st)
    case Array => "[" + MembersText(ns, nid + 1, n.last, false, st) + "]"
    case Object => "{" + MembersText(ns, nid + 1, n.last, true, st) + "}"
    case Unset => "undefined"
  }

  function MemberText(ns: seq<JsonNode>, nid: int, keyed: bool, st: Style): string
    requires Whole(ns, nid)
    decreases |ns| - nid, 1
  {
    (if keyed then ValueText(ns[nid].name, true, st) + ":" else "") + NodeText(ns, nid, st)
  }

  // The members between two indices; nodes without a type are passed over.
  function MembersText(ns: seq<JsonNode>, nid: int, hi: int, keyed: bool, st: Style): string
    requires Nested(ns, nid, hi)
    decreases |ns| - nid, 2
  {
    if nid == hi then ""
    else if ns[nid].kind == Unset then MembersText(ns, nid + 1, hi, keyed, st)
    else
      var next := After(ns, nid);
      MemberText(ns, nid, keyed, st) + (if next < hi then "," else "") + MembersText(ns, next, hi, keyed, st)
  }

  lemma Joined(a: string, b: string, c: string)
    ensures a + (b + c) == a + b + c
  {
  }

  lemma Quotes(a: string, q: char, b: string)
    ensures a + ([q] + b + [q]) == ((a + [q]) + b) + [q]
  {
  }

  // ------------------------------------------------------------------ the printer

  class Printer {
    const st: Style
    var buf: string

    constructor (st: Style)
      ensures this.st == st && buf == ""
    {
      this.st := st;
      buf := "";
    }

    // The search of putValueToBuf for a character that a bare key cannot have.
    method NeedsQuotes(v: string) returns (quoted: bool)
      requires v != ""
      ensures quoted <==> IsQuoted(v, true, st)
    {
      quoted := st.quoteKeys;
      var i := 0;
      while i < |v| && !quoted
        invariant 0 <= i <= |v|
        invariant quoted <==> st.quoteKeys || exists j :: 0 <= j < i && !IsBareChar(v[j])
      {
        quoted := !IsBareChar(v[i]);
        i := i + 1;
      }
    }

    /** putValueToBuf */
    method PutValue(value: Opt, key: bool)
      modifies this`buf
      ensures buf == old(buf) + ValueText(value, key, st)
    {
      if value == None {
        buf := buf + "null";
        return;
      }
      var v := value.s;
      var quoted := true;
      if key && v != "" {
        quoted := NeedsQuotes(v);
      }
      Quotes(buf, QuoteOf(st), Escape(v, 0, st));
      if quoted {
        buf := buf + [QuoteOf(st)];
      }
      PutChars(v);
      if quoted {
        buf := buf + [QuoteOf(st)];
      }
    }

    // The loop of putValueToBuf.
    method PutChars(v: string)
      modifies this`buf
      ensures buf == old(buf) + Escape(v, 0, st)
    {
      var i := 0;
      while i < |v|
        invariant 0 <= i <= |v| && buf + Escape(v, i, st) == old(buf) + Escape(v, 0, st)
      {
        Joined(buf, Escaped(v[i], st), Escape(v, i + 1, st));
        buf := buf + Escaped(v[i], st);
        i := i + 1;
      }
    }

    /** nodeToString */
    method NodeToString(ns: seq<JsonNode>, nid: int) returns (next: int)
      requires Whole(ns, nid)
      modifies this`buf
      ensures next == After(ns, nid) && buf == old(buf) + NodeText(ns, nid, st)
      decreases |ns| - nid, 0
    {
      var n := ns[nid];
      next := nid + 1;
      match n.kind {
        case Primitive => buf := buf + Plain(n.value);
        case Regexp => buf := buf + "/" + Plain(n.value) + "/";
        case String => PutValue(n.value, false);
        case Array =>
          buf := buf + "[";
          next := PutMembers(ns, next, n.last, false);
          buf := buf + "]";
        case Object =>
          buf := buf + "{";
          next := PutMembers(ns, next, n.last, true);
          buf := buf + "}";
        case Unset => buf := buf + "undefined";
      }
    }

    // The loop over the members of a container.
    method PutMembers(ns: seq<JsonNode>, lo: int, hi: int, keyed: bool) returns (next: int)
      requires Nested(ns, lo, hi)
      modifies this`buf
      ensures next == hi && buf == old(buf) + MembersText(ns, lo, hi, keyed, st)
      decreases |ns| - lo, 2
    {
      next := lo;
      while next < hi
        invariant lo <= next <= hi
        invariant buf + MembersText(ns, next, hi, keyed, st) == old(buf) + MembersText(ns, lo, hi, keyed, st)
      {
        if ns[next].kind == Unset {
          next := next + 1;
        } else {
          ghost var was, first := buf, MemberText(ns, next, keyed, st) + (if After(ns, next) < hi then "," else "");
          ghost var others := MembersText(ns, After(ns, next), hi, keyed, st);
          next := PutMember(ns, next, hi, keyed);
          Joined(was, first, others);
        }
      }
    }

    method PutMember(ns: seq<JsonNode>, nid: int, hi: int, keyed: bool) returns (next: int)
      requires Nested(ns, nid, hi) && nid < hi
      modifies this`buf
      ensures next == After(ns, nid)
      ensures buf == old(buf) + (MemberText(ns, nid, keyed, st) + (if next < hi then "," else ""))
      decreases |ns| - nid, 1
    {
      ghost var was := buf;
      if keyed {
        PutValue(ns[nid].name, true);
        buf := buf + ":";
        Joined(was, ValueText(ns[nid].name, true, st), ":");
      }
      ghost var key := if keyed then ValueText(ns[nid].name, true, st) + ":" else "";
      assert buf == was + key;
      next := NodeToString(ns, nid);
      Joined(was, key, NodeText(ns, nid, st));
      if next < hi {
        buf := buf + ",";
        Joined(was, MemberText(ns, nid, keyed, st), ",");
      }
    }
  }
}
