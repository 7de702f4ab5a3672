/**
  Parsing what was printed gives the document back (bin/json.c:1563-1890, 2459-2692).

  The parser overwrites the text while it reads it, and ends a bare token only when it
  meets the delimiter behind it. The proof therefore follows the parser through the
  printed text: everything from `next` on is still as printed, and every string that was
  recorded lies, with its terminator, before `next`.
*/
module JsonRoundTrip {
  import opened JsonForest
  import opened JsonParser
  import opened JsonPrinter

  // ------------------------------------------------------------------ texts

  /** The text has v at p. */
  ghost predicate Has(text: string, p: int, v: string) {
    0 <= p && p + |v| <= |text| && forall i {:trigger v[i]} :: 0 <= i < |v| ==> text[p + i] == v[i]
  }

  lemma HasBoth(text: string, p: int, a: string, b: string)
    requires Has(text, p, a + b)
    ensures Has(text, p, a) && Has(text, p + |a|, b)
  {
    assert forall i {:trigger a[i]} :: 0 <= i < |a| ==> (a + b)[i] == a[i];
    assert forall i {:trigger b[i]} :: 0 <= i < |b| ==> (a + b)[|a| + i] == b[i];
  }

  // The texts agree from a place on.
  ghost predicate SameFrom(a: string, b: string, at: int) {
    |a| == |b| && forall i {:trigger a[i]} {:trigger b[i]} :: 0 <= i && at <= i < |a| ==> a[i] == b[i]
  }

  lemma HasSame(a: string, b: string, at: int, p: int, v: string)
    requires SameFrom(a, b, at) && at <= p && Has(b, p, v)
    ensures Has(a, p, v)
  {
    assert forall i {:trigger v[i]} :: 0 <= i < |v| ==> a[p + i] == b[p + i];
  }

  /** A pointer into the text: v lies there with its terminator, all before `limit`. */
  ghost predicate Behind(text: string, limit: int, p: Ptr, v: Opt) {
    match v
    case None => p == NULL
    case Some(s) =>
      && 0 <= p && p + |s| < limit <= |text| && text[p + |s|] == NUL
      && forall i {:trigger s[i]} :: 0 <= i < |s| ==> text[p + i] == s[i] && s[i] != NUL
  }

  lemma BehindFrame(a: string, limit: int, b: string, further: int, p: Ptr, v: Opt)
    requires Behind(a, limit, p, v) && limit <= further <= |b| && |a| == |b|
    requires forall i {:trigger b[i]} :: 0 <= i < limit ==> b[i] == a[i]
    ensures Behind(b, further, p, v)
  {
  }

  lemma {:induction false} BehindDecodes(text: string, limit: int, p: Ptr, v: Opt)
    requires Behind(text, limit, p, v)
    ensures CStr(text, p) == v
    decreases if v == None then 0 else |v.s|
  {
    if v != None {
      if v.s == "" {
        assert text[p..][0] == NUL;
      } else {
        var rest := v.s[1..];
        assert text[p + 0] == v.s[0];
        assert forall i {:trigger rest[i]} :: 0 <= i < |rest| ==> rest[i] == v.s[i + 1];
        BehindDecodes(text, limit, p + 1, Some(rest));
        assert text[p..][1..] == text[p + 1..];
      }
    }
  }

  // ------------------------------------------------------------------ strings

  ghost predicate NulFree(v: string) {
    NUL !in v
  }

  lemma HexReads(d: int)
    requires 0 <= d < 16
    ensures HexDigit(HexOf(d)) == d
  {
  }

  lemma RawReads(text: string, op: int, next: int, quote: char)
    requires 0 <= op <= next < |text| - 1 && text[next] != '\\' && text[next] != quote && text[next] != NUL
    ensures ParseChars(text, op, next, quote) == ParseChars(text[op := text[next]], op + 1, next + 1, quote)
  {
  }

  lemma PairReads(text: string, op: int, next: int, quote: char)
    requires 0 <= op <= next && next + 2 < |text| && text[next] == '\\' && Unescape(text[next + 1]) != None
    ensures ParseChars(text, op, next, quote) == ParseChars(text[op := Unescape(text[next + 1]).s[0]], op + 1, next + 2, quote)
  {
  }

  lemma CodeReads(text: string, op: int, next: int, quote: char)
    requires 0 <= op <= next && next + 6 < |text| && text[next] == '\\' && text[next + 1] == 'u' && HexByte(text, next + 2) >= 0
    ensures ParseChars(text, op, next, quote) == ParseChars(text[op := HexByte(text, next + 2) as char], op + 1, next + 6, quote)
  {
  }

  lemma HexByteReads(text: string, at: int, n: int)
    requires 0 <= at && at + 4 < |text| && 0 <= n < 256
    requires text[at] == '0' && text[at + 1] == '0' && text[at + 2] == HexOf(n / 16) && text[at + 3] == HexOf(n % 16)
    ensures HexByte(text, at) == n
  {
    HexReads(n / 16);
    HexReads(n % 16);
  }

  /** One character: whatever form it was printed in, the parser stores the character itself. */
  lemma CharReads(text: string, op: int, next: int, c: char, st: Style)
    requires 0 <= op <= next && c != NUL && Has(text, next, Escaped(c, st)) && next + |Escaped(c, st)| < |text| - 1
    ensures ParseChars(text, op, next, QuoteOf(st))
         == ParseChars(text[op := c], op + 1, next + |Escaped(c, st)|, QuoteOf(st))
  {
    var e := Escaped(c, st);
    assert text[next + 0] == e[0];
    if |e| == 1 {
      RawReads(text, op, next, QuoteOf(st));
    } else {
      assert text[next + 1] == e[1];
      if |e| == 2 {
        PairReads(text, op, next, QuoteOf(st));
      } else {
        assert text[next + 2] == e[2] && text[next + 3] == e[3] && text[next + 4] == e[4] && text[next + 5] == e[5];
        HexByteReads(text, next + 2, c as int);
        CodeReads(text, op, next, QuoteOf(st));
      }
    }
  }

  // v lies at `base`, from k on, with its terminator, what lies in front of that is as it was, and parsing went on at `next`.
  ghost predicate Restored(u: Unquoted, text: string, base: int, v: string, k: int, next: int) {
    && k <= |v| && u.next == next && 0 <= base && base + |v| < next < |u.text| == |text| && u.text[base + |v|] == NUL
    && (forall i {:trigger v[i]} :: k <= i < |v| ==> 0 <= i && u.text[base + i] == v[i])
    && (forall i {:trigger u.text[i]} :: 0 <= i < base + k ==> u.text[i] == text[i])
  }

  lemma CloseReads(text: string, base: int, next: int, v: string, quote: char)
    requires 0 <= base && base + |v| <= next < |text| - 1 && text[next] == quote && quote != '\\' && quote != NUL
    ensures Restored(ParseChars(text, base + |v|, next, quote), text, base, v, |v|, next + 1)
  {
  }

  lemma RestoredMore(u: Unquoted, text: string, base: int, op: int, v: string, k: int, after: int)
    requires 0 <= k < |v| && 0 <= op == base + k < |text| && Restored(u, text[op := v[k]], base, v, k + 1, after)
    ensures Restored(u, text, base, v, k, after)
  {
    assert u.text[op] == v[k];
  }

  lemma CharsStep(text: string, op: int, next: int, v: string, k: int, st: Style)
    requires NulFree(v) && 0 <= k < |v| && 0 <= op <= next
    requires Has(text, next, Escape(v, k, st)) && next + |Escape(v, k, st)| < |text| - 1
    ensures var n := next + |Escaped(v[k], st)|;
      && op < n && n + |Escape(v, k + 1, st)| == next + |Escape(v, k, st)| && Has(text[op := v[k]], n, Escape(v, k + 1, st))
      && ParseChars(text, op, next, QuoteOf(st)) == ParseChars(text[op := v[k]], op + 1, n, QuoteOf(st))
  {
    var e, over := Escaped(v[k], st), text[op := v[k]];
    HasBoth(text, next, e, Escape(v, k + 1, st));
    CharReads(text, op, next, v[k], st);
    HasSame(over, text, next + |e|, next + |e|, Escape(v, k + 1, st));
  }

  /** The string layer: from a printed string the parser restores the string, from k on, at its place. */
  lemma {:induction false} CharsRead(u: Unquoted, text: string, base: int, op: int, next: int, v: string, k: int, st: Style, after: int)
    requires NulFree(v) && 0 <= k <= |v| && 0 <= base && op == base + k <= next
    requires Has(text, next, Escape(v, k, st)) && after == next + |Escape(v, k, st)| < |text| - 1
    requires text[after] == QuoteOf(st)
    requires u == ParseChars(text, op, next, QuoteOf(st))
    ensures Restored(u, text, base, v, k, after + 1)
    decreases |v| - k, 0
  {
    if k == |v| {
      CloseReads(text, base, next, v, QuoteOf(st));
    } else {
      CharsStep(text, op, next, v, k, st);
      CharsMore(u, text[op := v[k]], base, op, next + |Escaped(v[k], st)|, v, k, st, after);
      RestoredMore(u, text, base, op, v, k, after + 1);
    }
  }

  // The characters behind k.
  lemma {:induction false} CharsMore(u: Unquoted, over: string, base: int, op: int, n: int, v: string, k: int, st: Style, after: int)
    requires NulFree(v) && 0 <= k < |v| && 0 <= base && op == base + k && op + 1 <= n
    requires Has(over, n, Escape(v, k + 1, st)) && after == n + |Escape(v, k + 1, st)| < |over| - 1
    requires over[after] == QuoteOf(st) && u == ParseChars(over, op + 1, n, QuoteOf(st))
    ensures Restored(u, over, base, v, k + 1, after + 1)
    decreases |v| - k - 1, 1
  {
    CharsRead(u, over, base, op + 1, n, v, k + 1, st, after);
  }

  // ------------------------------------------------------------------ states of the parser

  ghost predicate Entry(text: string, limit: int, r: Raw, n: JsonNode) {
    r.kind == n.kind && Behind(text, limit, r.name, n.name) && Behind(text, limit, r.value, n.value)
  }

  /** What was parsed so far are the first nodes of ns, but for `last`. */
  ghost predicate Recorded(text: string, limit: int, nodes: seq<Raw>, ns: seq<JsonNode>) {
    |nodes| <= |ns| && forall i {:trigger nodes[i]} :: 0 <= i < |nodes| ==> Entry(text, limit, nodes[i], ns[i])
  }

  lemma RecordedFrame(a: string, limit: int, b: string, further: int, nodes: seq<Raw>, ns: seq<JsonNode>)
    requires Recorded(a, limit, nodes, ns) && limit <= further <= |b| && |a| == |b|
    requires forall i {:trigger b[i]} :: 0 <= i < limit ==> b[i] == a[i]
    ensures Recorded(b, further, nodes, ns)
  {
    forall i {:trigger nodes[i]} | 0 <= i < |nodes| ensures Entry(b, further, nodes[i], ns[i]) {
      BehindFrame(a, limit, b, further, nodes[i].name, ns[i].name);
      BehindFrame(a, limit, b, further, nodes[i].value, ns[i].value);
    }
  }

  // The parser is fine, and has not touched the text ahead of it.
  ghost predicate Reading(s: State, text: string) {
    Inv(s) && !s.error && !s.flags.strict && SameFrom(s.text, text, s.next)
  }

  /** The next token begins the value of node nid. */
  ghost predicate Awaiting(s: State, text: string, ns: seq<JsonNode>, nid: int) {
    && Reading(s, text) && !s.flags.comma && |s.nodes| == nid < |ns|
    && Recorded(s.text, s.next, s.nodes, ns) && Behind(s.text, s.next, s.name, ns[nid].name)
    && (s.name != NULL || (s.parent < 0 && nid == 0) || (s.parent >= 0 && s.kind == Array))
  }

  /** The nodes before nid are complete; the last string may still lack its terminator, at `next`. */
  ghost predicate Done(s: State, text: string, ns: seq<JsonNode>, nid: int) {
    && Reading(s, text) && s.name == NULL && |s.nodes| == nid
    && Recorded(s.text[s.next := NUL], s.next + 1, s.nodes, ns)
  }

  /** The loop, started in s, ends in r. */
  ghost predicate Ends(s: State, r: State) {
    Inv(s) && Run(s) == r
  }

  /** From s the loop gets to t. */
  ghost predicate Leads(s: State, t: State) {
    Inv(t) && forall r {:trigger Ends(t, r)} :: Ends(t, r) ==> Ends(s, r)
  }

  lemma LeadsOn(s: State, t: State, u: State)
    requires Leads(s, t) && Leads(t, u)
    ensures Leads(s, u)
  {
  }

  // The same container, and the parser gets from s to t.
  ghost predicate Kept(s: State, t: State) {
    && Leads(s, t) && |t.text| == |s.text| && t.parent == s.parent && t.level == s.level
    && (s.parent >= 0 ==> t.kind == s.kind) && |s.nodes| <= |t.nodes|
    && forall i {:trigger t.nodes[i]} :: 0 <= i < |s.nodes| ==> t.nodes[i].last == s.nodes[i].last
  }

  /** From s one iteration leads to t. */
  ghost predicate Stepped(s: State, t: State) {
    && 0 <= s.next < End(s) && -1 <= s.parent < |s.nodes| && (s.level >= 1 ==> s.parent >= 0)
    && (s.parent >= 0 ==> -1 <= s.nodes[s.parent].last < |s.nodes|) && Step(s) == t
  }

  /** One iteration. */
  lemma Follow(s: State)
    requires Inv(s) && !s.error && s.next < End(s)
    ensures s.level >= 1 ==> s.parent >= 0
    ensures s.parent >= 0 ==> -1 <= s.nodes[s.parent].last < |s.nodes|
    ensures !Step(s).error ==> Leads(s, Step(s))
  {
    StepKeepsInv(s);
    StepProgresses(s);
  }

  // ------------------------------------------------------------------ tokens

  function Quotation(v: string, st: Style): string {
    [QuoteOf(st)] + Escape(v, 0, st) + [QuoteOf(st)]
  }

  lemma QuotationReads(text: string, p: int, v: string, st: Style)
    requires NulFree(v) && Has(text, p, Quotation(v, st)) && p + |Quotation(v, st)| < |text|
    ensures text[p] == QuoteOf(st)
    ensures Restored(ParseChars(text, p + 1, p + 1, QuoteOf(st)), text, p + 1, v, 0, p + |Quotation(v, st)|)
  {
    var after := p + 1 + |Escape(v, 0, st)|;
    QuotationHas(text, p, [QuoteOf(st)], Escape(v, 0, st), after);
    CharsRead(ParseChars(text, p + 1, p + 1, QuoteOf(st)), text, p + 1, p + 1, p + 1, v, 0, st, after);
  }

  // A body in quotes.
  lemma QuotationHas(text: string, p: int, q: string, body: string, after: int)
    requires |q| == 1 && Has(text, p, q + body + q) && after == p + 1 + |body|
    ensures Has(text, p + 1, body) && after < |text| && text[p] == text[after] == q[0]
  {
    HasBoth(text, p, q + body, q);
    HasBoth(text, p, q, body);
    assert text[p + 0] == q[0] && text[after + 0] == q[0];
  }

  /** parseString on a printed string. */
  lemma QuotedReads(s: State, text: string, v: string, st: Style)
    requires Reading(s, text) && NulFree(v) && Has(text, s.next, Quotation(v, st)) && s.next + |Quotation(v, st)| < |text|
    ensures var (u, p) := ParseString(s);
      && p == s.next + 1 && !u.error && u.next == s.next + |Quotation(v, st)| && Behind(u.text, u.next, p, Some(v))
      && SameFrom(u.text, text, u.next) && (forall i {:trigger u.text[i]} :: 0 <= i < s.next ==> u.text[i] == s.text[i])
  {
    HasSame(s.text, text, s.next, s.next, Quotation(v, st));
    QuotationReads(s.text, s.next, v, st);
    CharsKept(s.text, s.next + 1, s.next + 1, QuoteOf(st));
  }

  /** A token that needs no quotes. */
  ghost predicate IsToken(v: string) {
    v != "" && forall i {:trigger v[i]} :: 0 <= i < |v| ==> InPrimitive(v[i]) && (v[i] == '.' ==> i > 0 && IsAlnum(v[i - 1]))
  }

  // The parser stops behind a token: there is a delimiter, or the end.
  ghost predicate Delimited(text: string, at: int) {
    0 <= at < |text| && !InPrimitive(text[at]) && !IsBlank(text[at])
  }

  lemma {:induction false} TokenEnds(text: string, start: int, v: string, k: int)
    requires IsToken(v) && Has(text, start, v) && 0 <= k <= |v| && start + |v| < |text| && !InPrimitive(text[start + |v|])
    ensures PrimitiveEnd(text, start, start + k) == start + |v|
    decreases |v| - k
  {
    if k < |v| {
      assert text[start + k] == v[k];
      if k > 0 {
        assert text[start + (k - 1)] == v[k - 1];
      }
      TokenEnds(text, start, v, k + 1);
    }
  }

  lemma {:induction false} DotsMoved(text: string, p: int, v: string, k: int)
    requires Has(text, p, v) && 0 <= k < |v|
    ensures Dots(text, p + k, |v| - 1 - k) == Dots(v, k, |v| - 1 - k)
    decreases |v| - k
  {
    if k < |v| - 1 {
      assert text[p + k] == v[k];
      DotsMoved(text, p, v, k + 1);
    }
  }

  lemma NumberMoved(text: string, p: int, v: string)
    requires Has(text, p, v) && v != ""
    ensures IsNumber(text, p, |v| - 1) <==> IsNumber(v, 0, |v| - 1)
  {
    DotsMoved(text, p, v, 0);
    assert text[p + 0] == v[0];
    if IsNumber(text, p, |v| - 1) {
      forall i | 0 <= i < |v| - 1 ensures InNumber(v[i]) {
        assert text[p + i] == v[i];
      }
    }
    if IsNumber(v, 0, |v| - 1) {
      forall i | p <= i < p + |v| - 1 ensures InNumber(text[i]) {
        assert text[p + (i - p)] == v[i - p];
      }
    }
  }

  lemma WordMoved(text: string, p: int, v: string, word: string)
    requires Has(text, p, v) && v != ""
    ensures SameStart(text, p, word, |v| - 1) <==> SameStart(v, 0, word, |v| - 1)
  {
    assert forall i {:trigger word[i]} :: 0 <= i < |v| - 1 ==> text[p + i] == v[i];
  }

  // A value is classified by its own characters.
  lemma KindMoved(text: string, p: int, v: string, strict: bool)
    requires Has(text, p, v) && v != ""
    ensures SleuthKind(text, p, |v| - 1, strict) == SleuthKind(v, 0, |v| - 1, strict)
  {
    assert text[p + 0] == v[0];
    NumberMoved(text, p, v);
    WordMoved(text, p, v, "true");
    WordMoved(text, p, v, "false");
    WordMoved(text, p, v, "null");
    WordMoved(text, p, v, "undefined");
    var len := |v| - 1;
    assert (text[p] == 't' && SameStart(text, p, "true", len)) == (v[0] == 't' && SameStart(v, 0, "true", len));
    assert (text[p] == 'f' && SameStart(text, p, "false", len)) == (v[0] == 'f' && SameStart(v, 0, "false", len));
    assert (text[p] == 'n' && SameStart(text, p, "null", len)) == (v[0] == 'n' && SameStart(v, 0, "null", len));
    assert (text[p] == 'u' && SameStart(text, p, "undefined", len)) == (v[0] == 'u' && SameStart(v, 0, "undefined", len));
  }

  /** parsePrimitive on a printed token. */
  lemma TokenReads(s: State, text: string, v: string)
    requires Reading(s, text) && IsToken(v) && Has(text, s.next, v) && Delimited(text, s.next + |v|)
    ensures ParsePrimitive(s) == (s.(next := s.next + |v|), s.next) && Has(s.text, s.next, v)
  {
    HasSame(s.text, text, s.next, s.next, v);
    TokenEnds(s.text, s.next, v, 0);
  }

  // A token in front of its terminator.
  lemma TokenBehind(text: string, p: int, v: string)
    requires IsToken(v) && Has(text, p, v) && p + |v| < |text|
    ensures Behind(text[p + |v| := NUL], p + |v| + 1, p, Some(v))
  {
    assert forall i {:trigger v[i]} :: 0 <= i < |v| ==> text[p + i] == v[i] && InPrimitive(v[i]);
  }

  /** parseValue makes a node of a value that is not a member name. */
  lemma ValueAdds(s: State, kind: Kind, value: Ptr)
    requires Inv(s) && !s.error && !s.flags.strict && 0 <= value < |s.text|
    requires s.name != NULL || (s.parent < 0 && s.nodes == []) || (s.parent >= 0 && s.kind == Array)
    requires kind == String || (kind == Unset && s.text[value] != NUL && SleuthKind(s.text, value, s.next - value - 1, false) == Primitive)
    ensures ParseValue(s, kind, value)
         == s.(nodes := s.nodes + [Raw(s.name, value, if kind == String then String else Primitive, |s.nodes| + 1)], name := NULL)
  {
  }

  // A new node in the record.
  lemma RecordedMore(a: string, limit: int, b: string, further: int, nodes: seq<Raw>, ns: seq<JsonNode>, r: Raw)
    requires Recorded(a, limit, nodes, ns) && limit <= further <= |b| && |a| == |b| && |nodes| < |ns|
    requires forall i {:trigger b[i]} :: 0 <= i < limit ==> b[i] == a[i]
    requires Behind(a, limit, r.name, ns[|nodes|].name) && Behind(b, further, r.value, ns[|nodes|].value) && r.kind == ns[|nodes|].kind
    ensures Recorded(b, further, nodes + [r], ns)
  {
    RecordedFrame(a, limit, b, further, nodes, ns);
    BehindFrame(a, limit, b, further, r.name, ns[|nodes|].name);
  }

  // ------------------------------------------------------------------ scalars

  // A new node of value p for the state, and where the parser goes on.
  function Scalar(s: State, p: Ptr, kind: Kind): seq<Raw> {
    s.nodes + [Raw(s.name, p, kind, |s.nodes| + 1)]
  }

  lemma QuotedIs(s: State, text: string, v: string, st: Style) returns (u: State)
    requires Reading(s, text) && (s.name != NULL || (s.parent < 0 && s.nodes == []) || (s.parent >= 0 && s.kind == Array))
    requires NulFree(v) && Has(text, s.next, Quotation(v, st)) && s.next + |Quotation(v, st)| < |text|
    ensures s.next < End(s) && s.text[s.next] == QuoteOf(st) && Quoted(s) == u
    ensures u == s.(text := u.text, next := s.next + |Quotation(v, st)|, nodes := Scalar(s, s.next + 1, String), name := NULL)
    ensures Behind(u.text, u.next, s.next + 1, Some(v)) && SameFrom(u.text, text, u.next)
    ensures forall i {:trigger u.text[i]} :: 0 <= i < s.next ==> u.text[i] == s.text[i]
  {
    var (w, p) := ParseString(s);
    assert s.text[s.next] == text[s.next + 0] == Quotation(v, st)[0];
    QuotedReads(s, text, v, st);
    ParsedInv(s, w);
    ValueAdds(w, String, p);
    u := Quoted(s);
  }

  lemma StepIsQuoted(s: State)
    requires Inv(s) && !s.error && s.next < End(s) && s.text[s.next] in {'"', '\''} && !Quoted(s).error
    ensures Leads(s, Quoted(s)) && Stepped(s, Quoted(s))
  {
    Follow(s);
  }

  lemma StringStepped(s: State, text: string, v: string, st: Style) returns (t: State)
    requires Reading(s, text) && (s.name != NULL || (s.parent < 0 && s.nodes == []) || (s.parent >= 0 && s.kind == Array))
    requires NulFree(v) && Has(text, s.next, Quotation(v, st)) && s.next + |Quotation(v, st)| < |text|
    ensures Leads(s, t) && Stepped(s, t)
    ensures t == s.(text := t.text, next := s.next + |Quotation(v, st)|, nodes := Scalar(s, s.next + 1, String), name := NULL)
    ensures Behind(t.text, t.next, s.next + 1, Some(v)) && SameFrom(t.text, text, t.next)
    ensures forall i {:trigger t.text[i]} :: 0 <= i < s.next ==> t.text[i] == s.text[i]
  {
    t := QuotedIs(s, text, v, st);
    StepIsQuoted(s);
  }

  lemma StringStep(s: State, text: string, v: string, st: Style) returns (t: State)
    requires Reading(s, text) && (s.name != NULL || (s.parent < 0 && s.nodes == []) || (s.parent >= 0 && s.kind == Array))
    requires NulFree(v) && Has(text, s.next, Quotation(v, st)) && s.next + |Quotation(v, st)| < |text|
    ensures Leads(s, t)
    ensures t == s.(text := t.text, next := s.next + |Quotation(v, st)|, nodes := Scalar(s, s.next + 1, String), name := NULL)
    ensures Behind(t.text, t.next, s.next + 1, Some(v)) && SameFrom(t.text, text, t.next)
    ensures forall i {:trigger t.text[i]} :: 0 <= i < s.next ==> t.text[i] == s.text[i]
  {
    t := StringStepped(s, text, v, st);
  }

  // Reading a token changes neither the nodes nor the name.
  lemma ParsedInv(s: State, u: State)
    requires Inv(s) && u == s.(text := u.text, next := u.next) && |u.text| == |s.text| && 0 <= u.next < |u.text| && u.text[End(u)] == NUL
    ensures Inv(u)
  {
    InvFrame(s, u);
  }

  lemma BareIs(s: State, text: string, v: string)
    requires Reading(s, text) && (s.name != NULL || (s.parent < 0 && s.nodes == []) || (s.parent >= 0 && s.kind == Array))
    requires IsToken(v) && SleuthKind(v, 0, |v| - 1, false) == Primitive && Has(text, s.next, v) && Delimited(text, s.next + |v|)
    requires !s.flags.comma
    ensures s.next < End(s) && InPrimitive(s.text[s.next]) && Has(s.text, s.next, v)
    ensures Bare(s) == s.(next := s.next + |v|, nodes := Scalar(s, s.next, Primitive), name := NULL, flags := Flags(false, false, true, false))
  {
    TokenReads(s, text, v);
    assert s.text[s.next + 0] == v[0] && InPrimitive(v[0]);
    var u := s.(next := s.next + |v|);
    ParsedInv(s, u);
    KindMoved(s.text, s.next, v, false);
    ValueAdds(u, Unset, s.next);
  }

  lemma StepIsBare(s: State)
    requires Inv(s) && !s.error && s.next < End(s) && InPrimitive(s.text[s.next]) && !Bare(s).error
    ensures Leads(s, Bare(s))
  {
    Follow(s);
  }

  lemma PrimitiveStepped(s: State, text: string, v: string) returns (t: State)
    requires Reading(s, text) && (s.name != NULL || (s.parent < 0 && s.nodes == []) || (s.parent >= 0 && s.kind == Array))
    requires IsToken(v) && SleuthKind(v, 0, |v| - 1, false) == Primitive && Has(text, s.next, v) && Delimited(text, s.next + |v|)
    requires !s.flags.comma
    ensures Leads(s, t) && Stepped(s, t) && Has(s.text, s.next, v)
    ensures t == s.(next := s.next + |v|, nodes := Scalar(s, s.next, Primitive), name := NULL, flags := Flags(false, false, true, false))
  {
    BareIs(s, text, v);
    StepIsBare(s);
    Follow(s);
    t := Bare(s);
  }

  lemma PrimitiveStep(s: State, text: string, v: string) returns (t: State)
    requires Reading(s, text) && (s.name != NULL || (s.parent < 0 && s.nodes == []) || (s.parent >= 0 && s.kind == Array))
    requires IsToken(v) && SleuthKind(v, 0, |v| - 1, false) == Primitive && Has(text, s.next, v) && Delimited(text, s.next + |v|)
    requires !s.flags.comma
    ensures Leads(s, t) && Has(s.text, s.next, v)
    ensures t == s.(next := s.next + |v|, nodes := Scalar(s, s.next, Primitive), name := NULL, flags := Flags(false, false, true, false))
  {
    t := PrimitiveStepped(s, text, v);
  }

  // ------------------------------------------------------------------ the parts of a document

  // The outcome of a value that ends in front of node `end`: its nodes, in the same container.
  ghost predicate Read(s: State, t: State, text: string, ns: seq<JsonNode>, end: int) {
    && Done(t, text, ns, end) && Kept(s, t)
    && forall i {:trigger t.nodes[i]} :: |s.nodes| <= i < end ==> i < |ns| && t.nodes[i].last == ns[i].last
  }

  lemma ScalarDone(s: State, t: State, text: string, ns: seq<JsonNode>, nid: int, p: Ptr)
    requires 0 <= nid && Awaiting(s, text, ns, nid) && Inv(t)
    requires t == s.(text := t.text, next := t.next, nodes := Scalar(s, p, ns[nid].kind), name := NULL, flags := t.flags)
    requires SameFrom(t.text, text, t.next) && !t.flags.strict && s.next <= t.next
    requires forall i {:trigger t.text[i]} :: 0 <= i < s.next ==> t.text[i] == s.text[i]
    requires Behind(t.text[t.next := NUL], t.next + 1, p, ns[nid].value)
    ensures Done(t, text, ns, nid + 1)
  {
    RecordedMore(s.text, s.next, t.text[t.next := NUL], t.next + 1, s.nodes, ns, Raw(s.name, p, ns[nid].kind, nid + 1));
  }

  lemma ScalarKept(s: State, t: State, ns: seq<JsonNode>, p: Ptr, kind: Kind)
    requires Leads(s, t) && |s.nodes| < |ns| && ns[|s.nodes|].last == |s.nodes| + 1 && |t.text| == |s.text|
    requires t == s.(text := t.text, next := t.next, nodes := Scalar(s, p, kind), name := NULL, flags := t.flags)
    ensures Kept(s, t) && t.nodes[|s.nodes|].last == ns[|s.nodes|].last
  {
  }

  lemma StringDone(s: State, t: State, text: string, ns: seq<JsonNode>, nid: int, v: string)
    requires 0 <= nid && Awaiting(s, text, ns, nid) && ns[nid] == JsonNode(ns[nid].name, Some(v), String, nid + 1)
    requires Leads(s, t) && s.next <= t.next < |text| == |t.text| && t == s.(text := t.text, next := t.next, nodes := Scalar(s, s.next + 1, String), name := NULL)
    requires Behind(t.text, t.next, s.next + 1, Some(v)) && SameFrom(t.text, text, t.next)
    requires forall i {:trigger t.text[i]} :: 0 <= i < s.next ==> t.text[i] == s.text[i]
    ensures Read(s, t, text, ns, nid + 1)
  {
    BehindFrame(t.text, t.next, t.text[t.next := NUL], t.next + 1, s.next + 1, Some(v));
    ScalarDone(s, t, text, ns, nid, s.next + 1);
    ScalarKept(s, t, ns, s.next + 1, String);
  }

  lemma StringReads(s: State, text: string, ns: seq<JsonNode>, nid: int, v: string, st: Style) returns (t: State)
    requires 0 <= nid && Awaiting(s, text, ns, nid) && ns[nid] == JsonNode(ns[nid].name, Some(v), String, nid + 1) && NulFree(v)
    requires Has(text, s.next, Quotation(v, st)) && s.next + |Quotation(v, st)| < |text|
    ensures Read(s, t, text, ns, nid + 1) && t.next == s.next + |Quotation(v, st)|
  {
    t := StringStep(s, text, v, st);
    StringDone(s, t, text, ns, nid, v);
  }

  lemma PrimitiveReads(s: State, text: string, ns: seq<JsonNode>, nid: int, v: string) returns (t: State)
    requires 0 <= nid && Awaiting(s, text, ns, nid) && ns[nid] == JsonNode(ns[nid].name, Some(v), Primitive, nid + 1)
    requires IsToken(v) && SleuthKind(v, 0, |v| - 1, false) == Primitive && Has(text, s.next, v) && Delimited(text, s.next + |v|)
    ensures Read(s, t, text, ns, nid + 1) && t.next == s.next + |v|
  {
    t := PrimitiveStep(s, text, v);
    TokenBehind(s.text, s.next, v);
    ScalarDone(s, t, text, ns, nid, s.next);
    ScalarKept(s, t, ns, s.next, Primitive);
  }

  // ------------------------------------------------------------------ names

  /** The next token is a member of the open container, with its name if it has one. */
  ghost predicate Between(s: State, text: string, ns: seq<JsonNode>, nid: int, keyed: bool) {
    && Reading(s, text) && !s.flags.comma && (keyed ==> s.flags.key) && |s.nodes| == nid <= |ns|
    && Recorded(s.text, s.next, s.nodes, ns)
    && s.name == NULL && s.parent >= 0 && s.kind == (if keyed then Object else Array)
  }

  // The parser expects a name.
  ghost predicate Naming(s: State, text: string) {
    Reading(s, text) && s.name == NULL && s.parent >= 0 && s.kind == Object && s.flags.key && !s.flags.comma
  }

  lemma QuotedNameStepped(s: State, text: string, v: string, st: Style) returns (t: State)
    requires Naming(s, text) && NulFree(v) && Has(text, s.next, Quotation(v, st)) && s.next + |Quotation(v, st)| < |text|
    ensures Leads(s, t) && Stepped(s, t) && t == s.(text := t.text, next := s.next + |Quotation(v, st)|, name := s.next + 1)
    ensures Behind(t.text, t.next, t.name, Some(v)) && SameFrom(t.text, text, t.next)
    ensures forall i {:trigger t.text[i]} :: 0 <= i < s.next ==> t.text[i] == s.text[i]
  {
    assert s.text[s.next] == text[s.next + 0] == Quotation(v, st)[0];
    QuotedReads(s, text, v, st);
    Follow(s);
    t := Step(s);
  }

  lemma QuotedName(s: State, text: string, v: string, st: Style) returns (t: State)
    requires Naming(s, text) && NulFree(v) && Has(text, s.next, Quotation(v, st)) && s.next + |Quotation(v, st)| < |text|
    ensures Leads(s, t) && t == s.(text := t.text, next := s.next + |Quotation(v, st)|, name := s.next + 1)
    ensures Behind(t.text, t.next, t.name, Some(v)) && SameFrom(t.text, text, t.next)
    ensures forall i {:trigger t.text[i]} :: 0 <= i < s.next ==> t.text[i] == s.text[i]
  {
    t := QuotedNameStepped(s, text, v, st);
  }

  lemma BareName(s: State, text: string, v: string) returns (t: State)
    requires Naming(s, text) && IsToken(v) && Has(text, s.next, v) && Delimited(text, s.next + |v|)
    ensures Leads(s, t) && t == s.(next := s.next + |v|, name := s.next, flags := Flags(false, false, false, false))
    ensures Has(s.text, s.next, v)
  {
    TokenReads(s, text, v);
    assert s.text[s.next + 0] == v[0] && InPrimitive(v[0]);
    StepIsBare(s);
    t := Bare(s);
  }

  lemma ColonStepped(s: State) returns (t: State)
    requires Inv(s) && !s.error && s.next < End(s) && s.text[s.next] == ':' && s.name != NULL
    ensures Leads(s, t) && Stepped(s, t) && t == Terminate(s).(flags := s.flags.(key := false))
  {
    Follow(s);
    t := Step(s);
  }

  lemma {:induction false} BareEscape(v: string, k: int, st: Style)
    requires 0 <= k <= |v| && forall i :: 0 <= i < |v| ==> IsBareChar(v[i])
    ensures Escape(v, k, st) == v[k..]
    decreases |v| - k
  {
    if k < |v| {
      BareEscape(v, k + 1, st);
      assert v[k..] == [v[k]] + v[k + 1..];
    }
  }

  // A printed name is the name in quotes, or a token.
  lemma NameText(v: string, st: Style)
    ensures ValueText(Some(v), true, st) == Quotation(v, st) || (ValueText(Some(v), true, st) == v && IsToken(v))
  {
    if !IsQuoted(v, true, st) {
      BareEscape(v, 0, st);
    }
  }

  // From the end of the name to the value.
  lemma NameStepped(s: State, u: State, text: string, ns: seq<JsonNode>, nid: int) returns (t: State)
    requires 0 <= nid < |ns| && Between(s, text, ns, nid, true) && Inv(u) && Leads(s, u)
    requires u == s.(text := u.text, next := u.next, name := u.name, flags := u.flags)
    requires !u.flags.strict && !u.flags.comma && u.name != NULL
    requires s.next <= u.next < |text| - 1 && SameFrom(u.text, text, u.next) && text[u.next] == ':'
    requires forall i {:trigger u.text[i]} :: 0 <= i < s.next ==> u.text[i] == s.text[i]
    requires Behind(u.text[u.next := NUL], u.next + 1, u.name, ns[nid].name)
    ensures Stepped(u, t) && Awaiting(t, text, ns, nid) && Kept(s, t) && t.nodes == s.nodes && t.next == u.next + 1
  {
    t := ColonStepped(u);
    RecordedFrame(s.text, s.next, t.text, t.next, s.nodes, ns);
    LeadsOn(s, u, t);
  }

  lemma NameDone(s: State, u: State, text: string, ns: seq<JsonNode>, nid: int) returns (t: State)
    requires 0 <= nid < |ns| && Between(s, text, ns, nid, true) && Inv(u) && Leads(s, u)
    requires u == s.(text := u.text, next := u.next, name := u.name, flags := u.flags)
    requires !u.flags.strict && !u.flags.comma && u.name != NULL
    requires s.next <= u.next < |text| - 1 && SameFrom(u.text, text, u.next) && text[u.next] == ':'
    requires forall i {:trigger u.text[i]} :: 0 <= i < s.next ==> u.text[i] == s.text[i]
    requires Behind(u.text[u.next := NUL], u.next + 1, u.name, ns[nid].name)
    ensures Awaiting(t, text, ns, nid) && Kept(s, t) && t.nodes == s.nodes && t.next == u.next + 1
  {
    t := NameStepped(s, u, text, ns, nid);
  }

  /** A printed name and its colon. */
  lemma NameReads(s: State, text: string, ns: seq<JsonNode>, nid: int, v: string, st: Style) returns (t: State)
    requires 0 <= nid < |ns| && Between(s, text, ns, nid, true) && ns[nid].name == Some(v) && NulFree(v)
    requires Has(text, s.next, ValueText(Some(v), true, st)) && s.next + |ValueText(Some(v), true, st)| < |text| - 1
    requires text[s.next + |ValueText(Some(v), true, st)|] == ':'
    ensures Awaiting(t, text, ns, nid) && Kept(s, t) && t.nodes == s.nodes && t.next == s.next + |ValueText(Some(v), true, st)| + 1
  {
    NameText(v, st);
    if ValueText(Some(v), true, st) == Quotation(v, st) {
      t := QuotedNameReads(s, text, ns, nid, v, st);
    } else {
      t := BareNameReads(s, text, ns, nid, v);
    }
  }

  lemma QuotedNameReads(s: State, text: string, ns: seq<JsonNode>, nid: int, v: string, st: Style) returns (t: State)
    requires 0 <= nid < |ns| && Between(s, text, ns, nid, true) && ns[nid].name == Some(v) && NulFree(v)
    requires Has(text, s.next, Quotation(v, st)) && s.next + |Quotation(v, st)| < |text| - 1 && text[s.next + |Quotation(v, st)|] == ':'
    ensures Awaiting(t, text, ns, nid) && Kept(s, t) && t.nodes == s.nodes && t.next == s.next + |Quotation(v, st)| + 1
  {
    var u := QuotedName(s, text, v, st);
    BehindFrame(u.text, u.next, u.text[u.next := NUL], u.next + 1, u.name, Some(v));
    t := NameDone(s, u, text, ns, nid);
  }

  lemma BareNameReads(s: State, text: string, ns: seq<JsonNode>, nid: int, v: string) returns (t: State)
    requires 0 <= nid < |ns| && Between(s, text, ns, nid, true) && ns[nid].name == Some(v) && IsToken(v)
    requires Has(text, s.next, v) && s.next + |v| < |text| - 1 && text[s.next + |v|] == ':'
    ensures Awaiting(t, text, ns, nid) && Kept(s, t) && t.nodes == s.nodes && t.next == s.next + |v| + 1
  {
    var u := BareName(s, text, v);
    TokenBehind(s.text, s.next, v);
    t := NameDone(s, u, text, ns, nid);
  }

  // ------------------------------------------------------------------ containers

  lemma CommaStepped(s: State, text: string, ns: seq<JsonNode>, nid: int, keyed: bool) returns (t: State)
    requires Done(s, text, ns, nid) && s.parent >= 0 && s.kind == (if keyed then Object else Array)
    requires s.next < End(s) && text[s.next] == ','
    ensures Stepped(s, t) && Between(t, text, ns, nid, keyed) && Kept(s, t) && t.nodes == s.nodes && t.next == s.next + 1
  {
    Follow(s);
    t := Step(s);
  }

  lemma CommaReads(s: State, text: string, ns: seq<JsonNode>, nid: int, keyed: bool) returns (t: State)
    requires Done(s, text, ns, nid) && s.parent >= 0 && s.kind == (if keyed then Object else Array)
    requires s.next < End(s) && text[s.next] == ','
    ensures Between(t, text, ns, nid, keyed) && Kept(s, t) && t.nodes == s.nodes && t.next == s.next + 1
  {
    t := CommaStepped(s, text, ns, nid, keyed);
  }

  lemma OpenStepped(s: State, text: string, ns: seq<JsonNode>, nid: int) returns (t: State)
    requires 0 <= nid && Awaiting(s, text, ns, nid) && IsContainer(ns[nid]) && ns[nid].value == None && s.next < End(s)
    requires text[s.next] == if ns[nid].kind == Object then '{' else '['
    ensures Stepped(s, t) && Between(t, text, ns, nid + 1, ns[nid].kind == Object) && Leads(s, t) && t.next == s.next + 1
    ensures t.nodes == s.nodes + [Raw(s.name, NULL, ns[nid].kind, s.parent)] && t.parent == nid && t.level == s.level + 1
  {
    Follow(s);
    t := Step(s);
    RecordedMore(s.text, s.next, t.text, t.next, s.nodes, ns, Raw(s.name, NULL, ns[nid].kind, s.parent));
  }

  lemma OpenReads(s: State, text: string, ns: seq<JsonNode>, nid: int) returns (t: State)
    requires 0 <= nid && Awaiting(s, text, ns, nid) && IsContainer(ns[nid]) && ns[nid].value == None && s.next < End(s)
    requires text[s.next] == if ns[nid].kind == Object then '{' else '['
    ensures Between(t, text, ns, nid + 1, ns[nid].kind == Object) && Leads(s, t) && t.next == s.next + 1
    ensures t.nodes == s.nodes + [Raw(s.name, NULL, ns[nid].kind, s.parent)] && t.parent == nid && t.level == s.level + 1
  {
    t := OpenStepped(s, text, ns, nid);
  }

  lemma CloseStepped(s: State, text: string, ns: seq<JsonNode>, end: int) returns (t: State)
    requires Done(s, text, ns, end) && s.parent >= 0 && s.level >= 1 && s.next < End(s)
    requires s.kind == Object || s.kind == Array
    requires text[s.next] == if s.kind == Object then '}' else ']'
    ensures Stepped(s, t) && Done(t, text, ns, end) && Leads(s, t) && t.next == s.next + 1 && |t.text| == |s.text|
    ensures t.level == s.level - 1 && t.parent == s.nodes[s.parent].last
    ensures t.nodes == s.nodes[s.parent := s.nodes[s.parent].(last := end)]
  {
    Follow(s);
    t := Step(s);
    CloseMade(s, t);
    CloseRecorded(s, t, ns);
  }

  // The state behind a closing bracket, in lenient mode.
  lemma CloseMade(s: State, t: State)
    requires Inv(s) && !s.error && !s.flags.strict && Stepped(s, t) && s.parent >= 0 && s.level >= 1 && s.name == NULL
    requires (s.text[s.next] == '}' && s.kind == Object) || (s.text[s.next] == ']' && s.kind == Array)
    ensures !t.error && t.text == s.text[s.next := NUL] && t.next == s.next + 1 && t.name == NULL && !t.flags.strict
    ensures t.level == s.level - 1 && t.parent == s.nodes[s.parent].last
    ensures t.nodes == s.nodes[s.parent := s.nodes[s.parent].(last := |s.nodes|)]
  {
  }

  lemma CloseRecorded(s: State, t: State, ns: seq<JsonNode>)
    requires 0 <= s.next < |s.text| - 1 && t.text == s.text[s.next := NUL] && t.next == s.next + 1
    requires Recorded(s.text[s.next := NUL], s.next + 1, s.nodes, ns) && 0 <= s.parent < |s.nodes|
    requires t.nodes == s.nodes[s.parent := s.nodes[s.parent].(last := |s.nodes|)]
    ensures Recorded(t.text[t.next := NUL], t.next + 1, t.nodes, ns)
  {
    RecordedFrame(s.text[s.next := NUL], t.next, t.text[t.next := NUL], t.next + 1, s.nodes, ns);
  }

  lemma CloseBracket(s: State, text: string, ns: seq<JsonNode>, end: int) returns (t: State)
    requires Done(s, text, ns, end) && s.parent >= 0 && s.level >= 1 && s.next < End(s)
    requires s.kind == Object || s.kind == Array
    requires text[s.next] == if s.kind == Object then '}' else ']'
    ensures Done(t, text, ns, end) && Leads(s, t) && t.next == s.next + 1 && |t.text| == |s.text|
    ensures t.level == s.level - 1 && t.parent == s.nodes[s.parent].last
    ensures t.nodes == s.nodes[s.parent := s.nodes[s.parent].(last := end)]
  {
    t := CloseStepped(s, text, ns, end);
  }

  // ------------------------------------------------------------------ documents

  /** A string without NUL, or a token that the parser takes for a primitive. */
  ghost predicate IsScalar(n: JsonNode) {
    && n.value != None
    && if n.kind == String then NulFree(n.value.s)
       else n.kind == Primitive && IsToken(n.value.s) && SleuthKind(n.value.s, 0, |n.value.s| - 1, false) == Primitive
  }

  /** What can be printed and read back: objects whose members are named, arrays whose elements are not, and scalars. */
  ghost predicate Printable(ns: seq<JsonNode>, nid: int)
    decreases |ns| - nid, 0
  {
    && 0 <= nid < |ns| && nid < ns[nid].last <= |ns|
    && if IsContainer(ns[nid]) then ns[nid].value == None && PrintableMembers(ns, nid + 1, ns[nid].last, ns[nid].kind == Object)
       else IsScalar(ns[nid]) && ns[nid].last == nid + 1
  }

  ghost predicate PrintableMembers(ns: seq<JsonNode>, nid: int, hi: int, keyed: bool)
    decreases |ns| - nid, 1
  {
    && 0 <= nid <= hi <= |ns|
    && (nid < hi ==>
      && Printable(ns, nid) && ns[nid].last <= hi
      && (if keyed then ns[nid].name != None && NulFree(ns[nid].name.s) else ns[nid].name == None)
      && PrintableMembers(ns, ns[nid].last, hi, keyed))
  }

  lemma {:induction false} PrintableNested(ns: seq<JsonNode>, nid: int)
    requires Printable(ns, nid)
    ensures Whole(ns, nid)
    decreases |ns| - nid, 0
  {
    if IsContainer(ns[nid]) {
      MembersNested(ns, nid + 1, ns[nid].last, ns[nid].kind == Object);
    }
  }

  lemma {:induction false} MembersNested(ns: seq<JsonNode>, nid: int, hi: int, keyed: bool)
    requires PrintableMembers(ns, nid, hi, keyed)
    ensures Nested(ns, nid, hi)
    decreases |ns| - nid, 1
  {
    if nid < hi {
      PrintableNested(ns, nid);
      MembersNested(ns, ns[nid].last, hi, keyed);
      NestedJoin(ns, nid, ns[nid].last, hi);
    }
  }

  // The text of the members is the text of the first one, a comma if there are more, and theirs.
  lemma MembersSplit(text: string, at: int, ns: seq<JsonNode>, nid: int, hi: int, keyed: bool, st: Style)
    requires PrintableMembers(ns, nid, hi, keyed) && nid < hi && Nested(ns, nid, hi) && Nested(ns, ns[nid].last, hi) && Whole(ns, nid)
    requires Has(text, at, MembersText(ns, nid, hi, keyed, st))
    ensures var first, others, mid := MemberText(ns, nid, keyed, st), MembersText(ns, ns[nid].last, hi, keyed, st), at + |MemberText(ns, nid, keyed, st)|;
      && Has(text, at, first)
      && (if ns[nid].last < hi then Has(text, mid, ",") && Has(text, mid + 1, others) && mid + 1 + |others| == at + |MembersText(ns, nid, hi, keyed, st)|
          else mid == at + |MembersText(ns, nid, hi, keyed, st)|)
  {
    OneMember(ns, nid, hi, keyed, st);
    var first, others := MemberText(ns, nid, keyed, st), MembersText(ns, ns[nid].last, hi, keyed, st);
    var sep := if ns[nid].last < hi then "," else "";
    HasBoth(text, at, first + sep, others);
    HasBoth(text, at, first, sep);
  }

  // What the parser finds at the first of several members.
  lemma FirstMember(text: string, at: int, ns: seq<JsonNode>, nid: int, hi: int, keyed: bool, st: Style)
    requires PrintableMembers(ns, nid, hi, keyed) && nid < hi && Nested(ns, nid, hi)
    requires Has(text, at, MembersText(ns, nid, hi, keyed, st)) && Delimited(text, at + |MembersText(ns, nid, hi, keyed, st)|)
    ensures Whole(ns, nid) && Nested(ns, ns[nid].last, hi) && ns[nid].last <= hi
    ensures var first := MemberText(ns, nid, keyed, st); Has(text, at, first) && Delimited(text, at + |first|)
    ensures var mid := at + |MemberText(ns, nid, keyed, st)|; var others := MembersText(ns, ns[nid].last, hi, keyed, st);
      if ns[nid].last < hi
      then text[mid] == ',' && Has(text, mid + 1, others) && mid + 1 + |others| == at + |MembersText(ns, nid, hi, keyed, st)|
      else mid == at + |MembersText(ns, nid, hi, keyed, st)|
  {
    PrintableNested(ns, nid);
    MembersSplit(text, at, ns, nid, hi, keyed, st);
    if ns[nid].last < hi {
      assert text[at + |MemberText(ns, nid, keyed, st)| + 0] == ","[0];
    }
  }

  // The text of a container is a bracket, the text of its members, and a bracket.
  lemma ContainerSplit(text: string, at: int, ns: seq<JsonNode>, nid: int, st: Style)
    requires Whole(ns, nid) && IsContainer(ns[nid]) && Has(text, at, NodeText(ns, nid, st))
    ensures var body := MembersText(ns, nid + 1, ns[nid].last, ns[nid].kind == Object, st);
      && |NodeText(ns, nid, st)| == |body| + 2 && at + |body| + 1 < |text| && Has(text, at + 1, body)
      && text[at] == (if ns[nid].kind == Object then '{' else '[')
      && text[at + 1 + |body|] == (if ns[nid].kind == Object then '}' else ']')
  {
    var keyed := ns[nid].kind == Object;
    var open, body, close := if keyed then "{" else "[", MembersText(ns, nid + 1, ns[nid].last, keyed, st), if keyed then "}" else "]";
    HasBoth(text, at, open + body, close);
    HasBoth(text, at, open, body);
    assert text[at + 0] == open[0] && text[at + 1 + |body| + 0] == close[0];
  }

  lemma OneMember(ns: seq<JsonNode>, nid: int, hi: int, keyed: bool, st: Style)
    requires PrintableMembers(ns, nid, hi, keyed) && nid < hi && Nested(ns, nid, hi) && Nested(ns, ns[nid].last, hi) && Whole(ns, nid)
    ensures var others := MembersText(ns, ns[nid].last, hi, keyed, st);
      MembersText(ns, nid, hi, keyed, st) == MemberText(ns, nid, keyed, st) + (if ns[nid].last < hi then "," else "") + others
  {
  }

  // ------------------------------------------------------------------ what is ahead

  // The text of a value is ahead, from `at` to `end`.
  ghost predicate NodeAhead(text: string, at: int, end: int, ns: seq<JsonNode>, nid: int, st: Style) {
    && Printable(ns, nid) && Whole(ns, nid)
    && end == at + |NodeText(ns, nid, st)| && Has(text, at, NodeText(ns, nid, st)) && Delimited(text, end)
  }

  // The text of a member, with its name if it has one.
  ghost predicate MemberAhead(text: string, at: int, end: int, ns: seq<JsonNode>, nid: int, keyed: bool, st: Style) {
    && Printable(ns, nid) && Whole(ns, nid)
    && (if keyed then ns[nid].name != None && NulFree(ns[nid].name.s) else ns[nid].name == None)
    && end == at + |MemberText(ns, nid, keyed, st)| && Has(text, at, MemberText(ns, nid, keyed, st)) && Delimited(text, end)
  }

  // The text of members, up to the closing bracket at `end`.
  ghost predicate MembersAhead(text: string, at: int, end: int, ns: seq<JsonNode>, nid: int, hi: int, keyed: bool, st: Style) {
    && 0 <= nid <= hi && PrintableMembers(ns, nid, hi, keyed) && Nested(ns, nid, hi)
    && end == at + |MembersText(ns, nid, hi, keyed, st)| && Has(text, at, MembersText(ns, nid, hi, keyed, st))
    && 0 <= end < |text| && text[end] == (if keyed then '}' else ']')
  }

  // What is behind member nid, up to the closing bracket: nothing, or a comma and more members.
  ghost predicate OthersAhead(text: string, at: int, end: int, ns: seq<JsonNode>, nid: int, hi: int, keyed: bool, st: Style) {
    && 0 <= nid < |ns| && nid < ns[nid].last <= hi && PrintableMembers(ns, ns[nid].last, hi, keyed)
    && 0 <= at <= end < |text| && text[end] == (if keyed then '}' else ']')
    && if ns[nid].last < hi then text[at] == ',' && MembersAhead(text, at + 1, end, ns, ns[nid].last, hi, keyed, st) else at == end
  }

  lemma FirstAhead(text: string, at: int, mid: int, end: int, ns: seq<JsonNode>, nid: int, hi: int, keyed: bool, st: Style)
    requires nid < hi && MembersAhead(text, at, end, ns, nid, hi, keyed, st) && Whole(ns, nid) && mid == at + |MemberText(ns, nid, keyed, st)|
    ensures MemberAhead(text, at, mid, ns, nid, keyed, st)
  {
    FirstMember(text, at, ns, nid, hi, keyed, st);
  }

  lemma RestAhead(text: string, at: int, mid: int, end: int, ns: seq<JsonNode>, nid: int, hi: int, keyed: bool, st: Style)
    requires nid < hi && MembersAhead(text, at, end, ns, nid, hi, keyed, st) && Whole(ns, nid) && mid == at + |MemberText(ns, nid, keyed, st)|
    ensures OthersAhead(text, mid, end, ns, nid, hi, keyed, st)
  {
    FirstMember(text, at, ns, nid, hi, keyed, st);
  }

  // The first of the members ends at `mid`.
  lemma MembersSplitAt(text: string, at: int, end: int, ns: seq<JsonNode>, nid: int, hi: int, keyed: bool, st: Style) returns (mid: int)
    requires nid < hi && MembersAhead(text, at, end, ns, nid, hi, keyed, st)
    ensures MemberAhead(text, at, mid, ns, nid, keyed, st) && OthersAhead(text, mid, end, ns, nid, hi, keyed, st)
  {
    PrintableNested(ns, nid);
    mid := at + |MemberText(ns, nid, keyed, st)|;
    FirstAhead(text, at, mid, end, ns, nid, hi, keyed, st);
    RestAhead(text, at, mid, end, ns, nid, hi, keyed, st);
  }

  lemma ContainerParts(ns: seq<JsonNode>, nid: int)
    requires Printable(ns, nid) && Whole(ns, nid) && IsContainer(ns[nid])
    ensures ns[nid].value == None && nid + 1 <= ns[nid].last
    ensures PrintableMembers(ns, nid + 1, ns[nid].last, ns[nid].kind == Object) && Nested(ns, nid + 1, ns[nid].last)
  {
  }

  // A container is a bracket, its members, and a bracket.
  lemma ContainerAhead(text: string, at: int, end: int, ns: seq<JsonNode>, nid: int, st: Style)
    requires NodeAhead(text, at, end, ns, nid, st) && IsContainer(ns[nid])
    ensures at < end < |text| && text[at] == (if ns[nid].kind == Object then '{' else '[') && ns[nid].value == None
    ensures MembersAhead(text, at + 1, end - 1, ns, nid + 1, ns[nid].last, ns[nid].kind == Object, st)
  {
    ContainerParts(ns, nid);
    ContainerSplit(text, at, ns, nid, st);
  }

  // A named member is its name, a colon, and its value.
  lemma NamedAhead(text: string, at: int, end: int, ns: seq<JsonNode>, nid: int, st: Style)
    requires MemberAhead(text, at, end, ns, nid, true, st)
    ensures var mid := at + |ValueText(ns[nid].name, true, st)|;
      && Has(text, at, ValueText(ns[nid].name, true, st)) && mid < |text| - 1 && text[mid] == ':'
      && NodeAhead(text, mid + 1, end, ns, nid, st)
  {
    NamedSplit(text, at, ns, nid, st);
  }

  lemma ElementAhead(text: string, at: int, end: int, ns: seq<JsonNode>, nid: int, st: Style)
    requires MemberAhead(text, at, end, ns, nid, false, st)
    ensures NodeAhead(text, at, end, ns, nid, st)
  {
    assert MemberText(ns, nid, false, st) == NodeText(ns, nid, st);
  }

  // ------------------------------------------------------------------ reading it

  /** The value of node nid. */
  lemma {:induction false} NodeReads(s: State, text: string, ns: seq<JsonNode>, nid: int, st: Style, end: int) returns (t: State)
    requires 0 <= nid && Awaiting(s, text, ns, nid) && NodeAhead(text, s.next, end, ns, nid, st)
    ensures Read(s, t, text, ns, ns[nid].last) && t.next == end
    decreases |ns| - nid, 1
  {
    var n := ns[nid];
    if n.kind == String {
      t := StringReads(s, text, ns, nid, n.value.s, st);
    } else if n.kind == Primitive {
      t := PrimitiveReads(s, text, ns, nid, n.value.s);
    } else {
      t := ContainerReads(s, text, ns, nid, st, end);
    }
  }

  lemma {:induction false} ContainerReads(s: State, text: string, ns: seq<JsonNode>, nid: int, st: Style, end: int) returns (t: State)
    requires 0 <= nid && Awaiting(s, text, ns, nid) && NodeAhead(text, s.next, end, ns, nid, st) && IsContainer(ns[nid])
    ensures Read(s, t, text, ns, ns[nid].last) && t.next == end
    decreases |ns| - nid, 0
  {
    ContainerAhead(text, s.next, end, ns, nid, st);
    var u := OpenReads(s, text, ns, nid);
    t := InsideRead(s, u, text, ns, nid, ns[nid].last, ns[nid].kind == Object, st, end - 1);
  }

  // Behind the opening bracket.
  lemma {:induction false} InsideRead(s: State, u: State, text: string, ns: seq<JsonNode>, nid: int, hi: int, keyed: bool, st: Style, end: int)
    returns (t: State)
    requires 0 <= nid && Awaiting(s, text, ns, nid) && IsContainer(ns[nid]) && hi == ns[nid].last && keyed == (ns[nid].kind == Object)
    requires Leads(s, u) && u.level == s.level + 1 && u.parent == nid && |u.text| == |s.text|
    requires u.nodes == s.nodes + [Raw(s.name, NULL, ns[nid].kind, s.parent)] && Between(u, text, ns, nid + 1, keyed)
    requires MembersAhead(text, u.next, end, ns, nid + 1, hi, keyed, st)
    ensures Read(s, t, text, ns, hi) && t.next == end + 1
    decreases |ns| - nid - 1, 5
  {
    var v := MembersRead(u, text, ns, nid + 1, hi, keyed, st, end);
    t := Closed(s, u, v, text, ns, nid);
  }

  // The end of a container.
  lemma Closed(s: State, u: State, v: State, text: string, ns: seq<JsonNode>, nid: int) returns (t: State)
    requires 0 <= nid && Awaiting(s, text, ns, nid) && IsContainer(ns[nid]) && nid < ns[nid].last <= |ns|
    requires Leads(s, u) && u.level == s.level + 1 && u.parent == nid && |u.text| == |s.text|
    requires u.nodes == s.nodes + [Raw(s.name, NULL, ns[nid].kind, s.parent)] && u.kind == ns[nid].kind
    requires Read(u, v, text, ns, ns[nid].last) && 0 <= v.next < |text|
    requires text[v.next] == if ns[nid].kind == Object then '}' else ']'
    ensures Read(s, t, text, ns, ns[nid].last) && t.next == v.next + 1
  {
    t := CloseBracket(v, text, ns, ns[nid].last);
    ClosedBy(s, u, v, t, text, ns, nid);
  }

  lemma ClosedBy(s: State, u: State, v: State, t: State, text: string, ns: seq<JsonNode>, nid: int)
    requires 0 <= nid && Awaiting(s, text, ns, nid) && nid < ns[nid].last <= |ns|
    requires Leads(s, u) && u.level == s.level + 1 && u.parent == nid && |u.text| == |s.text|
    requires u.nodes == s.nodes + [Raw(s.name, NULL, ns[nid].kind, s.parent)]
    requires Read(u, v, text, ns, ns[nid].last)
    requires Done(t, text, ns, ns[nid].last) && Leads(v, t) && |t.text| == |v.text|
    requires t.level == v.level - 1 && t.parent == v.nodes[nid].last && t.nodes == v.nodes[nid := v.nodes[nid].(last := ns[nid].last)]
    requires s.parent >= 0 ==> t.kind == s.kind
    ensures Read(s, t, text, ns, ns[nid].last)
  {
    LeadsOn(s, u, v);
    LeadsOn(s, v, t);
  }

  /** The members from nid on, up to the closing bracket. */
  lemma {:induction false} MembersRead(s: State, text: string, ns: seq<JsonNode>, nid: int, hi: int, keyed: bool, st: Style, end: int)
    returns (t: State)
    requires 0 <= nid && Between(s, text, ns, nid, keyed) && MembersAhead(text, s.next, end, ns, nid, hi, keyed, st)
    ensures Read(s, t, text, ns, hi) && t.next == end
    decreases |ns| - nid, 4
  {
    if nid == hi {
      t := NoneRead(s, text, ns, nid, keyed, st, end);
    } else {
      var mid := MembersSplitAt(text, s.next, end, ns, nid, hi, keyed, st);
      t := MemberReads(s, text, ns, nid, keyed, st, mid);
      if ns[nid].last < hi {
        t := MoreRead(s, t, text, ns, ns[nid].last, hi, keyed, st, end);
      }
    }
  }

  lemma NoneRead(s: State, text: string, ns: seq<JsonNode>, nid: int, keyed: bool, st: Style, end: int) returns (t: State)
    requires 0 <= nid && Between(s, text, ns, nid, keyed) && MembersAhead(text, s.next, end, ns, nid, nid, keyed, st)
    ensures Read(s, t, text, ns, nid) && t.next == end
  {
    assert MembersText(ns, nid, nid, keyed, st) == "";
    t := s;
    RecordedFrame(s.text, s.next, s.text[s.next := NUL], s.next + 1, s.nodes, ns);
  }

  // Behind a member, with a comma ahead.
  lemma {:induction false} MoreRead(s: State, u: State, text: string, ns: seq<JsonNode>, next: int, hi: int, keyed: bool, st: Style, end: int)
    returns (t: State)
    requires 0 <= next && s.parent >= 0 && s.kind == (if keyed then Object else Array) && Read(s, u, text, ns, next)
    requires 0 <= u.next < |text| && text[u.next] == ',' && MembersAhead(text, u.next + 1, end, ns, next, hi, keyed, st)
    ensures Read(s, t, text, ns, hi) && t.next == end
    decreases |ns| - next, 5
  {
    var v := CommaReads(u, text, ns, next, keyed);
    t := MembersRead(v, text, ns, next, hi, keyed, st, end);
    ReadOn(s, u, v, t, text, ns, next, hi);
  }

  // Members, a comma, more members.
  lemma ReadOn(s: State, u: State, v: State, t: State, text: string, ns: seq<JsonNode>, mid: int, end: int)
    requires Read(s, u, text, ns, mid) && Kept(u, v) && v.nodes == u.nodes && Read(v, t, text, ns, end)
    ensures Read(s, t, text, ns, end)
  {
    LeadsOn(s, u, v);
    LeadsOn(s, v, t);
  }

  lemma {:induction false} MemberReads(s: State, text: string, ns: seq<JsonNode>, nid: int, keyed: bool, st: Style, end: int) returns (t: State)
    requires 0 <= nid && Between(s, text, ns, nid, keyed) && MemberAhead(text, s.next, end, ns, nid, keyed, st)
    ensures Read(s, t, text, ns, ns[nid].last) && t.next == end
    decreases |ns| - nid, 3
  {
    if keyed {
      t := NamedReads(s, text, ns, nid, st, end);
    } else {
      ElementAhead(text, s.next, end, ns, nid, st);
      t := NodeReads(s, text, ns, nid, st, end);
    }
  }

  lemma {:induction false} NamedReads(s: State, text: string, ns: seq<JsonNode>, nid: int, st: Style, end: int) returns (t: State)
    requires 0 <= nid && Between(s, text, ns, nid, true) && MemberAhead(text, s.next, end, ns, nid, true, st)
    ensures Read(s, t, text, ns, ns[nid].last) && t.next == end
    decreases |ns| - nid, 2
  {
    NamedAhead(text, s.next, end, ns, nid, st);
    var u := NameReads(s, text, ns, nid, ns[nid].name.s, st);
    t := NodeReads(u, text, ns, nid, st, end);
    ReadNamed(s, u, t, text, ns, ns[nid].last);
  }

  // A name, its value.
  lemma ReadNamed(s: State, u: State, t: State, text: string, ns: seq<JsonNode>, end: int)
    requires Kept(s, u) && u.nodes == s.nodes && Read(u, t, text, ns, end)
    ensures Read(s, t, text, ns, end)
  {
    LeadsOn(s, u, t);
  }

  // The text of a named member is its name, a colon and its value.
  lemma NamedSplit(text: string, at: int, ns: seq<JsonNode>, nid: int, st: Style)
    requires Whole(ns, nid) && Has(text, at, MemberText(ns, nid, true, st))
    ensures var name, mid := ValueText(ns[nid].name, true, st), at + |ValueText(ns[nid].name, true, st)|;
      && Has(text, at, name) && mid < |text| && text[mid] == ':' && Has(text, mid + 1, NodeText(ns, nid, st))
      && mid + 1 + |NodeText(ns, nid, st)| == at + |MemberText(ns, nid, true, st)|
  {
    var name := ValueText(ns[nid].name, true, st);
    HasBoth(text, at, name + ":", NodeText(ns, nid, st));
    HasBoth(text, at, name, ":");
    assert text[at + |name| + 0] == ":"[0];
  }

  /** A document: one value without a name. */
  ghost predicate IsDocument(ns: seq<JsonNode>) {
    ns != [] && ns[0].name == None && ns[0].last == |ns| && Printable(ns, 0)
  }

  lemma Decoded(r: State, ns: seq<JsonNode>)
    requires 0 <= r.next < |r.text| && Recorded(r.text[r.next := NUL], r.next + 1, r.nodes, ns) && r.text[r.next] == NUL
    requires |r.nodes| == |ns| && forall i {:trigger r.nodes[i]} :: 0 <= i < |ns| ==> r.nodes[i].last == ns[i].last
    ensures Document(r) == ns
  {
    assert r.text[r.next := NUL] == r.text;
    forall i {:trigger ns[i]} | 0 <= i < |ns| ensures Document(r)[i] == ns[i] {
      assert Entry(r.text, r.next + 1, r.nodes[i], ns[i]);
      BehindDecodes(r.text, r.next + 1, r.nodes[i].name, ns[i].name);
      BehindDecodes(r.text, r.next + 1, r.nodes[i].value, ns[i].value);
    }
  }

  /** Printing then parsing is the identity on documents. */
  lemma RoundTrip(ns: seq<JsonNode>, st: Style)
    requires IsDocument(ns)
    ensures Whole(ns, 0)
    ensures var r := Run(Start(NodeText(ns, 0, st) + [NUL], false)); Accepted(r) && Document(r) == ns
  {
    PrintableNested(ns, 0);
    var text := NodeText(ns, 0, st) + [NUL];
    var t := NodeReads(Start(text, false), text, ns, 0, st, |text| - 1);
    EndReached(t);
    assert Ends(t, t);
    Decoded(t, ns);
  }

  // The loop ends at the end of the text.
  lemma EndReached(t: State)
    requires Inv(t) && t.next == End(t)
    ensures Run(t) == t
  {
  }
}
