/**
  The form of printed text (bin/json.c:2459-2692) and of the strings that the parser reads
  (bin/json.c:1515-1607), measured against the strings of JSON (section 7 of RFC 8259).
*/
module JsonText {
  import opened JsonForest
  import opened JsonParser
  import opened JsonPrinter
  import opened JsonRoundTrip

  // ------------------------------------------------------------------ strings as RFC 8259 has them

  // What stands between the quotes of a string means these character codes; or it is not a string of JSON.
  datatype Meaning = NoString | Codes(codes: seq<int>)

  function Nibble(c: char): int {
    if '0' <= c <= '9' then c as int - 48
    else if 'A' <= c <= 'F' then c as int - 55
    else if 'a' <= c <= 'f' then c as int - 87
    else -1
  }

  predicate IsHex(c: char) {
    Nibble(c) >= 0
  }

  // The code that a character behind a backslash stands for, or -1.
  function Short(c: char): int {
    match c
    case '"' => 34
    case '\\' => 92
    case '/' => 47
    case 'b' => 8
    case 'f' => 12
    case 'n' => 10
    case 'r' => 13
    case 't' => 9
    case _ => -1
  }

  predicate IsCoded(t: string) {
    |t| >= 6 && t[0] == '\\' && t[1] == 'u' && IsHex(t[2]) && IsHex(t[3]) && IsHex(t[4]) && IsHex(t[5])
  }

  predicate IsShort(t: string) {
    |t| >= 2 && t[0] == '\\' && Short(t[1]) >= 0
  }

  predicate IsPlainChar(t: string) {
    t != "" && t[0] >= ' ' && t[0] != '"' && t[0] != '\\'
  }

  function Then(code: int, m: Meaning): Meaning {
    if m.Codes? then Codes([code] + m.codes) else NoString
  }

  function RfcRead(t: string): (m: Meaning)
  {
    if t == "" then Codes([])
    else if IsPlainChar(t) then Then(t[0] as int, RfcRead(t[1..]))
    else if IsShort(t) then Then(Short(t[1]), RfcRead(t[2..]))
    else if IsCoded(t) then
      Then(4096 * Nibble(t[2]) + 256 * Nibble(t[3]) + 16 * Nibble(t[4]) + Nibble(t[5]), RfcRead(t[6..]))
    else NoString
  }

  // ------------------------------------------------------------------ what is printed means what was to be printed

  function CodesOf(v: string): seq<int> {
    if v == "" then [] else [v[0] as int] + CodesOf(v[1..])
  }

  const JSON := Style(true, true, true)

  lemma HexMeans(d: int)
    requires 0 <= d < 16
    ensures Nibble(HexOf(d)) == d
  {
  }

  // One character, in front of the others.
  lemma EscapedMeans(c: char, rest: string)
    ensures RfcRead(Escaped(c, JSON) + rest) == Then(c as int, RfcRead(rest))
  {
    var e := Escaped(c, JSON);
    var t := e + rest;
    assert t[|e|..] == rest && t[0] == e[0];
    if |e| == 2 {
      assert t[1] == e[1] && IsShort(t) && !IsPlainChar(t);
    } else if |e| == 6 {
      HexMeans(c as int / 16);
      HexMeans(c as int % 16);
      assert t[1] == e[1] && t[2] == e[2] && t[3] == e[3] && t[4] == e[4] && t[5] == e[5];
      assert IsCoded(t) && !IsPlainChar(t) && !IsShort(t);
    } else {
      assert IsPlainChar(t);
    }
  }

  lemma {:induction false} EscapeMeans(v: string, k: int)
    requires 0 <= k <= |v|
    ensures RfcRead(Escape(v, k, JSON)) == Codes(CodesOf(v[k..]))
    decreases |v| - k
  {
    if k < |v| {
      EscapeMeans(v, k + 1);
      EscapedMeans(v[k], Escape(v, k + 1, JSON));
      assert v[k..][1..] == v[k + 1..] && v[k..][0] == v[k];
    }
  }

  /** With JSON_JSON, a string is printed as the string of JSON that means its characters. */
  lemma PrintsJsonString(v: string)
    ensures var t := ValueText(Some(v), false, JSON);
      |t| >= 2 && t[0] == '"' && t[|t| - 1] == '"' && RfcRead(t[1..|t| - 1]) == Codes(CodesOf(v))
  {
    var t := ValueText(Some(v), false, JSON);
    EscapeMeans(v, 0);
    assert t[1..|t| - 1] == Escape(v, 0, JSON) && v[0..] == v;
  }

  // ------------------------------------------------------------------ what comes out as it is

  /** A character that needs no escape: printable, or a break or tab where those are not encoded. */
  predicate IsVerbatim(c: char, st: Style) {
    if c == '\n' || c == '\r' || c == '\t' then !st.encode
    else ' ' <= c && c as int != 127 && c != '\\' && c != QuoteOf(st)
  }

  lemma {:induction false} EscapeLength(v: string, k: int, st: Style)
    requires 0 <= k <= |v|
    ensures |Escape(v, k, st)| >= |v| - k
    decreases |v| - k
  {
    if k < |v| {
      EscapeLength(v, k + 1, st);
    }
  }

  /** A string is printed as it is if and only if it has no other characters. */
  lemma {:induction false} VerbatimIff(v: string, k: int, st: Style)
    requires 0 <= k <= |v|
    ensures Escape(v, k, st) == v[k..] <==> forall i :: k <= i < |v| ==> IsVerbatim(v[i], st)
    decreases |v| - k
  {
    if k < |v| {
      var e, rest := Escaped(v[k], st), Escape(v, k + 1, st);
      VerbatimIff(v, k + 1, st);
      EscapeLength(v, k + 1, st);
      assert v[k..] == [v[k]] + v[k + 1..];
      if IsVerbatim(v[k], st) {
        assert e == [v[k]] && (e + rest)[1..] == rest && v[k..][1..] == v[k + 1..];
      } else {
        assert |e| >= 2 && |e + rest| > |v[k..]|;
      }
    }
  }

  /**
    Any other character is printed behind a backslash: the quote as itself, characters with a
    short form of RFC 8259 in that form, and others as four lower-case hex digits behind a u.
  */
  lemma FormsPrinted(c: char, st: Style)
    requires !IsVerbatim(c, st)
    ensures var t := Escape([c], 0, st);
      && |t| >= 2 && t[0] == '\\'
      && (|t| == 2 ==> (c == QuoteOf(st) && t[1] == c) || Short(t[1]) == c as int)
      && (|t| > 2 ==>
            && |t| == 6 && IsCoded(t) && t[2] == '0' && t[3] == '0' && 16 * Nibble(t[4]) + Nibble(t[5]) == c as int
            && !('A' <= t[4] <= 'F') && !('A' <= t[5] <= 'F') && forall x :: Short(x) != c as int)
  {
    var t := Escape([c], 0, st);
    assert Escape([c], 1, st) == "" && t == Escaped(c, st);
    if |t| > 2 {
      HexMeans(c as int / 16);
      HexMeans(c as int % 16);
    }
  }

  /** The parts of a string are printed one by one. */
  lemma {:induction false} EscapeJoin(a: string, b: string, k: int, st: Style)
    requires 0 <= k <= |a|
    ensures Escape(a + b, k, st) == Escape(a, k, st) + Escape(b, 0, st)
    decreases |a| - k
  {
    if k < |a| {
      EscapeJoin(a, b, k + 1, st);
      assert (a + b)[k] == a[k];
      Joined(Escaped(a[k], st), Escape(a, k + 1, st), Escape(b, 0, st));
    } else {
      EscapeTail(a, b, 0, st);
    }
  }

  lemma {:induction false} EscapeTail(a: string, b: string, k: int, st: Style)
    requires 0 <= k <= |b|
    ensures Escape(a + b, |a| + k, st) == Escape(b, k, st)
    decreases |b| - k
  {
    if k < |b| {
      EscapeTail(a, b, k + 1, st);
      assert (a + b)[|a| + k] == b[k];
    }
  }

  /** A quote q that is not behind a backslash does not occur; and the last backslash has a character behind it. */
  predicate Guarded(t: string, q: char) {
    t == "" || if t[0] == '\\' then |t| >= 2 && Guarded(t[2..], q) else t[0] != q && Guarded(t[1..], q)
  }

  lemma EscapedGuarded(c: char, rest: string, st: Style)
    requires Guarded(rest, QuoteOf(st))
    ensures Guarded(Escaped(c, st) + rest, QuoteOf(st))
  {
    var e, q := Escaped(c, st), QuoteOf(st);
    var t := e + rest;
    assert t[0] == e[0];
    if |e| == 1 {
      assert t[1..] == rest;
    } else if |e| == 2 {
      assert t[2..] == rest;
    } else {
      assert t[2] == '0' && t[3] == '0' && t[4] == e[4] && t[5] == e[5] && t[6..] == rest;
      assert e[4] != q && e[5] != q && e[4] != '\\' && e[5] != '\\';
      assert t[5..][1..] == t[6..] && t[4..][1..] == t[5..] && t[3..][1..] == t[4..] && t[2..][1..] == t[3..];
      assert Guarded(t[5..], q);
      assert Guarded(t[4..], q);
      assert Guarded(t[3..], q);
      assert Guarded(t[2..], q);
    }
  }

  /** In every style, the quote occurs in a printed string only behind a backslash. */
  lemma {:induction false} EscapeGuarded(v: string, k: int, st: Style)
    requires 0 <= k <= |v|
    ensures Guarded(Escape(v, k, st), QuoteOf(st))
    decreases |v| - k
  {
    if k < |v| {
      EscapeGuarded(v, k + 1, st);
      EscapedGuarded(v[k], Escape(v, k + 1, st), st);
    }
  }

  /** A name is printed bare if and only if the style allows that, and it has letters, digits and underscores only, and at least one. */
  lemma NamePrinted(name: string, st: Style)
    ensures var t, q := ValueText(Some(name), true, st), QuoteOf(st);
      if !st.quoteKeys && name != "" && forall i :: 0 <= i < |name| ==> IsAlnum(name[i]) || name[i] == '_' then t == name
      else |t| >= 2 && t[0] == q && t[|t| - 1] == q && Guarded(t[1..|t| - 1], q)
  {
    var t, q := ValueText(Some(name), true, st), QuoteOf(st);
    if !st.quoteKeys && name != "" && forall i :: 0 <= i < |name| ==> IsAlnum(name[i]) || name[i] == '_' {
      VerbatimIff(name, 0, st);
      assert name[0..] == name && !IsQuoted(name, true, st);
    } else {
      assert IsQuoted(name, true, st);
      EscapeGuarded(name, 0, st);
      assert t[1..|t| - 1] == Escape(name, 0, st);
    }
  }

  // ------------------------------------------------------------------ the characters of a document

  /** The characters of v are printed as they are only if `ok` has them; of tokens and regular expressions it has all. */
  ghost predicate Okay(ok: char -> bool, value: Opt, token: bool, st: Style) {
    value != None ==> forall i :: 0 <= i < |value.s| ==> (token || IsVerbatim(value.s[i], st)) ==> ok(value.s[i])
  }

  ghost predicate NodesOkay(ok: char -> bool, ns: seq<JsonNode>, st: Style) {
    forall i {:trigger ns[i]} :: 0 <= i < |ns| ==>
      Okay(ok, ns[i].name, false, st) && Okay(ok, ns[i].value, ns[i].kind == Primitive || ns[i].kind == Regexp, st)
  }

  ghost predicate AllOf(ok: char -> bool, t: string) {
    forall i :: 0 <= i < |t| ==> ok(t[i])
  }

  // The characters that the printer adds of its own: punctuation, and the letters and digits of null, undefined and escapes.
  predicate IsOwn(c: char, st: Style) {
    || c == '{' || c == '}' || c == '[' || c == ']' || c == ',' || c == ':' || c == '/' || c == '\\' || c == QuoteOf(st)
    || '0' <= c <= '9' || 'a' <= c <= 'f' || c == 'i' || c == 'l' || c == 'n' || c == 'r' || c == 't' || c == 'u'
  }

  ghost predicate HasOwn(ok: char -> bool, st: Style) {
    forall c {:trigger ok(c)} :: IsOwn(c, st) ==> ok(c)
  }

  lemma AllOfJoin(ok: char -> bool, a: string, b: string)
    requires AllOf(ok, a) && AllOf(ok, b)
    ensures AllOf(ok, a + b)
  {
  }

  lemma EscapedOkay(ok: char -> bool, c: char, st: Style)
    requires HasOwn(ok, st) && (IsVerbatim(c, st) ==> ok(c))
    ensures AllOf(ok, Escaped(c, st))
  {
    if IsControl(c) {
      assert IsOwn(HexOf(c as int / 16), st) && IsOwn(HexOf(c as int % 16), st);
    }
  }

  lemma {:induction false} EscapeOkay(ok: char -> bool, v: string, k: int, st: Style)
    requires HasOwn(ok, st) && 0 <= k <= |v| && Okay(ok, Some(v), false, st)
    ensures AllOf(ok, Escape(v, k, st))
    decreases |v| - k
  {
    if k < |v| {
      EscapedOkay(ok, v[k], st);
      EscapeOkay(ok, v, k + 1, st);
      AllOfJoin(ok, Escaped(v[k], st), Escape(v, k + 1, st));
    }
  }

  lemma ValueOkay(ok: char -> bool, value: Opt, key: bool, st: Style)
    requires HasOwn(ok, st) && Okay(ok, value, false, st)
    ensures AllOf(ok, ValueText(value, key, st))
  {
    if value != None {
      EscapeOkay(ok, value.s, 0, st);
      AllOfJoin(ok, [QuoteOf(st)], Escape(value.s, 0, st));
      AllOfJoin(ok, [QuoteOf(st)] + Escape(value.s, 0, st), [QuoteOf(st)]);
    }
  }

  lemma Bracketed(ok: char -> bool, a: string, t: string, b: string)
    requires AllOf(ok, a) && AllOf(ok, t) && AllOf(ok, b)
    ensures AllOf(ok, a + t + b)
  {
  }

  /** Every character of a printed document is one of the printer's own, or one of a name or value that is printed as it is. */
  lemma {:induction false} TextOkay(ok: char -> bool, ns: seq<JsonNode>, nid: int, st: Style)
    requires HasOwn(ok, st) && NodesOkay(ok, ns, st) && Whole(ns, nid)
    ensures AllOf(ok, NodeText(ns, nid, st))
    decreases |ns| - nid, 0
  {
    var n := ns[nid];
    match n.kind {
      case Primitive =>
      case Regexp => Bracketed(ok, "/", Plain(n.value), "/");
      case String => ValueOkay(ok, n.value, false, st);
      case Array =>
        MembersOkay(ok, ns, nid + 1, n.last, false, st);
        Bracketed(ok, "[", MembersText(ns, nid + 1, n.last, false, st), "]");
      case Object =>
        MembersOkay(ok, ns, nid + 1, n.last, true, st);
        Bracketed(ok, "{", MembersText(ns, nid + 1, n.last, true, st), "}");
      case Unset =>
    }
  }

  lemma {:induction false} MemberOkay(ok: char -> bool, ns: seq<JsonNode>, nid: int, keyed: bool, st: Style)
    requires HasOwn(ok, st) && NodesOkay(ok, ns, st) && Whole(ns, nid)
    ensures AllOf(ok, MemberText(ns, nid, keyed, st))
    decreases |ns| - nid, 1
  {
    TextOkay(ok, ns, nid, st);
    if keyed {
        ValueOkay(ok, ns[nid].name, true, st);
      Bracketed(ok, ValueText(ns[nid].name, true, st), ":", NodeText(ns, nid, st));
    }
  }

  lemma {:induction false} MembersOkay(ok: char -> bool, ns: seq<JsonNode>, nid: int, hi: int, keyed: bool, st: Style)
    requires HasOwn(ok, st) && NodesOkay(ok, ns, st) && Nested(ns, nid, hi)
    ensures AllOf(ok, MembersText(ns, nid, hi, keyed, st))
    decreases |ns| - nid, 2
  {
    if nid < hi {
      if ns[nid].kind == Unset {
        MembersOkay(ok, ns, nid + 1, hi, keyed, st);
      } else {
            MemberOkay(ok, ns, nid, keyed, st);
        MembersOkay(ok, ns, After(ns, nid), hi, keyed, st);
        Bracketed(ok, MemberText(ns, nid, keyed, st), if After(ns, nid) < hi then "," else "", MembersText(ns, After(ns, nid), hi, keyed, st));
      }
    }
  }

  predicate IsVisible(c: char) {
    ' ' <= c && c as int != 127
  }

  /** Tokens and regular expressions without control characters. */
  ghost predicate TokensVisible(ns: seq<JsonNode>) {
    forall i {:trigger ns[i]} :: 0 <= i < |ns| && (ns[i].kind == Primitive || ns[i].kind == Regexp) && ns[i].value.Some? ==>
      AllOf(IsVisible, ns[i].value.s)
  }

  /** With JSON_ENCODE, there is no control character in the text, whatever is in the names and strings. */
  lemma EncodedVisible(ns: seq<JsonNode>, nid: int, st: Style)
    requires Whole(ns, nid) && TokensVisible(ns) && st.encode
    ensures forall i :: 0 <= i < |NodeText(ns, nid, st)| ==> ' ' <= NodeText(ns, nid, st)[i] && NodeText(ns, nid, st)[i] as int != 127
  {
    TextOkay(IsVisible, ns, nid, st);
  }

  predicate NotBlank(c: char) {
    c != ' '
  }

  /** The printer adds no space: there is none in the text if there is none in the document. */
  lemma NoSpaceAdded(ns: seq<JsonNode>, nid: int, st: Style)
    requires Whole(ns, nid)
    requires forall i {:trigger ns[i]} :: 0 <= i < |ns| ==> (ns[i].name.Some? ==> ' ' !in ns[i].name.s) && (ns[i].value.Some? ==> ' ' !in ns[i].value.s)
    ensures ' ' !in NodeText(ns, nid, st)
  {
    TextOkay(NotBlank, ns, nid, st);
  }

  // ------------------------------------------------------------------ what is read means what was written

  // From op on, the low bytes of the codes lie there with a terminator; parsing went on at `after`.
  ghost predicate Stored(u: Unquoted, text: string, op: int, codes: seq<int>, after: int) {
    && 0 <= op && op + |codes| < after < |text| == |u.text| && u.next == after && u.text[op + |codes|] == NUL
    && (forall i {:trigger codes[i]} :: 0 <= i < |codes| ==> u.text[op + i] as int == codes[i] % 256)
    && (forall i {:trigger u.text[i]} :: 0 <= i < op ==> u.text[i] == text[i])
  }

  lemma StoredMore(u: Unquoted, text: string, op: int, c: char, code: int, codes: seq<int>, after: int)
    requires 0 <= op < |text| && c as int == code % 256 && Stored(u, text[op := c], op + 1, codes, after)
    ensures Stored(u, text, op, [code] + codes, after)
  {
    var all := [code] + codes;
    assert u.text[op] == c;
    forall i {:trigger all[i]} | 0 <= i < |all| ensures u.text[op + i] as int == all[i] % 256 {
      if i > 0 {
        assert all[i] == codes[i - 1];
      }
    }
  }

  lemma NibbleReads(c: char)
    ensures HexDigit(c) == Nibble(c)
  {
  }

  lemma HexReadsLow(text: string, at: int, t: string)
    requires 0 <= at && Has(text, at, t) && |t| == 4 && at + 4 < |text| && IsHex(t[0]) && IsHex(t[1]) && IsHex(t[2]) && IsHex(t[3])
    ensures HexByte(text, at) == (4096 * Nibble(t[0]) + 256 * Nibble(t[1]) + 16 * Nibble(t[2]) + Nibble(t[3])) % 256
  {
    NibbleReads(t[0]);
    NibbleReads(t[1]);
    NibbleReads(t[2]);
    NibbleReads(t[3]);
    assert text[at + 0] == t[0] && text[at + 1] == t[1] && text[at + 2] == t[2] && text[at + 3] == t[3];
    LowPart(Nibble(t[0]), Nibble(t[1]), Nibble(t[2]), Nibble(t[3]));
  }

  lemma LowPart(a: int, b: int, c: int, d: int)
    ensures (4096 * a + 256 * b + 16 * c + d) % 256 == (16 * c + d) % 256
  {
  }

  // How many characters the first form has, and what it stands for.
  function FirstLength(t: string): nat
    requires RfcRead(t).Codes? && t != ""
  {
    if IsPlainChar(t) then 1 else if IsShort(t) then 2 else 6
  }

  predicate IsBytes(t: string) {
    forall i :: 0 <= i < |t| ==> (t[i] as int) < 256
  }

  lemma ShortReads(c: char)
    requires Short(c) >= 0
    ensures c != 'u' && Unescape(c).Some? && |Unescape(c).s| > 0 && Unescape(c).s[0] as int == Short(c)
  {
  }

  /** In a string in any quotes, each of the three quotes can stand behind a backslash. */
  lemma QuotesRead(text: string, op: int, next: int, q: char, quote: char)
    requires 0 <= op <= next && next + 2 < |text| && text[next] == '\\' && text[next + 1] == q && (q == '"' || q == '\'' || q == '`')
    ensures ParseChars(text, op, next, quote) == ParseChars(text[op := q], op + 1, next + 2, quote)
  {
    PairReads(text, op, next, quote);
  }

  // The first form is read: one character is stored.
  lemma FirstReads(text: string, op: int, next: int, t: string) returns (c: char)
    requires 0 <= op <= next && RfcRead(t).Codes? && t != "" && IsBytes(t) && Has(text, next, t) && next + |t| < |text| - 1
    ensures var n := FirstLength(t);
      && n <= |t|
      && RfcRead(t[n..]).Codes? && RfcRead(t).codes == [RfcRead(t).codes[0]] + RfcRead(t[n..]).codes
      && c as int == RfcRead(t).codes[0] % 256
      && ParseChars(text, op, next, '"') == ParseChars(text[op := c], op + 1, next + n, '"')
  {
    assert text[next + 0] == t[0];
    if IsPlainChar(t) {
      c := t[0];
      RawReads(text, op, next, '"');
    } else if IsShort(t) {
      assert text[next + 1] == t[1];
      ShortReads(t[1]);
      c := Unescape(t[1]).s[0];
      PairReads(text, op, next, '"');
    } else {
      c := CodedReads(text, op, next, t);
    }
  }

  lemma CodedReads(text: string, op: int, next: int, t: string) returns (c: char)
    requires 0 <= op <= next && IsCoded(t) && Has(text, next, t) && next + |t| < |text| - 1
    ensures c as int == (4096 * Nibble(t[2]) + 256 * Nibble(t[3]) + 16 * Nibble(t[4]) + Nibble(t[5])) % 256
    ensures ParseChars(text, op, next, '"') == ParseChars(text[op := c], op + 1, next + 6, '"')
  {
    var hex := t[2..6];
    assert text[next + 0] == t[0] && text[next + 1] == t[1];
    forall i {:trigger hex[i]} | 0 <= i < 4 ensures text[next + 2 + i] == hex[i] {
      assert text[next + (2 + i)] == t[2 + i];
    }
    HexReadsLow(text, next + 2, hex);
    c := HexByte(text, next + 2) as char;
    CodeReads(text, op, next, '"');
  }

  lemma {:induction false} CodesRead(text: string, op: int, next: int, t: string)
    requires 0 <= op <= next && RfcRead(t).Codes? && IsBytes(t) && Has(text, next, t) && next + |t| < |text| - 1 && text[next + |t|] == '"'
    ensures Stored(ParseChars(text, op, next, '"'), text, op, RfcRead(t).codes, next + |t| + 1)
    decreases |t|, 0
  {
    if t != "" {
      var c := FirstReads(text, op, next, t);
      CodesBehind(text[op := c], op, next, t, FirstLength(t));
      StoredMore(ParseChars(text, op, next, '"'), text, op, c, RfcRead(t).codes[0], RfcRead(t[FirstLength(t)..]).codes, next + |t| + 1);
    }
  }

  // The forms behind the first.
  lemma {:induction false} CodesBehind(over: string, op: int, next: int, t: string, n: nat)
    requires 0 <= op <= next && 1 <= n <= |t| && IsBytes(t) && RfcRead(t[n..]).Codes? && next + |t| < |over| - 1 && over[next + |t|] == '"'
    requires forall i {:trigger t[i]} :: n <= i < |t| ==> over[next + i] == t[i]
    ensures Stored(ParseChars(over, op + 1, next + n, '"'), over, op + 1, RfcRead(t[n..]).codes, next + |t| + 1)
    decreases |t| - n, 1
  {
    var rest := t[n..];
    forall i {:trigger rest[i]} | 0 <= i < |rest| ensures over[next + n + i] == rest[i] {
      assert over[next + (n + i)] == t[n + i];
    }
    CodesRead(over, op + 1, next + n, rest);
  }

  /** Every string of JSON is read as what it means, but that a code keeps its low byte only; parsing goes on behind it. */
  lemma ReadsJsonString(s: State, t: string)
    requires 0 <= s.next && s.next + |t| + 2 < |s.text| && s.text[s.next] == '"' && s.text[s.next + |t| + 1] == '"'
    requires Has(s.text, s.next + 1, t) && IsBytes(t) && RfcRead(t).Codes?
    ensures var (u, p) := ParseString(s); var codes := RfcRead(t).codes;
      && p == s.next + 1 && u.error == s.error && u.next == s.next + |t| + 2 && |u.text| == |s.text|
      && p + |codes| < u.next && u.text[p + |codes|] == NUL && forall i :: 0 <= i < |codes| ==> u.text[p + i] as int == codes[i] % 256
  {
    CodesRead(s.text, s.next + 1, s.next + 1, t);
  }
}
