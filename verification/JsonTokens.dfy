/**
  What unquoted values are (bin/json.c:1892-1915, 3094-3127): which of them the parser takes
  for primitives, which for strings, and which it refuses.
*/
module JsonTokens {
  import opened JsonForest
  import opened JsonParser
  import opened JsonPrinter
  import opened JsonRoundTrip
  import opened JsonStrict

  // ------------------------------------------------------------------ primitives

  /** All of a word but for its last character. */
  function Front(w: string): string
    requires w != ""
  {
    w[..|w| - 1]
  }

  predicate InNumeral(c: char) {
    '0' <= c <= '9' || c == '.' || c == '+' || c == '-' || c == 'e' || c == 'E'
  }

  /** Begins like a number, and has the characters of one in `seen`, with one dot at most. */
  predicate Numeric(w: string, seen: string) {
    && w != "" && (w[0] == '-' || w[0] == '+' || '0' <= w[0] <= '9')
    && (forall i :: 0 <= i < |seen| ==> InNumeral(seen[i])) && multiset(seen)['.'] <= 1
  }

  predicate Like(w: string, seen: string, word: string) {
    w != "" && word != "" && w[0] == word[0] && seen <= word
  }

  /** Of a word, `seen` is looked at: it is a prefix of true, false, null or undefined, or it looks like a number. */
  predicate IsPrimitive(w: string, seen: string, strict: bool) {
    Like(w, seen, "true") || Like(w, seen, "false") || Like(w, seen, "null") || (!strict && Like(w, seen, "undefined")) || Numeric(w, seen)
  }

  lemma {:induction false} DotsCounted(text: string, p: int, v: string, k: nat, n: nat)
    requires Has(text, p, v) && k <= n <= |v|
    ensures Dots(text, p + k, n - k) == multiset(v[k..n])['.']
    decreases n - k
  {
    if k < n {
      assert text[p + k] == v[k];
      DotsCounted(text, p, v, k + 1, n);
      assert v[k..n] == [v[k]] + v[k + 1..n];
    } else {
      assert v[k..n] == [];
    }
  }

  lemma NumericIs(text: string, p: int, w: string, n: nat)
    requires Has(text, p, w) && w != "" && n <= |w| && NUL !in w
    ensures IsNumber(text, p, n) <==> Numeric(w, w[..n])
  {
    assert text[p + 0] == w[0] && w[0] in w;
    DotsCounted(text, p, w, 0, n);
    assert w[0..n] == w[..n];
    if IsNumber(text, p, n) {
      forall i | 0 <= i < n ensures InNumeral(w[..n][i]) {
        assert text[p + i] == w[i] && w[i] in w;
      }
    }
    if Numeric(w, w[..n]) {
      forall i | p <= i < p + n ensures InNumber(text[i]) {
        assert text[p + (i - p)] == w[i - p] == w[..n][i - p];
      }
    }
  }

  lemma LikeIs(text: string, p: int, w: string, n: nat, word: string)
    requires Has(text, p, w) && w != "" && n <= |w| && word != ""
    ensures (text[p] == word[0] && SameStart(text, p, word, n)) <==> Like(w, w[..n], word)
  {
    assert text[p + 0] == w[0];
    if text[p] == word[0] && SameStart(text, p, word, n) {
      assert forall i :: 0 <= i < n ==> text[p + i] == w[i] && text[p + i] == word[i];
      assert w[..n] == word[..n];
    }
    if Like(w, w[..n], word) {
      assert w[..n] == word[..n];
      forall i {:trigger word[i]} | 0 <= i < n ensures text[p + i] == word[i] {
        assert text[p + i] == w[i] == w[..n][i];
      }
    }
  }

  lemma KindIs(text: string, p: int, w: string, n: nat, strict: bool)
    requires Has(text, p, w) && w != "" && n <= |w| && NUL !in w
    ensures SleuthKind(text, p, n, strict) == if IsPrimitive(w, w[..n], strict) then Primitive else String
  {
    NumericIs(text, p, w, n);
    LikeIs(text, p, w, n, "true");
    LikeIs(text, p, w, n, "false");
    LikeIs(text, p, w, n, "null");
    LikeIs(text, p, w, n, "undefined");
    assert "true"[0] == 't' && "false"[0] == 'f' && "null"[0] == 'n' && "undefined"[0] == 'u';
  }

  // ------------------------------------------------------------------ one iteration

  /** A value comes next, not the name of a member. */
  ghost predicate ValueNext(s: State) {
    && Inv(s) && !s.error && s.next < End(s) && !s.flags.comma
    && (s.name != NULL || (s.parent < 0 && s.nodes == [] && s.kind != Object) || (s.parent >= 0 && s.kind == Array))
  }

  /** A word comes next, up to `at`. */
  ghost predicate WordNext(s: State, w: string, at: int) {
    0 <= s.next && IsToken(w) && at == s.next + |w| < |s.text| && Has(s.text, s.next, w) && !InPrimitive(s.text[at])
  }

  predicate BlankAt(text: string, at: int) {
    0 <= at < |text| - 1 && IsBlank(text[at])
  }

  /** What the parser looks at to classify a word: all of it if a blank follows, all but the last character otherwise. */
  function Seen(w: string, blank: bool): string
    requires w != ""
  {
    if blank then w else Front(w)
  }

  // The state behind a word, of which a node was made.
  function Noted(s: State, at: int, kind: Kind): State
    requires 0 <= at < |s.text|
  {
    s.(text := if BlankAt(s.text, at) then s.text[at := NUL] else s.text, next := if BlankAt(s.text, at) then at + 1 else at,
       nodes := s.nodes + [Raw(s.name, s.next, kind, |s.nodes| + 1)], name := NULL, flags := Flags(s.flags.strict, false, true, false))
  }

  lemma WordRead(s: State, w: string, at: int)
    requires ValueNext(s) && WordNext(s, w, at)
    ensures ParsePrimitive(s) == if BlankAt(s.text, at) then (s.(text := s.text[at := NUL], next := at + 1), s.next) else (s.(next := at), s.next)
    ensures NUL !in w
  {
    TokenEnds(s.text, s.next, w, 0);
    assert s.text[s.next + 0] == w[0];
    assert forall i {:trigger w[i]} :: 0 <= i < |w| ==> InPrimitive(w[i]);
  }

  lemma WordSleuthed(s: State, w: string, at: int)
    requires ValueNext(s) && WordNext(s, w, at)
    ensures var u := ParsePrimitive(s).0;
      SleuthKind(u.text, s.next, u.next - s.next - 1, s.flags.strict)
        == if IsPrimitive(w, Seen(w, BlankAt(s.text, at)), s.flags.strict) then Primitive else String
  {
    WordRead(s, w, at);
    var u := ParsePrimitive(s).0;
    assert Has(u.text, s.next, w);
    KindIs(u.text, s.next, w, if BlankAt(s.text, at) then |w| else |w| - 1, s.flags.strict);
    assert w[..|w|] == w;
  }

  // A node is made of a bare value, unless strict mode refuses it.
  lemma ValueMade(u: State, value: Ptr, kind: Kind)
    requires 0 <= value < |u.text| && u.text[value] != NUL && !u.error && -1 <= u.parent < |u.nodes|
    requires SleuthKind(u.text, value, u.next - value - 1, u.flags.strict) == kind
    requires u.name != NULL || (u.parent < 0 && u.nodes == []) || (u.parent >= 0 && u.nodes[u.parent].kind == Array)
    requires u.name != NULL ==> u.parent >= 0 && u.nodes[u.parent].kind == Object
    ensures if u.flags.strict && kind != Primitive then ParseValue(u, Unset, value).error
      else ParseValue(u, Unset, value) == u.(nodes := u.nodes + [Raw(u.name, value, kind, |u.nodes| + 1)], name := NULL)
  {
  }

  lemma ValueKept(s: State, w: string, at: int)
    requires ValueNext(s) && WordNext(s, w, at)
    ensures var (u, value) := ParsePrimitive(s);
      && value == s.next && u.text[s.next] != NUL && !u.error && Noted(s, at, Unset).text == u.text && Noted(s, at, Unset).next == u.next
      && SleuthKind(u.text, s.next, u.next - s.next - 1, s.flags.strict)
           == if IsPrimitive(w, Seen(w, BlankAt(s.text, at)), s.flags.strict) then Primitive else String
  {
    WordRead(s, w, at);
    WordSleuthed(s, w, at);
    assert s.text[s.next + 0] == w[0] && w[0] in w;
  }

  lemma BareMade(s: State, w: string, at: int, kind: Kind)
    requires ValueNext(s) && WordNext(s, w, at) && -1 <= s.parent < |s.nodes|
    requires kind == if IsPrimitive(w, Seen(w, BlankAt(s.text, at)), s.flags.strict) then Primitive else String
    ensures if s.flags.strict && kind != Primitive then Bare(s).error else Bare(s) == Noted(s, at, kind)
  {
    var u := ParsePrimitive(s).0;
    ValueKept(s, w, at);
    ValueMade(u, s.next, kind);
    var t := ParseValue(u, Unset, s.next);
    if !(s.flags.strict && kind != Primitive) {
      MadeNoted(s, u, t, at, kind);
    }
  }

  lemma MadeNoted(s: State, u: State, t: State, at: int, kind: Kind)
    requires 0 <= at < |s.text| && Noted(s, at, Unset).text == u.text && Noted(s, at, Unset).next == u.next
    requires u == s.(text := u.text, next := u.next) && t == u.(nodes := u.nodes + [Raw(s.name, s.next, kind, |s.nodes| + 1)], name := NULL)
    ensures t.(flags := Flags(s.flags.strict, false, true, false)) == Noted(s, at, kind)
  {
  }

  // A word is not anything else.
  lemma BareStepped(s: State, w: string, at: int, t: State)
    requires ValueNext(s) && WordNext(s, w, at) && Stepped(s, t)
    ensures t == Bare(s)
  {
    assert s.text[s.next + 0] == w[0] && InPrimitive(w[0]);
  }

  /** Wherever a value is expected, a word is a node of its kind; strict mode refuses words that are no primitives. */
  lemma WordStepped(s: State, w: string, at: int, t: State)
    requires ValueNext(s) && WordNext(s, w, at) && Stepped(s, t)
    ensures var primitive := IsPrimitive(w, Seen(w, BlankAt(s.text, at)), s.flags.strict);
      if s.flags.strict && !primitive then t.error else t == Noted(s, at, if primitive then Primitive else String)
  {
    BareStepped(s, w, at, t);
    BareMade(s, w, at, if IsPrimitive(w, Seen(w, BlankAt(s.text, at)), s.flags.strict) then Primitive else String);
  }

  // ------------------------------------------------------------------ arrays of one value

  predicate AllBlank(gap: string) {
    forall i :: 0 <= i < |gap| ==> IsBlank(gap[i])
  }

  // One iteration, from the state s to the state t.
  lemma Goes(s: State, t: State)
    requires Inv(s) && !s.error && Stepped(s, t)
    ensures if t.error then Fails(s) else Leads(s, t)
  {
    Follow(s);
    if t.error {
      StepFails(s);
    }
  }

  lemma BlankStepped(s: State, t: State)
    requires Inv(s) && s.next < End(s) && IsBlank(s.text[s.next]) && Stepped(s, t)
    ensures t == s.(next := s.next + 1)
  {
  }

  lemma BlankPassed(s: State)
    requires Inv(s) && !s.error && s.next < End(s) && IsBlank(s.text[s.next])
    ensures Leads(s, s.(next := s.next + 1))
  {
    Follow(s);
    BlankStepped(s, Step(s));
  }

  lemma {:induction false} BlanksPassed(s: State, k: nat, to: int)
    requires Inv(s) && !s.error && to == s.next + k && to < |s.text|
    requires forall i {:trigger s.text[i]} :: s.next <= i < to ==> IsBlank(s.text[i])
    ensures Leads(s, s.(next := to))
    decreases k
  {
    if k > 0 {
      var t := s.(next := s.next + 1);
      BlankPassed(s);
      BlanksPassed(t, k - 1, to);
      LeadsOn(s, t, s.(next := to));
    } else {
      assert s == s.(next := to);
    }
  }

  /** An array of one value, with the terminator. */
  function Listed(v: string, gap: string): string {
    "[" + v + gap + "]" + [NUL]
  }

  // The state behind the bracket.
  function Opened(text: string, strict: bool): State
    requires text != ""
  {
    State(text[0 := NUL], 1, false, [Raw(NULL, NULL, Array, -1)], NULL, 0, 1, Array, Flags(strict, false, false, true))
  }

  lemma OpenRun(text: string, strict: bool)
    requires |text| > 1 && text[|text| - 1] == NUL && text[0] == '['
    ensures Leads(Start(text, strict), Opened(text, strict))
  {
    Follow(Start(text, strict));
    assert Step(Start(text, strict)) == Opened(text, strict);
  }

  // The state behind the value, in front of the closing bracket.
  ghost predicate Closing(s: State, strict: bool, kind: Kind) {
    && Inv(s) && !s.error && s.next == End(s) - 1 && s.text[s.next] == ']' && s.flags == Flags(strict, false, true, false)
    && s.nodes == [Raw(NULL, NULL, Array, -1), Raw(NULL, 1, kind, 2)] && s.name == NULL && s.parent == 0 && s.level == 1 && s.kind == Array
  }

  lemma CloseRun(s: State, strict: bool, kind: Kind) returns (t: State)
    requires Closing(s, strict, kind)
    ensures Ends(s, t) && Accepted(t) && t.nodes == [Raw(NULL, NULL, Array, 2), Raw(NULL, 1, kind, 2)] && t.text == s.text[s.next := NUL]
  {
    Follow(s);
    t := Step(s);
    EndReached(t);
    assert Ends(t, t);
  }

  lemma ListedHas(v: string, gap: string)
    ensures var text := Listed(v, gap); var n := |v| + |gap|;
      && |text| == n + 3 && text[0] == '[' && text[n + 1] == ']' && text[n + 2] == NUL && Has(text, 1, v) && Has(text, 1 + |v|, gap)
  {
    var text := Listed(v, gap);
    assert forall i {:trigger v[i]} :: 0 <= i < |v| ==> text[1 + i] == v[i];
    assert forall i {:trigger gap[i]} :: 0 <= i < |gap| ==> text[1 + |v| + i] == gap[i];
  }

  // What is read behind the opening bracket.
  lemma ListedNext(w: string, gap: string, strict: bool)
    requires IsToken(w) && AllBlank(gap)
    ensures var s, at := Opened(Listed(w, gap), strict), 1 + |w|;
      && Inv(s) && ValueNext(s) && WordNext(s, w, at) && (BlankAt(s.text, at) <==> gap != "")
      && (forall i {:trigger s.text[i]} :: at <= i < at + |gap| ==> IsBlank(s.text[i]))
  {
    var text, s, at := Listed(w, gap), Opened(Listed(w, gap), strict), 1 + |w|;
    ListedHas(w, gap);
    OpenRun(text, strict);
    HasSame(s.text, text, 1, 1, w);
    GapBlank(text, s.text, at, gap);
    assert gap == "" ==> s.text[at] == ']';
  }

  lemma GapBlank(text: string, over: string, at: int, gap: string)
    requires AllBlank(gap) && 1 <= at && Has(text, at, gap) && SameFrom(over, text, 1)
    ensures forall i {:trigger over[i]} :: at <= i < at + |gap| ==> IsBlank(over[i])
  {
    forall i {:trigger over[i]} | at <= i < at + |gap| ensures IsBlank(over[i]) {
      assert text[at + (i - at)] == gap[i - at];
    }
  }

  // The state in front of the closing bracket.
  function BehindValue(s: State, w: string, gap: string, kind: Kind): State
    requires 1 + |w| < |s.text|
  {
    Noted(s, 1 + |w|, kind).(next := 1 + |w| + |gap|)
  }

  lemma WordGoes(s: State, w: string, at: int, primitive: bool)
    requires ValueNext(s) && WordNext(s, w, at) && primitive == IsPrimitive(w, Seen(w, BlankAt(s.text, at)), s.flags.strict)
    ensures if s.flags.strict && !primitive then Fails(s) else Leads(s, Noted(s, at, if primitive then Primitive else String))
  {
    Follow(s);
    WordStepped(s, w, at, Step(s));
    Goes(s, Step(s));
  }

  lemma GapGoes(s: State, w: string, gap: string, kind: Kind)
    requires w != "" && 1 + |w| < |s.text| && Inv(Noted(s, 1 + |w|, kind)) && !s.error && 1 + |w| + |gap| < |s.text|
    requires BlankAt(s.text, 1 + |w|) <==> gap != ""
    requires forall i {:trigger s.text[i]} :: 1 + |w| <= i < 1 + |w| + |gap| ==> IsBlank(s.text[i])
    ensures Leads(Noted(s, 1 + |w|, kind), BehindValue(s, w, gap, kind))
  {
    var u := Noted(s, 1 + |w|, kind);
    BlanksPassed(u, 1 + |w| + |gap| - u.next, 1 + |w| + |gap|);
  }

  // From the value to the closing bracket.
  lemma ListedRuns(w: string, gap: string, strict: bool)
    requires IsToken(w) && AllBlank(gap)
    ensures var s := Opened(Listed(w, gap), strict); var p := IsPrimitive(w, Seen(w, gap != ""), strict);
      1 + |w| < |s.text| && if strict && !p then Fails(s) else Leads(s, BehindValue(s, w, gap, if p then Primitive else String))
  {
    var s, p := Opened(Listed(w, gap), strict), IsPrimitive(w, Seen(w, gap != ""), strict);
    ListedHas(w, gap);
    ListedNext(w, gap, strict);
    WordGoes(s, w, 1 + |w|, p);
    if !(strict && !p) {
      var kind := if p then Primitive else String;
      GapGoes(s, w, gap, kind);
      LeadsOn(s, Noted(s, 1 + |w|, kind), BehindValue(s, w, gap, kind));
    }
  }

  lemma ListedDecodes(text: string, w: string, kind: Kind)
    requires IsToken(w) && Has(text, 1, w) && 1 + |w| < |text| && text[1 + |w|] == NUL
    ensures Decode(text, Raw(NULL, 1, kind, 2)) == JsonNode(None, Some(w), kind, 2)
  {
    forall i {:trigger w[i]} | 0 <= i < |w| ensures text[1 + i] == w[i] && w[i] != NUL {
      assert InPrimitive(w[i]);
    }
    BehindDecodes(text, |w| + 2, 1, Some(w));
  }

  lemma ListedCloses(w: string, gap: string, strict: bool, kind: Kind)
    requires IsToken(w) && AllBlank(gap)
    requires var s := Opened(Listed(w, gap), strict); 1 + |w| < |s.text| && Inv(BehindValue(s, w, gap, kind))
    ensures var t := BehindValue(Opened(Listed(w, gap), strict), w, gap, kind);
      Closing(t, strict, kind) && Has(t.text[t.next := NUL], 1, w) && t.text[t.next := NUL][1 + |w|] == NUL
  {
    var s := Opened(Listed(w, gap), strict);
    ListedHas(w, gap);
    ListedNext(w, gap, strict);
  }

  lemma ListedEnds(w: string, gap: string, strict: bool, kind: Kind) returns (u: State)
    requires IsToken(w) && AllBlank(gap)
    requires var s := Opened(Listed(w, gap), strict); 1 + |w| < |s.text| && Inv(BehindValue(s, w, gap, kind))
    ensures Ends(BehindValue(Opened(Listed(w, gap), strict), w, gap, kind), u) && Accepted(u)
    ensures Document(u) == [JsonNode(None, None, Array, 2), JsonNode(None, Some(w), kind, 2)]
  {
    ListedCloses(w, gap, strict, kind);
    u := CloseRun(BehindValue(Opened(Listed(w, gap), strict), w, gap, kind), strict, kind);
    ListedDecodes(u.text, w, kind);
    assert Document(u)[0] == JsonNode(None, None, Array, 2);
  }

  /**
    `[w]` with a word w is an array of one node: a primitive, or, in lenient mode only, a string.
    A word counts as a primitive by what is seen of it.
  */
  lemma ListedWord(w: string, gap: string, strict: bool)
    requires IsToken(w) && AllBlank(gap)
    ensures var s := Run(Start(Listed(w, gap), strict)); var p := IsPrimitive(w, Seen(w, gap != ""), strict);
      && (Accepted(s) <==> (strict ==> p))
      && (Accepted(s) ==> Document(s) == [JsonNode(None, None, Array, 2), JsonNode(None, Some(w), if p then Primitive else String, 2)])
  {
    var first, s := Start(Listed(w, gap), strict), Opened(Listed(w, gap), strict);
    var p := IsPrimitive(w, Seen(w, gap != ""), strict);
    ListedHas(w, gap);
    OpenRun(Listed(w, gap), strict);
    ListedRuns(w, gap, strict);
    if strict && !p {
      FailsBack(first, s);
    } else {
      var kind := if p then Primitive else String;
      var u := ListedEnds(w, gap, strict, kind);
      LeadsOn(first, s, BehindValue(s, w, gap, kind));
      assert Ends(first, u);
    }
  }

  // ------------------------------------------------------------------ the values of JSON

  lemma LikeItself(w: string, blank: bool)
    requires w != ""
    ensures Like(w, Seen(w, blank), w)
  {
    assert w[..|w|] == w;
  }

  lemma UndefinedStrictly(w: string, seen: string)
    requires w != "" && w[0] == 'u'
    ensures !IsPrimitive(w, seen, true)
  {
    assert "true"[0] == 't' && "false"[0] == 'f' && "null"[0] == 'n';
  }

  lemma LiteralPrimitive(w: string, blank: bool, strict: bool)
    requires w == "true" || w == "false" || w == "null" || w == "undefined"
    ensures IsPrimitive(w, Seen(w, blank), strict) <==> !(strict && w == "undefined")
  {
    LikeItself(w, blank);
    if w == "undefined" {
      assert w[0] == 'u';
      UndefinedStrictly(w, Seen(w, blank));
    }
  }

  lemma LiteralWord(w: string)
    requires w == "true" || w == "false" || w == "null" || w == "undefined"
    ensures IsToken(w)
  {
  }

  /** true, false and null are primitives in both modes; undefined is one in lenient mode and refused in strict mode. */
  lemma ListedLiteral(w: string, gap: string, strict: bool)
    requires (w == "true" || w == "false" || w == "null" || w == "undefined") && AllBlank(gap)
    ensures var s := Run(Start(Listed(w, gap), strict));
      && (Accepted(s) <==> !(strict && w == "undefined"))
      && (Accepted(s) ==> Document(s) == [JsonNode(None, None, Array, 2), JsonNode(None, Some(w), Primitive, 2)])
  {
    LiteralPrimitive(w, gap != "", strict);
    LiteralWord(w);
    ListedWord(w, gap, strict);
  }

  // The first letter of one of those, or the first character of a number.
  predicate BeginsValue(c: char) {
    c == 't' || c == 'f' || c == 'n' || c == 'u' || c == '-' || '0' <= c <= '9'
  }

  /** Words that begin neither like one of those nor like a number are strings in lenient mode, and refused in strict mode. */
  lemma ListedString(w: string, gap: string, strict: bool)
    requires IsToken(w) && AllBlank(gap) && !BeginsValue(w[0])
    ensures var s := Run(Start(Listed(w, gap), strict));
      && (Accepted(s) <==> !strict)
      && (Accepted(s) ==> Document(s) == [JsonNode(None, None, Array, 2), JsonNode(None, Some(w), String, 2)])
  {
    assert InPrimitive(w[0]);
    NoPrimitive(w, Seen(w, gap != ""), strict);
    ListedWord(w, gap, strict);
  }

  lemma NoPrimitive(w: string, seen: string, strict: bool)
    requires w != "" && !BeginsValue(w[0]) && w[0] != '+'
    ensures !IsPrimitive(w, seen, strict)
  {
    assert "undefined"[0] == 'u' && "true"[0] == 't' && "false"[0] == 'f' && "null"[0] == 'n';
  }

  predicate AllDigits(s: string) {
    forall i :: 0 <= i < |s| ==> '0' <= s[i] <= '9'
  }

  /** The parts of a number of JSON (section 6 of RFC 8259). */
  predicate IsNumeral(sign: string, whole: string, fraction: string, exponent: string) {
    && (sign == "" || sign == "-")
    && whole != "" && AllDigits(whole) && (|whole| > 1 ==> whole[0] != '0')
    && (fraction == "" || (|fraction| > 1 && fraction[0] == '.' && AllDigits(fraction[1..])))
    && (exponent == "" || IsExponent(exponent))
  }

  predicate IsExponent(e: string) {
    && |e| > 1 && (e[0] == 'e' || e[0] == 'E')
    && (AllDigits(e[1..]) || (|e| > 2 && (e[1] == '+' || e[1] == '-') && AllDigits(e[2..])))
  }

  // One part of a number: characters of numbers, with `dots` dots.
  predicate IsPiece(s: string, dots: nat) {
    (forall i :: 0 <= i < |s| ==> InNumeral(s[i])) && multiset(s)['.'] == dots
  }

  lemma PiecesJoin(a: string, m: nat, b: string, n: nat)
    requires IsPiece(a, m) && IsPiece(b, n)
    ensures IsPiece(a + b, m + n)
  {
    forall i | 0 <= i < |a + b| ensures InNumeral((a + b)[i]) {
      assert (a + b)[i] == if i < |a| then a[i] else b[i - |a|];
    }
  }

  lemma DigitsPiece(s: string)
    requires AllDigits(s)
    ensures IsPiece(s, 0)
  {
    assert '.' !in s;
  }

  lemma FractionPiece(f: string)
    requires |f| > 1 && f[0] == '.' && AllDigits(f[1..])
    ensures IsPiece(f, 1)
  {
    DigitsPiece(f[1..]);
    PiecesJoin(".", 1, f[1..], 0);
    assert f == "." + f[1..];
  }

  lemma ExponentPiece(e: string)
    requires IsExponent(e)
    ensures IsPiece(e, 0)
  {
    if AllDigits(e[1..]) {
      DigitsPiece(e[1..]);
      PiecesJoin([e[0]], 0, e[1..], 0);
      assert e == [e[0]] + e[1..];
    } else {
      DigitsPiece(e[2..]);
      PiecesJoin([e[0], e[1]], 0, e[2..], 0);
      assert e == [e[0], e[1]] + e[2..];
    }
  }

  // The token that a number begins with: the exponent is complete, or cut off behind its letter.
  lemma NumeralPiece(sign: string, whole: string, fraction: string, tail: string) returns (dots: nat)
    requires IsNumeral(sign, whole, fraction, "") && IsPiece(tail, 0)
    ensures dots <= 1 && IsPiece(sign + whole + fraction + tail, dots)
  {
    dots := if fraction == "" then 0 else 1;
    DigitsPiece(whole);
    if fraction == "" {
      DigitsPiece(fraction);
    } else {
      FractionPiece(fraction);
    }
    PiecesJoin(sign, 0, whole, 0);
    PiecesJoin(sign + whole, 0, fraction, dots);
    PiecesJoin(sign + whole + fraction, dots, tail, 0);
  }

  lemma NumeralWord(sign: string, whole: string, fraction: string, tail: string)
    requires IsNumeral(sign, whole, fraction, "") && IsPiece(tail, 0) && '+' !in tail
    ensures IsToken(sign + whole + fraction + tail)
  {
    var v, at := sign + whole + fraction + tail, |sign| + |whole|;
    var dots := NumeralPiece(sign, whole, fraction, tail);
    assert v[at - 1] == whole[|whole| - 1];
    forall i {:trigger v[i]} | 0 <= i < |v| ensures InPrimitive(v[i]) && (v[i] == '.' ==> i > 0 && IsAlnum(v[i - 1])) {
      assert InNumeral(v[i]);
      if i < |sign| {
      } else if i < at {
        assert v[i] == whole[i - |sign|];
      } else if i < at + |fraction| {
        assert v[i] == fraction[i - at];
        assert i > at ==> v[i] == fraction[1..][i - at - 1];
      } else {
        assert v[i] == tail[i - at - |fraction|] && v[i] in tail;
        assert v[i] in multiset(tail);
      }
    }
  }

  lemma FrontPiece(v: string, dots: nat)
    requires v != "" && IsPiece(v, dots)
    ensures (forall i :: 0 <= i < |Front(v)| ==> InNumeral(Front(v)[i])) && multiset(Front(v))['.'] <= dots
  {
    assert v == Front(v) + [v[|v| - 1]];
  }

  lemma NumeralPrimitive(sign: string, whole: string, fraction: string, exponent: string, blank: bool, strict: bool)
    requires IsNumeral(sign, whole, fraction, exponent)
    ensures var v := sign + whole + fraction + exponent; v != "" && IsPrimitive(v, Seen(v, blank), strict)
  {
    var v := sign + whole + fraction + exponent;
    if exponent != "" {
      ExponentPiece(exponent);
    }
    var dots := NumeralPiece(sign, whole, fraction, exponent);
    FrontPiece(v, dots);
    assert v[0] == if sign == "" then whole[0] else sign[0];
    assert Numeric(v, Seen(v, blank));
  }

  /**
    A number of JSON is a primitive in both modes, unless its exponent has a plus sign: the
    word ends in front of that, and the parser refuses the text.
  */
  lemma ListedNumber(sign: string, whole: string, fraction: string, exponent: string, gap: string, strict: bool)
    requires IsNumeral(sign, whole, fraction, exponent) && AllBlank(gap)
    ensures var v := sign + whole + fraction + exponent; var s := Run(Start(Listed(v, gap), strict));
      && (Accepted(s) <==> '+' !in v)
      && (Accepted(s) ==> Document(s) == [JsonNode(None, None, Array, 2), JsonNode(None, Some(v), Primitive, 2)])
  {
    var v := sign + whole + fraction + exponent;
    if exponent != "" {
      ExponentPiece(exponent);
    }
    if exponent != "" && exponent[1] == '+' {
      assert v[|v| - |exponent| + 1] == '+';
      PlusFails(sign, whole, fraction, exponent, gap, strict);
    } else {
      if exponent != "" {
        NoPlus(exponent);
      }
      NumeralWord(sign, whole, fraction, exponent);
      assert forall i {:trigger v[i]} :: 0 <= i < |v| ==> InPrimitive(v[i]);
      NumeralPrimitive(sign, whole, fraction, exponent, gap != "", strict);
      ListedWord(v, gap, strict);
    }
  }

  lemma NoPlus(e: string)
    requires IsExponent(e) && e[1] != '+'
    ensures '+' !in e
  {
    forall i | 0 <= i < |e| ensures e[i] != '+' {
      assert i >= 1 ==> e[1..][i - 1] == e[i];
      assert i >= 2 ==> e[2..][i - 2] == e[i];
    }
  }

  lemma PlusFails(sign: string, whole: string, fraction: string, exponent: string, gap: string, strict: bool)
    requires IsNumeral(sign, whole, fraction, exponent) && exponent != "" && exponent[1] == '+'
    ensures Run(Start(Listed(sign + whole + fraction + exponent, gap), strict)).error
  {
    var v, w := sign + whole + fraction + exponent, sign + whole + fraction + [exponent[0]];
    var text, s, at := Listed(v, gap), Opened(Listed(v, gap), strict), 1 + |w|;
    assert IsPiece([exponent[0]], 0);
    NumeralWord(sign, whole, fraction, [exponent[0]]);
    assert v == w + exponent[1..];
    ListedHas(v, gap);
    HasBoth(text, 1, w, exponent[1..]);
    assert text[at + 0] == exponent[1..][0] == '+';
    OpenRun(text, strict);
    HasSame(s.text, text, 1, 1, w);
    WordThenFails(s, w, at);
    FailsBack(Start(text, strict), s);
  }

  // Behind a value the parser wants a comma.
  lemma WordThenFails(s: State, w: string, at: int)
    requires ValueNext(s) && WordNext(s, w, at) && at < End(s) && s.text[at] == '+'
    ensures Fails(s)
  {
    Follow(s);
    var t := Step(s);
    WordStepped(s, w, at, t);
    Goes(s, t);
    if !t.error {
      CommaMissed(t);
      FailsBack(s, t);
    }
  }

  lemma CommaMissed(t: State)
    requires Inv(t) && !t.error && t.next < End(t) && t.text[t.next] == '+' && t.flags.comma
    ensures Fails(t)
  {
    Follow(t);
    StepFails(t);
  }

  lemma {:induction false} DotEnds(text: string, start: int, w: string, k: nat)
    requires (w == "" || IsToken(w)) && Has(text, start, w) && k <= |w| && start + |w| < |text| - 1 && text[start + |w|] == '.'
    requires w == "" || !IsAlnum(w[|w| - 1])
    ensures PrimitiveEnd(text, start, start + k) == NULL
    decreases |w| - k
  {
    if k > 0 {
      assert text[start + (k - 1)] == w[k - 1];
    }
    if k < |w| {
      assert text[start + k] == w[k];
      DotEnds(text, start, w, k + 1);
    }
  }

  /** A dot that has neither a letter nor a digit in front of it is refused. */
  lemma DotRefused(s: State, w: string)
    requires ValueNext(s) && (w == "" || IsToken(w)) && (w == "" || !IsAlnum(w[|w| - 1]))
    requires Has(s.text, s.next, w) && s.next + |w| < End(s) && s.text[s.next + |w|] == '.'
    ensures Fails(s)
  {
    DotEnds(s.text, s.next, w, 0);
    if w != "" {
      assert s.text[s.next + 0] == w[0] && InPrimitive(w[0]);
    }
    Follow(s);
    StepFails(s);
  }

  // ------------------------------------------------------------------ regular expressions and comments

  // A slash that no backslash guards.
  predicate Closes(v: string, i: int)
    requires 0 <= i < |v|
  {
    v[i] == '/' && (i == 0 || v[i - 1] != '\\')
  }

  lemma {:induction false} RegExpEnds(text: string, start: int, v: string, k: nat)
    requires Has(text, start, v) && k < |v| && start + |v| < |text| && NUL !in v && Closes(v, |v| - 1)
    requires forall i :: 0 <= i < |v| - 1 ==> !Closes(v, i)
    ensures RegExpEnd(text, start, start + k) == start + |v| - 1
    decreases |v| - k
  {
    assert text[start + k] == v[k] && v[k] in v;
    if k > 0 {
      assert text[start + (k - 1)] == v[k - 1];
    }
    if k < |v| - 1 {
      assert !Closes(v, k);
      RegExpEnds(text, start, v, k + 1);
    }
  }

  /** Wherever a value is expected, what is between two slashes, up to the first that no backslash guards, is a regular expression. */
  lemma RegExpStepped(s: State, v: string, t: State)
    requires ValueNext(s) && Stepped(s, t) && v != "" && NUL !in v && v[0] != '/' && v[0] != '*'
    requires Has(s.text, s.next, "/" + v + "/") && s.next + |v| + 2 < |s.text|
    requires Closes(v + "/", |v|) && forall i :: 0 <= i < |v| ==> !Closes(v, i)
    ensures t == s.(text := s.text[s.next + |v| + 1 := NUL], next := s.next + |v| + 2,
                    nodes := s.nodes + [Raw(s.name, s.next + 1, Regexp, |s.nodes| + 1)], name := NULL)
  {
    var n, w := s.next + 1, v + "/";
    assert "/" + v + "/" == "/" + w;
    HasBoth(s.text, s.next, "/", w);
    assert s.text[s.next + 0] == "/"[0] && s.text[n + 0] == w[0] == v[0];
    forall i | 0 <= i < |w| - 1 ensures !Closes(w, i) {
      assert !Closes(v, i);
    }
    RegExpEnds(s.text, n, w, 0);
    RegExpMade(s, n, n + |v|, t);
  }

  /** So a regular expression is read back as it was printed. */
  lemma RegExpReadsBack(s: State, ns: seq<JsonNode>, nid: int, st: Style, v: string, t: State)
    requires Whole(ns, nid) && ns[nid].kind == Regexp && ns[nid].value == Some(v)
    requires v != "" && NUL !in v && v[0] != '/' && v[0] != '*' && Closes(v + "/", |v|) && forall i :: 0 <= i < |v| ==> !Closes(v, i)
    requires ValueNext(s) && Stepped(s, t) && Has(s.text, s.next, NodeText(ns, nid, st)) && s.next + |v| + 2 < |s.text|
    ensures !t.error && t.nodes == s.nodes + [Raw(s.name, s.next + 1, Regexp, |s.nodes| + 1)] && t.next == s.next + |NodeText(ns, nid, st)|
    ensures Behind(t.text, t.next, s.next + 1, Some(v))
  {
    assert NodeText(ns, nid, st) == "/" + v + "/";
    RegExpStepped(s, v, t);
    forall i {:trigger v[i]} | 0 <= i < |v| ensures s.text[s.next + 1 + i] == v[i] {
      assert ("/" + v + "/")[i + 1] == v[i];
    }
  }

  lemma RegExpMade(s: State, n: int, e: int, t: State)
    requires ValueNext(s) && Stepped(s, t) && n == s.next + 1 <= e < End(s) && RegExpEnd(s.text, n, n) == e
    requires s.text[s.next] == '/' && s.text[n] != '/' && s.text[n] != '*'
    ensures t == s.(text := s.text[e := NUL], next := e + 1, nodes := s.nodes + [Raw(s.name, n, Regexp, |s.nodes| + 1)], name := NULL)
  {
  }

  predicate EndsComment(v: string, i: int)
    requires 0 <= i && i + 1 < |v|
  {
    v[i] == '*' && v[i + 1] == '/'
  }

  lemma {:induction false} BlockEnds(text: string, start: int, v: string, k: nat)
    requires Has(text, start, v) && k + 2 <= |v| && start + |v| < |text| && EndsComment(v, |v| - 2)
    requires forall i :: 0 <= i < |v| - 2 ==> !EndsComment(v, i)
    ensures CommentEnd(text, start + k, true) == start + |v|
    decreases |v| - k
  {
    assert text[start + k] == v[k] && text[start + (k + 1)] == v[k + 1];
    if k < |v| - 2 {
      assert !EndsComment(v, k);
      BlockEnds(text, start, v, k + 1);
    }
  }

  lemma {:induction false} LineEnds(text: string, start: int, v: string, k: nat)
    requires Has(text, start, v) && k <= |v| && start + |v| < |text| && NUL !in v && '\n' !in v
    requires start + |v| == |text| - 1 || text[start + |v|] == '\n'
    ensures CommentEnd(text, start + k, false) == start + |v|
    decreases |v| - k
  {
    if k < |v| {
      assert text[start + k] == v[k] && v[k] in v;
      LineEnds(text, start, v, k + 1);
    }
  }

  // The state behind a comment.
  lemma CommentStepped(s: State, t: State, e: int)
    requires Inv(s) && !s.error && Stepped(s, t) && s.text[s.next] == '/' && s.next + 1 < End(s)
    requires s.text[s.next + 1] == '*' || s.text[s.next + 1] == '/'
    requires CommentEnd(s.text, s.next + 2, s.text[s.next + 1] == '*') == e != NULL
    ensures if s.flags.strict then t.error else t == s.(next := e)
  {
  }

  /** A comment, up to the first end of one, is passed over in lenient mode; in strict mode it is refused. */
  lemma BlockPassed(s: State, v: string)
    requires Inv(s) && !s.error && Has(s.text, s.next, "/*" + v) && s.next + |v| + 2 < |s.text|
    requires |v| >= 2 && EndsComment(v, |v| - 2) && forall i :: 0 <= i < |v| - 2 ==> !EndsComment(v, i)
    ensures if s.flags.strict then Fails(s) else Leads(s, s.(next := s.next + 2 + |v|))
  {
    HasBoth(s.text, s.next, "/*", v);
    assert s.text[s.next + 0] == "/*"[0] && s.text[s.next + 1] == "/*"[1];
    BlockEnds(s.text, s.next + 2, v, 0);
    Follow(s);
    CommentStepped(s, Step(s), s.next + 2 + |v|);
    Goes(s, Step(s));
  }

  /** So is a comment to the end of the line; the line break is not part of it. */
  lemma LinePassed(s: State, v: string)
    requires Inv(s) && !s.error && Has(s.text, s.next, "//" + v) && s.next + |v| + 2 < |s.text| && NUL !in v && '\n' !in v
    requires s.next + |v| + 2 == End(s) || s.text[s.next + |v| + 2] == '\n'
    ensures if s.flags.strict then Fails(s) else Leads(s, s.(next := s.next + 2 + |v|))
  {
    HasBoth(s.text, s.next, "//", v);
    assert s.text[s.next + 0] == "//"[0] && s.text[s.next + 1] == "//"[1];
    LineEnds(s.text, s.next + 2, v, 0);
    Follow(s);
    CommentStepped(s, Step(s), s.next + 2 + |v|);
    Goes(s, Step(s));
  }
}
