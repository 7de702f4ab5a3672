/**
  Strict parsing (JSON_STRICT_PARSE): it takes nothing that lenient parsing does not take, and
  gives the same document; and exactly which printed documents it takes back.

  The flag is lost when the first nested container is closed (bin/json.c:1741), strings do not
  clear the expectation of a value in an array, and empty containers still expect something.
*/
module JsonStrict {
  import opened JsonForest
  import opened JsonParser
  import opened JsonPrinter
  import opened JsonRoundTrip

  /** The state of the lenient parser at the same place. */
  function Loosen(s: State): State {
    s.(flags := s.flags.(strict := false))
  }

  // ------------------------------------------------------------------ strict parsing refines lenient parsing

  lemma LooseInv(s: State)
    requires Inv(s)
    ensures Inv(Loosen(s))
  {
    InvFrame(s, Loosen(s));
  }

  lemma LooseValue(s: State, kind: Kind, value: Ptr)
    requires -1 <= value < |s.text| && s.parent < |s.nodes| && !ParseValue(s, kind, value).error
    ensures Loosen(ParseValue(s, kind, value)) == ParseValue(Loosen(s), kind, value)
  {
  }

  lemma LooseBare(s: State)
    requires 0 <= s.next < End(s) && s.parent < |s.nodes| && !Bare(s).error
    ensures Loosen(Bare(s)) == Bare(Loosen(s))
  {
    var (u, value) := ParsePrimitive(s);
    LooseValue(u, Unset, value);
  }

  lemma LooseQuoted(s: State)
    requires 0 <= s.next < End(s) && s.parent < |s.nodes| && !Quoted(s).error
    ensures Loosen(Quoted(s)) == Quoted(Loosen(s))
  {
    var (u, value) := ParseString(s);
    LooseValue(u, String, value);
  }

  lemma LooseSlash(s: State)
    requires 0 <= s.next < End(s) && s.parent < |s.nodes| && !Slash(s).error
    ensures Loosen(Slash(s)) == Slash(Loosen(s))
  {
    var n := s.next + 1;
    if !(n < End(s) && (s.text[n] == '*' || s.text[n] == '/')) {
      var (u, value) := ParseRegExp(s.(next := n));
      LooseValue(u, Regexp, value);
    }
  }

  /** An iteration in strict mode fails, or does what it does in lenient mode. */
  lemma LooseStep(s: State)
    requires 0 <= s.next < End(s) && -1 <= s.parent < |s.nodes| && (s.level >= 1 ==> s.parent >= 0)
    requires s.parent >= 0 ==> -1 <= s.nodes[s.parent].last < |s.nodes|
    requires !Step(s).error
    ensures Loosen(Step(s)) == Step(Loosen(s))
  {
    var c := s.text[s.next];
    if c == '{' || c == '[' || c == '}' || c == ']' || IsBlank(c) || c == ',' || c == ':' {
    } else if c == '/' {
      LooseSlash(s);
    } else if c == '\'' || c == '`' || c == '"' {
      LooseQuoted(s);
    } else {
      LooseBare(s);
    }
  }

  lemma {:induction false} LooseRun(s: State)
    requires Inv(s) && !Run(s).error
    ensures Inv(Loosen(s)) && Run(Loosen(s)) == Loosen(Run(s))
    decreases |s.text| - s.next, Patience(s)
  {
    LooseInv(s);
    if !s.error && s.next < End(s) {
      StepKeepsInv(s);
      StepProgresses(s);
      LooseStep(s);
      LooseRun(Step(s));
    }
  }

  /** Whatever text strict mode accepts, lenient mode accepts with the same document. */
  lemma StrictRefinesLenient(text: string)
    requires text != "" && text[|text| - 1] == NUL && Accepted(Run(Start(text, true)))
    ensures Accepted(Run(Start(text, false))) && Document(Run(Start(text, false))) == Document(Run(Start(text, true)))
  {
    LooseRun(Start(text, true));
  }

  // ------------------------------------------------------------------ what strict mode takes back

  /** The value of node nid, as printed, is read in strict mode. */
  ghost predicate StrictTakes(ns: seq<JsonNode>, nid: int, st: Style)
    requires Printable(ns, nid)
    decreases |ns| - nid, 0
  {
    var n := ns[nid];
    if n.kind == String then st.double
    else if n.kind == Primitive then SleuthKind(n.value.s, 0, |n.value.s| - 1, true) == Primitive
    else nid + 1 < n.last && StrictMembers(ns, nid + 1, n.last, n.kind == Object, st)
  }

  /**
    The members from nid on, up to the first container among them: names in double quotes, no
    string in an array, and all values are taken. What follows a container is read in lenient mode.
  */
  ghost predicate StrictMembers(ns: seq<JsonNode>, nid: int, hi: int, keyed: bool, st: Style)
    requires PrintableMembers(ns, nid, hi, keyed) && nid < hi
    decreases |ns| - nid, 1
  {
    (keyed ==> st.double && IsQuoted(ns[nid].name.s, true, st)) && StrictTakes(ns, nid, st) && StrictOthers(ns, nid, hi, keyed, st)
  }

  // What is behind the first of the members.
  ghost predicate StrictOthers(ns: seq<JsonNode>, nid: int, hi: int, keyed: bool, st: Style)
    requires 0 <= nid < |ns| && nid < ns[nid].last <= hi && PrintableMembers(ns, ns[nid].last, hi, keyed)
    decreases |ns| - nid, 0
  {
    IsContainer(ns[nid]) || ((keyed || ns[nid].kind != String) && (ns[nid].last < hi ==> StrictMembers(ns, ns[nid].last, hi, keyed, st)))
  }

  /** The loop, started in s, ends with an error. */
  ghost predicate Fails(s: State) {
    Inv(s) && Run(s).error
  }

  lemma StepFails(s: State)
    requires Inv(s) && !s.error && s.next < End(s)
    requires -1 <= s.parent < |s.nodes| && (s.level >= 1 ==> s.parent >= 0)
    requires s.parent >= 0 ==> -1 <= s.nodes[s.parent].last < |s.nodes|
    requires Step(s).error
    ensures Fails(s)
  {
    StepKeepsInv(s);
    StepProgresses(s);
  }

  lemma FailsBack(s: State, t: State)
    requires Inv(s) && Leads(s, t) && Fails(t)
    ensures Fails(s)
  {
    assert Ends(t, Run(t));
    assert Ends(s, Run(t));
  }

  // The strict parser at the place of the lenient one, which goes on to u.
  ghost predicate Beside(s: State, u: State) {
    Inv(s) && !s.error && s.flags.strict && s.next < End(s) && Stepped(Loosen(s), u)
  }

  // It goes on to the same place, or fails.
  lemma Along(s: State, u: State) returns (t: State)
    requires Beside(s, u)
    ensures -1 <= s.parent < |s.nodes| && (s.level >= 1 ==> s.parent >= 0)
    ensures s.parent >= 0 ==> -1 <= s.nodes[s.parent].last < |s.nodes|
    ensures t == Step(s) && if t.error then Fails(s) else Leads(s, t) && Loosen(t) == u
  {
    Follow(s);
    t := Step(s);
    if t.error {
      StepFails(s);
    } else {
      LooseStep(s);
    }
  }

  // ------------------------------------------------------------------ scalars

  // The string layer of lenient parsing, in one iteration.
  lemma StringLands(l: State, text: string, ns: seq<JsonNode>, nid: int, v: string, st: Style) returns (u: State)
    requires 0 <= nid && Awaiting(l, text, ns, nid) && ns[nid] == JsonNode(ns[nid].name, Some(v), String, nid + 1) && NulFree(v)
    requires Has(text, l.next, Quotation(v, st)) && l.next + |Quotation(v, st)| < |text|
    ensures Stepped(l, u) && Read(l, u, text, ns, nid + 1) && u.next == l.next + |Quotation(v, st)|
    ensures !u.error && u.flags == l.flags && u.parent == l.parent && text[l.next] == QuoteOf(st)
  {
    u := StringStepped(l, text, v, st);
    assert text[l.next + 0] == Quotation(v, st)[0];
    StringDone(l, u, text, ns, nid, v);
  }

  lemma PrimitiveLands(l: State, text: string, ns: seq<JsonNode>, nid: int, v: string) returns (u: State)
    requires 0 <= nid && Awaiting(l, text, ns, nid) && ns[nid] == JsonNode(ns[nid].name, Some(v), Primitive, nid + 1)
    requires IsToken(v) && SleuthKind(v, 0, |v| - 1, false) == Primitive && Has(text, l.next, v) && Delimited(text, l.next + |v|)
    ensures Stepped(l, u) && Read(l, u, text, ns, nid + 1) && u.next == l.next + |v|
    ensures !u.error && u.flags == Flags(false, false, true, false) && u.parent == l.parent
  {
    u := PrimitiveStepped(l, text, v);
    TokenBehind(l.text, l.next, v);
    ScalarDone(l, u, text, ns, nid, l.next);
    ScalarKept(l, u, ns, l.next, Primitive);
  }

  // A double quote makes no difference; other quotes are refused.
  lemma StrictQuoted(s: State)
    requires Inv(s) && s.flags.strict && !s.error && s.next < End(s) && s.text[s.next] in {'"', '\''}
    requires !Quoted(Loosen(s)).error
    ensures Quoted(s).error <==> s.text[s.next] != '"'
    ensures !Quoted(s).error ==> Quoted(s).flags == s.flags
  {
  }

  lemma StrictString(s: State, text: string, ns: seq<JsonNode>, nid: int, v: string, st: Style) returns (t: State)
    requires 0 <= nid && s.flags.strict && Awaiting(Loosen(s), text, ns, nid)
    requires ns[nid] == JsonNode(ns[nid].name, Some(v), String, nid + 1) && NulFree(v)
    requires Has(text, s.next, Quotation(v, st)) && s.next + |Quotation(v, st)| < |text|
    ensures if st.double
      then Leads(s, t) && Read(Loosen(s), Loosen(t), text, ns, nid + 1) && t.next == s.next + |Quotation(v, st)| && t.flags == s.flags
      else Fails(s)
  {
    LooseInv(Loosen(s));
    InvFrame(Loosen(s), s);
    var u := StringLands(Loosen(s), text, ns, nid, v, st);
    t := Along(s, u);
    StrictQuoted(s);
  }

  // A token is taken if the stricter classification takes it for a primitive, too.
  lemma StrictBare(s: State, text: string, v: string)
    requires Inv(s) && s.flags.strict && !s.error && s.next < End(s) && (s.name != NULL || s.kind != Object)
    requires Reading(Loosen(s), text) && IsToken(v) && Has(text, s.next, v) && Delimited(text, s.next + |v|) && !Bare(Loosen(s)).error
    ensures Bare(s).error <==> SleuthKind(v, 0, |v| - 1, true) != Primitive
    ensures !Bare(s).error ==> Bare(s).flags == Flags(true, false, true, false)
  {
    TokenReads(Loosen(s), text, v);
    KindMoved(s.text, s.next, v, true);
    assert s.text[s.next + 0] == v[0] && InPrimitive(v[0]);
    assert ParsePrimitive(s) == (s.(next := s.next + |v|), s.next);
  }

  lemma StrictPrimitive(s: State, text: string, ns: seq<JsonNode>, nid: int, v: string) returns (t: State)
    requires 0 <= nid && s.flags.strict && Awaiting(Loosen(s), text, ns, nid) && (s.name != NULL || s.kind != Object)
    requires ns[nid] == JsonNode(ns[nid].name, Some(v), Primitive, nid + 1)
    requires IsToken(v) && SleuthKind(v, 0, |v| - 1, false) == Primitive && Has(text, s.next, v) && Delimited(text, s.next + |v|)
    ensures if SleuthKind(v, 0, |v| - 1, true) == Primitive
      then Leads(s, t) && Read(Loosen(s), Loosen(t), text, ns, nid + 1) && t.next == s.next + |v| && t.flags == Flags(true, false, true, false)
      else Fails(s)
  {
    InvFrame(Loosen(s), s);
    var u := PrimitiveLands(Loosen(s), text, ns, nid, v);
    t := Along(s, u);
    StrictToken(s, text, v);
  }

  lemma StrictToken(s: State, text: string, v: string)
    requires Inv(s) && s.flags.strict && !s.error && s.next < End(s) && (s.name != NULL || s.kind != Object)
    requires -1 <= s.parent < |s.nodes| && (s.level >= 1 ==> s.parent >= 0)
    requires s.parent >= 0 ==> -1 <= s.nodes[s.parent].last < |s.nodes|
    requires Reading(Loosen(s), text) && IsToken(v) && Has(text, s.next, v) && Delimited(text, s.next + |v|) && !Step(Loosen(s)).error
    ensures Step(s).error <==> SleuthKind(v, 0, |v| - 1, true) != Primitive
    ensures !Step(s).error ==> Step(s).flags == Flags(true, false, true, false)
  {
    HasSame(s.text, text, s.next, s.next, v);
    assert s.text[s.next + 0] == v[0] && InPrimitive(v[0]);
    StrictBare(s, text, v);
  }

  // ------------------------------------------------------------------ names

  // The strict parser between members: it expects a name or an element, and nothing else.
  ghost predicate StrictBetween(s: State, text: string, ns: seq<JsonNode>, nid: int, keyed: bool) {
    s.flags.strict && Between(Loosen(s), text, ns, nid, keyed) && s.flags.key == keyed && s.flags.val == !keyed
  }

  lemma BetweenInv(s: State, text: string, ns: seq<JsonNode>, nid: int, keyed: bool)
    requires StrictBetween(s, text, ns, nid, keyed)
    ensures Inv(s) && s.parent >= 0 && s.kind == (if keyed then Object else Array)
  {
    InvFrame(Loosen(s), s);
  }

  // A name in double quotes and its colon; other names are refused.
  lemma StrictName(s: State, text: string, ns: seq<JsonNode>, nid: int, v: string, st: Style) returns (t: State)
    requires 0 <= nid < |ns| && StrictBetween(s, text, ns, nid, true) && ns[nid].name == Some(v) && NulFree(v)
    requires Has(text, s.next, ValueText(Some(v), true, st)) && s.next + |ValueText(Some(v), true, st)| < |text| - 1
    requires text[s.next + |ValueText(Some(v), true, st)|] == ':'
    ensures if st.double && IsQuoted(v, true, st)
      then Leads(s, t) && Awaiting(Loosen(t), text, ns, nid) && Kept(Loosen(s), Loosen(t)) && t.nodes == s.nodes
        && t.next == s.next + |ValueText(Some(v), true, st)| + 1 && t.flags == Flags(true, false, false, false) && t.name != NULL
      else Fails(s)
  {
    if IsQuoted(v, true, st) {
      t := StrictQuotedName(s, text, ns, nid, v, st);
    } else {
      BareIsToken(v, st);
      StrictBareName(s, text, v);
      t := s;
    }
  }

  lemma BareIsToken(v: string, st: Style)
    requires !IsQuoted(v, true, st)
    ensures ValueText(Some(v), true, st) == v && IsToken(v)
  {
    BareEscape(v, 0, st);
  }

  // A name without quotes.
  lemma StrictBareName(s: State, text: string, v: string)
    requires s.flags.strict && Naming(Loosen(s), text) && IsToken(v) && Has(text, s.next, v) && Delimited(text, s.next + |v|)
    ensures Fails(s)
  {
    InvFrame(Loosen(s), s);
    HasSame(s.text, text, s.next, s.next, v);
    assert s.text[s.next + 0] == v[0] && InPrimitive(v[0]);
    Follow(s);
    StepFails(s);
  }

  lemma StrictQuotedName(s: State, text: string, ns: seq<JsonNode>, nid: int, v: string, st: Style) returns (t: State)
    requires 0 <= nid < |ns| && StrictBetween(s, text, ns, nid, true) && ns[nid].name == Some(v) && NulFree(v)
    requires Has(text, s.next, Quotation(v, st)) && s.next + |Quotation(v, st)| < |text| - 1
    requires text[s.next + |Quotation(v, st)|] == ':'
    ensures if st.double
      then Leads(s, t) && Awaiting(Loosen(t), text, ns, nid) && Kept(Loosen(s), Loosen(t)) && t.nodes == s.nodes
        && t.next == s.next + |Quotation(v, st)| + 1 && t.flags == Flags(true, false, false, false) && t.name != NULL
      else Fails(s)
  {
    InvFrame(Loosen(s), s);
    var u := QuotedNameStepped(Loosen(s), text, v, st);
    t := StrictNameRead(s, u, text, v, st);
    if st.double {
      var w := t;
      BehindFrame(u.text, u.next, u.text[u.next := NUL], u.next + 1, u.name, Some(v));
      var x := NameStepped(Loosen(s), u, text, ns, nid);
      t := StrictColon(w, x);
      LeadsOn(s, w, t);
    }
  }

  lemma StrictNameRead(s: State, u: State, text: string, v: string, st: Style) returns (t: State)
    requires Beside(s, u) && Reading(Loosen(s), text) && Has(text, s.next, Quotation(v, st)) && !u.error
    ensures if st.double then Leads(s, t) && Loosen(t) == u && t.flags == s.flags else Fails(s)
  {
    assert text[s.next + 0] == Quotation(v, st)[0];
    t := Along(s, u);
    StrictQuoted(s);
  }

  lemma StrictColon(s: State, u: State) returns (t: State)
    requires Beside(s, u) && !u.error && s.text[s.next] == ':' && !s.flags.val && s.name != NULL
    ensures Leads(s, t) && Loosen(t) == u && t.flags == s.flags.(key := false) && t.name == s.name
  {
    t := Along(s, u);
  }

  // ------------------------------------------------------------------ brackets and commas

  // A comma or a closing bracket, where a name or an element is still expected.
  lemma StillExpecting(s: State)
    requires Inv(s) && s.flags.strict && !s.error && s.next < End(s) && s.text[s.next] in {',', '}', ']'} && (s.flags.val || s.flags.key)
    ensures Fails(s)
  {
    Follow(s);
    StepFails(s);
  }

  lemma StrictComma(s: State, u: State) returns (t: State)
    requires Beside(s, u) && !u.error && s.text[s.next] == ',' && !s.flags.val && !s.flags.key
    ensures Leads(s, t) && Loosen(t) == u && t.flags == Flags(true, s.kind == Object, false, s.kind == Array)
  {
    t := Along(s, u);
  }

  lemma StrictOpen(s: State, u: State) returns (t: State)
    requires Beside(s, u) && !u.error && s.text[s.next] in {'{', '['}
    ensures Leads(s, t) && Loosen(t) == u && t.flags == (if s.text[s.next] == '{' then Flags(true, true, false, false) else Flags(true, false, false, true))
  {
    t := Along(s, u);
  }

  // Behind a nested container the parser is not strict any more.
  lemma StrictClose(s: State, u: State) returns (t: State)
    requires Beside(s, u) && !u.error && s.text[s.next] in {'}', ']'} && !s.flags.val && !s.flags.key && s.parent >= 0
    ensures Leads(s, t) && Loosen(t) == u && (t.flags.strict <==> s.nodes[s.parent].last < 0)
    ensures t.flags.strict ==> !t.flags.val && !t.flags.key
  {
    t := Along(s, u);
  }

  // ------------------------------------------------------------------ values

  /** The strict parser has got from s to t, and has read the same nodes as the lenient one. */
  ghost predicate Lands(s: State, t: State, text: string, ns: seq<JsonNode>, end: int, next: int) {
    Leads(s, t) && Read(Loosen(s), Loosen(t), text, ns, end) && t.next == next
  }

  // What the parser expects behind a value.
  ghost predicate Settled(s: State, t: State, ns: seq<JsonNode>, nid: int)
    requires 0 <= nid < |ns|
  {
    if IsContainer(ns[nid]) then (s.parent >= 0 ==> !t.flags.strict) && (t.flags.strict ==> !t.flags.val && !t.flags.key)
    else if ns[nid].kind == String then t.flags == s.flags
    else t.flags == Flags(true, false, true, false)
  }

  /** The value of node nid is read, or refused. */
  lemma {:induction false} StrictNode(s: State, text: string, ns: seq<JsonNode>, nid: int, st: Style, end: int) returns (t: State)
    requires 0 <= nid && s.flags.strict && Awaiting(Loosen(s), text, ns, nid) && (s.name != NULL || s.kind != Object)
    requires NodeAhead(text, s.next, end, ns, nid, st)
    ensures if StrictTakes(ns, nid, st) then Lands(s, t, text, ns, ns[nid].last, end) && Settled(s, t, ns, nid) else Fails(s)
    decreases |ns| - nid, 2, 0
  {
    var n := ns[nid];
    if n.kind == String {
      t := StrictString(s, text, ns, nid, n.value.s, st);
    } else if n.kind == Primitive {
      t := StrictPrimitive(s, text, ns, nid, n.value.s);
    } else {
      t := StrictContainer(s, text, ns, nid, st, end);
    }
  }

  lemma {:induction false} StrictContainer(s: State, text: string, ns: seq<JsonNode>, nid: int, st: Style, end: int) returns (t: State)
    requires 0 <= nid && s.flags.strict && Awaiting(Loosen(s), text, ns, nid)
    requires NodeAhead(text, s.next, end, ns, nid, st) && IsContainer(ns[nid])
    ensures if StrictTakes(ns, nid, st) then Lands(s, t, text, ns, ns[nid].last, end) && Settled(s, t, ns, nid) else Fails(s)
    decreases |ns| - nid, 1
  {
    ContainerAhead(text, s.next, end, ns, nid, st);
    StrictContainerTakes(ns, nid, st);
    t := StrictBrackets(s, text, ns, nid, ns[nid].last, ns[nid].kind == Object, st, end - 1);
  }

  // The brackets, and the members between them.
  lemma {:induction false} StrictBrackets(s: State, text: string, ns: seq<JsonNode>, nid: int, hi: int, keyed: bool, st: Style, end: int)
    returns (t: State)
    requires 0 <= nid && s.flags.strict && Awaiting(Loosen(s), text, ns, nid) && IsContainer(ns[nid]) && ns[nid].value == None
    requires hi == ns[nid].last && keyed == (ns[nid].kind == Object)
    requires 0 <= s.next < |text| - 1 && text[s.next] == (if keyed then '{' else '[')
    requires MembersAhead(text, s.next + 1, end, ns, nid + 1, hi, keyed, st)
    ensures if nid + 1 < hi && StrictMembers(ns, nid + 1, hi, keyed, st)
      then Lands(s, t, text, ns, hi, end + 1) && Settled(s, t, ns, nid)
      else Fails(s)
    decreases |ns| - nid, 0, 1
  {
    var u := StrictOpens(s, text, ns, nid, keyed);
    t := StrictFilled(s, u, text, ns, nid, hi, keyed, st, end);
  }

  lemma StrictContainerTakes(ns: seq<JsonNode>, nid: int, st: Style)
    requires Printable(ns, nid) && IsContainer(ns[nid])
    ensures nid + 1 <= ns[nid].last && PrintableMembers(ns, nid + 1, ns[nid].last, ns[nid].kind == Object)
    ensures StrictTakes(ns, nid, st) <==> nid + 1 < ns[nid].last && StrictMembers(ns, nid + 1, ns[nid].last, ns[nid].kind == Object, st)
  {
  }

  lemma StrictOpens(s: State, text: string, ns: seq<JsonNode>, nid: int, keyed: bool) returns (u: State)
    requires 0 <= nid && s.flags.strict && Awaiting(Loosen(s), text, ns, nid) && IsContainer(ns[nid]) && ns[nid].value == None
    requires keyed == (ns[nid].kind == Object) && s.next < |text| - 1 && text[s.next] == (if keyed then '{' else '[')
    ensures Inv(s) && Leads(s, u) && Leads(Loosen(s), Loosen(u)) && |u.text| == |s.text| == |text| && u.next == s.next + 1
    ensures StrictBetween(u, text, ns, nid + 1, keyed) && u.level == s.level + 1 && u.parent == nid
    ensures u.nodes == s.nodes + [Raw(s.name, NULL, ns[nid].kind, s.parent)]
  {
    InvFrame(Loosen(s), s);
    var l := OpenStepped(Loosen(s), text, ns, nid);
    u := StrictOpen(s, l);
  }

  // Behind the opening bracket: ...
  lemma {:induction false} StrictFilled(s: State, u: State, text: string, ns: seq<JsonNode>, nid: int, hi: int, keyed: bool, st: Style, end: int)
    returns (t: State)
    requires 0 <= nid < |ns| && IsContainer(ns[nid]) && hi == ns[nid].last && keyed == (ns[nid].kind == Object)
    requires Inv(s) && Awaiting(Loosen(s), text, ns, nid) && Leads(s, u) && Leads(Loosen(s), Loosen(u)) && |u.text| == |s.text|
    requires StrictBetween(u, text, ns, nid + 1, keyed) && u.level == s.level + 1 && u.parent == nid
    requires u.nodes == s.nodes + [Raw(s.name, NULL, ns[nid].kind, s.parent)]
    requires MembersAhead(text, u.next, end, ns, nid + 1, hi, keyed, st)
    ensures if nid + 1 < hi && StrictMembers(ns, nid + 1, hi, keyed, st)
      then Lands(s, t, text, ns, hi, end + 1) && Settled(s, t, ns, nid)
      else Fails(s)
    decreases |ns| - nid, 0, 0
  {
    t := u;
    if nid + 1 == hi {
      StrictEmpty(s, u, text, ns, nid + 1, keyed, st, end);
    } else {
      t := StrictFull(s, u, text, ns, nid, hi, keyed, st, end);
    }
  }

  // ... without members, a member is missed,
  lemma StrictEmpty(s: State, u: State, text: string, ns: seq<JsonNode>, nid: int, keyed: bool, st: Style, end: int)
    requires Inv(s) && Leads(s, u) && StrictBetween(u, text, ns, nid, keyed) && MembersAhead(text, u.next, end, ns, nid, nid, keyed, st)
    ensures Fails(s)
  {
    assert MembersText(ns, nid, nid, keyed, st) == "";
    InvFrame(Loosen(u), u);
    StillExpecting(u);
    FailsBack(s, u);
  }

  // ... with members, they are read.
  lemma {:induction false} StrictFull(s: State, u: State, text: string, ns: seq<JsonNode>, nid: int, hi: int, keyed: bool, st: Style, end: int)
    returns (t: State)
    requires 0 <= nid < |ns| && IsContainer(ns[nid]) && hi == ns[nid].last && keyed == (ns[nid].kind == Object)
    requires Inv(s) && Awaiting(Loosen(s), text, ns, nid) && Leads(s, u) && Leads(Loosen(s), Loosen(u)) && |u.text| == |s.text|
    requires StrictBetween(u, text, ns, nid + 1, keyed) && u.level == s.level + 1 && u.parent == nid
    requires u.nodes == s.nodes + [Raw(s.name, NULL, ns[nid].kind, s.parent)]
    requires nid + 1 < hi && MembersAhead(text, u.next, end, ns, nid + 1, hi, keyed, st)
    ensures if StrictMembers(ns, nid + 1, hi, keyed, st)
      then Lands(s, t, text, ns, hi, end + 1) && Settled(s, t, ns, nid)
      else Fails(s)
    decreases |ns| - nid - 1, 6
  {
    var v := StrictMembersRead(u, text, ns, nid + 1, hi, keyed, st, end);
    if StrictMembers(ns, nid + 1, hi, keyed, st) {
      t := StrictClosed(s, u, v, text, ns, nid);
    } else {
      t := u;
      FailsBack(s, u);
    }
  }

  // The end of a container.
  lemma StrictClosed(s: State, u: State, v: State, text: string, ns: seq<JsonNode>, nid: int) returns (t: State)
    requires 0 <= nid && Awaiting(Loosen(s), text, ns, nid) && IsContainer(ns[nid]) && nid < ns[nid].last <= |ns|
    requires Leads(s, u) && Leads(Loosen(s), Loosen(u)) && u.level == s.level + 1 && u.parent == nid && |u.text| == |s.text|
    requires u.nodes == s.nodes + [Raw(s.name, NULL, ns[nid].kind, s.parent)] && u.kind == ns[nid].kind
    requires Lands(u, v, text, ns, ns[nid].last, v.next) && 0 <= v.next < |text| && (v.flags.strict ==> !v.flags.val && !v.flags.key)
    requires text[v.next] == if ns[nid].kind == Object then '}' else ']'
    ensures Lands(s, t, text, ns, ns[nid].last, v.next + 1) && Settled(s, t, ns, nid)
  {
    var l := CloseStepped(Loosen(v), text, ns, ns[nid].last);
    ClosedBy(Loosen(s), Loosen(u), Loosen(v), l, text, ns, nid);
    LeadsOn(s, u, v);
    if v.flags.strict {
      t := StrictClose(v, l);
    } else {
      t := l;
    }
    LeadsOn(s, v, t);
  }

  // ------------------------------------------------------------------ members

  // A member is taken.
  ghost predicate StrictFirst(ns: seq<JsonNode>, nid: int, keyed: bool, st: Style)
    requires Printable(ns, nid) && (keyed ==> ns[nid].name != None)
  {
    (keyed ==> st.double && IsQuoted(ns[nid].name.s, true, st)) && StrictTakes(ns, nid, st)
  }

  // What the parser expects behind a member.
  ghost predicate Left(t: State, n: JsonNode, keyed: bool) {
    (IsContainer(n) <==> !t.flags.strict) && (t.flags.strict ==> !t.flags.key && (t.flags.val <==> !keyed && n.kind == String))
  }

  /** A member, with its name if it has one. */
  lemma {:induction false} StrictMember(s: State, text: string, ns: seq<JsonNode>, nid: int, keyed: bool, st: Style, end: int) returns (t: State)
    requires 0 <= nid && StrictBetween(s, text, ns, nid, keyed) && MemberAhead(text, s.next, end, ns, nid, keyed, st)
    ensures if StrictFirst(ns, nid, keyed, st) then Lands(s, t, text, ns, ns[nid].last, end) && Left(t, ns[nid], keyed) else Fails(s)
    decreases |ns| - nid, 3
  {
    if keyed {
      t := StrictNamed(s, text, ns, nid, st, end);
    } else {
      t := StrictElement(s, text, ns, nid, st, end);
    }
  }

  lemma {:induction false} StrictElement(s: State, text: string, ns: seq<JsonNode>, nid: int, st: Style, end: int) returns (t: State)
    requires 0 <= nid && StrictBetween(s, text, ns, nid, false) && MemberAhead(text, s.next, end, ns, nid, false, st)
    ensures if StrictTakes(ns, nid, st) then Lands(s, t, text, ns, ns[nid].last, end) && Left(t, ns[nid], false) else Fails(s)
    decreases |ns| - nid, 2, 1
  {
    ElementAhead(text, s.next, end, ns, nid, st);
    t := StrictNode(s, text, ns, nid, st, end);
  }

  lemma {:induction false} StrictNamed(s: State, text: string, ns: seq<JsonNode>, nid: int, st: Style, end: int) returns (t: State)
    requires 0 <= nid && StrictBetween(s, text, ns, nid, true) && MemberAhead(text, s.next, end, ns, nid, true, st)
    ensures if StrictFirst(ns, nid, true, st) then Lands(s, t, text, ns, ns[nid].last, end) && Left(t, ns[nid], true) else Fails(s)
    decreases |ns| - nid, 2, 1
  {
    NamedAhead(text, s.next, end, ns, nid, st);
    var u := StrictName(s, text, ns, nid, ns[nid].name.s, st);
    t := u;
    if st.double && IsQuoted(ns[nid].name.s, true, st) {
      t := StrictNode(u, text, ns, nid, st, end);
      if StrictTakes(ns, nid, st) {
        ReadNamed(Loosen(s), Loosen(u), Loosen(t), text, ns, ns[nid].last);
        LeadsOn(s, u, t);
      } else {
        InvFrame(Loosen(s), s);
        FailsBack(s, u);
      }
    }
  }

  /** The members from nid on, up to the closing bracket. */
  lemma {:induction false} StrictMembersRead(s: State, text: string, ns: seq<JsonNode>, nid: int, hi: int, keyed: bool, st: Style, end: int)
    returns (t: State)
    requires 0 <= nid < hi && StrictBetween(s, text, ns, nid, keyed) && MembersAhead(text, s.next, end, ns, nid, hi, keyed, st)
    ensures if StrictMembers(ns, nid, hi, keyed, st)
      then Lands(s, t, text, ns, hi, end) && (t.flags.strict ==> !t.flags.val && !t.flags.key)
      else Fails(s)
    decreases |ns| - nid, 5
  {
    var mid := MembersSplitAt(text, s.next, end, ns, nid, hi, keyed, st);
    t := StrictFrom(s, text, ns, nid, hi, keyed, st, mid, end);
  }

  // The first of the members, up to `mid`, and the others.
  lemma {:induction false} StrictFrom(s: State, text: string, ns: seq<JsonNode>, nid: int, hi: int, keyed: bool, st: Style, mid: int, end: int)
    returns (t: State)
    requires 0 <= nid && StrictBetween(s, text, ns, nid, keyed)
    requires MemberAhead(text, s.next, mid, ns, nid, keyed, st) && OthersAhead(text, mid, end, ns, nid, hi, keyed, st)
    ensures if StrictFirst(ns, nid, keyed, st) && StrictOthers(ns, nid, hi, keyed, st)
      then Lands(s, t, text, ns, hi, end) && (t.flags.strict ==> !t.flags.val && !t.flags.key)
      else Fails(s)
    decreases |ns| - nid, 4
  {
    t := StrictMember(s, text, ns, nid, keyed, st, mid);
    if StrictFirst(ns, nid, keyed, st) {
      BetweenInv(s, text, ns, nid, keyed);
      t := OthersRead(s, t, text, ns, nid, hi, keyed, st, end);
    }
  }

  // Behind the first of the members.
  lemma {:induction false} OthersRead(s: State, u: State, text: string, ns: seq<JsonNode>, nid: int, hi: int, keyed: bool, st: Style, end: int)
    returns (t: State)
    requires OthersAhead(text, u.next, end, ns, nid, hi, keyed, st)
    requires Inv(s) && s.parent >= 0 && s.kind == (if keyed then Object else Array)
    requires Lands(s, u, text, ns, ns[nid].last, u.next) && Left(u, ns[nid], keyed)
    ensures if StrictOthers(ns, nid, hi, keyed, st)
      then Lands(s, t, text, ns, hi, end) && (t.flags.strict ==> !t.flags.val && !t.flags.key)
      else Fails(s)
    decreases |ns| - nid, 3, 1
  {
    t := u;
    if IsContainer(ns[nid]) {
      if ns[nid].last < hi {
        t := LenientMore(s, u, text, ns, ns[nid].last, hi, keyed, st, end);
      }
    } else if !keyed && ns[nid].kind == String {
      StillExpecting(u);
      FailsBack(s, u);
    } else if ns[nid].last < hi {
      t := StrictMore(s, u, text, ns, ns[nid].last, hi, keyed, st, end);
    }
  }

  // Behind a container, with a comma ahead.
  lemma LenientMore(s: State, u: State, text: string, ns: seq<JsonNode>, next: int, hi: int, keyed: bool, st: Style, end: int)
    returns (t: State)
    requires 0 <= next && s.parent >= 0 && s.kind == (if keyed then Object else Array)
    requires Lands(s, u, text, ns, next, u.next) && !u.flags.strict
    requires 0 <= u.next < |text| && text[u.next] == ',' && MembersAhead(text, u.next + 1, end, ns, next, hi, keyed, st)
    ensures Lands(s, t, text, ns, hi, end) && !t.flags.strict
  {
    assert Loosen(u) == u;
    var v := CommaReads(u, text, ns, next, keyed);
    t := MembersRead(v, text, ns, next, hi, keyed, st, end);
    assert Loosen(t) == t;
    ReadOn(Loosen(s), u, v, t, text, ns, next, hi);
    LeadsOn(s, u, v);
    LeadsOn(s, v, t);
  }

  // Behind a scalar, with a comma ahead.
  lemma {:induction false} StrictMore(s: State, u: State, text: string, ns: seq<JsonNode>, next: int, hi: int, keyed: bool, st: Style, end: int)
    returns (t: State)
    requires 0 <= next < hi && Inv(s) && s.parent >= 0 && s.kind == (if keyed then Object else Array)
    requires Lands(s, u, text, ns, next, u.next) && u.flags.strict && !u.flags.val && !u.flags.key
    requires 0 <= u.next < |text| && text[u.next] == ',' && MembersAhead(text, u.next + 1, end, ns, next, hi, keyed, st)
    ensures if StrictMembers(ns, next, hi, keyed, st)
      then Lands(s, t, text, ns, hi, end) && (t.flags.strict ==> !t.flags.val && !t.flags.key)
      else Fails(s)
    decreases |ns| - next, 6
  {
    var l := CommaStepped(Loosen(u), text, ns, next, keyed);
    var v := StrictComma(u, l);
    t := StrictMembersRead(v, text, ns, next, hi, keyed, st, end);
    LeadsOn(s, u, v);
    if StrictMembers(ns, next, hi, keyed, st) {
      ReadOn(Loosen(s), Loosen(u), Loosen(v), Loosen(t), text, ns, next, hi);
      LeadsOn(s, v, t);
    } else {
      FailsBack(s, v);
    }
  }

  // ------------------------------------------------------------------ documents

  /** Strict mode takes a printed document back if and only if it takes its values; then it gives the same document. */
  lemma StrictRoundTripIff(ns: seq<JsonNode>, st: Style)
    requires IsDocument(ns)
    ensures Whole(ns, 0)
    ensures var r := Run(Start(NodeText(ns, 0, st) + [NUL], true));
      (Accepted(r) <==> StrictTakes(ns, 0, st)) && (Accepted(r) ==> Document(r) == ns)
  {
    PrintableNested(ns, 0);
    var text := NodeText(ns, 0, st) + [NUL];
    var s := Start(text, true);
    var t := StrictNode(s, text, ns, 0, st, |text| - 1);
    if StrictTakes(ns, 0, st) {
      EndReached(t);
      assert Ends(t, t);
      Decoded(t, ns);
    }
  }

  lemma ExampleText(ns: seq<JsonNode>, st: Style)
    requires ns == [JsonNode(None, None, Array, 2), JsonNode(None, Some("a"), String, 2)] && st == Style(true, true, true)
    ensures Whole(ns, 0) && NodeText(ns, 0, st) == "[\"a\"]"
  {
    assert Escape("a", 1, st) == "" && Escape("a", 0, st) == "a";
    assert MembersText(ns, 2, 2, false, st) == "";
    assert NodeText(ns, 1, st) == "\"a\"";
    assert MembersText(ns, 1, 2, false, st) == "\"a\"";
  }

  /** For one: an array of a string is refused. */
  lemma StringInArray()
    ensures !Accepted(Run(Start("[\"a\"]" + [NUL], true)))
  {
    var ns := [JsonNode(None, None, Array, 2), JsonNode(None, Some("a"), String, 2)];
    var st := Style(true, true, true);
    ExampleText(ns, st);
    assert PrintableMembers(ns, 2, 2, false) && Printable(ns, 1) && PrintableMembers(ns, 1, 2, false);
    StrictRoundTripIff(ns, st);
    assert !StrictMembers(ns, 1, 2, false, st);
  }
}
