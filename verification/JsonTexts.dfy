/** JSON texts (RFC 8259): a grammar, and a stack automaton that accepts exactly its texts. */
module JsonTexts {
  import opened Basics
  import J = JsonCloser

  // ---------------------------------------------------------------- tokens

  predicate IsBlank(c: char) { c == ' ' || c == '\t' || c == '\n' || c == '\r' }

  predicate Blank(s: string) {
    forall i :: 0 <= i < |s| ==> IsBlank(s[i])
  }

  predicate IsDigit(c: char) { '0' <= c <= '9' }

  predicate IsHex(c: char) { IsDigit(c) || 'a' <= c <= 'f' || 'A' <= c <= 'F' }

  predicate IsEscape(c: char) {
    c == '"' || c == '\\' || c == '/' || c == 'b' || c == 'f' || c == 'n' || c == 'r' || c == 't'
  }

  predicate IsUnescaped(c: char) { ' ' <= c && c != '"' && c != '\\' }

  /** The inside of a string literal, section 7 of RFC 8259. */
  predicate IsText(b: string) {
    || b == []
    || (IsUnescaped(b[0]) && IsText(b[1..]))
    || (|b| >= 2 && b[0] == '\\' && IsEscape(b[1]) && IsText(b[2..]))
    || (|b| >= 6 && b[0] == '\\' && b[1] == 'u' && IsHex(b[2]) && IsHex(b[3]) && IsHex(b[4]) && IsHex(b[5])
        && IsText(b[6..]))
  }

  /** The number of leading digits. */
  function DigitRun(x: string): nat {
    if x != [] && IsDigit(x[0]) then 1 + DigitRun(x[1..]) else 0
  }

  lemma {:induction false} DigitRunIs(x: string)
    ensures DigitRun(x) <= |x| && forall i :: 0 <= i < DigitRun(x) ==> IsDigit(x[i])
  {
    if x != [] && IsDigit(x[0]) { DigitRunIs(x[1..]); }
  }

  predicate IsExponent(x: string) {
    || x == []
    || (|x| >= 2 && (x[0] == 'e' || x[0] == 'E')
        && var digits := if x[1] == '+' || x[1] == '-' then x[2..] else x[1..];
           digits != [] && DigitRun(digits) == |digits|)
  }

  predicate IsFraction(x: string) {
    if x != [] && x[0] == '.' then
      var n := DigitRun(x[1..]);
      1 <= n < |x| && IsExponent(x[1 + n..])
    else IsExponent(x)
  }

  predicate IsUnsigned(x: string) {
    var n := DigitRun(x);
    1 <= n <= |x| && (x[0] == '0' ==> n == 1) && IsFraction(x[n..])
  }

  /** The three literal names and the numbers, sections 3 and 6 of RFC 8259. */
  predicate IsScalar(x: string) {
    || x == "true" || x == "false" || x == "null"
    || IsUnsigned(x) || (x != [] && x[0] == '-' && IsUnsigned(x[1..]))
  }

  predicate Digits(s: string) {
    s != [] && forall i :: 0 <= i < |s| ==> IsDigit(s[i])
  }

  /** The three parts of a number as section 6 of RFC 8259 writes them: int, [ frac ], [ exp ]. */
  predicate IsInt(s: string) { Digits(s) && (s[0] == '0' ==> |s| == 1) }

  predicate IsFrac(s: string) { s == [] || (s[0] == '.' && Digits(s[1..])) }

  predicate IsExp(s: string) {
    s == [] || ((s[0] == 'e' || s[0] == 'E')
                && (Digits(s[1..]) || (|s| > 1 && (s[1] == '+' || s[1] == '-') && Digits(s[2..]))))
  }

  lemma {:induction false} DigitRunOf(d: string, rest: string)
    requires (forall i :: 0 <= i < |d| ==> IsDigit(d[i])) && (rest == [] || !IsDigit(rest[0]))
    ensures DigitRun(d + rest) == |d|
  {
    if d == [] {
      assert d + rest == rest;
    } else {
      assert (d + rest)[1..] == d[1..] + rest;
      DigitRunOf(d[1..], rest);
    }
  }

  lemma ExponentIff(x: string)
    ensures IsExponent(x) <==> IsExp(x)
  {
    if |x| >= 2 {
      DigitRunIs(x[1..]);
      DigitRunIs(x[2..]);
      if Digits(x[1..]) { assert IsDigit(x[1..][0]); assert x[1..] + [] == x[1..]; DigitRunOf(x[1..], []); }
      if Digits(x[2..]) { assert x[2..] + [] == x[2..]; DigitRunOf(x[2..], []); }
    }
  }

  lemma FractionIff(x: string)
    ensures IsFraction(x) <==> exists f, e :: x == f + e && IsFrac(f) && IsExp(e)
  {
    if IsFraction(x) {
      var n := if x != [] && x[0] == '.' then 1 + DigitRun(x[1..]) else 0;
      if n > 0 { DigitRunIs(x[1..]); }
      assert x == x[..n] + x[n..];
      ExponentIff(x[n..]);
      assert n > 0 ==> x[..n][1..] == x[1..][..n - 1];
      assert IsFrac(x[..n]) && IsExp(x[n..]);
    }
    if f, e :| x == f + e && IsFrac(f) && IsExp(e) {
      ExponentIff(e);
      if f == [] {
        assert x == e;
      } else {
        assert x[1..] == f[1..] + e;
        DigitRunOf(f[1..], e);
        assert x[1 + |f[1..]|..] == e;
      }
    }
  }

  /** The number recogniser accepts exactly the numbers of the standard's grammar. */
  lemma UnsignedIff(x: string)
    ensures IsUnsigned(x) <==> exists i, f, e :: NumberParts(x, i, f, e)
  {
    if IsUnsigned(x) { var i, f, e := SplitNumber(x); }
    if i, f, e :| NumberParts(x, i, f, e) { JoinNumber(x, i, f, e); }
  }

  predicate NumberParts(x: string, i: string, f: string, e: string) {
    x == i + (f + e) && IsInt(i) && IsFrac(f) && IsExp(e)
  }

  lemma SplitNumber(x: string) returns (i: string, f: string, e: string)
    requires IsUnsigned(x)
    ensures NumberParts(x, i, f, e)
  {
    hide IsFraction, IsFrac, IsExp;
    var n := DigitRun(x);
    DigitRunIs(x);
    FractionIff(x[n..]);
    i := x[..n];
    f, e :| x[n..] == f + e && IsFrac(f) && IsExp(e);
  }

  lemma JoinNumber(x: string, i: string, f: string, e: string)
    requires NumberParts(x, i, f, e)
    ensures IsUnsigned(x)
  {
    NoLeadingDigit(f, e);
    hide IsFraction, IsFrac, IsExp, DigitRun;
    DigitRunOf(i, f + e);
    assert x[|i|..] == f + e;
    FractionIff(f + e);
  }

  lemma NoLeadingDigit(f: string, e: string)
    requires IsFrac(f) && IsExp(e)
    ensures f + e == [] || !IsDigit((f + e)[0])
  {}

  predicate IsScalarChar(c: char) {
    IsDigit(c) || 'a' <= c <= 'z' || 'A' <= c <= 'Z' || c == '+' || c == '-' || c == '.'
  }

  predicate ScalarChars(x: string) {
    forall i :: 0 <= i < |x| ==> IsScalarChar(x[i])
  }

  lemma DigitsScalar(x: string, n: nat)
    requires n <= DigitRun(x) && n <= |x| && ScalarChars(x[n..])
    ensures ScalarChars(x)
  {
    DigitRunIs(x);
    forall i | 0 <= i < |x| ensures IsScalarChar(x[i]) {
      if i >= n { assert x[i] == x[n..][i - n]; }
    }
  }

  lemma ExponentScalar(x: string)
    requires IsExponent(x)
    ensures ScalarChars(x)
  {
    if x != [] {
      var k := if x[1] == '+' || x[1] == '-' then 2 else 1;
      var digits := x[k..];
      assert digits[|digits|..] == [];
      DigitsScalar(digits, |digits|);
      forall i | 0 <= i < |x| ensures IsScalarChar(x[i]) {
        if i >= k { assert x[i] == digits[i - k]; }
      }
    }
  }

  lemma FractionScalar(x: string)
    requires IsFraction(x)
    ensures ScalarChars(x)
  {
    if x != [] && x[0] == '.' {
      var tail := x[1..];
      var n := DigitRun(tail);
      assert tail[n..] == x[1 + n..];
      ExponentScalar(tail[n..]);
      DigitsScalar(tail, n);
      forall i | 0 <= i < |x| ensures IsScalarChar(x[i]) {
        if i >= 1 { assert x[i] == tail[i - 1]; }
      }
    } else {
      ExponentScalar(x);
    }
  }

  lemma UnsignedScalar(x: string)
    requires IsUnsigned(x)
    ensures ScalarChars(x)
  {
    FractionScalar(x[DigitRun(x)..]);
    DigitsScalar(x, DigitRun(x));
  }

  lemma ScalarIsScalarChars(x: string)
    requires IsScalar(x)
    ensures x != [] && ScalarChars(x)
  {
    if IsUnsigned(x) {
      UnsignedScalar(x);
    } else if x[0] == '-' {
      UnsignedScalar(x[1..]);
      forall i | 0 <= i < |x| ensures IsScalarChar(x[i]) {
        if i >= 1 { assert x[i] == x[1..][i - 1]; }
      }
    }
  }

  // ---------------------------------------------------------------- the grammar

  datatype Json =
    | Str(body: string)
    | Scalar(text: string)
    | Nest(open: char, items: Items)

  /** The inside of an array or object: blanks only, or a comma-separated list. */
  datatype Items =
    | Hollow(ws: string)
    | Snoc(front: Items, lead: Lead, pre: string, value: Json, post: string)

  /** What stands before an entry's value: nothing in an array, a key and its colon in an object. */
  datatype Lead =
    | NoKey
    | Keyed(pre: string, key: string, post: string)

  function Literal(body: string): string {
    ['"'] + body + ['"']
  }

  function LeadText(lead: Lead): string {
    match lead
    case NoKey => []
    case Keyed(pre, key, post) => pre + Literal(key) + post + [':']
  }

  function Render(v: Json): string {
    match v
    case Str(body) => Literal(body)
    case Scalar(text) => text
    case Nest(open, items) => [open] + RenderItems(items) + [J.Closer(open)]
  }

  function RenderItems(items: Items): string {
    match items
    case Hollow(ws) => ws
    case Snoc(front, lead, pre, value, post) =>
      (if front.Hollow? then [] else RenderItems(front) + [',']) + LeadText(lead) + pre + Render(value) + post
  }

  /** The entries that stand before another one, with their commas. */
  function Before(front: Items): string {
    if front.Hollow? then [] else RenderItems(front) + [',']
  }

  predicate ValidLead(lead: Lead) {
    lead.Keyed? ==> Blank(lead.pre) && IsText(lead.key) && Blank(lead.post)
  }

  predicate Valid(v: Json)
    decreases v
  {
    match v
    case Str(body) => IsText(body)
    case Scalar(text) => IsScalar(text)
    case Nest(open, items) => J.IsOpen(open) && ValidItems(open, items)
  }

  predicate ValidItems(open: char, items: Items)
    decreases items
  {
    match items
    case Hollow(ws) => Blank(ws)
    case Snoc(front, lead, pre, value, post) =>
      && ValidItems(open, front) && (front.Hollow? ==> front.ws == [])
      && (lead.Keyed? <==> open == '{') && ValidLead(lead)
      && Blank(pre) && Valid(value) && Blank(post)
  }

  predicate Spells(s: string, pre: string, v: Json, post: string) {
    Blank(pre) && Valid(v) && Blank(post) && s == pre + Render(v) + post
  }

  ghost predicate IsJson(s: string) {
    exists pre, v, post :: Spells(s, pre, v, post)
  }

  // ---------------------------------------------------------------- the automaton

  datatype Lex = Bare | Escape | Hex(digits: nat)

  datatype Mode =
    | Value
    | First
    | Key
    | Colon
    | After
    | InText(key: bool, lex: Lex)
    | InScalar(text: string)

  datatype State = State(stack: seq<char>, mode: Mode)

  const START := State([], Value)

  function LexStep(lex: Lex, c: char): Option<Lex> {
    match lex
    case Bare => if c == '\\' then Some(Escape) else if IsUnescaped(c) then Some(Bare) else None
    case Escape => if c == 'u' then Some(Hex(0)) else if IsEscape(c) then Some(Bare) else None
    case Hex(n) => if !IsHex(c) then None else if n < 3 then Some(Hex(n + 1)) else Some(Bare)
  }

  function StepAfter(stack: seq<char>, c: char): Option<State> {
    if IsBlank(c) then Some(State(stack, After))
    else if stack == [] then None
    else
      var top := stack[|stack| - 1];
      if c == ',' then Some(State(stack, if top == '{' then Key else Value))
      else if c == J.Closer(top) then Some(State(stack[..|stack| - 1], After))
      else None
  }

  function StepValue(stack: seq<char>, c: char): Option<State> {
    if c == '"' then Some(State(stack, InText(false, Bare)))
    else if J.IsOpen(c) then Some(State(stack + [c], First))
    else if IsScalarChar(c) then Some(State(stack, InScalar([c])))
    else None
  }

  function StepKey(stack: seq<char>, c: char): Option<State> {
    if c == '"' then Some(State(stack, InText(true, Bare))) else None
  }

  function Step(q: State, c: char): Option<State> {
    match q.mode
    case Value => if IsBlank(c) then Some(q) else StepValue(q.stack, c)
    case First =>
      if IsBlank(c) then Some(q)
      else if q.stack == [] then None
      else if c == J.Closer(q.stack[|q.stack| - 1]) then Some(State(q.stack[..|q.stack| - 1], After))
      else if q.stack[|q.stack| - 1] == '{' then StepKey(q.stack, c)
      else StepValue(q.stack, c)
    case Key => if IsBlank(c) then Some(q) else StepKey(q.stack, c)
    case Colon => if IsBlank(c) then Some(q) else if c == ':' then Some(State(q.stack, Value)) else None
    case After => StepAfter(q.stack, c)
    case InText(key, lex) =>
      if lex.Bare? && c == '"' then Some(State(q.stack, if key then Colon else After))
      else
        var next := LexStep(lex, c);
        if next.None? then None else Some(State(q.stack, InText(key, next.value)))
    case InScalar(x) =>
      if IsScalarChar(c) then Some(State(q.stack, InScalar(x + [c])))
      else if IsScalar(x) then StepAfter(q.stack, c)
      else None
  }

  function Run(q: State, s: string): Option<State> {
    if s == [] then Some(q)
    else
      match Run(q, s[..|s| - 1])
      case None => None
      case Some(mid) => Step(mid, s[|s| - 1])
  }

  /** A complete value stands before the cursor. */
  predicate Ended(mode: Mode) {
    mode.After? || (mode.InScalar? && IsScalar(mode.text))
  }

  predicate Accepts(s: string) {
    var q := Run(START, s);
    q.Some? && q.value.stack == [] && Ended(q.value.mode)
  }

  predicate Leads(q: State, s: string, q': State) {
    Run(q, s) == Some(q')
  }

  lemma {:induction false} RunAppend(q: State, a: string, b: string)
    ensures Run(q, a + b) == match Run(q, a) case None => None case Some(mid) => Run(mid, b)
    decreases |b|
  {
    if b == [] {
      assert a + b == a;
    } else {
      var front := b[..|b| - 1];
      assert (a + b)[..|a + b| - 1] == a + front;
      RunAppend(q, a, front);
    }
  }

  lemma Then(q: State, a: string, mid: State, b: string, q': State)
    requires Leads(q, a, mid) && Leads(mid, b, q')
    ensures Leads(q, a + b, q')
  {
    RunAppend(q, a, b);
  }

  lemma RunOne(q: State, c: char)
    ensures Run(q, [c]) == Step(q, c)
  {
    assert [c][..0] == [];
  }

  lemma RunSnoc(q: State, s: string, c: char)
    ensures Run(q, s + [c]) == match Run(q, s) case None => None case Some(mid) => Step(mid, c)
  {
    assert (s + [c])[..|s|] == s;
  }

  // ---------------------------------------------------------------- every text of the grammar is accepted

  predicate Idle(mode: Mode) {
    mode.Value? || mode.First? || mode.Key? || mode.Colon? || mode.After?
  }

  lemma {:induction false} RunBlank(q: State, ws: string)
    requires Blank(ws) && Idle(q.mode)
    ensures Leads(q, ws, q)
  {
    if ws != [] {
      RunBlank(q, ws[..|ws| - 1]);
    }
  }

  /** Blanks after a complete value. */
  lemma {:induction false} RunPost(stack: seq<char>, mode: Mode, ws: string) returns (mode': Mode)
    requires Blank(ws) && Ended(mode)
    ensures Ended(mode') && Leads(State(stack, mode), ws, State(stack, mode'))
  {
    mode' := mode;
    if ws != [] {
      var mid := RunPost(stack, mode, ws[..|ws| - 1]);
      mode' := After;
    }
  }

  /** After a complete value, whatever cannot prolong it acts as after a closed one. */
  lemma EndedStep(stack: seq<char>, mode: Mode, c: char)
    requires Ended(mode) && !IsScalarChar(c)
    ensures Step(State(stack, mode), c) == StepAfter(stack, c)
  {}

  lemma RunEscape(stack: seq<char>, key: bool, c: char)
    requires IsEscape(c)
    ensures Leads(State(stack, InText(key, Bare)), ['\\', c], State(stack, InText(key, Bare)))
  {
    var q := State(stack, InText(key, Bare));
    assert ['\\', c] == ['\\'] + [c];
    RunSnoc(q, ['\\'], c);
    RunOne(q, '\\');
  }

  lemma RunHex(stack: seq<char>, key: bool, u: string)
    requires |u| == 6 && u[0] == '\\' && u[1] == 'u' && IsHex(u[2]) && IsHex(u[3]) && IsHex(u[4]) && IsHex(u[5])
    ensures Leads(State(stack, InText(key, Bare)), u, State(stack, InText(key, Bare)))
  {
    var q := State(stack, InText(key, Bare));
    assert Run(q, u[..0]) == Some(q);
    for i := 0 to 6
      invariant Run(q, u[..i]) ==
                Some(State(stack,
                    InText(key, if i == 0 || i == 6 then Bare else if i == 1 then Escape else Hex(i - 2))))
    {
      RunSnoc(q, u[..i], u[i]);
      assert u[..i + 1] == u[..i] + [u[i]];
    }
    assert u[..6] == u;
  }

  lemma {:induction false} RunText(stack: seq<char>, key: bool, b: string)
    requires IsText(b)
    ensures Leads(State(stack, InText(key, Bare)), b, State(stack, InText(key, Bare)))
    decreases |b|
  {
    var q := State(stack, InText(key, Bare));
    if b != [] {
      var k := if b[0] != '\\' then 1 else if b[1] == 'u' then 6 else 2;
      assert b == b[..k] + b[k..];
      RunText(stack, key, b[k..]);
      if k == 1 {
        assert b[..1] == [b[0]];
        RunOne(q, b[0]);
      } else if k == 6 {
        RunHex(stack, key, b[..6]);
      } else {
        assert b[..2] == ['\\', b[1]];
        RunEscape(stack, key, b[1]);
      }
      hide Run;
      Then(q, b[..k], q, b[k..], q);
    }
  }

  predicate StartsValue(q: State) {
    q.mode.Value? || (q.mode.First? && q.stack != [] && q.stack[|q.stack| - 1] == '[')
  }

  predicate StartsKey(q: State) {
    q.mode.Key? || (q.mode.First? && q.stack != [] && q.stack[|q.stack| - 1] == '{')
  }

  lemma {:induction false} RunScalar(q: State, x: string)
    requires StartsValue(q) && x != [] && ScalarChars(x)
    ensures Leads(q, x, State(q.stack, InScalar(x)))
  {
    hide IsScalar;
    var front, c := x[..|x| - 1], x[|x| - 1];
    assert x == front + [c];
    assert IsScalarChar(c) && ScalarChars(front);
    hide Run;
    if front == [] {
      assert x == [c];
      RunOne(q, c);
    } else {
      RunScalar(q, front);
      RunSnoc(q, front, c);
    }
  }

  lemma RunLiteral(q: State, key: bool, body: string)
    requires IsText(body) && if key then StartsKey(q) else StartsValue(q)
    ensures Leads(q, Literal(body), State(q.stack, if key then Colon else After))
  {
    var within, done := State(q.stack, InText(key, Bare)), State(q.stack, if key then Colon else After);
    RunOne(q, '"');
    RunText(q.stack, key, body);
    RunOne(within, '"');
    hide Run, Step;
    Then(q, ['"'], within, body, within);
    Then(q, ['"'] + body, within, ['"'], done);
  }

  lemma RunLead(q: State, lead: Lead)
    requires ValidLead(lead) && if lead.Keyed? then StartsKey(q) else StartsValue(q)
    ensures Leads(q, LeadText(lead), if lead.Keyed? then State(q.stack, Value) else q)
  {
    if lead.Keyed? {
      var colon, value := State(q.stack, Colon), State(q.stack, Value);
      RunBlank(q, lead.pre);
      RunLiteral(q, true, lead.key);
      RunBlank(colon, lead.post);
      RunOne(colon, ':');
      hide Run, Step;
      Then(q, lead.pre, q, Literal(lead.key), colon);
      Then(q, lead.pre + Literal(lead.key), colon, lead.post, colon);
      Then(q, lead.pre + Literal(lead.key) + lead.post, colon, [':'], value);
    }
  }

  lemma {:induction false} RunValue(q: State, v: Json) returns (mode: Mode)
    requires StartsValue(q) && Valid(v)
    ensures Ended(mode) && Leads(q, Render(v), State(q.stack, mode))
    decreases v, 0
  {
    match v
    case Str(body) =>
      RunLiteral(q, false, body);
      mode := After;
    case Scalar(text) =>
      ScalarIsScalarChars(text);
      RunScalar(q, text);
      mode := InScalar(text);
    case Nest(open, items) =>
      mode := After;
      var inside := q.stack + [open];
      RunOne(q, open);
      var last := RunItems(inside, items);
      var close := J.Closer(open);
      assert inside[..|inside| - 1] == q.stack;
      RunOne(State(inside, last), close);
      if !items.Hollow? { EndedStep(inside, last, close); }
      hide Run, Step, RenderItems, Ended;
      Then(q, [open], State(inside, First), RenderItems(items), State(inside, last));
      Then(q, [open] + RenderItems(items), State(inside, last), [close], State(q.stack, After));
  }

  lemma {:induction false} RunItems(stack: seq<char>, items: Items) returns (mode: Mode)
    requires stack != [] && J.IsOpen(stack[|stack| - 1]) && ValidItems(stack[|stack| - 1], items)
    ensures if items.Hollow? then mode == First else Ended(mode)
    ensures Leads(State(stack, First), RenderItems(items), State(stack, mode))
    decreases items, 0
  {
    var q := State(stack, First);
    match items
    case Hollow(ws) =>
      RunBlank(q, ws);
      mode := First;
    case Snoc(front, lead, pre, value, post) =>
      var at := RunFront(stack, front);
      RunLead(at, lead);
      var ready := if lead.Keyed? then State(stack, Value) else at;
      RunBlank(ready, pre);
      var mid := RunValue(ready, value);
      mode := RunPost(stack, mid, post);
      assert RenderItems(items) == Before(front) + LeadText(lead) + pre + Render(value) + post;
      hide Run, Step, RenderItems, Render, Before, LeadText, Valid, ValidItems, Ended;
      Then(q, Before(front), at, LeadText(lead), ready);
      Then(q, Before(front) + LeadText(lead), ready, pre, ready);
      Then(q, Before(front) + LeadText(lead) + pre, ready, Render(value), State(stack, mid));
      Then(q, Before(front) + LeadText(lead) + pre + Render(value), State(stack, mid), post, State(stack, mode));
  }

  /** Past the earlier entries and their comma, the next one may start. */
  lemma {:induction false} RunFront(stack: seq<char>, front: Items) returns (at: State)
    requires stack != [] && J.IsOpen(stack[|stack| - 1]) && ValidItems(stack[|stack| - 1], front)
    ensures at.stack == stack && Idle(at.mode) && Leads(State(stack, First), Before(front), at)
    ensures if stack[|stack| - 1] == '{' then StartsKey(at) else StartsValue(at)
    decreases front, 1
  {
    var q := State(stack, First);
    if front.Hollow? {
      at := q;
    } else {
      var mid := RunItems(stack, front);
      at := State(stack, if stack[|stack| - 1] == '{' then Key else Value);
      EndedStep(stack, mid, ',');
      RunOne(State(stack, mid), ',');
      hide Run, Step, RenderItems;
      Then(q, RenderItems(front), State(stack, mid), [','], at);
    }
  }

  lemma JsonIsAccepted(s: string)
    requires IsJson(s)
    ensures Accepts(s)
  {
    var pre, v, post :| Spells(s, pre, v, post);
    RunBlank(START, pre);
    var mid := RunValue(START, v);
    var mode := RunPost([], mid, post);
    hide Run, Step, Render, Valid;
    Then(START, pre, START, Render(v), State([], mid));
    Then(START, pre + Render(v), State([], mid), post, State([], mode));
  }

  // ---------------------------------------------------------------- every accepted text is in the grammar

  /** Where a value (or, in an object without a `lead` yet, a key) may start: the open groups with their earlier
      entries. */
  datatype Context =
    | Top
    | Inside(outer: Context, pre: string, open: char, front: Items, lead: Lead)

  /** Where in a text the cursor stands. */
  datatype Spot =
    | AtStart(context: Context, ws: string)
    | InLiteral(context: Context, ws: string, done: string, tail: string)
    | InAtom(context: Context, ws: string, text: string)
    | AtColon(context: Context, ws: string, key: string, post: string)
    | AtEnd(context: Context, ws: string, value: Json, post: string)

  function ContextText(k: Context): string {
    match k
    case Top => []
    case Inside(outer, pre, open, front, lead) => ContextText(outer) + pre + [open] + Before(front) + LeadText(lead)
  }

  function Opens(k: Context): seq<char> {
    match k
    case Top => []
    case Inside(outer, _, open, _, _) => Opens(outer) + [open]
  }

  predicate AwaitsKey(k: Context) {
    k.Inside? && k.open == '{' && k.lead.NoKey?
  }

  predicate ValidContext(k: Context) {
    match k
    case Top => true
    case Inside(outer, pre, open, front, lead) =>
      && ValidContext(outer) && !AwaitsKey(outer) && Blank(pre) && J.IsOpen(open)
      && ValidItems(open, front) && (front.Hollow? ==> front.ws == [])
      && (lead.Keyed? ==> open == '{') && ValidLead(lead)
  }

  /** The piece of an escape sequence that has been read. */
  predicate IsTail(tail: string) {
    || tail == [] || tail == ['\\']
    || (2 <= |tail| < 6 && tail[0] == '\\' && tail[1] == 'u' && forall i :: 2 <= i < |tail| ==> IsHex(tail[i]))
  }

  function LexOf(tail: string): Lex {
    if tail == [] then Bare else if |tail| == 1 then Escape else Hex(|tail| - 2)
  }

  function StartMode(k: Context): Mode {
    if k.Top? || k.lead.Keyed? then Value
    else if k.front.Hollow? then First
    else if k.open == '{' then Key
    else Value
  }

  function SpotText(p: Spot): string {
    ContextText(p.context) + p.ws +
    match p
    case AtStart(_, _) => []
    case InLiteral(_, _, done, tail) => ['"'] + done + tail
    case InAtom(_, _, text) => text
    case AtColon(_, _, key, post) => Literal(key) + post
    case AtEnd(_, _, value, post) => Render(value) + post
  }

  function SpotMode(p: Spot): Mode {
    match p
    case AtStart(k, _) => StartMode(k)
    case InLiteral(k, _, _, tail) => InText(AwaitsKey(k), LexOf(tail))
    case InAtom(_, _, text) => InScalar(text)
    case AtColon(_, _, _, _) => Colon
    case AtEnd(_, _, _, _) => After
  }

  predicate ValidSpot(p: Spot) {
    && ValidContext(p.context) && Blank(p.ws)
    && match p
       case AtStart(_, _) => true
       case InLiteral(_, _, done, tail) => IsText(done) && IsTail(tail)
       case InAtom(k, _, _) => !AwaitsKey(k)
       case AtColon(k, _, key, post) => AwaitsKey(k) && IsText(key) && Blank(post)
       case AtEnd(k, _, value, post) => !AwaitsKey(k) && Valid(value) && Blank(post)
  }

  /** `p` is where `s` ends, and the automaton knows. */
  predicate Stands(p: Spot, s: string, q: State) {
    ValidSpot(p) && SpotText(p) == s && q == State(Opens(p.context), SpotMode(p))
  }

  lemma {:induction false} TextAppend(a: string, b: string)
    requires IsText(a) && IsText(b)
    ensures IsText(a + b)
    decreases |a|
  {
    if a == [] {
      assert a + b == b;
    } else {
      var k := if a[0] != '\\' then 1 else if a[1] == 'u' then 6 else 2;
      assert (a + b)[k..] == a[k..] + b;
      TextAppend(a[k..], b);
    }
  }

  lemma Glue(a: string, b: string, c: string)
    ensures a + b + c == a + (b + c)
  {}

  lemma OpenAt(k: Context, ws: string, c: char)
    requires ValidContext(k) && !AwaitsKey(k) && Blank(ws) && J.IsOpen(c)
    ensures Stands(AtStart(Inside(k, ws, c, Hollow([]), NoKey), []), ContextText(k) + ws + [c],
            State(Opens(k) + [c], First))
  {
    assert Before(Hollow([])) == [] && LeadText(NoKey) == [];
  }

  lemma HollowAt(k: Context, ws: string)
    requires ValidContext(k) && k.Inside? && k.lead.NoKey? && k.front.Hollow? && Blank(ws)
    ensures Stands(AtEnd(k.outer, k.pre, Nest(k.open, Hollow(ws)), []), ContextText(k) + ws + [J.Closer(k.open)],
            State(Opens(k.outer), After))
  {
    var c := J.Closer(k.open);
    assert ContextText(k) == ContextText(k.outer) + k.pre + [k.open] + [] + [];
    HollowText(ContextText(k.outer), k.pre, [k.open], ws, [c]);
    assert Render(Nest(k.open, Hollow(ws))) == [k.open] + ws + [c];
  }

  lemma HollowText(a: string, b: string, o: string, ws: string, c: string)
    ensures a + b + o + [] + [] + ws + c == a + b + (o + ws + c + [])
  {}

  lemma LiteralAt(k: Context, ws: string)
    requires ValidContext(k) && Blank(ws)
    ensures Stands(InLiteral(k, ws, [], []), ContextText(k) + ws + ['"'], State(Opens(k), InText(AwaitsKey(k), Bare)))
  {
    assert ['"'] + [] + [] == ['"'];
  }

  lemma StartTop(k: Context)
    ensures k.Inside? ==>
            Opens(k) != [] && Opens(k)[|Opens(k)| - 1] == k.open && Opens(k)[..|Opens(k)| - 1] == Opens(k.outer)
  {}

  lemma NextStart(p: Spot, s: string, q: State, c: char) returns (p': Spot)
    requires p.AtStart? && Stands(p, s, q) && Step(q, c).Some?
    ensures Stands(p', s + [c], Step(q, c).value)
  {
    var k := p.context;
    StartTop(k);
    assert s == ContextText(k) + p.ws;
    if IsBlank(c) {
      p' := AtStart(k, p.ws + [c]);
    } else if q.mode.First? && c == J.Closer(k.open) {
      HollowAt(k, p.ws);
      p' := AtEnd(k.outer, k.pre, Nest(k.open, Hollow(p.ws)), []);
    } else {
      hide Opens, ContextText, ValidContext, Stands;
      if c == '"' {
        LiteralAt(k, p.ws);
        p' := InLiteral(k, p.ws, [], []);
      } else if J.IsOpen(c) {
        OpenAt(k, p.ws, c);
        p' := AtStart(Inside(k, p.ws, c, Hollow([]), NoKey), []);
      } else {
        AtomAt(k, p.ws, c);
        p' := InAtom(k, p.ws, [c]);
      }
    }
  }

  lemma AtomAt(k: Context, ws: string, c: char)
    requires ValidContext(k) && !AwaitsKey(k) && Blank(ws)
    ensures Stands(InAtom(k, ws, [c]), ContextText(k) + ws + [c], State(Opens(k), InScalar([c])))
  {}

  lemma HexText(u: string)
    requires |u| == 6 && u[0] == '\\' && u[1] == 'u' && forall i :: 2 <= i < 6 ==> IsHex(u[i])
    ensures IsText(u)
  {
    assert u[6..] == [] && IsText([]);
  }

  lemma TailStep(tail: string, c: char)
    requires IsTail(tail) && LexStep(LexOf(tail), c).Some?
    ensures var next := LexStep(LexOf(tail), c).value;
            if next.Bare? then IsText(tail + [c]) else IsTail(tail + [c]) && LexOf(tail + [c]) == next
  {
    var longer := tail + [c];
    if tail == [] {
      assert longer == [c];
      assert IsText([]) && [c][1..] == [];
    } else if |tail| == 1 {
      assert longer == ['\\', c];
      assert IsText([]) && longer[2..] == [];
    } else if |tail| == 5 {
      HexText(longer);
    }
  }

  lemma LiteralText(a: string, done: string, tail: string, c: char)
    ensures a + (['"'] + done + tail) + [c] == a + (['"'] + done + (tail + [c]))
    ensures a + (['"'] + done + tail) + [c] == a + (['"'] + (done + (tail + [c])) + [])
    ensures a + (['"'] + done + []) + ['"'] == a + (['"'] + done + ['"'] + [])
  {}

  lemma NextLiteral(p: Spot, s: string, q: State, c: char) returns (p': Spot)
    requires p.InLiteral? && Stands(p, s, q) && Step(q, c).Some?
    ensures Stands(p', s + [c], Step(q, c).value)
  {
    hide Opens, ContextText, ValidContext, IsText, IsTail, LexOf, LexStep;
    var k, a := p.context, ContextText(p.context) + p.ws;
    LiteralText(a, p.done, p.tail, c);
    EmptyTail(p.tail);
    if p.tail == [] && c == '"' {
      p' := if AwaitsKey(k) then AtColon(k, p.ws, p.done, []) else AtEnd(k, p.ws, Str(p.done), []);
      assert SpotText(p') == a + (['"'] + p.done + ['"'] + []);
    } else {
      TailStep(p.tail, c);
      if LexStep(LexOf(p.tail), c).value.Bare? {
        TextAppend(p.done, p.tail + [c]);
        EmptyTail([]);
        p' := InLiteral(k, p.ws, p.done + (p.tail + [c]), []);
      } else {
        p' := InLiteral(k, p.ws, p.done, p.tail + [c]);
      }
    }
  }

  lemma EmptyTail(tail: string)
    ensures LexOf(tail).Bare? <==> tail == []
    ensures IsTail([])
  {}

  lemma ColonText(a: string, ws: string, key: string, post: string)
    ensures a + ws + (key + post) + [':'] == a + (ws + key + post + [':']) + [] + []
  {}

  /** After the colon a value may start. */
  lemma KeyAt(k: Context, ws: string, key: string, post: string)
    requires ValidContext(k) && AwaitsKey(k) && Blank(ws) && IsText(key) && Blank(post)
    ensures Stands(AtStart(k.(lead := Keyed(ws, key, post)), []), ContextText(k) + ws + (Literal(key) + post) + [':'],
                   State(Opens(k), Value))
  {
    hide IsText, ValidItems, Literal;
    var lead := Keyed(ws, key, post);
    var base := ContextText(k.outer) + k.pre + [k.open] + Before(k.front);
    assert ContextText(k) == base + [] == base && ContextText(k.(lead := lead)) == base + LeadText(lead);
    ColonText(base, ws, Literal(key), post);
  }

  lemma NextColon(p: Spot, s: string, q: State, c: char) returns (p': Spot)
    requires p.AtColon? && Stands(p, s, q) && Step(q, c).Some?
    ensures Stands(p', s + [c], Step(q, c).value)
  {
    hide IsText, ValidItems, Literal, ContextText, Opens, ValidContext;
    var k := p.context;
    if IsBlank(c) {
      p' := AtColon(k, p.ws, p.key, p.post + [c]);
      EndBlank(ContextText(k) + p.ws, Literal(p.key), p.post, c);
    } else {
      KeyAt(k, p.ws, p.key, p.post);
      hide Stands;
      p' := AtStart(k.(lead := Keyed(p.ws, p.key, p.post)), []);
    }
  }

  lemma EndText(a: string, b: string, o: string, f: string, l: string, ws: string, v: string, post: string, c: string)
    ensures a + b + o + f + l + ws + (v + post) + c == a + b + o + (f + l + ws + v + post + c) + [] + [] + []
    ensures a + b + o + f + l + ws + (v + post) + c == a + b + (o + (f + l + ws + v + post) + c + [])
  {}

  /** The groups around a complete value go on with a comma. */
  lemma CommaAt(k: Context, ws: string, v: Json, post: string)
    requires ValidContext(k) && k.Inside? && !AwaitsKey(k) && Blank(ws) && Valid(v) && Blank(post)
    ensures Stands(AtStart(k.(front := Snoc(k.front, k.lead, ws, v, post), lead := NoKey), []),
                   ContextText(k) + ws + (Render(v) + post) + [','],
                   State(Opens(k), if k.open == '{' then Key else Value))
  {
    var items := Snoc(k.front, k.lead, ws, v, post);
    hide Render, LeadText, Valid, ValidLead, Blank;
    EndText(ContextText(k.outer), k.pre, [k.open], Before(k.front), LeadText(k.lead), ws, Render(v), post, [',']);
    assert Before(items) == Before(k.front) + LeadText(k.lead) + ws + Render(v) + post + [','];
    NoLead();
  }

  lemma NoLead()
    ensures LeadText(NoKey) == [] && ValidLead(NoKey) && Blank([])
  {}

  lemma CloseAt(k: Context, ws: string, v: Json, post: string)
    requires ValidContext(k) && k.Inside? && !AwaitsKey(k) && Blank(ws) && Valid(v) && Blank(post)
    ensures Stands(AtEnd(k.outer, k.pre, Nest(k.open, Snoc(k.front, k.lead, ws, v, post)), []),
                   ContextText(k) + ws + (Render(v) + post) + [J.Closer(k.open)], State(Opens(k.outer), After))
  {
    var items, c := Snoc(k.front, k.lead, ws, v, post), J.Closer(k.open);
    var f, l := Before(k.front), LeadText(k.lead);
    assert RenderItems(items) == f + l + ws + Render(v) + post;
    assert Render(Nest(k.open, items)) == [k.open] + (f + l + ws + Render(v) + post) + [c];
    assert ValidItems(k.open, items);
    hide Render, RenderItems, LeadText, ValidLead, ValidItems;
    EndText(ContextText(k.outer), k.pre, [k.open], f, l, ws, Render(v), post, [c]);
  }

  /** One more character after a complete value. */
  lemma NextEnd(k: Context, ws: string, v: Json, post: string, c: char) returns (p': Spot)
    requires ValidContext(k) && !AwaitsKey(k) && Blank(ws) && Valid(v) && Blank(post) && StepAfter(Opens(k), c).Some?
    ensures Stands(p', ContextText(k) + ws + (Render(v) + post) + [c], StepAfter(Opens(k), c).value)
  {
    StartTop(k);
    if IsBlank(c) {
      p' := AtEnd(k, ws, v, post + [c]);
      hide Render, Valid, Opens, ContextText, ValidContext;
      assert SpotText(p') == ContextText(k) + ws + (Render(v) + (post + [c]));
      EndBlank(ContextText(k) + ws, Render(v), post, c);
    } else {
      assert k.Inside?;
      hide Render, Valid, Opens, ContextText, ValidContext, Stands;
      if c == ',' {
        CommaAt(k, ws, v, post);
        p' := AtStart(k.(front := Snoc(k.front, k.lead, ws, v, post), lead := NoKey), []);
      } else {
        CloseAt(k, ws, v, post);
        p' := AtEnd(k.outer, k.pre, Nest(k.open, Snoc(k.front, k.lead, ws, v, post)), []);
      }
    }
  }

  lemma EndBlank(a: string, v: string, post: string, c: char)
    ensures a + (v + post) + [c] == a + (v + (post + [c]))
    ensures Blank(post) && IsBlank(c) ==> Blank(post + [c])
  {}

  lemma NextAtom(p: Spot, s: string, q: State, c: char) returns (p': Spot)
    requires p.InAtom? && Stands(p, s, q) && Step(q, c).Some?
    ensures Stands(p', s + [c], Step(q, c).value)
  {
    hide Opens, ContextText, ValidContext, IsScalar;
    var a := ContextText(p.context) + p.ws;
    if IsScalarChar(c) {
      p' := InAtom(p.context, p.ws, p.text + [c]);
      Glue(a, p.text, [c]);
    } else {
      var v := Scalar(p.text);
      assert Valid(v) && Blank([]) && Render(v) + [] == p.text;
      p' := NextEnd(p.context, p.ws, v, [], c);
    }
  }

  /** Whatever keeps the automaton going is the beginning of a text. */
  lemma {:induction false} SpotOf(s: string) returns (p: Spot)
    requires Run(START, s).Some?
    ensures Stands(p, s, Run(START, s).value)
    decreases |s|
  {
    if s == [] {
      p := AtStart(Top, []);
    } else {
      var front, c := s[..|s| - 1], s[|s| - 1];
      assert s == front + [c];
      var at := SpotOf(front);
      var q := Run(START, front).value;
      match at
      case AtStart(_, _) => p := NextStart(at, front, q, c);
      case InLiteral(_, _, _, _) => p := NextLiteral(at, front, q, c);
      case InAtom(_, _, _) => p := NextAtom(at, front, q, c);
      case AtColon(_, _, _, _) => p := NextColon(at, front, q, c);
      case AtEnd(k, ws, v, post) => p := NextEnd(k, ws, v, post, c);
    }
  }

  lemma SpotSpells(p: Spot, s: string, mode: Mode)
    requires Stands(p, s, State([], mode)) && Ended(mode)
    ensures IsJson(s)
  {
    hide IsScalar, IsText, ValidContext, ValidItems, RenderItems;
    StartTop(p.context);
    assert ContextText(Top) == [] && [] + p.ws == p.ws;
    if p.AtEnd? {
      Glue(p.ws, Render(p.value), p.post);
      assert Spells(s, p.ws, p.value, p.post);
    } else {
      var v := Scalar(p.text);
      assert Valid(v) && Render(v) == p.text && Blank([]) && s == p.ws + Render(v) + [];
      assert Spells(s, p.ws, v, []);
    }
  }

  /** The automaton accepts exactly the JSON texts. */
  lemma AcceptsIff(s: string)
    ensures Accepts(s) <==> IsJson(s)
  {
    hide IsJson, Run, Ended, Stands;
    if IsJson(s) { JsonIsAccepted(s); }
    if Accepts(s) {
      var p := SpotOf(s);
      SpotSpells(p, s, Run(START, s).value.mode);
    }
  }
}
