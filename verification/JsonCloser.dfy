/** Closing a truncated JSON text: a stack automaton, against a grammar of well-bracketed texts. */
module JsonCloser {
  import opened Basics

  // ---------------------------------------------------------------- the grammar

  /** A well-bracketed text: plain characters, complete string literals and matched groups. */
  datatype Doc =
    | Done
    | Plain(c: char, rest: Doc)
    | Quoted(body: string, rest: Doc)
    | Group(open: char, inner: Doc, rest: Doc)

  predicate IsOpen(c: char) { c == '{' || c == '[' }

  function Closer(open: char): char {
    if open == '{' then '}' else ']'
  }

  predicate IsPlain(c: char) {
    c != '"' && c != '{' && c != '[' && c != '}' && c != ']'
  }

  /** The inside of a string literal: no bare quote, and every backslash followed by a character. */
  predicate IsBody(b: string) {
    || b == []
    || (b[0] == '\\' && |b| >= 2 && IsBody(b[2..]))
    || (b[0] != '\\' && b[0] != '"' && IsBody(b[1..]))
  }

  predicate WellFormed(d: Doc) {
    match d
    case Done => true
    case Plain(c, rest) => IsPlain(c) && WellFormed(rest)
    case Quoted(body, rest) => IsBody(body) && WellFormed(rest)
    case Group(open, inner, rest) => IsOpen(open) && WellFormed(inner) && WellFormed(rest)
  }

  function Render(d: Doc): string {
    match d
    case Done => []
    case Plain(c, rest) => [c] + Render(rest)
    case Quoted(body, rest) => ['"'] + body + ['"'] + Render(rest)
    case Group(open, inner, rest) => [open] + Render(inner) + [Closer(open)] + Render(rest)
  }

  ghost predicate WellBracketed(s: string) {
    exists d :: WellFormed(d) && Render(d) == s
  }

  // ---------------------------------------------------------------- the automaton

  datatype Scan = Scan(stack: seq<char>, inString: bool, escaped: bool)

  const START := Scan([], false, false)

  function Step(st: Scan, c: char): Option<Scan> {
    if st.inString then
      if st.escaped then Some(st.(escaped := false))
      else if c == '\\' then Some(st.(escaped := true))
      else if c == '"' then Some(st.(inString := false))
      else Some(st)
    else if c == '"' then Some(st.(inString := true))
    else if c == '{' || c == '[' then Some(st.(stack := st.stack + [c]))
    else if c == '}' then
      if st.stack == [] || st.stack[|st.stack| - 1] != '{' then None else Some(st.(stack := st.stack[..|st.stack| - 1]))
    else if c == ']' then
      if st.stack == [] || st.stack[|st.stack| - 1] != '[' then None else Some(st.(stack := st.stack[..|st.stack| - 1]))
    else Some(st)
  }

  function Run(st: Scan, s: string): Option<Scan>
    decreases |s|
  {
    if s == [] then Some(st)
    else
      match Step(st, s[0])
      case None => None
      case Some(next) => Run(next, s[1..])
  }

  /** What Python's `str.rstrip` removes. */
  predicate IsSpace(c: char) {
    || '\t' <= c <= '\r' || '\U{1c}' <= c <= ' ' || c == '\U{85}' || c == '\U{a0}' || c == '\U{1680}'
    || '\U{2000}' <= c <= '\U{200a}' || c == '\U{2028}' || c == '\U{2029}' || c == '\U{202f}' || c == '\U{205f}'
    || c == '\U{3000}'
  }

  predicate Trimmable(c: char) {
    IsSpace(c) || c == ',' || c == ':'
  }

  function TrimTail(s: string): string {
    if s != [] && Trimmable(s[|s| - 1]) then TrimTail(s[..|s| - 1]) else s
  }

  function Closers(stack: seq<char>): string {
    if stack == [] then [] else [Closer(stack[|stack| - 1])] + Closers(stack[..|stack| - 1])
  }

  /** The input as it is kept, with a cut-off string literal ended. */
  function Kept(s: string, st: Scan): string {
    if st.inString then (if st.escaped && s != [] then s[..|s| - 1] else s) + ['"'] else TrimTail(s)
  }

  function Closed(s: string): Option<string> {
    match Run(START, s)
    case None => None
    case Some(st) => Some(Kept(s, st) + Closers(st.stack))
  }

  // ---------------------------------------------------------------- running the automaton

  lemma {:induction false} RunAppend(st: Scan, a: string, b: string)
    ensures Run(st, a + b) == match Run(st, a) case None => None case Some(mid) => Run(mid, b)
    decreases |a|
  {
    if a == [] {
      assert a + b == b;
    } else {
      assert (a + b)[0] == a[0] && (a + b)[1..] == a[1..] + b;
      var next := Step(st, a[0]);
      if next.Some? { RunAppend(next.value, a[1..], b); }
    }
  }

  lemma RunOne(st: Scan, c: char)
    ensures Run(st, [c]) == Step(st, c)
  {
    assert [c][1..] == [];
  }

  lemma RunSnoc(st: Scan, s: string, c: char)
    ensures Run(st, s + [c]) == match Run(st, s) case None => None case Some(mid) => Step(mid, c)
  {
    RunAppend(st, s, [c]);
    var mid := Run(st, s);
    if mid.Some? { RunOne(mid.value, c); }
  }

  lemma {:induction false} RunBody(stack: seq<char>, b: string)
    requires IsBody(b)
    ensures Run(Scan(stack, true, false), b) == Some(Scan(stack, true, false))
    decreases |b|
  {
    if b != [] {
      if b[0] == '\\' {
        assert b[1..][1..] == b[2..];
        RunBody(stack, b[2..]);
      } else {
        RunBody(stack, b[1..]);
      }
    }
  }

  /** A well-bracketed text takes the automaton back to where it was. */
  lemma {:induction false} RunRender(stack: seq<char>, d: Doc)
    requires WellFormed(d)
    ensures Run(Scan(stack, false, false), Render(d)) == Some(Scan(stack, false, false))
    decreases d
  {
    hide Run;
    var st := Scan(stack, false, false);
    match d
    case Done => RunNone(st);
    case Plain(c, rest) =>
      RunAppend(st, [c], Render(rest));
      RunOne(st, c);
      RunRender(stack, rest);
    case Quoted(body, rest) =>
      RunRender(stack, rest);
      RunLiteral(stack, body, Render(rest));
    case Group(open, inner, rest) =>
      RunRender(stack + [open], inner);
      RunRender(stack, rest);
      RunGroup(stack, open, Render(inner), Render(rest));
  }

  lemma RunNone(st: Scan)
    ensures Run(st, []) == Some(st)
  {}

  lemma RunLiteral(stack: seq<char>, body: string, rest: string)
    requires IsBody(body)
    ensures Run(Scan(stack, false, false), ['"'] + body + ['"'] + rest) == Run(Scan(stack, false, false), rest)
  {
    hide Run, IsBody;
    var st, within := Scan(stack, false, false), Scan(stack, true, false);
    RunAppend(st, ['"'] + body + ['"'], rest);
    RunAppend(st, ['"'] + body, ['"']);
    RunAppend(st, ['"'], body);
    RunOne(st, '"');
    RunBody(stack, body);
    RunOne(within, '"');
  }

  lemma RunGroup(stack: seq<char>, open: char, inner: string, rest: string)
    requires IsOpen(open) && Run(Scan(stack + [open], false, false), inner) == Some(Scan(stack + [open], false, false))
    ensures Run(Scan(stack, false, false), [open] + inner + [Closer(open)] + rest)
            == Run(Scan(stack, false, false), rest)
  {
    hide Run;
    var st, deeper := Scan(stack, false, false), Scan(stack + [open], false, false);
    RunAppend(st, [open] + inner + [Closer(open)], rest);
    RunAppend(st, [open] + inner, [Closer(open)]);
    RunAppend(st, [open], inner);
    RunOne(st, open);
    RunOne(deeper, Closer(open));
    assert (stack + [open])[..|stack|] == stack;
  }

  // ---------------------------------------------------------------- partial parses

  /** An enclosing group that is still open: what came before it, and its bracket. */
  datatype Frame = Frame(before: Doc, open: char)

  /** A string literal that is still open, possibly cut right after a backslash. */
  datatype Tail = NoTail | Tail(body: string, dangling: bool)

  datatype Partial = Partial(frames: seq<Frame>, cur: Doc, tail: Tail)

  function RenderFrames(frames: seq<Frame>): string {
    if frames == [] then []
    else
      var last := frames[|frames| - 1];
      RenderFrames(frames[..|frames| - 1]) + Render(last.before) + [last.open]
  }

  function Opens(frames: seq<Frame>): seq<char> {
    if frames == [] then [] else Opens(frames[..|frames| - 1]) + [frames[|frames| - 1].open]
  }

  function RenderTail(t: Tail): string {
    if t.NoTail? then [] else ['"'] + t.body + if t.dangling then ['\\'] else []
  }

  ghost predicate FramesOk(frames: seq<Frame>) {
    forall i :: 0 <= i < |frames| ==> WellFormed(frames[i].before) && IsOpen(frames[i].open)
  }

  /** `p` is a partial parse of `s` that agrees with the automaton's state. */
  ghost predicate Parses(p: Partial, s: string, st: Scan) {
    && FramesOk(p.frames) && WellFormed(p.cur)
    && (p.tail.Tail? ==> IsBody(p.tail.body))
    && s == RenderFrames(p.frames) + Render(p.cur) + RenderTail(p.tail)
    && st == Scan(Opens(p.frames), p.tail.Tail?, p.tail.Tail? && p.tail.dangling)
  }

  function Append(a: Doc, b: Doc): Doc {
    match a
    case Done => b
    case Plain(c, rest) => Plain(c, Append(rest, b))
    case Quoted(body, rest) => Quoted(body, Append(rest, b))
    case Group(open, inner, rest) => Group(open, inner, Append(rest, b))
  }

  lemma {:induction false} RenderAppend(a: Doc, b: Doc)
    ensures Render(Append(a, b)) == Render(a) + Render(b)
    ensures WellFormed(a) && WellFormed(b) ==> WellFormed(Append(a, b))
  {
    match a
    case Done => assert Render(a) + Render(b) == Render(b);
    case Plain(_, rest) => RenderAppend(rest, b);
    case Quoted(_, rest) => RenderAppend(rest, b);
    case Group(_, _, rest) => RenderAppend(rest, b);
  }

  lemma {:induction false} BodySnoc(b: string, more: string)
    requires IsBody(b) && IsBody(more)
    ensures IsBody(b + more)
    decreases |b|
  {
    if b == [] {
      assert b + more == more;
    } else if b[0] == '\\' {
      assert (b + more)[2..] == b[2..] + more;
      BodySnoc(b[2..], more);
    } else {
      assert (b + more)[1..] == b[1..] + more;
      BodySnoc(b[1..], more);
    }
  }

  lemma FramesSnoc(frames: seq<Frame>, f: Frame)
    ensures RenderFrames(frames + [f]) == RenderFrames(frames) + Render(f.before) + [f.open]
    ensures Opens(frames + [f]) == Opens(frames) + [f.open]
  {
    assert (frames + [f])[..|frames|] == frames;
  }

  lemma {:induction false} OpensLength(frames: seq<Frame>)
    ensures |Opens(frames)| == |frames|
  {
    if frames != [] { OpensLength(frames[..|frames| - 1]); }
  }

  lemma Cat(a: string, b: string, c: string)
    ensures a + b + c == a + (b + c)
  {}

  lemma SingleDocs(body: string, c: char)
    ensures Render(Quoted(body, Done)) == ['"'] + body + ['"'] && (IsBody(body) ==> WellFormed(Quoted(body, Done)))
    ensures Render(Plain(c, Done)) == [c] && (IsPlain(c) ==> WellFormed(Plain(c, Done)))
  {
    assert Render(Done) == [] && WellFormed(Done);
  }

  lemma SingleGroup(open: char, inner: Doc)
    ensures Render(Group(open, inner, Done)) == [open] + Render(inner) + [Closer(open)]
    ensures IsOpen(open) && WellFormed(inner) ==> WellFormed(Group(open, inner, Done))
  {
    assert Render(Done) == [] && WellFormed(Done);
  }

  lemma TailExtends(body: string, c: char)
    ensures RenderTail(Tail(body + ['\\', c], false)) == RenderTail(Tail(body, true)) + [c]
    ensures RenderTail(Tail(body, true)) == RenderTail(Tail(body, false)) + ['\\']
    ensures RenderTail(Tail(body + [c], false)) == RenderTail(Tail(body, false)) + [c]
    ensures RenderTail(Tail(body, false)) + ['"'] == ['"'] + body + ['"']
    ensures IsBody(['\\', c]) && (c != '\\' && c != '"' ==> IsBody([c]))
  {
    assert ['\\', c][2..] == [] && [c][1..] == [];
  }

  /** Inside a string literal, one more character extends the tail or ends the literal. */
  lemma ParseInside(p: Partial, s: string, st: Scan, c: char) returns (p': Partial)
    requires Parses(p, s, st) && st.inString
    ensures Step(st, c).Some? && Parses(p', s + [c], Step(st, c).value)
  {
    hide Render, RenderFrames, RenderTail, IsBody, WellFormed, FramesOk, Opens;
    var body := p.tail.body;
    TailExtends(body, c);
    Cat(RenderFrames(p.frames) + Render(p.cur), RenderTail(p.tail), [c]);
    if p.tail.dangling {
      BodySnoc(body, ['\\', c]);
      p' := p.(tail := Tail(body + ['\\', c], false));
    } else if c == '\\' {
      p' := p.(tail := Tail(body, true));
    } else if c == '"' {
      var ended := Quoted(body, Done);
      SingleDocs(body, c);
      RenderAppend(p.cur, ended);
      Cat(RenderFrames(p.frames), Render(p.cur), Render(ended));
      p' := p.(cur := Append(p.cur, ended), tail := NoTail);
      NoTailEmpty();
    } else {
      BodySnoc(body, [c]);
      p' := p.(tail := Tail(body + [c], false));
    }
  }

  lemma NoTailEmpty()
    ensures RenderTail(NoTail) == [] && forall s: string :: s + [] == s
  {}

  lemma ParsePop(p: Partial, s: string, st: Scan, c: char) returns (p': Partial)
    requires Parses(p, s, st) && !st.inString && (c == '}' || c == ']') && Step(st, c).Some?
    ensures Parses(p', s + [c], Step(st, c).value)
  {
    OpensLength(p.frames);
    var outer, f := p.frames[..|p.frames| - 1], p.frames[|p.frames| - 1];
    assert p.frames == outer + [f];
    assert FramesOk(outer) && WellFormed(f.before) && IsOpen(f.open);
    hide Render, RenderFrames, RenderTail, WellFormed, FramesOk, Opens;
    FramesSnoc(outer, f);
    NoTailEmpty();
    var group := Group(f.open, p.cur, Done);
    SingleGroup(f.open, p.cur);
    RenderAppend(f.before, group);
    p' := Partial(outer, Append(f.before, group), NoTail);
    assert (Opens(outer) + [f.open])[..|Opens(outer)|] == Opens(outer);
    assert c == Closer(f.open);
    PopText(RenderFrames(outer), Render(f.before), [f.open], Render(p.cur), [c]);
  }

  lemma PopText(a: string, b: string, o: string, m: string, c: string)
    ensures a + b + o + m + c == a + (b + (o + m + c))
  {}

  lemma DoneIsEmpty()
    ensures Render(Done) == [] && WellFormed(Done)
  {}

  lemma ParseOutside(p: Partial, s: string, st: Scan, c: char) returns (p': Partial)
    requires Parses(p, s, st) && !st.inString && Step(st, c).Some?
    ensures Parses(p', s + [c], Step(st, c).value)
  {
    hide Render, RenderFrames, WellFormed, Opens;
    if c == '"' {
      p' := p.(tail := Tail([], false));
    } else if c == '{' || c == '[' {
      FramesSnoc(p.frames, Frame(p.cur, c));
      p' := Partial(p.frames + [Frame(p.cur, c)], Done, NoTail);
      DoneIsEmpty();
    } else if c == '}' || c == ']' {
      p' := ParsePop(p, s, st, c);
    } else {
      SingleDocs([], c);
      RenderAppend(p.cur, Plain(c, Done));
      p' := p.(cur := Append(p.cur, Plain(c, Done)));
    }
  }

  /** Whatever the automaton accepts has a partial parse. */
  lemma {:induction false} ParseAll(s: string) returns (p: Partial)
    requires Run(START, s).Some?
    ensures Parses(p, s, Run(START, s).value)
    decreases |s|
  {
    if s == [] {
      p := Partial([], Done, NoTail);
    } else {
      var front, c := s[..|s| - 1], s[|s| - 1];
      assert s == front + [c];
      RunSnoc(START, front, c);
      var q := ParseAll(front);
      var st := Run(START, front).value;
      if st.inString { p := ParseInside(q, front, st, c); } else { p := ParseOutside(q, front, st, c); }
    }
  }

  /** Closing every open frame of a parse without a tail gives a complete document. */
  lemma {:induction false} CloseFrames(frames: seq<Frame>, cur: Doc) returns (d: Doc)
    requires FramesOk(frames) && WellFormed(cur)
    ensures WellFormed(d) && Render(d) == RenderFrames(frames) + Render(cur) + Closers(Opens(frames))
    decreases |frames|
  {
    if frames == [] {
      d := cur;
      assert RenderFrames(frames) + Render(cur) == Render(cur);
    } else {
      var outer, f := frames[..|frames| - 1], frames[|frames| - 1];
      assert frames == outer + [f];
      var group := Group(f.open, cur, Done);
      SingleGroup(f.open, cur);
      RenderAppend(f.before, group);
      var inner := Append(f.before, group);
      assert FramesOk(outer) && WellFormed(inner);
      d := CloseFrames(outer, inner);
      FramesSnoc(outer, f);
      ClosersSnoc(Opens(outer), f.open);
      hide Render, RenderFrames, Opens, Closers, WellFormed, FramesOk;
      CloseText(RenderFrames(outer), Render(f.before), [f.open], Render(cur), [Closer(f.open)], Closers(Opens(outer)));
    }
  }

  lemma ClosersSnoc(stack: seq<char>, open: char)
    ensures Closers(stack + [open]) == [Closer(open)] + Closers(stack)
  {
    assert (stack + [open])[..|stack|] == stack;
  }

  lemma CloseText(a: string, b: string, o: string, m: string, c: string, z: string)
    ensures a + (b + (o + m + c)) + z == a + b + o + m + (c + z)
  {}

  // ---------------------------------------------------------------- the theorems

  /** Ending an open literal with `body` and closing every frame gives a complete document. */
  lemma CloseLiteral(p: Partial, body: string)
    requires FramesOk(p.frames) && WellFormed(p.cur) && IsBody(body)
    ensures WellBracketed(RenderFrames(p.frames) + Render(p.cur) + (['"'] + body) + ['"'] + Closers(Opens(p.frames)))
  {
    hide Render, RenderFrames, IsBody, WellFormed, FramesOk, Opens, Closers;
    var ended := Quoted(body, Done);
    SingleDocs(body, ' ');
    RenderAppend(p.cur, ended);
    var d := CloseFrames(p.frames, Append(p.cur, ended));
    LiteralText(RenderFrames(p.frames), Render(p.cur), ['"'] + body, ['"']);
  }

  lemma LiteralText(a: string, b: string, c: string, q: string)
    ensures a + (b + (c + q)) == a + b + c + q
  {}

  /** The three ways to end a partial parse: bare, in a literal, and in a literal cut after a backslash. */
  lemma CloseParse(p: Partial, s: string, st: Scan)
    requires Parses(p, s, st)
    ensures !st.inString ==> WellBracketed(s + Closers(st.stack))
    ensures st.inString && !st.escaped ==> WellBracketed(s + ['"'] + Closers(st.stack))
    ensures st.escaped ==>
              && st.inString && s != [] && s[|s| - 1] == '\\'
              && WellBracketed(s[..|s| - 1] + ['"'] + Closers(st.stack))
              && WellBracketed(s + ['\\'] + ['"'] + Closers(st.stack))
  {
    hide Render, RenderFrames, IsBody, WellFormed, FramesOk, Opens, Closers, WellBracketed;
    var base := RenderFrames(p.frames) + Render(p.cur);
    if !st.inString {
      NoTailEmpty();
      CloseBare(p);
    } else if !st.escaped {
      var body := p.tail.body;
      assert RenderTail(p.tail) == ['"'] + body;
      CloseLiteral(p, body);
    } else {
      CloseDangling(p, s, st);
    }
  }

  /** A literal cut after a backslash: the backslash is dropped, or doubled. */
  lemma CloseDangling(p: Partial, s: string, st: Scan)
    requires Parses(p, s, st) && st.escaped
    ensures s != [] && s[|s| - 1] == '\\'
    ensures WellBracketed(s[..|s| - 1] + ['"'] + Closers(st.stack))
    ensures WellBracketed(s + ['\\'] + ['"'] + Closers(st.stack))
  {
    hide Render, RenderFrames, IsBody, WellFormed, FramesOk, Opens, Closers, WellBracketed;
    var base, body := RenderFrames(p.frames) + Render(p.cur), p.tail.body;
    TailExtends(body, '\\');
    BodySnoc(body, ['\\', '\\']);
    CloseLiteral(p, body);
    CloseLiteral(p, body + ['\\', '\\']);
    DanglingText(base, body);
    assert s == base + (['"'] + body + ['\\']);
  }

  lemma DanglingText(base: string, body: string)
    ensures var s := base + (['"'] + body + ['\\']);
            && s[|s| - 1] == '\\' && s[..|s| - 1] == base + (['"'] + body)
            && s + ['\\'] == base + (['"'] + (body + ['\\', '\\']))
  {
    var s := base + (['"'] + body + ['\\']);
    assert s == (base + (['"'] + body)) + ['\\'];
  }

  lemma CloseBare(p: Partial)
    requires FramesOk(p.frames) && WellFormed(p.cur)
    ensures WellBracketed(RenderFrames(p.frames) + Render(p.cur) + Closers(Opens(p.frames)))
  {
    var d := CloseFrames(p.frames, p.cur);
  }

  lemma {:induction false} TrimKeepsState(s: string)
    requires Run(START, s).Some? && !Run(START, s).value.inString
    ensures Run(START, TrimTail(s)) == Run(START, s)
    decreases |s|
  {
    if s != [] && Trimmable(s[|s| - 1]) {
      var front, c := s[..|s| - 1], s[|s| - 1];
      assert s == front + [c];
      RunSnoc(START, front, c);
      TrimKeepsState(front);
    }
  }

  /** Every result is well-bracketed. */
  lemma ClosedIsWellBracketed(s: string)
    requires Closed(s).Some?
    ensures WellBracketed(Closed(s).value)
  {
    hide WellBracketed, Run, Closers, Parses, TrimTail;
    var st := Run(START, s).value;
    if st.inString {
      var p := ParseAll(s);
      CloseParse(p, s, st);
    } else {
      TrimKeepsState(s);
      var p := ParseAll(TrimTail(s));
      CloseParse(p, TrimTail(s), st);
    }
  }

  ghost predicate Completes(s: string, t: string) {
    WellBracketed(s + t)
  }

  /** The closer answers exactly on the prefixes of well-bracketed texts. */
  lemma ClosedIffPrefix(s: string)
    ensures Closed(s).Some? <==> exists t :: Completes(s, t)
  {
    if Closed(s).Some? {
      var t := Completion(s);
    }
    forall t | Completes(s, t) ensures Closed(s).Some? {
      var d :| WellFormed(d) && Render(d) == s + t;
      hide WellFormed, Render, Run;
      RunRender([], d);
      RunAppend(START, s, t);
    }
  }

  lemma Completion(s: string) returns (t: string)
    requires Closed(s).Some?
    ensures Completes(s, t)
  {
    hide WellBracketed, Run, Closers, Parses, Kept;
    var st := Run(START, s).value;
    var p := ParseAll(s);
    CloseParse(p, s, st);
    if !st.inString {
      t := Closers(st.stack);
    } else if !st.escaped {
      t := ['"'] + Closers(st.stack);
      Cat(s, ['"'], Closers(st.stack));
    } else {
      t := ['\\'] + (['"'] + Closers(st.stack));
      Cat(s + ['\\'], ['"'], Closers(st.stack));
      Cat(s, ['\\'], ['"'] + Closers(st.stack));
    }
  }

  lemma {:induction false} TrimSplit(s: string)
    ensures var k := |TrimTail(s)|;
            && k <= |s| && TrimTail(s) == s[..k]
            && (forall i :: k <= i < |s| ==> Trimmable(s[i]))
            && (k > 0 ==> !Trimmable(s[k - 1]))
    decreases |s|
  {
    if s != [] && Trimmable(s[|s| - 1]) {
      TrimSplit(s[..|s| - 1]);
    }
  }

  /** The part of the input that a result drops: one dangling backslash, or trailing blanks, commas and colons. */
  ghost predicate Dropped(s: string) {
    s == [] || s == ['\\'] || forall i :: 0 <= i < |s| ==> Trimmable(s[i])
  }

  /** What a result adds: at most one quote, then only closing brackets. */
  ghost predicate Added(s: string) {
    forall i :: 0 <= i < |s| ==> s[i] == '}' || s[i] == ']' || (i == 0 && s[i] == '"')
  }

  lemma {:induction false} ClosersAreBrackets(stack: seq<char>)
    ensures forall i :: 0 <= i < |Closers(stack)| ==> Closers(stack)[i] == '}' || Closers(stack)[i] == ']'
  {
    if stack != [] { ClosersAreBrackets(stack[..|stack| - 1]); }
  }

  /** A result keeps the first `k` characters of the input, drops the rest, and then only closes. */
  ghost predicate CutAt(s: string, r: string, k: nat) {
    && k <= |s| && k <= |r| && r[..k] == s[..k]
    && Dropped(s[k..]) && Added(r[k..])
  }

  lemma CutText(s: string, k: nat, quote: string, closers: string)
    requires k <= |s| && Dropped(s[k..]) && (quote == [] || quote == ['"'])
    requires forall i :: 0 <= i < |closers| ==> closers[i] == '}' || closers[i] == ']'
    ensures CutAt(s, s[..k] + quote + closers, k)
  {
    var r := s[..k] + quote + closers;
    assert r[k..] == quote + closers && r[..k] == s[..k];
  }

  /** Every result keeps the input up to a cut, and only closes after it. */
  lemma ClosedKeepsInput(s: string)
    requires Closed(s).Some?
    ensures exists k :: CutAt(s, Closed(s).value, k)
  {
    hide Run, Closers, Parses, TrimTail, CutAt, Dropped, WellBracketed, Trimmable;
    var st := Run(START, s).value;
    ClosersAreBrackets(st.stack);
    if st.inString {
      var p := ParseAll(s);
      CloseParse(p, s, st);
      DroppedEnds(s);
      CutText(s, if st.escaped then |s| - 1 else |s|, ['"'], Closers(st.stack));
      assert s[..|s|] == s;
    } else {
      TrimSplit(s);
      var k := |TrimTail(s)|;
      DroppedTrim(s, k);
      CutText(s, k, [], Closers(st.stack));
      assert s[..k] + [] == s[..k];
    }
  }

  lemma DroppedEnds(s: string)
    ensures Dropped(s[|s|..]) && (s != [] && s[|s| - 1] == '\\' ==> Dropped(s[|s| - 1..]))
  {}

  lemma DroppedTrim(s: string, k: nat)
    requires k <= |s| && forall i :: k <= i < |s| ==> Trimmable(s[i])
    ensures Dropped(s[k..])
  {}

  /** A result never ends in something to trim. */
  lemma ClosedEnd(s: string)
    requires Closed(s).Some?
    ensures TrimTail(Closed(s).value) == Closed(s).value
  {
    hide Run;
    var st := Run(START, s).value;
    var closers := Closers(st.stack);
    ClosersAreBrackets(st.stack);
    TrimSplit(s);
    if closers == [] {
      assert Closed(s).value == Kept(s, st);
    }
  }

  /** Closing a result again changes nothing. */
  lemma ClosedIdempotent(s: string)
    requires Closed(s).Some?
    ensures Closed(Closed(s).value) == Some(Closed(s).value)
  {
    var r := Closed(s).value;
    ClosedIsWellBracketed(s);
    ClosedEnd(s);
    hide Run, TrimTail, WellFormed, Render;
    var d :| WellFormed(d) && Render(d) == r;
    RunRender([], d);
    assert Closers([]) == [] && r + [] == r;
  }

  // ---------------------------------------------------------------- the program

  method RStrip(s: string) returns (r: string)
    ensures r <= s && (r != [] ==> !IsSpace(r[|r| - 1])) && TrimTail(r) == TrimTail(s)
  {
    r := s;
    while r != [] && IsSpace(r[|r| - 1])
      invariant r <= s && TrimTail(r) == TrimTail(s)
    {
      r := r[..|r| - 1];
    }
  }

  /** `_close_truncated_json`. */
  method CloseTruncatedJson(s: string) returns (r: Option<string>)
    ensures r == Closed(s)
  {
    var out: string := [];
    var stack: seq<char> := [];
    var inString, escaped := false, false;
    for i := 0 to |s|
      invariant out == s[..i]
      invariant Run(START, s[..i]) == Some(Scan(stack, inString, escaped))
    {
      var ch := s[i];
      RunSnoc(START, s[..i], ch);
      assert s[..i + 1] == s[..i] + [ch];
      if inString {
        if escaped { escaped := false; }
        else if ch == '\\' { escaped := true; }
        else if ch == '"' { inString := false; }
        out := out + [ch];
        continue;
      }
      if ch == '"' {
        inString := true;
      } else if ch == '{' || ch == '[' {
        stack := stack + [ch];
      } else if ch == '}' {
        if stack == [] || stack[|stack| - 1] != '{' {
          RunPrefix(s, i + 1);
          return None;
        }
        stack := stack[..|stack| - 1];
      } else if ch == ']' {
        if stack == [] || stack[|stack| - 1] != '[' {
          RunPrefix(s, i + 1);
          return None;
        }
        stack := stack[..|stack| - 1];
      }
      out := out + [ch];
    }
    assert s[..|s|] == s;
    ghost var st := Scan(stack, inString, escaped);
    if inString && escaped && out != [] {
      out := out[..|out| - 1];
    }
    if inString {
      out := out + ['"'];
    }
    KeptUntrimmed(s, st, out);
    var text := RStrip(out);
    while text != [] && (text[|text| - 1] == ',' || text[|text| - 1] == ':')
      invariant TrimTail(text) == TrimTail(out)
      invariant text != [] ==> !IsSpace(text[|text| - 1])
      decreases |text|
    {
      text := RStrip(text[..|text| - 1]);
    }
    assert text == TrimTail(text);
    assert text == Kept(s, st);
    ghost var kept := text;
    var rest := stack;
    while rest != []
      invariant text + Closers(rest) == kept + Closers(stack)
      decreases |rest|
    {
      var open := rest[|rest| - 1];
      Cat(text, [Closer(open)], Closers(rest[..|rest| - 1]));
      text := text + [if open == '{' then '}' else ']'];
      rest := rest[..|rest| - 1];
    }
    assert text + Closers(rest) == text;
    return Some(text);
  }

  lemma RunPrefix(s: string, i: nat)
    requires i <= |s| && Run(START, s[..i]).None?
    ensures Run(START, s).None?
  {
    assert s == s[..i] + s[i..];
    RunAppend(START, s[..i], s[i..]);
  }

  /** A text that ends in the closing quote has nothing to trim. */
  lemma KeptUntrimmed(s: string, st: Scan, out: string)
    requires out == if st.inString then (if st.escaped && s != [] then s[..|s| - 1] else s) + ['"'] else s
    ensures TrimTail(out) == Kept(s, st)
  {}
}
