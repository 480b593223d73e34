/** When a closed truncated text is JSON again. */
module JsonSalvage {
  import opened Basics
  import opened JsonTexts
  import J = JsonCloser

  /** Whether a text cut in state `q` closes to JSON: not before the first token, not in a key or before its value,
      not in a `\u` escape, and not in a scalar whose part so far is no scalar. */
  predicate Salvageable(q: State) {
    match q.mode
    case Value => q.stack != [] && q.stack[|q.stack| - 1] == '['
    case First => true
    case Key => true
    case Colon => false
    case After => true
    case InText(key, lex) => !key && !lex.Hex?
    case InScalar(text) => IsScalar(text)
  }

  /** The same condition by where the cut stands in the text. */
  lemma SalvageableAt(p: Spot, s: string, q: State)
    requires Stands(p, s, q)
    ensures Salvageable(q) <==>
            match p
            case AtStart(k, _) => k.Inside? && k.lead.NoKey?
            case InLiteral(k, _, _, tail) => !AwaitsKey(k) && |tail| < 2
            case InAtom(_, _, text) => IsScalar(text)
            case AtColon(_, _, _, _) => false
            case AtEnd(_, _, _, _) => true
  {
    hide IsScalar;
    StartTop(p.context);
  }

  // ---------------------------------------------------------------- the two automata side by side

  /** What every reachable state satisfies. */
  predicate Proper(q: State) {
    && (forall i :: 0 <= i < |q.stack| ==> J.IsOpen(q.stack[i]))
    && (q.mode.First? ==> q.stack != [])
    && (q.mode.Key? || q.mode.Colon? || (q.mode.InText? && q.mode.key) ==>
        q.stack != [] && q.stack[|q.stack| - 1] == '{')
  }

  /** What the closer's automaton sees of `q`. */
  function Seen(q: State): J.Scan {
    J.Scan(q.stack, q.mode.InText?, q.mode.InText? && q.mode.lex.Escape?)
  }

  lemma SeenStep(q: State, c: char)
    requires Proper(q) && Step(q, c).Some?
    ensures J.Step(Seen(q), c) == Some(Seen(Step(q, c).value)) && Proper(Step(q, c).value)
  {
    hide IsScalar;
  }

  lemma {:induction false} SeenRun(s: string)
    requires Run(START, s).Some?
    ensures J.Run(J.START, s) == Some(Seen(Run(START, s).value)) && Proper(Run(START, s).value)
    decreases |s|
  {
    if s != [] {
      var front, c := s[..|s| - 1], s[|s| - 1];
      assert s == front + [c];
      SeenRun(front);
      hide Proper, Step;
      SeenStep(Run(START, front).value, c);
      J.RunSnoc(J.START, front, c);
    }
  }

  // ---------------------------------------------------------------- closing the open groups

  predicate AcceptsFrom(q: State, s: string) {
    var r := Run(q, s);
    r.Some? && r.value.stack == [] && Ended(r.value.mode)
  }

  lemma {:induction false} CloseAll(stack: seq<char>)
    ensures Leads(State(stack, After), J.Closers(stack), State([], After))
  {
    if stack != [] {
      var outer, c := stack[..|stack| - 1], J.Closer(stack[|stack| - 1]);
      CloseAll(outer);
      RunOne(State(stack, After), c);
      hide Run;
      Then(State(stack, After), [c], State(outer, After), J.Closers(outer), State([], After));
    }
  }

  /** The first closer decides. */
  lemma FirstCloser(q: State)
    requires Proper(q) && q.stack != [] && !q.mode.Value? && !q.mode.Key? && !q.mode.InText?
    ensures Step(q, J.Closer(q.stack[|q.stack| - 1])) ==
            if Salvageable(q) then Some(State(q.stack[..|q.stack| - 1], After)) else None
  {
    hide IsScalar;
  }

  lemma ClosersDecide(q: State)
    requires Proper(q) && !q.mode.Value? && !q.mode.Key? && !q.mode.InText?
    ensures AcceptsFrom(q, J.Closers(q.stack)) <==> Salvageable(q)
  {
    hide IsScalar;
    if q.stack != [] {
      var outer, c := q.stack[..|q.stack| - 1], J.Closer(q.stack[|q.stack| - 1]);
      FirstCloser(q);
      RunAppend(q, [c], J.Closers(outer));
      RunOne(q, c);
      CloseAll(outer);
    }
  }

  /** A value or a key is awaited only after something that is trimmed. */
  lemma AwaitedAfter(q: State, c: char)
    requires Step(q, c).Some? && !J.Trimmable(c)
    ensures !Step(q, c).value.mode.Value? && !Step(q, c).value.mode.Key?
  {
    hide IsScalar;
  }

  /** A text that stands outside literals and ends in nothing to trim closes to JSON exactly in a salvageable state. */
  lemma KeptDecides(kept: string, stack: seq<char>)
    requires J.Run(J.START, kept) == Some(J.Scan(stack, false, false))
    requires kept == [] || !J.Trimmable(kept[|kept| - 1])
    ensures IsJson(kept + J.Closers(stack)) <==> Run(START, kept).Some? && Salvageable(Run(START, kept).value)
  {
    hide IsJson, J.Run, Step, J.Trimmable, IsScalar, Proper;
    var q := Run(START, kept);
    RunAppend(START, kept, J.Closers(stack));
    AcceptsIff(kept + J.Closers(stack));
    if q.Some? {
      SeenRun(kept);
      if kept == [] {
        assert J.Closers([]) == [] && kept + [] == kept;
      } else {
        AwaitedAfter(Run(START, kept[..|kept| - 1]).value, kept[|kept| - 1]);
        hide Run, Salvageable;
        ClosersDecide(q.value);
      }
    }
  }

  /** For every input: the result is JSON exactly when the kept part alone stands in a salvageable state. */
  lemma ClosedJsonIff(s: string)
    requires J.Closed(s).Some?
    ensures var kept := J.Kept(s, J.Run(J.START, s).value);
            IsJson(J.Closed(s).value) <==> Run(START, kept).Some? && Salvageable(Run(START, kept).value)
  {
    hide IsJson, Run, Salvageable;
    var st := J.Run(J.START, s).value;
    KeptStands(s);
    KeptDecides(J.Kept(s, st), st.stack);
  }

  lemma KeptStands(s: string)
    requires J.Run(J.START, s).Some?
    ensures var st := J.Run(J.START, s).value;
            var kept := J.Kept(s, st);
            && J.Run(J.START, kept) == Some(J.Scan(st.stack, false, false))
            && (kept == [] || !J.Trimmable(kept[|kept| - 1]))
  {
    var st := J.Run(J.START, s).value;
    var p := J.ParseAll(s);
    hide J.Run, J.Parses, J.WellBracketed, J.Closers;
    J.CloseParse(p, s, st);
    if !st.inString {
      assert !st.escaped;
      J.TrimKeepsState(s);
      J.TrimSplit(s);
      hide J.TrimTail, J.Trimmable;
    } else {
      LiteralKept(s);
    }
  }

  lemma LiteralKept(s: string)
    requires J.Run(J.START, s).Some? && J.Run(J.START, s).value.inString
    requires J.Run(J.START, s).value.escaped ==> s != [] && s[|s| - 1] == '\\'
    ensures var st := J.Run(J.START, s).value;
            var kept := J.Kept(s, st);
            && J.Run(J.START, kept) == Some(J.Scan(st.stack, false, false))
            && kept != [] && !J.Trimmable(kept[|kept| - 1])
  {
    hide J.Run, J.TrimTail, J.Trimmable;
    var st := J.Run(J.START, s).value;
    if st.escaped {
      var front := s[..|s| - 1];
      assert s == front + ['\\'];
      J.RunSnoc(J.START, front, '\\');
      J.RunSnoc(J.START, front, '"');
    } else {
      J.RunSnoc(J.START, s, '"');
    }
    QuoteStays();
  }

  lemma QuoteStays()
    ensures !J.Trimmable('"')
  {}

  // ---------------------------------------------------------------- prefixes of JSON texts

  lemma TrimStep(q: State, c: char)
    requires Proper(q) && Step(q, c).Some? && J.Trimmable(c) && !Step(q, c).value.mode.InText?
    ensures Step(q, c).value.stack == q.stack && !q.mode.InText?
    ensures Salvageable(Step(q, c).value) == Salvageable(q)
  {
    hide IsScalar;
  }

  lemma {:induction false} TrimBack(s: string)
    requires Run(START, s).Some? && !Run(START, s).value.mode.InText?
    ensures Run(START, J.TrimTail(s)).Some?
    ensures Salvageable(Run(START, J.TrimTail(s)).value) == Salvageable(Run(START, s).value)
    decreases |s|
  {
    if s != [] && J.Trimmable(s[|s| - 1]) {
      var front, c := s[..|s| - 1], s[|s| - 1];
      SeenRun(front);
      TrimStep(Run(START, front).value, c);
      hide Step, Salvageable, Proper, J.Run;
      TrimBack(front);
    }
  }

  lemma QuoteEnds(q: State)
    requires q.mode.InText? && !q.mode.lex.Escape?
    ensures Salvageable(q) <==> Step(q, '"').Some? && Salvageable(Step(q, '"').value)
  {}

  lemma EscapeFrom(q: State, c: char)
    requires Step(q, c).Some? && Step(q, c).value.mode.InText? && Step(q, c).value.mode.lex.Escape?
    ensures q == State(q.stack, InText(Step(q, c).value.mode.key, Bare)) && q.stack == Step(q, c).value.stack
  {
    hide IsScalar;
  }

  /** What is kept of a JSON prefix is as salvageable as the prefix. */
  lemma KeptSalvageable(s: string)
    requires Run(START, s).Some?
    ensures var q, kept := Run(START, s).value, J.Kept(s, Seen(Run(START, s).value));
            Salvageable(q) <==> Run(START, kept).Some? && Salvageable(Run(START, kept).value)
  {
    var q := Run(START, s).value;
    if !q.mode.InText? {
      TrimBack(s);
    } else if q.mode.lex.Escape? {
      var front := s[..|s| - 1];
      var mid := Run(START, front).value;
      EscapeFrom(mid, s[|s| - 1]);
      RunSnoc(START, front, '"');
      hide Run;
      QuoteEnds(mid);
    } else {
      RunSnoc(START, s, '"');
      hide Run;
      QuoteEnds(q);
    }
  }

  /** A cut JSON text always gets an answer, and it is JSON exactly when the cut is salvageable. */
  lemma CutJsonIff(text: string, k: nat)
    requires IsJson(text) && k <= |text|
    ensures var s := text[..k];
            && J.Closed(s).Some? && Run(START, s).Some?
            && (IsJson(J.Closed(s).value) <==> Salvageable(Run(START, s).value))
  {
    hide IsJson, Run, Salvageable;
    var s := text[..k];
    AcceptsIff(text);
    assert text == s + text[k..];
    RunAppend(START, s, text[k..]);
    SeenRun(s);
    KeptSalvageable(s);
    ClosedJsonIff(s);
  }

  lemma KeySteps(q: State)
    requires q.stack == ['{']
    ensures Step(START, '{') == Some(State(['{'], First))
    ensures q.mode.First? ==> Step(q, '"') == Some(State(['{'], InText(true, Bare)))
    ensures q.mode == InText(true, Bare) ==> Step(q, 'a') == Some(q) && Step(q, '"') == Some(State(['{'], Colon))
    ensures q.mode.Colon? ==> Step(q, ':') == Some(State(['{'], Value))
  {
    hide IsScalar;
    assert [] + ['{'] == ['{'];
  }

  lemma KeyText()
    ensures Run(START, "{\"a\":") == Some(State(['{'], Value))
  {
    hide Run, Step;
    KeySteps(State(['{'], First));
    KeySteps(State(['{'], InText(true, Bare)));
    KeySteps(State(['{'], Colon));
    RunOne(START, '{');
    RunSnoc(START, ['{'], '"');
    RunSnoc(START, ['{'] + ['"'], 'a');
    RunSnoc(START, ['{'] + ['"'] + ['a'], '"');
    RunSnoc(START, ['{'] + ['"'] + ['a'] + ['"'], ':');
    assert ['{'] + ['"'] + ['a'] + ['"'] + [':'] == "{\"a\":";
  }

  lemma OneIsScalar()
    ensures IsScalar("1")
  {
    assert DigitRun("1"[1..]) == 0 && "1"[1..] == [];
    assert DigitRun("1") == 1;
    assert IsFraction([]) && IsUnsigned("1");
  }

  lemma KeyTextCompletes()
    ensures IsJson("{\"a\":1}")
  {
    hide Step, IsScalar;
    KeyText();
    OneIsScalar();
    RunSnoc(START, "{\"a\":", '1');
    RunSnoc(START, "{\"a\":1", '}');
    assert "{\"a\":" + ['1'] == "{\"a\":1" && "{\"a\":1" + ['}'] == "{\"a\":1}";
    OneCloses();
    AcceptsIff("{\"a\":1}");
  }

  lemma OneCloses()
    ensures Step(State(['{'], Value), '1') == Some(State(['{'], InScalar("1")))
    ensures IsScalar("1") ==> Step(State(['{'], InScalar("1")), '}') == Some(State([], After))
  {
    hide IsScalar;
    assert ['1'] == "1";
  }

  /** A JSON text cut before a value closes to a text that is not JSON. */
  lemma ClosedNeedNotBeJson()
    ensures IsJson("{\"a\":1}") && "{\"a\":" <= "{\"a\":1}"
    ensures J.Closed("{\"a\":") == Some("{\"a\"}") && !IsJson("{\"a\"}")
  {
    hide IsJson, Run, Step, J.Run;
    var s, text := "{\"a\":", "{\"a\":1}";
    KeyText();
    KeyTextCompletes();
    assert text[..5] == s;
    CutJsonIff(text, 5);
    SeenRun(s);
    assert s[|s| - 1] == ':' && s[..|s| - 1] == "{\"a\"" && !J.Trimmable('"');
    assert "{\"a\""[3] == '"';
    assert J.TrimTail(s) == J.TrimTail("{\"a\"") == "{\"a\"";
    assert J.Closers(['{']) == ['}'] + J.Closers([]) == ['}'] && "{\"a\"" + ['}'] == "{\"a\"}";
  }
}
