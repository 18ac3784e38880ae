/**
 * What `split` guarantees on every input: how the words and the callback's
 * raw spans relate to the line, when the result is empty, and when it throws.
 */
module SplitProperties {
  import opened Utf16
  import opened Scanner
  import opened Shellwords
  import opened SplitSteps

  /** The callback's arguments, concatenated in order. */
  function Concat(spans: seq<Text>): Text {
    if spans == [] then [] else Concat(spans[..|spans| - 1]) + spans[|spans| - 1]
  }

  /** All the raw text a state has accounted for: what was handed to the callback, then what is pending. */
  function Consumed(st: SplitState): Text {
    Concat(st.spans) + st.rawParsed
  }

  lemma ConcatSnoc(spans: seq<Text>, x: Text)
    ensures Concat(spans + [x]) == Concat(spans) + x
  {
    assert (spans + [x])[..|spans|] == spans;
  }

  /** Each turn accounts for exactly the text it matched. */
  lemma ConsumedAfterMatch(st: SplitState, m: Match<Groups>)
    requires m.groups.alternative != Garbage
    ensures Consumed(OnMatch(st, m).state) == Consumed(st) + m.text
  {
    OnMatchState(st, m);
    if EndsField(m.groups) {
      ConcatSnoc(st.spans, st.rawParsed + m.text);
    }
  }

  /**
   * How the end state `out` of the loop relates to the state `st` it started
   * from on `text`: words and spans are only appended, one span per word; the
   * raw text accounted for grows by a prefix of `text` and only whitespace is
   * left over; whitespace alone changes nothing; and after any other text,
   * either the field is open (it is pushed after the loop) or at least one
   * word was pushed and no raw text is pending.
   */
  predicate Keeps(st: SplitState, out: SplitState, text: Text) {
    && st.words <= out.words && st.spans <= out.spans
    && |out.words| - |st.words| == |out.spans| - |st.spans|
    && Consumed(out) <= Consumed(st) + text
    && AllSpace((Consumed(st) + text)[|Consumed(out)|..])
    && (AllSpace(text) ==> out == st)
    && (!AllSpace(text) && out.field == [] ==> |out.words| > |st.words| && out.rawParsed == [])
  }

  /** `Keeps` composes over one match of the loop at the front of `line` and the rest of the line. */
  lemma KeepsStep(st: SplitState, m: Match<Groups>, line: Text, out: SplitState)
    requires m.groups.alternative != Garbage && !AllSpace(line)
    requires |m.text| <= |line| && line[..|m.text|] == m.text
    requires !EndsField(m.groups) ==> Decoded(m.groups) != []
    requires Keeps(OnMatch(st, m).state, out, line[|m.text|..])
    ensures Keeps(st, out, line)
  {
    var rest := line[|m.text|..];
    assert line == m.text + rest;
    OnMatchState(st, m);
    ConsumedAfterMatch(st, m);
    assert Consumed(st) + line == Consumed(OnMatch(st, m).state) + rest;
  }

  /** The loop of `split`, from any state, on any line it does not throw on, `Keeps` that state. */
  lemma {:induction false} RunKeeps(line: Text, st: SplitState)
    requires Final(line, st).Some?
    ensures Keeps(st, Final(line, st).value, line)
    decreases |line|
  {
    ShellMatchNone(line);
    if AllSpace(line) {
      RunBlank(line, st);
      assert (Consumed(st) + line)[|Consumed(st)|..] == line;
    } else {
      var m := ShellMatch(line).value;
      ShellMatchFits(line);
      ShellMatchOpen(line);
      RunMatch(line, st, m);
      RunKeeps(line[|m.text|..], OnMatch(st, m).state);
      KeepsStep(st, m, line, Final(line, st).value);
    }
  }

  /**
   * The callback contract: one callback per pushed word, and the callback's
   * arguments, in order, spell out the line except for trailing whitespace
   * (the whitespace after the last separator is never reported).
   */
  lemma SplitSpans(line: Text)
    requires Tokenized(line).Success?
    ensures var t := Tokenized(line).value;
            && |t.words| == |t.spans|
            && Concat(t.spans) <= line
            && AllSpace(line[|Concat(t.spans)|..])
  {
    TokenizedByFinal(line);
    RunKeeps(line, Start);
    var out := Final(line, Start).value;
    assert Consumed(Start) + line == line;
    if out.field != [] {
      ConcatSnoc(out.spans, out.rawParsed);
    } else if AllSpace(line) {
      assert out == Start;
    }
    assert Concat(Flush(out).spans) == Consumed(out);
  }

  /** Empty and whitespace-only lines, and only those, split into no words at all. */
  lemma SplitBlank(line: Text)
    ensures AllSpace(line) ==> Tokenized(line) == Success(Tokens([], []))
    ensures Tokenized(line).Success? && Tokenized(line).value.words == [] ==> AllSpace(line)
  {
    TokenizedByFinal(line);
    if Final(line, Start).Some? {
      RunKeeps(line, Start);
    }
  }

  /**
   * The last match of the scan reaches the end of the line, without a
   * separator, on an alternative other than garbage or an empty quote: the
   * field it leaves open is what the push after the loop takes.
   */
  predicate EndsOpen(line: Text)
    decreases |line|
  {
    match ShellMatch(line)
    case None => false
    case Some(m) =>
      if |m.text| < |line| then EndsOpen(line[|m.text|..])
      else m.groups.alternative != Garbage && !EndsField(m.groups)
  }

  /** On a line that is not blank, the loop ends with the field open exactly when the line `EndsOpen`. */
  lemma {:induction false} RunEndsOpen(line: Text, st: SplitState)
    requires Final(line, st).Some? && !AllSpace(line)
    ensures Final(line, st).value.field != [] <==> EndsOpen(line)
    decreases |line|
  {
    ShellMatchNone(line);
    var m := ShellMatch(line).value;
    if m.groups.alternative == Garbage {
      RunGarbage(line, st, m);
    } else {
      var rest := line[|m.text|..];
      var next := OnMatch(st, m).state;
      RunMatch(line, st, m);
      OnMatchState(st, m);
      ShellMatchOpen(line);
      ShellMatchNone(rest);
      if AllSpace(rest) {
        RunBlank(rest, next);
        if |m.text| < |line| {
          ShellMatchShape(line);
          assert IsSpace(rest[0]);
        }
      } else {
        RunEndsOpen(rest, next);
      }
    }
  }

  /**
   * The push after the loop fires exactly when the line `EndsOpen`: then
   * `split` returns the words pushed in the loop and the open field, and the
   * callback's last argument is the raw text pending; otherwise it returns
   * the words pushed in the loop.
   */
  lemma SplitFlushes(line: Text)
    requires Final(line, Start).Some?
    ensures var out := Final(line, Start).value;
            && (out.field != [] <==> EndsOpen(line))
            && Tokenized(line) == Success(if EndsOpen(line) then Tokens(out.words + [out.field], out.spans + [out.rawParsed])
                                         else Tokens(out.words, out.spans))
  {
    TokenizedByFinal(line);
    ShellMatchNone(line);
    if AllSpace(line) {
      RunBlank(line, Start);
    } else {
      RunEndsOpen(line, Start);
    }
  }

  // ---------------------------------------------------------------------------
  // Unmatched quotes
  // ---------------------------------------------------------------------------

  /** Scanning `line` meets an alternative that only the garbage class `\S` takes. */
  predicate ReachesGarbage(line: Text)
    decreases |line|
  {
    match ShellMatch(line)
    case None => false
    case Some(m) => m.groups.alternative == Garbage || ReachesGarbage(line[|m.text|..])
  }

  /** The loop throws exactly when it reaches garbage, whatever state it starts from. */
  lemma {:induction false} ThrowsAtGarbage(line: Text, st: SplitState)
    ensures Final(line, st).None? <==> ReachesGarbage(line)
    decreases |line|
  {
    ShellMatchNone(line);
    if AllSpace(line) {
      RunBlank(line, st);
    } else {
      var m := ShellMatch(line).value;
      if m.groups.alternative == Garbage {
        RunGarbage(line, st, m);
      } else {
        RunMatch(line, st, m);
        ThrowsAtGarbage(line[|m.text|..], OnMatch(st, m).state);
      }
    }
  }

  /** `split` throws "Unmatched quote", and returns no list, exactly when the scan reaches garbage. */
  lemma SplitFailsAtGarbage(line: Text)
    ensures Tokenized(line) == Failure(UnmatchedQuote) <==> ReachesGarbage(line)
    ensures !ReachesGarbage(line) ==> Tokenized(line).Success?
  {
    TokenizedByFinal(line);
    ThrowsAtGarbage(line, Start);
  }

  lemma LexUnclosed(q: CodeUnit, t: Text)
    requires (q == SQUOTE && SQUOTE !in t) || (q == DQUOTE && DoubleQuoteClose(t).None?)
    ensures Lex([q] + t) == Lexeme(Garbage, [q], 1)
  {
    assert ([q] + t)[1..] == t;
    SingleQuoteCloseFacts(t);
  }

  /**
   * A quote that cannot be closed: a single quote with no single quote after
   * it, or a double quote after which no double-quoted body ends in a double
   * quote. Where a match would start there, the scan throws.
   */
  lemma UnclosedQuote(w: Text, q: CodeUnit, t: Text, st: SplitState)
    requires AllSpace(w)
    requires (q == SQUOTE && SQUOTE !in t) || (q == DQUOTE && DoubleQuoteClose(t).None?)
    ensures ReachesGarbage(w + [q] + t)
    ensures Final(w + [q] + t, st) == None
  {
    LexUnclosed(q, t);
    MatchAt(w, [q], t, Garbage, [q]);
    RunGarbage(w + [q] + t, st, ShellMatch(w + [q] + t).value);
  }

  // ---------------------------------------------------------------------------
  // Quoting rules
  // ---------------------------------------------------------------------------

  /** Inside single quotes every unit is literal, backslashes included; an empty '' ends the field. */
  lemma SingleQuotesAreLiteral(w: Text, c: Text, t: Text, st: SplitState)
    requires AllSpace(w) && SQUOTE !in c
    ensures var a := [SQUOTE] + c + [SQUOTE];
            var raw := w + a + SepText(t);
            && ShellMatch(w + a + t) == Some(Match(0, raw, Groups(SingleQuoted, c, Separator(t))))
            && Final(w + a + t, st) == Final(t[|SepText(t)|..], if c == [] || Separator(t).Some? then Pushed(st, c, raw) else Grown(st, c, raw))
  {
    LexSingle(c, t);
    MatchAt(w, [SQUOTE] + c + [SQUOTE], t, SingleQuoted, c);
    StepAt(w, [SQUOTE] + c + [SQUOTE], t, SingleQuoted, c, st);
  }

  /** The escapes that a POSIX shell resolves inside double quotes: `\$`, `` \` ``, `\"` and `\\`. */
  predicate IsShellDoubleQuoteEscapable(c: CodeUnit) {
    c == DOLLAR || c == BACKTICK || c == DQUOTE || c == BACKSLASH
  }

  /**
   * The newline in the unescape class of double-quoted text never fires: the
   * pattern lets no backslash-newline into a double-quoted span, so on what
   * it lets through the unescaping is the one for the four shell escapes.
   */
  lemma {:induction false} DoubleQuoteNewlineEscapeUnused(c: Text)
    requires DoubleQuotedBody(c)
    ensures Unbackslash(c, IsDoubleQuoteEscapable) == Unbackslash(c, IsShellDoubleQuoteEscapable)
    decreases |c|
  {
    if c != [] {
      if c[0] == BACKSLASH {
        DoubleQuoteNewlineEscapeUnused(c[2..]);
        if !IsDoubleQuoteEscapable(c[1]) {
          assert Unbackslash(c, IsDoubleQuoteEscapable) == [c[0]] + Unbackslash(c[1..], IsDoubleQuoteEscapable);
          assert c[1..] == [c[1]] + c[2..];
        }
      } else {
        DoubleQuoteNewlineEscapeUnused(c[1..]);
      }
    }
  }

  /** Inside double quotes, a backslash before any other unit is kept together with that unit. */
  lemma DoubleQuoteKeepsOtherBackslashes(u: CodeUnit, c: Text)
    requires !IsShellDoubleQuoteEscapable(u) && u != LF
    ensures Unbackslash([BACKSLASH, u] + c, IsDoubleQuoteEscapable) == [BACKSLASH, u] + Unbackslash(c, IsDoubleQuoteEscapable)
  {
    assert ([BACKSLASH, u] + c)[1..] == [u] + c;
    assert ([u] + c)[1..] == c;
  }

  /** `s` written for double quotes: a backslash before each `$`, `` ` ``, `"` and `\`. */
  function ForDoubleQuotes(s: Text): Text {
    if s == [] then []
    else (if IsShellDoubleQuoteEscapable(s[0]) then [BACKSLASH, s[0]] else [s[0]]) + ForDoubleQuotes(s[1..])
  }

  /**
   * Inside double quotes the text is taken as it stands except that a
   * backslash before `$`, `` ` ``, `"` or `\` is dropped; an empty "" ends
   * the field.
   */
  lemma DoubleQuotedStep(w: Text, c: Text, t: Text, st: SplitState)
    requires AllSpace(w) && DoubleQuotedBody(c)
    ensures var a := [DQUOTE] + c + [DQUOTE];
            var raw := w + a + SepText(t);
            var piece := Unbackslash(c, IsShellDoubleQuoteEscapable);
            && ShellMatch(w + a + t) == Some(Match(0, raw, Groups(DoubleQuoted, c, Separator(t))))
            && Final(w + a + t, st) == Final(t[|SepText(t)|..], if c == [] || Separator(t).Some? then Pushed(st, piece, raw) else Grown(st, piece, raw))
  {
    LexDouble(c, t);
    MatchAt(w, [DQUOTE] + c + [DQUOTE], t, DoubleQuoted, c);
    StepAt(w, [DQUOTE] + c + [DQUOTE], t, DoubleQuoted, c, st);
    DoubleQuoteNewlineEscapeUnused(c);
  }

  /** An empty '' or "" pushes the field as it stands, even when no whitespace follows. */
  lemma EmptyQuotesEndField(w: Text, q: CodeUnit, t: Text, st: SplitState)
    requires AllSpace(w) && (q == SQUOTE || q == DQUOTE)
    ensures Final(w + [q, q] + t, st) == Final(t[|SepText(t)|..], Pushed(st, [], w + [q, q] + SepText(t)))
  {
    assert [q] + [] + [q] == [q, q];
    if q == SQUOTE {
      SingleQuotesAreLiteral(w, [], t, st);
    } else {
      DoubleQuotedStep(w, [], t, st);
    }
  }

  /** Backslashing exactly the four shell escapes gives a double-quoted body that unescapes to `s`. */
  lemma {:induction false} ForDoubleQuotesUnescapes(s: Text)
    ensures DoubleQuotedBody(ForDoubleQuotes(s))
    ensures Unbackslash(ForDoubleQuotes(s), IsDoubleQuoteEscapable) == s
  {
    if s != [] {
      var rest := ForDoubleQuotes(s[1..]);
      ForDoubleQuotesUnescapes(s[1..]);
      if IsShellDoubleQuoteEscapable(s[0]) {
        assert ([BACKSLASH, s[0]] + rest)[2..] == rest;
      } else {
        assert ([s[0]] + rest)[1..] == rest;
      }
      assert s == [s[0]] + s[1..];
    }
  }

  /** A line that is one alternative and nothing else splits into one word, its decoded capture. */
  lemma SplitOneLexeme(a: Text, alternative: Alternative, capture: Text)
    requires a != [] && !IsSpace(a[0])
    requires Lex(a) == Lexeme(alternative, capture, |a|) && alternative != Garbage
    ensures Tokenized(a) == Success(Tokens([Decoded(Groups(alternative, capture, None))], [a]))
  {
    var g := Groups(alternative, capture, None);
    var word := Decoded(g);
    EndOfLine(a, alternative, capture, Start);
    LexShape(a);
    assert Start.field + word == word && Start.rawParsed + a == a;
    if EndsField(g) {
      assert Pushed(Start, word, a) == SplitState([word], [], [], [a]);
      TokenizedOf(a, SplitState([word], [], [], [a]));
    } else {
      assert word != [];
      assert Grown(Start, word, a) == SplitState([], word, a, []);
      TokenizedOf(a, SplitState([], word, a, []));
      assert [] + [word] == [word] && [] + [a] == [a];
    }
  }

  /**
   * Any string, newlines and carriage returns included, comes back from
   * double quotes as one word when its `$ \` " \` are backslashed.
   */
  lemma SplitDoubleQuoted(s: Text)
    ensures var line := [DQUOTE] + ForDoubleQuotes(s) + [DQUOTE];
            Tokenized(line) == Success(Tokens([s], [line]))
  {
    var c := ForDoubleQuotes(s);
    ForDoubleQuotesUnescapes(s);
    LexDouble(c, []);
    assert [DQUOTE] + c + [DQUOTE] + [] == [DQUOTE] + c + [DQUOTE];
    SplitOneLexeme([DQUOTE] + c + [DQUOTE], DoubleQuoted, c);
  }

  // ---------------------------------------------------------------------------
  // Backslashes outside quotes
  // ---------------------------------------------------------------------------

  /** Outside quotes a backslash is dropped and the unit after it kept literally, whitespace and quotes included. */
  lemma BackslashEscapes(w: Text, u: CodeUnit, t: Text, st: SplitState)
    requires AllSpace(w) && MatchesDot(u)
    ensures var raw := w + [BACKSLASH, u] + SepText(t);
            && ShellMatch(w + [BACKSLASH, u] + t) == Some(Match(0, raw, Groups(Escaped, [BACKSLASH, u], Separator(t))))
            && Final(w + [BACKSLASH, u] + t, st) == Final(t[|SepText(t)|..], if Separator(t).Some? then Pushed(st, [u], raw) else Grown(st, [u], raw))
  {
    LexEscape(u, t);
    MatchAt(w, [BACKSLASH, u], t, Escaped, [BACKSLASH, u]);
    StepAt(w, [BACKSLASH, u], t, Escaped, [BACKSLASH, u], st);
    assert Unbackslash([BACKSLASH, u], MatchesDot) == [u];
  }

  /**
   * A backslash at the end of the input or before a line terminator stays a
   * literal backslash. Before a line terminator the field ends there (the
   * terminator is the separator); at the end of the input the field is left
   * open, for the push after the loop.
   */
  lemma LoneBackslash(w: Text, t: Text, st: SplitState)
    requires AllSpace(w) && (t == [] || IsLineTerminator(t[0]))
    ensures var raw := w + [BACKSLASH] + SepText(t);
            && ShellMatch(w + [BACKSLASH] + t) == Some(Match(0, raw, Groups(Escaped, [BACKSLASH], Separator(t))))
            && (Separator(t).Some? <==> t != [])
            && Final(w + [BACKSLASH] + t, st) == Final(t[|SepText(t)|..], if t == [] then Grown(st, [BACKSLASH], raw) else Pushed(st, [BACKSLASH], raw))
  {
    LexLoneBackslash(t);
    MatchAt(w, [BACKSLASH], t, Escaped, [BACKSLASH]);
    StepAt(w, [BACKSLASH], t, Escaped, [BACKSLASH], st);
    assert Unbackslash([BACKSLASH], MatchesDot) == [BACKSLASH];
  }
}
