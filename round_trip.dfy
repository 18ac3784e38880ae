/**
 * `split` reads back what `escape` and `join` write, for strings without a
 * carriage return, U+2028 or U+2029; and `escape` fails to round-trip every
 * string that has one, because `.` does not take a line terminator after the
 * backslash that `escape` puts in front of it.
 */
module RoundTrip {
  import opened Utf16
  import opened Scanner
  import opened Shellwords
  import opened SplitSteps
  import opened SplitProperties
  import opened Escaping

  /** `s` has none of the line terminators that `escape` backslashes (the newline it quotes is allowed). */
  predicate NoCrLsPs(s: Text) {
    forall i :: 0 <= i < |s| ==> s[i] != CR && s[i] != LS && s[i] != PS
  }

  /** The length of the longest prefix of safe units. */
  function SafeRun(s: Text): (n: nat)
    ensures n <= |s|
    ensures s != [] && IsSafe(s[0]) ==> n > 0
  {
    if s != [] && IsSafe(s[0]) then 1 + SafeRun(s[1..]) else 0
  }

  /** The safe run is greedy: it takes safe units, and stops only at a unit that is not one or at the end. */
  lemma {:induction false} SafeRunFacts(s: Text)
    ensures forall i :: 0 <= i < SafeRun(s) ==> IsSafe(s[i])
    ensures SafeRun(s) < |s| ==> !IsSafe(s[SafeRun(s)])
    decreases |s|
  {
    if s != [] && IsSafe(s[0]) {
      SafeRunFacts(s[1..]);
      assert forall i :: 1 <= i < SafeRun(s) ==> s[i] == s[1..][i - 1];
    }
  }

  /** How many units of `s` the first match on `escape`'s output reads back: a whole safe run, or one unit. */
  function FirstSize(s: Text): nat
    requires s != []
  {
    if IsSafe(s[0]) then SafeRun(s) else 1
  }

  /** The alternative that matches first on `escape`'s output, what it captures, and how long it is. */
  function FirstLexeme(s: Text): Lexeme
    requires s != []
  {
    if IsSafe(s[0]) then Lexeme(Word, s[..SafeRun(s)], SafeRun(s))
    else if s[0] == LF then Lexeme(SingleQuoted, [LF], 3)
    else Lexeme(Escaped, [BACKSLASH, s[0]], 2)
  }

  /** `escape`'s output never starts with whitespace, and starts a word run exactly where the string starts with a safe unit. */
  lemma EscapedHead(r: Text)
    requires r != []
    ensures EscapedUnits(r) != [] && EscapedUnits(r)[0] == EscapeUnit(r[0])[0]
    ensures !IsSpace(EscapedUnits(r)[0])
    ensures IsWordUnit(EscapedUnits(r)[0]) <==> IsSafe(r[0])
  {
  }

  /** A safe run is written as it stands and read back by the word alternative. */
  lemma FirstWord(s: Text, u: Text)
    requires s != [] && IsSafe(s[0])
    requires u == [] || !IsWordUnit(u[0])
    ensures var v := s[..SafeRun(s)];
            EscapedUnits(v) == v && Lex(v + u) == Lexeme(Word, v, |v|)
  {
    var v := s[..SafeRun(s)];
    SafePrefix(s, v);
    SafeUnitsStay(v);
    LexWord(v, u);
  }

  /** The safe run is made of safe units, all of which continue a word run. */
  lemma SafePrefix(s: Text, v: Text)
    requires v == s[..SafeRun(s)]
    ensures forall i :: 0 <= i < |v| ==> IsSafe(v[i]) && IsWordUnit(v[i])
  {
    SafeRunFacts(s);
    forall i | 0 <= i < |v| ensures IsSafe(v[i]) && IsWordUnit(v[i]) {
      assert v[i] == s[i];
      SafeIsWordUnit(v[i]);
    }
  }

  lemma SafeIsWordUnit(c: CodeUnit)
    ensures IsSafe(c) ==> IsWordUnit(c)
  {
  }

  /** A newline is written as `'\n'` and read back by the single-quote alternative. */
  lemma FirstNewline(u: Text)
    ensures EscapedUnits([LF]) == [SQUOTE, LF, SQUOTE]
    ensures Lex([SQUOTE, LF, SQUOTE] + u) == Lexeme(SingleQuoted, [LF], 3)
    ensures Decoded(Groups(SingleQuoted, [LF], None)) == [LF]
  {
    assert [SQUOTE] + [LF] + [SQUOTE] == [SQUOTE, LF, SQUOTE];
    LexSingle([LF], u);
  }

  /** Any other unit is written with a backslash and read back by the escape alternative, since `.` takes it. */
  lemma FirstEscaped(c: CodeUnit, u: Text)
    requires !IsSafe(c) && c != LF && c != CR && c != LS && c != PS
    ensures EscapedUnits([c]) == [BACKSLASH, c]
    ensures Lex([BACKSLASH, c] + u) == Lexeme(Escaped, [BACKSLASH, c], 2)
    ensures Decoded(Groups(Escaped, [BACKSLASH, c], None)) == [c]
  {
    LexEscape(c, u);
    assert Unbackslash([BACKSLASH, c], MatchesDot) == [c];
  }

  /**
   * The first match on the escaped text of `s`, followed by `u`: it takes
   * the escape of the first `FirstSize(s)` units and decodes back to them.
   */
  lemma FirstPiece(s: Text, u: Text)
    requires s != [] && NoCrLsPs(s)
    requires IsSafe(s[0]) ==> u == [] || !IsWordUnit(u[0])
    ensures var k := FirstSize(s);
            var a := EscapedUnits(s[..k]);
            var lx := FirstLexeme(s);
            && 0 < k <= |s| && (IsSafe(s[0]) && k < |s| ==> !IsSafe(s[k]))
            && s == s[..k] + s[k..] && NoCrLsPs(s[k..])
            && EscapedUnits(s) == a + EscapedUnits(s[k..])
            && a != [] && !IsSpace(a[0]) && |a| == lx.size
            && Lex(a + u) == lx && lx.alternative != Garbage && lx.capture != []
            && Decoded(Groups(lx.alternative, lx.capture, None)) == s[..k]
  {
    var k := FirstSize(s);
    if IsSafe(s[0]) {
      SafeRunFacts(s);
    }
    FirstCut(s, k);
    FirstLexemeOf(s, u);
  }

  /** Cutting `s` at `k` cuts its escape at the same place and keeps the rest free of CR, U+2028 and U+2029. */
  lemma FirstCut(s: Text, k: nat)
    requires k <= |s| && NoCrLsPs(s)
    ensures s == s[..k] + s[k..] && NoCrLsPs(s[k..])
    ensures EscapedUnits(s) == EscapedUnits(s[..k]) + EscapedUnits(s[k..])
  {
    assert s == s[..k] + s[k..];
    assert forall i :: 0 <= i < |s| - k ==> s[k..][i] == s[k + i];
    EscapedUnitsAppend(s[..k], s[k..]);
  }

  /** The first lexeme on the escape of `s`, and what it decodes to. */
  lemma FirstLexemeOf(s: Text, u: Text)
    requires s != [] && NoCrLsPs(s)
    requires IsSafe(s[0]) ==> u == [] || !IsWordUnit(u[0])
    ensures var k := FirstSize(s);
            var a := EscapedUnits(s[..k]);
            var lx := FirstLexeme(s);
            && 0 < k <= |s| && a != [] && !IsSpace(a[0]) && |a| == lx.size
            && Lex(a + u) == lx && lx.alternative != Garbage && lx.capture != []
            && Decoded(Groups(lx.alternative, lx.capture, None)) == s[..k]
  {
    if IsSafe(s[0]) {
      FirstWord(s, u);
    } else if s[0] == LF {
      assert s[..1] == [LF];
      FirstNewline(u);
    } else {
      assert s[..1] == [s[0]];
      FirstEscaped(s[0], u);
    }
  }

  lemma GrownGrown(st: SplitState, p: Text, a: Text, q: Text, b: Text)
    ensures Grown(Grown(st, p, a), q, b) == Grown(st, p + q, a + b)
  {
    assert st.field + p + q == st.field + (p + q);
    assert st.rawParsed + a + b == st.rawParsed + (a + b);
  }

  lemma PushedGrown(st: SplitState, p: Text, a: Text, q: Text, b: Text)
    ensures Pushed(Grown(st, p, a), q, b) == Pushed(st, p + q, a + b)
  {
    assert st.field + p + q == st.field + (p + q);
    assert st.rawParsed + a + b == st.rawParsed + (a + b);
  }

  /**
   * `split` reads the escaped units of `s` back as `s`, appended to the
   * current field: the field is pushed when whitespace follows, and stays
   * open when a quote, a backslash or the end of the line follows.
   */
  lemma {:induction false} RunEscapedUnits(s: Text, t: Text, st: SplitState)
    requires s != [] && NoCrLsPs(s)
    requires t == [] || !IsWordUnit(t[0])
    ensures t != [] && IsSpace(t[0]) ==>
              Final(EscapedUnits(s) + t, st) == Final(t[|SepText(t)|..], Pushed(st, s, EscapedUnits(s) + SepText(t)))
    ensures t == [] || !IsSpace(t[0]) ==>
              Final(EscapedUnits(s) + t, st) == Final(t, Grown(st, s, EscapedUnits(s)))
    decreases |s|
  {
    var k := FirstSize(s);
    var lx := FirstLexeme(s);
    var p := s[..k];
    var a := EscapedUnits(p);
    var rest := s[k..];
    if rest == [] {
      LastEscapedUnits(s, t, st);
    } else {
      var u := EscapedUnits(rest) + t;
      EscapedHead(rest);
      if IsSafe(s[0]) {
        SafeRunFacts(s);
        assert rest[0] == s[k];
      }
      FirstPiece(s, u);
      AssocSeq(a, EscapedUnits(rest), t);
      ContinueAt(a, u, lx.alternative, lx.capture, st);
      RunEscapedUnits(rest, t, Grown(st, p, a));
      GrownGrown(st, p, a, rest, EscapedUnits(rest));
      PushedGrown(st, p, a, rest, EscapedUnits(rest) + SepText(t));
      AssocSeq(a, EscapedUnits(rest), SepText(t));
    }
  }

  /** `RunEscapedUnits` where the escapes of `s` are one lexeme. */
  lemma LastEscapedUnits(s: Text, t: Text, st: SplitState)
    requires s != [] && NoCrLsPs(s) && s[FirstSize(s)..] == []
    requires t == [] || !IsWordUnit(t[0])
    ensures t != [] && IsSpace(t[0]) ==>
              Final(EscapedUnits(s) + t, st) == Final(t[|SepText(t)|..], Pushed(st, s, EscapedUnits(s) + SepText(t)))
    ensures t == [] || !IsSpace(t[0]) ==>
              Final(EscapedUnits(s) + t, st) == Final(t, Grown(st, s, EscapedUnits(s)))
  {
    var lx := FirstLexeme(s);
    var a := EscapedUnits(s[..FirstSize(s)]);
    FirstPiece(s, t);
    assert s[..FirstSize(s)] == s;
    if t != [] && IsSpace(t[0]) {
      EndAt(a, t, lx.alternative, lx.capture, st);
    } else {
      ContinueAt(a, t, lx.alternative, lx.capture, st);
    }
  }

  /** `escape(s)`, followed by whitespace, reads back as the one word `s`. */
  lemma RunEscape(s: Text, t: Text, st: SplitState)
    requires NoCrLsPs(s)
    requires t != [] && IsSpace(t[0])
    ensures Final(Escape(s) + t, st) == Final(t[|SepText(t)|..], Pushed(st, s, Escape(s) + SepText(t)))
  {
    if s == [] {
      LexSingle([], t);
      assert [SQUOTE] + [] + [SQUOTE] == Escape(s);
      EndAt(Escape(s), t, SingleQuoted, [], st);
    } else {
      EscapeUnitwise(s);
      RunEscapedUnits(s, t, st);
    }
  }

  /**
   * `escape(s)` at the end of the line: `''` pushes the empty word, and any
   * other escape leaves `s` in the open field, for the push after the loop.
   */
  lemma EscapeEndsLine(s: Text, st: SplitState)
    requires NoCrLsPs(s)
    ensures Final(Escape(s), st) == Some(if s == [] then Pushed(st, [], Escape(s)) else Grown(st, s, Escape(s)))
  {
    var e := Escape(s);
    if s == [] {
      LexSingle([], []);
      assert [SQUOTE] + [] + [SQUOTE] + [] == e;
      EndOfLine(e, SingleQuoted, [], st);
    } else {
      EscapeUnitwise(s);
      assert e + [] == e;
      RunEscapedUnits(s, [], st);
      RunBlank([], Grown(st, s, e));
    }
  }

  /** The round trip `split(escape(s)) == [s]`, for strings without CR, U+2028 and U+2029; the one callback gets all of `escape(s)`. */
  lemma SplitEscape(s: Text)
    requires NoCrLsPs(s)
    ensures Tokenized(Escape(s)) == Success(Tokens([s], [Escape(s)]))
  {
    var e := Escape(s);
    EscapeEndsLine(s, Start);
    OneWordFlush(s, e);
    TokenizedOf(e, if s == [] then Pushed(Start, [], e) else Grown(Start, s, e));
  }

  /**
   * `escape("\r")` is a backslash and a carriage return; `.` does not take
   * the carriage return, so `split` reads a lone backslash, and the carriage
   * return is the separator.
   */
  lemma SplitEscapeCarriageReturn()
    ensures Escape([CR]) == [BACKSLASH, CR]
    ensures Tokenized(Escape([CR])) == Success(Tokens([[BACKSLASH]], [[BACKSLASH, CR]]))
  {
    EscapeCarriageReturn();
    var st := SplitState([[BACKSLASH]], [], [], [[BACKSLASH, CR]]);
    RunBackslashCarriageReturn();
    TokenizedOf([BACKSLASH, CR], st);
  }

  lemma EscapeCarriageReturn()
    ensures Escape([CR]) == [BACKSLASH, CR]
  {
    assert BackslashUnsafe([CR]) == [BACKSLASH, CR];
    assert [BACKSLASH, CR][1..] == [CR] && QuoteNewlines([CR]) == [CR];
    assert QuoteNewlines([BACKSLASH, CR]) == [BACKSLASH, CR];
  }

  /** `split` on a backslash and a carriage return pushes the backslash alone. */
  lemma RunBackslashCarriageReturn()
    ensures Final([BACKSLASH, CR], Start) == Some(SplitState([[BACKSLASH]], [], [], [[BACKSLASH, CR]]))
  {
    LoneBackslash([], [CR], Start);
    assert [CR] != [];
    assert [] + [BACKSLASH] + [CR] == [BACKSLASH, CR];
    assert SepText([CR]) == [CR] && [CR][1..] == [];
    var next := Pushed(Start, [BACKSLASH], [BACKSLASH, CR]);
    assert Start.field + [BACKSLASH] == [BACKSLASH] && Start.rawParsed + [BACKSLASH, CR] == [BACKSLASH, CR];
    assert next == SplitState([[BACKSLASH]], [], [], [[BACKSLASH, CR]]);
    RunBlank([], next);
  }

  /** The index of the first CR, U+2028 or U+2029 in `s`. */
  function FirstBreak(s: Text): (i: nat)
    requires !NoCrLsPs(s)
    ensures i < |s| && (s[i] == CR || s[i] == LS || s[i] == PS) && NoCrLsPs(s[..i])
  {
    if s[0] == CR || s[0] == LS || s[0] == PS then 0
    else
      assert !NoCrLsPs(s[1..]) by {
        var j :| 0 <= j < |s| && (s[j] == CR || s[j] == LS || s[j] == PS);
        assert s[1..][j - 1] == s[j];
      }
      var i := FirstBreak(s[1..]);
      assert forall j :: 0 <= j < i + 1 ==> s[..i + 1][j] == s[j];
      assert forall j :: 1 <= j < i + 1 ==> s[j] == s[1..][..i][j - 1];
      1 + i
  }

  /** Where `s` first has a CR, U+2028 or U+2029, `escape` has put a backslash in front of it. */
  lemma EscapeAtBreak(s: Text)
    requires !NoCrLsPs(s)
    ensures var i := FirstBreak(s);
            Escape(s) == EscapedUnits(s[..i]) + ([BACKSLASH] + ([s[i]] + EscapedUnits(s[i + 1..])))
  {
    var i := FirstBreak(s);
    assert s == s[..i] + [s[i]] + s[i + 1..];
    EscapeUnitwise(s);
    EscapedUnitsAround(s[..i], s[i], s[i + 1..]);
    assert EscapeUnit(s[i]) == [BACKSLASH] + [s[i]];
    AssocSeq([BACKSLASH], [s[i]], EscapedUnits(s[i + 1..]));
  }

  /** The escape of `v + [b] + after`, cut at `b`. */
  lemma EscapedUnitsAround(v: Text, b: CodeUnit, after: Text)
    ensures EscapedUnits(v + [b] + after) == EscapedUnits(v) + (EscapeUnit(b) + EscapedUnits(after))
  {
    EscapedUnitsAppend(v + [b], after);
    EscapedUnitsAppend(v, [b]);
    assert [b][1..] == [];
    assert EscapedUnits([b]) == EscapeUnit(b);
    AssocSeq(EscapedUnits(v), EscapeUnit(b), EscapedUnits(after));
  }

  /** `split` reads the escape of `v`, then a backslash that `.` cannot extend: it pushes `v` with a literal backslash. */
  lemma RunToBreak(v: Text, b: CodeUnit, rest: Text)
    requires NoCrLsPs(v) && (b == CR || b == LS || b == PS)
    ensures Final(EscapedUnits(v) + ([BACKSLASH] + ([b] + rest)), Start)
            == Final(rest, SplitState([v + [BACKSLASH]], [], [], [EscapedUnits(v) + [BACKSLASH, b]]))
  {
    var st1 := SplitState([], v, EscapedUnits(v), []);
    RunUpTo(v, [BACKSLASH] + ([b] + rest));
    BreakStep(b, rest, st1);
    assert Pushed(st1, [BACKSLASH], [BACKSLASH, b]) == SplitState([v + [BACKSLASH]], [], [], [EscapedUnits(v) + [BACKSLASH, b]]);
  }

  /** A backslash before a CR, U+2028 or U+2029 is a literal backslash that ends the field. */
  lemma BreakStep(b: CodeUnit, rest: Text, st: SplitState)
    requires b == CR || b == LS || b == PS
    ensures Final([BACKSLASH] + ([b] + rest), st) == Final(rest, Pushed(st, [BACKSLASH], [BACKSLASH, b]))
  {
    var t := [b] + rest;
    LexLoneBackslash(t);
    EndAt([BACKSLASH], t, Escaped, [BACKSLASH], st);
    assert Separator(t) == Some([b]);
    assert t[1..] == rest && [BACKSLASH] + SepText(t) == [BACKSLASH, b];
    assert Decoded(Groups(Escaped, [BACKSLASH], Separator(t))) == [BACKSLASH];
  }

  /** From the start, `split` reads the escape of `v` into the first field when a backslash follows. */
  lemma RunUpTo(v: Text, x: Text)
    requires NoCrLsPs(v) && x != [] && x[0] == BACKSLASH
    ensures Final(EscapedUnits(v) + x, Start) == Final(x, SplitState([], v, EscapedUnits(v), []))
  {
    var st1 := SplitState([], v, EscapedUnits(v), []);
    if v == [] {
      assert EscapedUnits([]) + x == x;
    } else {
      RunEscapedUnits(v, x, Start);
      assert Grown(Start, v, EscapedUnits(v)) == st1;
    }
  }

  /**
   * A string with a CR, U+2028 or U+2029 does not round-trip: before the first
   * such unit `split` pushes a word that ends in a literal backslash.
   */
  lemma SplitEscapeBreaks(s: Text)
    requires !NoCrLsPs(s)
    ensures Tokenized(Escape(s)).Success? ==> Tokenized(Escape(s)).value.words != [s]
  {
    var i := FirstBreak(s);
    var v := s[..i];
    EscapeAtBreak(s);
    BreakFirstWord(v, s[i], EscapedUnits(s[i + 1..]));
    assert |v + [BACKSLASH]| == i + 1 <= |s| && (v + [BACKSLASH])[i] == BACKSLASH != s[i];
  }

  /** Before a CR, U+2028 or U+2029 written as backslash and unit, `split` has pushed `v` and a literal backslash as its first word. */
  lemma BreakFirstWord(v: Text, b: CodeUnit, rest: Text)
    requires NoCrLsPs(v) && (b == CR || b == LS || b == PS)
    ensures var r := Tokenized(EscapedUnits(v) + ([BACKSLASH] + ([b] + rest)));
            r.Success? ==> r.value.words != [] && r.value.words[0] == v + [BACKSLASH]
  {
    var line := EscapedUnits(v) + ([BACKSLASH] + ([b] + rest));
    RunToBreak(v, b, rest);
    TokenizedByFinal(line);
    FirstWordStays(line, rest, v + [BACKSLASH], EscapedUnits(v) + [BACKSLASH, b]);
  }

  /** A run that reaches the rest of its line with one word pushed ends with that word first. */
  lemma FirstWordStays(line: Text, rest: Text, w: Text, raw: Text)
    requires Final(line, Start) == Final(rest, SplitState([w], [], [], [raw]))
    ensures Final(line, Start).Some? ==> Flush(Final(line, Start).value).words != [] && Flush(Final(line, Start).value).words[0] == w
  {
    if Final(line, Start).Some? {
      RunKeeps(rest, SplitState([w], [], [], [raw]));
      FlushKeepsFirst(SplitState([w], [], [], [raw]), Final(line, Start).value);
    }
  }

  /** Once a first word is pushed, it stays the first word of the result. */
  lemma FlushKeepsFirst(st: SplitState, out: SplitState)
    requires st.words != [] && st.words <= out.words
    ensures Flush(out).words != [] && Flush(out).words[0] == st.words[0]
  {
  }

  /** `split(escape(s)) == [s]` holds exactly for the strings without CR, U+2028 and U+2029. */
  lemma SplitEscapeIff(s: Text)
    ensures (Tokenized(Escape(s)).Success? && Tokenized(Escape(s)).value.words == [s]) <==> NoCrLsPs(s)
  {
    if NoCrLsPs(s) {
      SplitEscape(s);
    } else {
      SplitEscapeBreaks(s);
    }
  }

  /** The spans `split` reports for `join(strings)`: each escape with the space after it, the last one without. */
  function JoinSpans(strings: seq<Text>): seq<Text>
    decreases |strings|
  {
    if strings == [] then []
    else if |strings| == 1 then [Escape(strings[0])]
    else [Escape(strings[0]) + [SPACE]] + JoinSpans(strings[1..])
  }

  /**
   * `split` on `join(strings)`, from a state between words: the loop does not
   * throw, and with the push after the loop it yields the strings, one span
   * per escape with its space.
   */
  lemma {:induction false} RunJoined(strings: seq<Text>, st: SplitState)
    requires strings != [] && forall i :: 0 <= i < |strings| ==> NoCrLsPs(strings[i])
    requires st.field == [] && st.rawParsed == []
    ensures Final(JoinedBySpace(EscapeAll(strings)), st).Some?
    ensures Flush(Final(JoinedBySpace(EscapeAll(strings)), st).value) == Tokens(st.words + strings, st.spans + JoinSpans(strings))
    decreases |strings|
  {
    var x := strings[0];
    assert NoCrLsPs(x);
    JoinedCons(strings);
    if |strings| == 1 {
      JoinedLast(x, st);
      assert strings == [x];
    } else {
      var rest := strings[1..];
      var j := JoinedBySpace(EscapeAll(rest));
      JoinedStep(x, j, st);
      var next := SplitState(st.words + [x], [], [], st.spans + [Escape(x) + [SPACE]]);
      assert forall i :: 0 <= i < |rest| ==> NoCrLsPs(rest[i]) by {
        forall i | 0 <= i < |rest| ensures NoCrLsPs(rest[i]) {
          assert rest[i] == strings[i + 1];
        }
      }
      RunJoined(rest, next);
      ConsAfter(st.words, strings);
      AssocSeq(st.spans, [Escape(x) + [SPACE]], JoinSpans(rest));
    }
  }

  lemma ConsAfter<T>(p: seq<T>, s: seq<T>)
    requires s != []
    ensures p + [s[0]] + s[1..] == p + s
  {
    assert [s[0]] + s[1..] == s;
  }

  /** `join` and the spans of `split` on it, one string at a time. */
  lemma JoinedCons(strings: seq<Text>)
    requires strings != []
    ensures |strings| == 1 ==> JoinedBySpace(EscapeAll(strings)) == Escape(strings[0]) && JoinSpans(strings) == [Escape(strings[0])]
    ensures |strings| > 1 ==>
              && JoinedBySpace(EscapeAll(strings)) == Escape(strings[0]) + [SPACE] + JoinedBySpace(EscapeAll(strings[1..]))
              && JoinSpans(strings) == [Escape(strings[0]) + [SPACE]] + JoinSpans(strings[1..])
  {
    var e := EscapeAll(strings);
    assert e == [Escape(strings[0])] + EscapeAll(strings[1..]);
    assert e[1..] == EscapeAll(strings[1..]);
  }

  /** The last escape of a join ends the line: its string becomes the last word, in the loop or after it. */
  lemma JoinedLast(x: Text, st: SplitState)
    requires NoCrLsPs(x) && st.field == [] && st.rawParsed == []
    ensures Final(Escape(x), st).Some?
    ensures Flush(Final(Escape(x), st).value) == Tokens(st.words + [x], st.spans + [Escape(x)])
  {
    EscapeEndsLine(x, st);
    LastWordFlush(st, x, Escape(x));
  }

  /** An escape followed by the joining space: its string is pushed with its escape and the space. */
  lemma JoinedStep(x: Text, j: Text, st: SplitState)
    requires NoCrLsPs(x) && st.field == [] && st.rawParsed == []
    ensures Final(Escape(x) + [SPACE] + j, st) == Final(j, SplitState(st.words + [x], [], [], st.spans + [Escape(x) + [SPACE]]))
  {
    var e := Escape(x);
    var t := [SPACE] + j;
    AssocSeq(e, [SPACE], j);
    RunEscape(x, t, st);
    assert Separator(t) == Some([SPACE]);
    assert t[1..] == j;
    assert st.field + x == x && st.rawParsed + (e + [SPACE]) == e + [SPACE];
  }

  /** The round trip `split(join(strings)) == strings`, for strings without CR, U+2028 and U+2029; one callback per string. */
  lemma SplitJoin(strings: seq<Text>)
    requires forall i :: 0 <= i < |strings| ==> NoCrLsPs(strings[i])
    ensures Tokenized(JoinedBySpace(EscapeAll(strings))) == Success(Tokens(strings, JoinSpans(strings)))
  {
    if strings == [] {
      JoinNothing();
    } else {
      var line := JoinedBySpace(EscapeAll(strings));
      RunJoined(strings, Start);
      TokenizedFlush(line, strings, JoinSpans(strings));
    }
  }

  lemma JoinNothing()
    ensures Tokenized(JoinedBySpace(EscapeAll([]))) == Success(Tokens([], JoinSpans([])))
  {
    RunBlank([], Start);
    TokenizedOf([], Start);
  }
}
