/**
 * How one match of SHELL_PARSE_REGEX looks for each shape of input, and how
 * one turn of the scanning loop of `split` moves its state. The lemmas about
 * `split`, `escape` and `join` are assembled from these.
 */
module SplitSteps {
  import opened Utf16
  import opened Scanner
  import opened Shellwords

  /** The state `split` reaches on `line` from `st`, or `None` when it throws "Unmatched quote". */
  function Final(line: Text, st: SplitState): Option<SplitState> {
    match Run(line, st)
    case Threw => None
    case Finished(s, _) => Some(s)
  }

  /** The text the separator group consumes at the front of `t`. */
  function SepText(t: Text): (r: Text)
    ensures r <= t && |r| <= 1
    ensures r == [] <==> t == [] || !IsSpace(t[0])
  {
    t[..SeparatorSize(Separator(t))]
  }

  lemma TokenizedByFinal(line: Text)
    ensures Tokenized(line) == if Final(line, Start).None? then Failure(UnmatchedQuote) else Success(Flush(Final(line, Start).value))
  {
  }

  /** A run that ends in `st` without throwing gives the tokens of `st`. */
  lemma TokenizedOf(line: Text, st: SplitState)
    requires Final(line, Start) == Some(st)
    ensures Tokenized(line) == Success(Flush(st))
  {
    TokenizedByFinal(line);
  }

  /** A run from the start whose end state flushes to `words` and `spans` gives exactly those. */
  lemma TokenizedFlush(line: Text, words: seq<Text>, spans: seq<Text>)
    requires Final(line, Start).Some?
    requires Flush(Final(line, Start).value) == Tokens(Start.words + words, Start.spans + spans)
    ensures Tokenized(line) == Success(Tokens(words, spans))
  {
    assert Start.words + words == words && Start.spans + spans == spans;
    TokenizedByFinal(line);
  }

  /** The word `s` with span `e`, pushed in the loop or after it, is all that `split` returns from the start. */
  lemma OneWordFlush(s: Text, e: Text)
    ensures Flush(if s == [] then Pushed(Start, [], e) else Grown(Start, s, e)) == Tokens([s], [e])
  {
    LastWordFlush(Start, s, e);
    assert [] + [s] == [s] && [] + [e] == [e];
  }

  /** Between words, the word `s` with span `e`, pushed in the loop or after it, is the one word `split` adds. */
  lemma LastWordFlush(st: SplitState, s: Text, e: Text)
    requires st.field == [] && st.rawParsed == []
    ensures Flush(if s == [] then Pushed(st, [], e) else Grown(st, s, e)) == Tokens(st.words + [s], st.spans + [e])
  {
    assert st.field + s == s && st.rawParsed + e == e;
  }

  /** One turn of the loop. */
  lemma RunMatch(line: Text, st: SplitState, m: Match<Groups>)
    requires ShellMatch(line) == Some(m) && m.groups.alternative != Garbage
    ensures Final(line, st) == Final(line[|m.text|..], OnMatch(st, m).state)
  {
    ShellMatchAdvances();
    ScannedTurn(line, ShellMatch, OnMatch, st, m);
  }

  /** A turn on garbage throws. */
  lemma RunGarbage(line: Text, st: SplitState, m: Match<Groups>)
    requires ShellMatch(line) == Some(m) && m.groups.alternative == Garbage
    ensures Final(line, st) == None
  {
  }

  /** Whitespace alone leaves the state as it is. */
  lemma RunBlank(line: Text, st: SplitState)
    requires AllSpace(line)
    ensures Final(line, st) == Some(st)
  {
    ShellMatchNone(line);
  }

  /** A step that ends the field: the field, extended by `piece`, is pushed with the raw text. */
  function Pushed(st: SplitState, piece: Text, raw: Text): SplitState {
    SplitState(st.words + [st.field + piece], [], [], st.spans + [st.rawParsed + raw])
  }

  /** A step that does not end the field: the field grows by `piece`, the raw text by `raw`. */
  function Grown(st: SplitState, piece: Text, raw: Text): SplitState {
    SplitState(st.words, st.field + piece, st.rawParsed + raw, st.spans)
  }

  lemma OnMatchState(st: SplitState, m: Match<Groups>)
    requires m.groups.alternative != Garbage
    ensures OnMatch(st, m).state == if EndsField(m.groups) then Pushed(st, Decoded(m.groups), m.text)
                                    else Grown(st, Decoded(m.groups), m.text)
  {
  }

  // ---------------------------------------------------------------------------
  // The classifier on each shape of input
  // ---------------------------------------------------------------------------

  /** The leading whitespace of `w + x` is `w` when `x` starts with something else. */
  lemma SpaceRunAt(w: Text, x: Text)
    requires AllSpace(w) && x != [] && !IsSpace(x[0])
    ensures SpaceRun(w + x) == |w|
  {
    var line := w + x;
    SpaceRunFacts(line);
    assert forall i :: 0 <= i < |w| ==> line[i] == w[i];
    assert line[|w|] == x[0];
  }

  lemma SliceAfter(p: Text, t: Text, k: nat)
    requires k <= |t|
    ensures (p + t)[|p| + k..] == t[k..]
  {
  }

  /**
   * The match at `w + a + t`, where `w` is whitespace and the alternative
   * takes exactly `a`; the loop continues after the separator.
   */
  lemma MatchAt(w: Text, a: Text, t: Text, alternative: Alternative, capture: Text)
    requires AllSpace(w) && a != [] && !IsSpace(a[0])
    requires Lex(a + t) == Lexeme(alternative, capture, |a|)
    ensures ShellMatch(w + a + t) == Some(Match(0, w + a + SepText(t), Groups(alternative, capture, Separator(t))))
    ensures (w + a + t)[|w + a + SepText(t)|..] == t[|SepText(t)|..]
  {
    MatchFront(a, t, alternative, capture);
    LeadingSpace(w, a + t, a + SepText(t), Groups(alternative, capture, Separator(t)));
    AssocSeq(w, a, t);
    AssocSeq(w, a, SepText(t));
  }

  /** Leading whitespace joins the text of the match that follows it and changes nothing else. */
  lemma LeadingSpace(w: Text, x: Text, e: Text, g: Groups)
    requires AllSpace(w) && x != [] && !IsSpace(x[0])
    requires ShellMatch(x) == Some(Match(0, e, g))
    ensures ShellMatch(w + x) == Some(Match(0, w + e, g))
    ensures |e| <= |x| && (w + x)[|w + e|..] == x[|e|..]
  {
    var size := Lex(x).size;
    var k := size + SeparatorSize(Separator(x[size..]));
    assert e == x[..k];
    SpaceRunAt(w, x);
    SliceAfter(w, x, 0);
    SliceAfter(w, x, size);
    SliceAfter(w, x, k);
    PrefixAfter(w, x, k);
  }

  lemma PrefixAfter(p: Text, t: Text, k: nat)
    requires k <= |t|
    ensures (p + t)[..|p| + k] == p + t[..k]
  {
  }

  lemma AssocSeq<T>(a: seq<T>, b: seq<T>, c: seq<T>)
    ensures a + b + c == a + (b + c)
  {
  }

  /** One turn of the loop on `w + a + t`, as `MatchAt` describes the match. */
  lemma StepAt(w: Text, a: Text, t: Text, alternative: Alternative, capture: Text, st: SplitState)
    requires AllSpace(w) && a != [] && !IsSpace(a[0])
    requires Lex(a + t) == Lexeme(alternative, capture, |a|) && alternative != Garbage
    ensures var g := Groups(alternative, capture, Separator(t));
            Final(w + a + t, st) == Final(t[|SepText(t)|..], if EndsField(g) then Pushed(st, Decoded(g), w + a + SepText(t))
                                                                  else Grown(st, Decoded(g), w + a + SepText(t)))
  {
    MatchAt(w, a, t, alternative, capture);
    var m := Match(0, w + a + SepText(t), Groups(alternative, capture, Separator(t)));
    RunMatch(w + a + t, st, m);
    OnMatchState(st, m);
  }

  /** The match at the very front of `a + t`, where the alternative takes exactly `a`. */
  lemma MatchFront(a: Text, t: Text, alternative: Alternative, capture: Text)
    requires a != [] && !IsSpace(a[0])
    requires Lex(a + t) == Lexeme(alternative, capture, |a|)
    ensures ShellMatch(a + t) == Some(Match(0, a + SepText(t), Groups(alternative, capture, Separator(t))))
    ensures (a + t)[|a + SepText(t)|..] == t[|SepText(t)|..]
  {
    var line := a + t;
    assert line[0] == a[0];
    assert line[|a|..] == t;
    assert line[..|a| + SeparatorSize(Separator(t))] == a + SepText(t);
    SliceAfter(a, t, |SepText(t)|);
  }

  /**
   * A turn at the start of `a + t`, where the end of the line or a unit that
   * is not whitespace follows: the separator group takes no part, and unless
   * the alternative is an empty quote the field goes on (at the end of the
   * line, it is left for the push after the loop).
   */
  lemma ContinueAt(a: Text, t: Text, alternative: Alternative, capture: Text, st: SplitState)
    requires a != [] && !IsSpace(a[0])
    requires Lex(a + t) == Lexeme(alternative, capture, |a|) && alternative != Garbage
    requires t == [] || !IsSpace(t[0])
    requires !EndsField(Groups(alternative, capture, None))
    ensures Final(a + t, st) == Final(t, Grown(st, Decoded(Groups(alternative, capture, None)), a))
  {
    assert Separator(t).None? && SepText(t) == [];
    assert a + SepText(t) == a && t[|SepText(t)|..] == t;
    MatchFront(a, t, alternative, capture);
    var m := Match(0, a, Groups(alternative, capture, None));
    RunMatch(a + t, st, m);
    OnMatchState(st, m);
  }

  /** A turn at the start of `a + t` followed by whitespace: the separator takes it and the field is pushed. */
  lemma EndAt(a: Text, t: Text, alternative: Alternative, capture: Text, st: SplitState)
    requires a != [] && !IsSpace(a[0])
    requires Lex(a + t) == Lexeme(alternative, capture, |a|) && alternative != Garbage
    requires t != [] && IsSpace(t[0])
    ensures Final(a + t, st) == Final(t[|SepText(t)|..], Pushed(st, Decoded(Groups(alternative, capture, Separator(t))), a + SepText(t)))
  {
    MatchFront(a, t, alternative, capture);
    var m := Match(0, a + SepText(t), Groups(alternative, capture, Separator(t)));
    RunMatch(a + t, st, m);
    OnMatchState(st, m);
  }

  /**
   * A line that is one alternative and nothing else: the separator group
   * takes no part, so only an empty quote pushes the field; otherwise the
   * loop ends with the field open.
   */
  lemma EndOfLine(a: Text, alternative: Alternative, capture: Text, st: SplitState)
    requires a != [] && !IsSpace(a[0])
    requires Lex(a) == Lexeme(alternative, capture, |a|) && alternative != Garbage
    ensures var g := Groups(alternative, capture, None);
            Final(a, st) == Some(if EndsField(g) then Pushed(st, Decoded(g), a) else Grown(st, Decoded(g), a))
  {
    var g := Groups(alternative, capture, None);
    assert a + [] == a;
    MatchFront(a, [], alternative, capture);
    var m := Match(0, a, g);
    RunMatch(a, st, m);
    OnMatchState(st, m);
    RunBlank([], OnMatch(st, m).state);
  }

  lemma WordRunOf(v: Text, t: Text)
    requires forall i :: 0 <= i < |v| ==> IsWordUnit(v[i])
    requires t == [] || !IsWordUnit(t[0])
    ensures WordRun(v + t) == |v|
  {
    WordRunFacts(v + t);
    assert forall i :: 0 <= i < |v| ==> IsWordUnit((v + t)[i]);
    assert |v| < |v + t| ==> !IsWordUnit((v + t)[|v|]);
  }

  /** A word run `v` followed by something that can not continue it. */
  lemma LexWord(v: Text, t: Text)
    requires v != [] && forall i :: 0 <= i < |v| ==> IsWordUnit(v[i])
    requires t == [] || !IsWordUnit(t[0])
    ensures IsWordUnit(v[0]) && (v + t)[0] == v[0] && Lex(v + t) == Lexeme(Word, v, |v|)
  {
    WordRunOf(v, t);
    assert (v + t)[..|v|] == v;
  }

  lemma {:induction false} SingleQuoteCloseOf(c: Text, t: Text)
    requires SQUOTE !in c
    ensures SingleQuoteClose(c + [SQUOTE] + t) == Some(|c|)
  {
    if c != [] {
      assert (c + [SQUOTE] + t)[1..] == c[1..] + [SQUOTE] + t;
      SingleQuoteCloseOf(c[1..], t);
    }
  }

  /** '…' with no quote inside. */
  lemma LexSingle(c: Text, t: Text)
    requires SQUOTE !in c
    ensures Lex([SQUOTE] + c + [SQUOTE] + t) == Lexeme(SingleQuoted, c, |c| + 2)
  {
    var x := [SQUOTE] + c + [SQUOTE] + t;
    assert x[1..] == c + [SQUOTE] + t;
    SingleQuoteCloseOf(c, t);
    assert x[1..][..|c|] == c;
  }

  lemma {:induction false} DoubleQuoteCloseOf(c: Text, t: Text)
    requires DoubleQuotedBody(c)
    ensures DoubleQuoteClose(c + [DQUOTE] + t) == Some(|c|)
    decreases |c|
  {
    var s := c + [DQUOTE] + t;
    if c != [] {
      if c[0] == BACKSLASH {
        assert s[2..] == c[2..] + [DQUOTE] + t;
        DoubleQuoteCloseOf(c[2..], t);
      } else {
        assert s[1..] == c[1..] + [DQUOTE] + t;
        DoubleQuoteCloseOf(c[1..], t);
      }
    }
  }

  lemma LexAtDoubleQuote(c: Text, t: Text)
    requires DoubleQuoteClose(c + [DQUOTE] + t) == Some(|c|)
    ensures Lex([DQUOTE] + c + [DQUOTE] + t) == Lexeme(DoubleQuoted, c, |c| + 2)
  {
    var x := [DQUOTE] + c + [DQUOTE] + t;
    var y := c + [DQUOTE] + t;
    assert x[1..] == y;
    assert y[..|c|] == c;
  }

  /** "…" around a well-formed double-quoted body. */
  lemma LexDouble(c: Text, t: Text)
    requires DoubleQuotedBody(c)
    ensures Lex([DQUOTE] + c + [DQUOTE] + t) == Lexeme(DoubleQuoted, c, |c| + 2)
  {
    DoubleQuoteCloseOf(c, t);
    LexAtDoubleQuote(c, t);
  }

  /** A backslash and a unit that `.` matches. */
  lemma LexEscape(u: CodeUnit, t: Text)
    requires MatchesDot(u)
    ensures Lex([BACKSLASH, u] + t) == Lexeme(Escaped, [BACKSLASH, u], 2)
  {
    assert ([BACKSLASH, u] + t)[..2] == [BACKSLASH, u];
  }

  /** A backslash at the end of the input, or before a line terminator. */
  lemma LexLoneBackslash(t: Text)
    requires t == [] || IsLineTerminator(t[0])
    ensures Lex([BACKSLASH] + t) == Lexeme(Escaped, [BACKSLASH], 1)
  {
    assert ([BACKSLASH] + t)[..1] == [BACKSLASH];
  }
}
