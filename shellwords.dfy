/**
 * Shell-style word splitting in the manner of Ruby's `Shellwords`: `split`
 * cuts a command line into words (quotes, backslash escapes, whitespace
 * separation; no globbing or expansion). `escape` and `join`, its inverses,
 * are in module `Escaping`.
 *
 * The tokenizer's pattern SHELL_PARSE_REGEX is written out as the classifier
 * `ShellMatch`; `split` runs it under `Scanner.Scan` with the handler
 * `OnMatch`, whose state record stands for the variables `words`, `field` and
 * `rawParsed` that the JavaScript handler updates, plus the raw spans that it
 * hands to the optional callback.
 */
module Shellwords {
  import opened Utf16
  import opened Scanner

  // ---------------------------------------------------------------------------
  // SHELL_PARSE_REGEX as a classifier
  // ---------------------------------------------------------------------------

  /** The alternative of the pattern that matched: word run, '…', "…", backslash escape, garbage. */
  datatype Alternative = Word | SingleQuoted | DoubleQuoted | Escaped | Garbage

  /**
   * The capture groups of one match: which alternative matched, the text of
   * that alternative's group (the run, the text between the quotes, the
   * escape with its backslash, the garbage unit), and the separator group
   * `(\s|$)?`: one whitespace unit, or `None` when the group took no part in
   * the match (it is `undefined` in JavaScript).
   */
  datatype Groups = Groups(alternative: Alternative, capture: Text, separator: Option<Text>)

  /** `[^\s\\'"]`: a unit of a word run. */
  predicate IsWordUnit(c: CodeUnit) {
    !IsSpace(c) && c != BACKSLASH && c != SQUOTE && c != DQUOTE
  }

  /** How many units `\s*` takes from the front of `s` (`SpaceRunFacts` states that it takes all it can). */
  function SpaceRun(s: Text): (n: nat)
    ensures n <= |s|
    ensures n < |s| ==> !IsSpace(s[n])
  {
    if s != [] && IsSpace(s[0]) then 1 + SpaceRun(s[1..]) else 0
  }

  /** `\s*` is greedy: it takes whitespace, and stops only at a unit that is not whitespace or at the end. */
  lemma {:induction false} SpaceRunFacts(s: Text)
    ensures forall i :: 0 <= i < SpaceRun(s) ==> IsSpace(s[i])
    ensures SpaceRun(s) < |s| ==> !IsSpace(s[SpaceRun(s)])
    decreases |s|
  {
    if s != [] && IsSpace(s[0]) {
      SpaceRunFacts(s[1..]);
      assert forall i :: 1 <= i < |s| ==> s[i] == s[1..][i - 1];
    }
  }

  /** How many units `[^\s\\'"]+` takes from the front of `s` (0: no match; `WordRunFacts` states the rest). */
  function WordRun(s: Text): (n: nat)
    ensures n <= |s|
  {
    if s != [] && IsWordUnit(s[0]) then 1 + WordRun(s[1..]) else 0
  }

  /** The word run is greedy: it takes word units, and stops only at a unit that is not one or at the end. */
  lemma {:induction false} WordRunFacts(s: Text)
    ensures forall i :: 0 <= i < WordRun(s) ==> IsWordUnit(s[i])
    ensures WordRun(s) < |s| ==> !IsWordUnit(s[WordRun(s)])
    decreases |s|
  {
    if s != [] && IsWordUnit(s[0]) {
      WordRunFacts(s[1..]);
      assert forall i :: 1 <= i < |s| ==> s[i] == s[1..][i - 1];
    }
  }

  /** Where `[^']*'` finds the closing quote in `s`, the text after an opening quote. */
  function SingleQuoteClose(s: Text): (r: Option<nat>)
    ensures r.Some? ==> r.value < |s|
  {
    if s == [] then None
    else if s[0] == SQUOTE then Some(0)
    else
      match SingleQuoteClose(s[1..])
      case None => None
      case Some(k) => Some(k + 1)
  }

  /** `[^']*'` stops at the first single quote, and fails exactly when there is none. */
  lemma {:induction false} SingleQuoteCloseFacts(s: Text)
    ensures SingleQuoteClose(s).Some? ==> s[SingleQuoteClose(s).value] == SQUOTE && SQUOTE !in s[..SingleQuoteClose(s).value]
    ensures SingleQuoteClose(s).None? ==> SQUOTE !in s
    decreases |s|
  {
    if s != [] && s[0] != SQUOTE {
      SingleQuoteCloseFacts(s[1..]);
      assert forall i :: 1 <= i < |s| ==> s[i] == s[1..][i - 1];
      if SingleQuoteClose(s).Some? {
        var k := SingleQuoteClose(s[1..]).value;
        assert s[..k + 1] == [s[0]] + s[1..][..k];
      }
    }
  }

  /** `(?:[^"\\]|\\.)*` matches all of `t`: the text allowed between double quotes. */
  predicate DoubleQuotedBody(t: Text)
    decreases |t|
  {
    || t == []
    || (t[0] != DQUOTE && t[0] != BACKSLASH && DoubleQuotedBody(t[1..]))
    || (t[0] == BACKSLASH && |t| >= 2 && MatchesDot(t[1]) && DoubleQuotedBody(t[2..]))
  }

  /**
   * Where `(?:[^"\\]|\\.)*"` finds the closing quote in `s`, the text after an
   * opening double quote. The scan is deterministic: a backslash always takes
   * the next unit with it, so no backtracking can find another closing quote
   * (`DoubleQuoteCloseNone` states the `None` case).
   */
  function DoubleQuoteClose(s: Text): (r: Option<nat>)
    ensures r.Some? ==> r.value < |s| && s[r.value] == DQUOTE
    decreases |s|
  {
    if s == [] then None
    else if s[0] == DQUOTE then Some(0)
    else if s[0] == BACKSLASH then
      if |s| >= 2 && MatchesDot(s[1]) then
        match DoubleQuoteClose(s[2..])
        case None => None
        case Some(k) => Some(k + 2)
      else None
    else
      match DoubleQuoteClose(s[1..])
      case None => None
      case Some(k) => Some(k + 1)
  }

  /** What `DoubleQuoteClose` finds is a double-quoted body followed by the closing quote. */
  lemma {:induction false} DoubleQuoteCloseSome(s: Text)
    requires DoubleQuoteClose(s).Some?
    ensures DoubleQuotedBody(s[..DoubleQuoteClose(s).value])
    decreases |s|
  {
    var k := DoubleQuoteClose(s).value;
    if s[0] == BACKSLASH {
      DoubleQuoteCloseSome(s[2..]);
      assert s[..k][2..] == s[2..][..k - 2];
    } else if s[0] != DQUOTE {
      DoubleQuoteCloseSome(s[1..]);
      assert s[..k][1..] == s[1..][..k - 1];
    }
  }

  /**
   * When `DoubleQuoteClose` finds nothing, no prefix of `s` is a double-quoted
   * body followed by a double quote: the alternative cannot match at all.
   */
  lemma {:induction false} DoubleQuoteCloseNone(s: Text, n: nat)
    requires DoubleQuoteClose(s).None?
    requires n < |s| && s[n] == DQUOTE
    ensures !DoubleQuotedBody(s[..n])
    decreases |s|
  {
    if n > 0 && s[0] == BACKSLASH && |s| >= 2 && MatchesDot(s[1]) && n >= 2 {
      assert s[..n][2..] == s[2..][..n - 2];
      DoubleQuoteCloseNone(s[2..], n - 2);
    } else if n > 0 && s[0] != BACKSLASH && s[0] != DQUOTE {
      assert s[..n][1..] == s[1..][..n - 1];
      DoubleQuoteCloseNone(s[1..], n - 1);
    }
  }

  /** One alternative of the atomic group, as the regular expression picks it: the first that matches. */
  datatype Lexeme = Lexeme(alternative: Alternative, capture: Text, size: nat)

  /**
   * The atomic group `(?=(…))\1` at the front of `rest`, whose first unit is
   * not whitespace: the first alternative that matches (`LexShape` states
   * what each one takes).
   */
  function Lex(rest: Text): (r: Lexeme)
    requires rest != [] && !IsSpace(rest[0])
    ensures 0 < r.size <= |rest|
  {
    if rest[0] == SQUOTE then
      match SingleQuoteClose(rest[1..])
      case Some(k) => Lexeme(SingleQuoted, rest[1..][..k], k + 2)
      case None => Lexeme(Garbage, [rest[0]], 1)
    else if rest[0] == DQUOTE then
      match DoubleQuoteClose(rest[1..])
      case Some(k) => Lexeme(DoubleQuoted, rest[1..][..k], k + 2)
      case None => Lexeme(Garbage, [rest[0]], 1)
    else if rest[0] == BACKSLASH then
      var n := if |rest| >= 2 && MatchesDot(rest[1]) then 2 else 1;
      Lexeme(Escaped, rest[..n], n)
    else
      var n := WordRun(rest);
      Lexeme(Word, rest[..n], n)
  }

  /**
   * What each alternative takes. Every unit that is neither a quote nor a
   * backslash starts a word run, and a backslash always starts an escape
   * (with the next unit when `.` takes it); so garbage is only ever a quote
   * that cannot be closed.
   */
  lemma LexShape(rest: Text)
    requires rest != [] && !IsSpace(rest[0])
    ensures Lex(rest).alternative == Word <==> IsWordUnit(rest[0])
    ensures Lex(rest).alternative == Escaped <==> rest[0] == BACKSLASH
    ensures Lex(rest).alternative == Word ==>
              var n := Lex(rest).size;
              && Lex(rest).capture == rest[..n]
              && (forall i :: 0 <= i < n ==> IsWordUnit(rest[i]))
              && (n < |rest| ==> !IsWordUnit(rest[n]))
    ensures Lex(rest).alternative == SingleQuoted ==>
              rest[..Lex(rest).size] == [SQUOTE] + Lex(rest).capture + [SQUOTE] && SQUOTE !in Lex(rest).capture
    ensures Lex(rest).alternative == DoubleQuoted ==>
              rest[..Lex(rest).size] == [DQUOTE] + Lex(rest).capture + [DQUOTE] && DoubleQuotedBody(Lex(rest).capture)
    ensures Lex(rest).alternative == Escaped ==>
              && Lex(rest).capture == rest[..Lex(rest).size]
              && (Lex(rest).size == 2 <==> |rest| >= 2 && MatchesDot(rest[1]))
              && (Lex(rest).size == 1 || Lex(rest).size == 2)
    ensures Lex(rest).alternative == Garbage ==>
              && Lex(rest).capture == [rest[0]] && Lex(rest).size == 1
              && ((rest[0] == SQUOTE && SQUOTE !in rest[1..]) || (rest[0] == DQUOTE && DoubleQuoteClose(rest[1..]).None?))
  {
    WordRunFacts(rest);
    SingleQuoteCloseFacts(rest[1..]);
    if rest[0] == SQUOTE {
      match SingleQuoteClose(rest[1..])
      case Some(k) =>
        assert rest[..k + 2] == [SQUOTE] + rest[1..][..k] + [SQUOTE];
      case None =>
    } else if rest[0] == DQUOTE {
      match DoubleQuoteClose(rest[1..])
      case Some(k) =>
        DoubleQuoteCloseSome(rest[1..]);
        assert rest[..k + 2] == [DQUOTE] + rest[1..][..k] + [DQUOTE];
      case None =>
    }
  }

  /**
   * The separator group `(\s|$)?` at the front of `s`, the text after the
   * alternative. It captures one whitespace unit when one follows. At the end
   * of input the `$` branch matches the empty string, but a `?` iteration
   * that matches the empty string is rejected (RepeatMatcher, section
   * 22.2.2.3.1 of ECMA-262), so the group stays undefined there; with the `m`
   * flag `$` also matches before a line terminator, but `\s` takes that
   * terminator first.
   */
  function Separator(s: Text): (r: Option<Text>)
    ensures r.Some? <==> s != [] && IsSpace(s[0])
    ensures r.Some? ==> r.value == [s[0]]
  {
    if s != [] && IsSpace(s[0]) then Some([s[0]]) else None
  }

  /** The length of the text that a separator group consumed. */
  function SeparatorSize(sep: Option<Text>): nat {
    if sep.Some? then |sep.value| else 0
  }

  /**
   * `line.match(SHELL_PARSE_REGEX)`. The match always starts at index 0: the
   * pattern fails only where, after the leading whitespace, nothing is left.
   */
  function ShellMatch(line: Text): (r: Option<Match<Groups>>)
    ensures r.Some? ==> r.value.index == 0 && 0 < |r.value.text| <= |line|
  {
    var lead := SpaceRun(line);
    if lead == |line| then None
    else
      var lexeme := Lex(line[lead..]);
      var end := lead + lexeme.size;
      var sep := Separator(line[end..]);
      Some(Match(0, line[..end + SeparatorSize(sep)], Groups(lexeme.alternative, lexeme.capture, sep)))
  }

  /** The pattern fails exactly on a line of whitespace. */
  lemma ShellMatchNone(line: Text)
    ensures ShellMatch(line).None? <==> AllSpace(line)
  {
    SpaceRunFacts(line);
    if !AllSpace(line) {
      var i :| 0 <= i < |line| && !IsSpace(line[i]);
      assert SpaceRun(line) <= i;
    }
  }

  /**
   * The separator group of a match: absent only at the end of the line or
   * before a unit that is not whitespace, and otherwise the one whitespace
   * unit that ends the match.
   */
  lemma ShellMatchShape(line: Text)
    requires ShellMatch(line).Some?
    ensures var m := ShellMatch(line).value;
            m.groups.separator.None? ==> |m.text| == |line| || !IsSpace(line[|m.text|])
    ensures var m := ShellMatch(line).value;
            m.groups.separator.Some? ==>
              m.groups.separator.value == [line[|m.text| - 1]] && IsSpace(line[|m.text| - 1])
  {
    var lead := SpaceRun(line);
    var end := lead + Lex(line[lead..]).size;
    SeparatorAfter(line, end);
  }

  /** Garbage is an opening quote, after the leading whitespace, that cannot be closed. */
  lemma ShellMatchGarbage(line: Text)
    requires ShellMatch(line).Some?
    ensures var k := SpaceRun(line);
            ShellMatch(line).value.groups.alternative == Garbage ==>
              || (line[k] == SQUOTE && SQUOTE !in line[k + 1..])
              || (line[k] == DQUOTE && DoubleQuoteClose(line[k + 1..]).None?)
  {
    var lead := SpaceRun(line);
    LexShape(line[lead..]);
    assert line[lead..][1..] == line[lead + 1..];
  }

  /** The separator group after position `end`, read off the line itself. */
  lemma SeparatorAfter(line: Text, end: nat)
    requires end <= |line|
    ensures var sep := Separator(line[end..]);
            && (sep.None? ==> end == |line| || !IsSpace(line[end]))
            && (sep.Some? ==> end < |line| && sep.value == [line[end]] && IsSpace(line[end]))
  {
    if end < |line| {
      assert line[end..][0] == line[end];
    }
  }

  /** A match that leaves the field open adds at least one unit to it. */
  lemma ShellMatchOpen(line: Text)
    requires ShellMatch(line).Some?
    ensures var g := ShellMatch(line).value.groups;
            g.alternative != Garbage && !EndsField(g) ==> Decoded(g) != []
  {
    var lead := SpaceRun(line);
    LexShape(line[lead..]);
  }

  /** The classifier never matches the empty string, so `scan` always advances. */
  lemma ShellMatchAdvances()
    ensures Advancing(ShellMatch)
  {
    forall line | ShellMatch(line).Some? ensures Shortens(line, ShellMatch(line).value) {
      ShellMatchFits(line);
    }
  }

  /** What the classifier reports is the text at the front of the line. */
  lemma ShellMatchFaithful()
    ensures Faithful(ShellMatch)
  {
    forall line | ShellMatch(line).Some? ensures Fits(line, ShellMatch(line).value) {
      ShellMatchFits(line);
    }
  }

  /** A match starts at index 0 and takes a non-empty prefix of the line. */
  lemma ShellMatchFits(line: Text)
    ensures ShellMatch(line).Some? ==> ShellMatch(line).value.index == 0 && Fits(line, ShellMatch(line).value)
  {
  }

  // ---------------------------------------------------------------------------
  // Decoding one match
  // ---------------------------------------------------------------------------

  /** The units that may follow a backslash inside double quotes and lose it: `$ ` " \` and newline. */
  predicate IsDoubleQuoteEscapable(c: CodeUnit) {
    c == DOLLAR || c == BACKTICK || c == DQUOTE || c == BACKSLASH || c == LF
  }

  /**
   * `t.replace(/\\(X)/g, "$1")`, where `escapable` is the class X: left to
   * right, a backslash followed by a unit of the class is replaced by that
   * unit, and the scan resumes after it; every other unit is kept.
   */
  function Unbackslash(t: Text, escapable: CodeUnit -> bool): (r: Text)
    ensures |r| <= |t|
    ensures t != [] ==> r != []
  {
    if |t| >= 2 && t[0] == BACKSLASH && escapable(t[1]) then [t[1]] + Unbackslash(t[2..], escapable)
    else if t == [] then []
    else [t[0]] + Unbackslash(t[1..], escapable)
  }

  /**
   * What a match adds to the current field: the word run, the single-quoted
   * text as it stands, the double-quoted text with `\$ \` \" \\` (and
   * backslash-newline) resolved, or the escape with its backslash removed when
   * a unit follows it.
   */
  function Decoded(g: Groups): (r: Text)
    ensures |r| <= |g.capture|
    ensures g.alternative != Garbage && g.capture != [] ==> r != []
  {
    match g.alternative
    case Word => g.capture
    case SingleQuoted => g.capture
    case DoubleQuoted => Unbackslash(g.capture, IsDoubleQuoteEscapable)
    case Escaped => Unbackslash(g.capture, MatchesDot)
    case Garbage => []
  }

  /** The field ends with this match: its separator group matched, or it was an empty '' or "". */
  predicate EndsField(g: Groups) {
    g.separator.Some? || ((g.alternative == SingleQuoted || g.alternative == DoubleQuoted) && g.capture == [])
  }

  // ---------------------------------------------------------------------------
  // split
  // ---------------------------------------------------------------------------

  /**
   * The variables the handler of `split` updates: the words pushed so far,
   * the field being built, the raw text consumed since the last word was
   * pushed, and the raw spans handed to the callback so far.
   */
  datatype SplitState = SplitState(words: seq<Text>, field: Text, rawParsed: Text, spans: seq<Text>)

  /** The state of `split` before the first match. */
  const Start := SplitState([], [], [], [])

  /** What `scan` appends for a handler that returns nothing: the text "undefined". */
  const UNDEFINED: Text := [0x75, 0x6E, 0x64, 0x65, 0x66, 0x69, 0x6E, 0x65, 0x64]

  /** The handler of `split`: throw on garbage, otherwise extend the field and push it when it ends. */
  function OnMatch(st: SplitState, m: Match<Groups>): (r: Reply<SplitState>)
    ensures r.Throw? <==> m.groups.alternative == Garbage
  {
    if m.groups.alternative == Garbage then Throw
    else
      var raw := st.rawParsed + m.text;
      var field := st.field + Decoded(m.groups);
      if EndsField(m.groups) then Return(SplitState(st.words + [field], [], [], st.spans + [raw]), [])
      else Return(SplitState(st.words, field, raw, st.spans), UNDEFINED)
  }

  /** The error `split` throws. */
  datatype Error = UnmatchedQuote

  datatype Result<+T> = Success(value: T) | Failure(error: Error)

  /** The words `split` returns, and the raw spans it passes to the callback, in order. */
  datatype Tokens = Tokens(words: seq<Text>, spans: seq<Text>)

  /** The scanning loop of `split`, from state `st`. */
  function Run(line: Text, st: SplitState): Outcome<SplitState> {
    ShellMatchAdvances();
    Scanned(line, ShellMatch, OnMatch, st)
  }

  /** After the loop: a non-empty field left over is pushed as a last word. */
  function Flush(st: SplitState): (r: Tokens)
    ensures st.words <= r.words && st.spans <= r.spans
    ensures |r.words| - |st.words| == |r.spans| - |st.spans| <= 1
    ensures r.words == st.words <==> st.field == []
    ensures r.words != st.words ==> r.words[|st.words|] == st.field && r.spans[|st.spans|] == st.rawParsed
  {
    if st.field != [] then Tokens(st.words + [st.field], st.spans + [st.rawParsed])
    else Tokens(st.words, st.spans)
  }

  /** What `split` computes. */
  function Tokenized(line: Text): Result<Tokens> {
    match Run(line, Start)
    case Threw => Failure(UnmatchedQuote)
    case Finished(st, _) => Success(Flush(st))
  }

  /** `split(line, callback)`, with the callback's arguments returned as `spans`. */
  method Split(line: Text) returns (r: Result<Tokens>)
    ensures r == Tokenized(line)
  {
    ShellMatchAdvances();
    var out := Scan(line, ShellMatch, OnMatch, Start);
    if out.Threw? {
      return Failure(UnmatchedQuote);
    }
    var words := out.state.words;
    var spans := out.state.spans;
    if out.state.field != [] {
      words := words + [out.state.field];
      spans := spans + [out.state.rawParsed];
    }
    r := Success(Tokens(words, spans));
  }
}
