/**
 * Two families of inputs of `split` from its test suite, proved for every
 * length: runs of empty quotes, and words made of backslash escapes. The
 * test cases `''""''""` and `\r\n` are instances.
 */
module SplitExamples {
  import opened Utf16
  import opened Scanner
  import opened Shellwords
  import opened SplitSteps
  import opened SplitProperties
  import opened RoundTrip

  const LOWER_N: CodeUnit := 0x6E
  const LOWER_R: CodeUnit := 0x72

  /** Each quote of `qs` written twice: `''` or `""`, with nothing between the pairs. */
  function Paired(qs: seq<CodeUnit>): Text {
    if qs == [] then [] else [qs[0], qs[0]] + Paired(qs[1..])
  }

  /** The spans `split` reports for `Paired(qs)`: one pair each. */
  function PairSpans(qs: seq<CodeUnit>): seq<Text> {
    if qs == [] then [] else [[qs[0], qs[0]]] + PairSpans(qs[1..])
  }

  /** `n` empty words. */
  function EmptyWords(n: nat): seq<Text> {
    if n == 0 then [] else [[]] + EmptyWords(n - 1)
  }

  predicate AllQuotes(qs: seq<CodeUnit>) {
    forall i :: 0 <= i < |qs| ==> qs[i] == SQUOTE || qs[i] == DQUOTE
  }

  /** Each empty quoted span ends a field of its own, with no whitespace needed between them. */
  lemma {:induction false} RunPaired(qs: seq<CodeUnit>, st: SplitState)
    requires AllQuotes(qs) && st.field == [] && st.rawParsed == []
    ensures Final(Paired(qs), st) == Some(SplitState(st.words + EmptyWords(|qs|), [], [], st.spans + PairSpans(qs)))
    decreases |qs|
  {
    if qs == [] {
      RunBlank([], st);
      assert st.words + [] == st.words && st.spans + [] == st.spans;
    } else {
      var q := qs[0];
      var t := Paired(qs[1..]);
      var next := SplitState(st.words + [[]], [], [], st.spans + [[q, q]]);
      assert AllQuotes(qs[1..]) by {
        forall i | 0 <= i < |qs[1..]| ensures qs[1..][i] == SQUOTE || qs[1..][i] == DQUOTE {
          assert qs[1..][i] == qs[i + 1];
        }
      }
      PairStep(q, t, st);
      RunPaired(qs[1..], next);
      AssocSeq(st.words, [[]], EmptyWords(|qs| - 1));
      AssocSeq(st.spans, [[q, q]], PairSpans(qs[1..]));
    }
  }

  /** One pair of empty quotes at the front of `[q, q] + t`, where `t` is empty or starts with a quote. */
  lemma PairStep(q: CodeUnit, t: Text, st: SplitState)
    requires (q == SQUOTE || q == DQUOTE) && st.field == [] && st.rawParsed == []
    requires t == [] || t[0] == SQUOTE || t[0] == DQUOTE
    ensures Final([q, q] + t, st) == Final(t, SplitState(st.words + [[]], [], [], st.spans + [[q, q]]))
  {
    EmptyQuotesEndField([], q, t, st);
    PairPushed(q, t, st);
  }

  /** The state and the rest of the line after one empty pair, in the shape `PairStep` states. */
  lemma PairPushed(q: CodeUnit, t: Text, st: SplitState)
    requires (q == SQUOTE || q == DQUOTE) && st.field == [] && st.rawParsed == []
    requires t == [] || t[0] == SQUOTE || t[0] == DQUOTE
    ensures [] + [q, q] + t == [q, q] + t && t[|SepText(t)|..] == t
    ensures Pushed(st, [], [] + [q, q] + SepText(t)) == SplitState(st.words + [[]], [], [], st.spans + [[q, q]])
  {
    assert SepText(t) == [];
    assert [] + [q, q] + [] == [q, q];
    assert st.field + [] == [] && st.rawParsed + [q, q] == [q, q];
  }

  /** A line of empty quote pairs splits into one empty word per pair. */
  lemma SplitPaired(qs: seq<CodeUnit>)
    requires AllQuotes(qs)
    ensures Tokenized(Paired(qs)) == Success(Tokens(EmptyWords(|qs|), PairSpans(qs)))
  {
    RunPaired(qs, Start);
    TokenizedFlush(Paired(qs), EmptyWords(|qs|), PairSpans(qs));
  }

  /** `''""''""` gives four empty words. */
  lemma FourEmptyQuotes(line: Text)
    requires line == [SQUOTE, SQUOTE, DQUOTE, DQUOTE, SQUOTE, SQUOTE, DQUOTE, DQUOTE]
    ensures Tokenized(line) == Success(Tokens([[], [], [], []], [[SQUOTE, SQUOTE], [DQUOTE, DQUOTE], [SQUOTE, SQUOTE], [DQUOTE, DQUOTE]]))
  {
    var qs := [SQUOTE, DQUOTE, SQUOTE, DQUOTE];
    FourPairs(qs);
    SplitPaired(qs);
  }

  lemma FourPairs(qs: seq<CodeUnit>)
    requires qs == [SQUOTE, DQUOTE, SQUOTE, DQUOTE]
    ensures AllQuotes(qs)
    ensures Paired(qs) == [SQUOTE, SQUOTE, DQUOTE, DQUOTE, SQUOTE, SQUOTE, DQUOTE, DQUOTE]
    ensures PairSpans(qs) == [[SQUOTE, SQUOTE], [DQUOTE, DQUOTE], [SQUOTE, SQUOTE], [DQUOTE, DQUOTE]]
    ensures EmptyWords(|qs|) == [[], [], [], []]
  {
    FourPaired(qs);
    FourEmptyWords();
    FourQuotes(qs);
  }

  lemma FourQuotes(qs: seq<CodeUnit>)
    requires qs == [SQUOTE, DQUOTE, SQUOTE, DQUOTE]
    ensures AllQuotes(qs)
  {
    forall i | 0 <= i < |qs| ensures qs[i] == SQUOTE || qs[i] == DQUOTE {
      assert i == 0 || i == 1 || i == 2 || i == 3;
    }
  }

  lemma FourEmptyWords()
    ensures EmptyWords(4) == [[], [], [], []]
  {
  }

  lemma FourPaired(qs: seq<CodeUnit>)
    requires qs == [SQUOTE, DQUOTE, SQUOTE, DQUOTE]
    ensures Paired(qs) == [SQUOTE, SQUOTE, DQUOTE, DQUOTE, SQUOTE, SQUOTE, DQUOTE, DQUOTE]
    ensures PairSpans(qs) == [[SQUOTE, SQUOTE], [DQUOTE, DQUOTE], [SQUOTE, SQUOTE], [DQUOTE, DQUOTE]]
  {
    var q3 := [DQUOTE];
    var q2 := [SQUOTE] + q3;
    var q1 := [DQUOTE] + q2;
    assert qs == [SQUOTE] + q1;
    PairedCons(DQUOTE, []);
    PairedCons(SQUOTE, q3);
    PairedCons(DQUOTE, q2);
    PairedCons(SQUOTE, q1);
  }

  lemma PairedCons(q: CodeUnit, qs: seq<CodeUnit>)
    ensures Paired([q] + qs) == [q, q] + Paired(qs)
    ensures PairSpans([q] + qs) == [[q, q]] + PairSpans(qs)
  {
    assert ([q] + qs)[1..] == qs;
  }

  /** Each unit of `us` with a backslash in front. */
  function Backslashed(us: Text): Text {
    if us == [] then [] else [BACKSLASH, us[0]] + Backslashed(us[1..])
  }

  /**
   * Backslash escapes of units that `.` takes extend the field by those
   * units, whatever they are; the line ends with the field open.
   */
  lemma {:induction false} RunBackslashed(us: Text, st: SplitState)
    requires us != [] && forall i :: 0 <= i < |us| ==> MatchesDot(us[i])
    ensures Final(Backslashed(us), st) == Some(Grown(st, us, Backslashed(us)))
    decreases |us|
  {
    var u := us[0];
    var rest := us[1..];
    var t := Backslashed(rest);
    assert Backslashed(us) == [BACKSLASH, u] + t;
    if rest == [] {
      assert us == [u] && Backslashed(us) == [BACKSLASH, u];
      BackslashLast(u, st);
    } else {
      assert forall i :: 0 <= i < |rest| ==> rest[i] == us[i + 1];
      BackslashStep(u, t, st);
      RunBackslashed(rest, Grown(st, [u], [BACKSLASH, u]));
      GrownGrown(st, [u], [BACKSLASH, u], rest, t);
      assert [u] + rest == us;
    }
  }

  /** A backslash escape before another backslash: the field goes on. */
  lemma BackslashStep(u: CodeUnit, t: Text, st: SplitState)
    requires MatchesDot(u) && t != [] && t[0] == BACKSLASH
    ensures Final([BACKSLASH, u] + t, st) == Final(t, Grown(st, [u], [BACKSLASH, u]))
  {
    assert SepText(t) == [];
    BackslashEscapes([], u, t, st);
    assert [] + [BACKSLASH, u] + t == [BACKSLASH, u] + t;
    assert [] + [BACKSLASH, u] + [] == [BACKSLASH, u];
    assert t[0..] == t;
  }

  /** A backslash escape that ends the line: the separator group takes no part and the field stays open. */
  lemma BackslashLast(u: CodeUnit, st: SplitState)
    requires MatchesDot(u)
    ensures Final([BACKSLASH, u], st) == Some(Grown(st, [u], [BACKSLASH, u]))
  {
    BackslashEscapes([], u, [], st);
    assert Separator([]).None? && SepText([]) == [];
    assert [] + [BACKSLASH, u] + [] == [BACKSLASH, u];
    RunBlank([], Grown(st, [u], [BACKSLASH, u]));
  }

  /** A word made only of backslash escapes is the word of the escaped units, pushed after the loop. */
  lemma SplitBackslashed(us: Text)
    requires us != [] && forall i :: 0 <= i < |us| ==> MatchesDot(us[i])
    ensures Tokenized(Backslashed(us)) == Success(Tokens([us], [Backslashed(us)]))
  {
    var b := Backslashed(us);
    RunBackslashed(us, Start);
    OneWordFlush(us, b);
    TokenizedOf(b, Grown(Start, us, b));
  }

  /** `\r\n` outside quotes is the word `rn`. */
  lemma EscapedLetters(line: Text)
    requires line == [BACKSLASH, LOWER_R, BACKSLASH, LOWER_N]
    ensures Tokenized(line) == Success(Tokens([[LOWER_R, LOWER_N]], [line]))
  {
    var us := [LOWER_R, LOWER_N];
    assert Backslashed(us[1..]) == [BACKSLASH, LOWER_N] + Backslashed([]);
    assert Backslashed(us) == line;
    SplitBackslashed(us);
  }
}
