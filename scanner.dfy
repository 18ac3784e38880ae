/**
 * The driver loop `scan(line, pattern, callback)`: an imitation of Ruby's
 * `String#scan` with a `\G` anchor. Each turn matches the pattern against the
 * remaining line, appends the text skipped before the match and the handler's
 * reply to an accumulator, and slices the match off; when the pattern finds
 * nothing, the remaining line is appended and the loop stops.
 *
 * The JavaScript handler is a closure that updates variables of its caller and
 * may throw. Here it is a function from the caller's state and the match to a
 * reply that carries the new state, or says that it threw.
 */
module Scanner {
  import opened Utf16

  datatype Option<+T> = None | Some(value: T)

  /** A successful `line.match(pattern)`: `match.index`, `match[0]` and the capture groups. */
  datatype Match<+G> = Match(index: nat, text: Text, groups: G)

  /** What the handler does with one match: returns a value (with its updated state), or throws. */
  datatype Reply<+S> = Return(state: S, value: Text) | Throw

  /** How `scan` ends: with the accumulated string (and the handler's final state), or with the exception. */
  datatype Outcome<+S> = Finished(state: S, result: Text) | Threw

  /** A match reported for `line` ends inside it, and past its start: slicing it off shortens the line. */
  predicate Shortens<G>(line: Text, m: Match<G>) {
    0 < m.index + |m.text| <= |line|
  }

  /** A match reported for `line` shortens it and says what the line holds at its index. */
  predicate Fits<G>(line: Text, m: Match<G>) {
    Shortens(line, m) && line[m.index..m.index + |m.text|] == m.text
  }

  /**
   * Every match the pattern reports shortens the line, so every turn of the
   * loop makes progress. (A pattern that can match the empty string at the
   * start of the line makes the JavaScript loop run forever.)
   */
  ghost predicate Advancing<G>(pattern: Text -> Option<Match<G>>) {
    forall line :: pattern(line).Some? ==> Shortens(line, pattern(line).value)
  }

  /** Every match the pattern reports is a substring of the line at its index. */
  ghost predicate Faithful<G>(pattern: Text -> Option<Match<G>>) {
    forall line :: pattern(line).Some? ==> Fits(line, pattern(line).value)
  }

  /** `t` placed in front of the accumulated string of `out`. */
  function Prepend<S>(t: Text, out: Outcome<S>): (r: Outcome<S>)
    ensures r.Threw? <==> out.Threw?
    ensures r.Finished? ==> r.state == out.state && r.result == t + out.result
  {
    match out
    case Threw => Threw
    case Finished(s, result) => Finished(s, t + result)
  }

  lemma PrependPrepend<S>(a: Text, b: Text, out: Outcome<S>)
    ensures Prepend(a, Prepend(b, out)) == Prepend(a + b, out)
  {
    if out.Finished? {
      assert a + (b + out.result) == (a + b) + out.result;
    }
  }

  /** What `scan` computes, one match at a time. */
  function Scanned<G, S>(line: Text, pattern: Text -> Option<Match<G>>, handler: (S, Match<G>) -> Reply<S>, state: S): Outcome<S>
    requires Advancing(pattern)
    decreases |line|
  {
    if line == [] then Finished(state, [])
    else
      match pattern(line)
      case None => Finished(state, line)
      case Some(m) =>
        match handler(state, m)
        case Throw => Threw
        case Return(next, value) =>
          Prepend(line[..m.index] + value, Scanned(line[m.index + |m.text|..], pattern, handler, next))
  }

  /** A turn that the handler accepts: `scan` throws, or ends in a state, exactly as it does on the rest of the line. */
  lemma ScannedTurn<G, S>(line: Text, pattern: Text -> Option<Match<G>>, handler: (S, Match<G>) -> Reply<S>, state: S, m: Match<G>)
    requires Advancing(pattern) && pattern(line) == Some(m) && m.index == 0 && handler(state, m).Return?
    ensures var rest := Scanned(line[|m.text|..], pattern, handler, handler(state, m).state);
            var out := Scanned(line, pattern, handler, state);
            (out.Threw? <==> rest.Threw?) && (out.Finished? ==> out.state == rest.state)
  {
    assert Shortens(line, m);
  }

  /** The loop of `scan`, proved to compute `Scanned`. */
  method Scan<G, S>(line0: Text, pattern: Text -> Option<Match<G>>, handler: (S, Match<G>) -> Reply<S>, init: S)
    returns (out: Outcome<S>)
    requires Advancing(pattern)
    ensures out == Scanned(line0, pattern, handler, init)
  {
    var line := line0;
    var result: Text := [];
    var state := init;
    while |line| > 0
      invariant Scanned(line0, pattern, handler, init) == Prepend(result, Scanned(line, pattern, handler, state))
      decreases |line|
    {
      var found := pattern(line);
      if found.Some? {
        var m := found.value;
        var skipped := line[..m.index];
        var reply := handler(state, m);
        if reply.Throw? {
          return Threw;
        }
        var rest := line[m.index + |m.text|..];
        PrependPrepend(result, skipped + reply.value, Scanned(rest, pattern, handler, reply.state));
        result := result + (skipped + reply.value);
        state := reply.state;
        line := rest;
      } else {
        PrependPrepend(result, line, Finished(state, []));
        assert line + [] == line;
        result := result + line;
        line := [];
      }
    }
    out := Finished(state, result);
  }

  /**
   * The accumulator keeps the skipped text verbatim: with a handler that never
   * throws and replies with the matched text itself, `scan` rebuilds its input.
   */
  lemma {:induction false} ScanEchoRebuildsLine<G, S>(line: Text, pattern: Text -> Option<Match<G>>, handler: (S, Match<G>) -> Reply<S>, state: S)
    requires Advancing(pattern) && Faithful(pattern)
    requires forall s, m :: handler(s, m).Return? && handler(s, m).value == m.text
    ensures Scanned(line, pattern, handler, state).Finished?
    ensures Scanned(line, pattern, handler, state).result == line
    decreases |line|
  {
    if line != [] {
      match pattern(line)
      case None =>
      case Some(m) =>
        var next := handler(state, m).state;
        var rest := line[m.index + |m.text|..];
        ScanEchoRebuildsLine(rest, pattern, handler, next);
        assert line == line[..m.index] + m.text + rest;
    }
  }

  /** `scan` only throws when the handler does. */
  lemma {:induction false} ScanThrowsOnlyFromHandler<G, S>(line: Text, pattern: Text -> Option<Match<G>>, handler: (S, Match<G>) -> Reply<S>, state: S)
    requires Advancing(pattern)
    requires forall s, m :: handler(s, m).Return?
    ensures Scanned(line, pattern, handler, state).Finished?
    decreases |line|
  {
    if line != [] {
      match pattern(line)
      case None =>
      case Some(m) =>
        ScanThrowsOnlyFromHandler(line[m.index + |m.text|..], pattern, handler, handler(state, m).state);
    }
  }
}
