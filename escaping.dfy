/**
 * The serialising side of the library: `escape` writes any string as one
 * shell word, and `join` escapes a list of strings into one command line.
 */
module Escaping {
  import opened Utf16

  /** `[A-Za-z0-9_\-.,:+\/@]`: the units `escape` leaves alone. */
  predicate IsSafe(c: CodeUnit) {
    || (0x41 <= c <= 0x5A) || (0x61 <= c <= 0x7A) || (0x30 <= c <= 0x39)
    || c == 0x5F || c == 0x2D || c == 0x2E || c == 0x2C || c == 0x3A || c == 0x2B || c == 0x2F || c == 0x40
  }

  /** `s.replace(/[^A-Za-z0-9_\-.,:+\/@\n]/g, "\\$&")`: a backslash before every unit that is neither safe nor a newline. */
  function BackslashUnsafe(s: Text): Text {
    if s == [] then []
    else (if IsSafe(s[0]) || s[0] == LF then [s[0]] else [BACKSLASH, s[0]]) + BackslashUnsafe(s[1..])
  }

  /** `s.replace(/\n/g, "'\n'")`. */
  function QuoteNewlines(s: Text): Text {
    if s == [] then []
    else (if s[0] == LF then [SQUOTE, LF, SQUOTE] else [s[0]]) + QuoteNewlines(s[1..])
  }

  /** `escape(raw)`: `''` for the empty string, otherwise the two replacements. */
  function Escape(raw: Text): (r: Text)
    ensures raw == [] ==> r == [SQUOTE, SQUOTE]
    ensures r != []
  {
    if raw == [] then [SQUOTE, SQUOTE]
    else
      assert BackslashUnsafe(raw) != [] && QuoteNewlines(BackslashUnsafe(raw))[0] in {raw[0], BACKSLASH, SQUOTE};
      QuoteNewlines(BackslashUnsafe(raw))
  }

  /** How `escape` writes one unit of a non-empty string. */
  function EscapeUnit(u: CodeUnit): Text {
    if IsSafe(u) then [u] else if u == LF then [SQUOTE, LF, SQUOTE] else [BACKSLASH, u]
  }

  /** Every unit of `s` written as `EscapeUnit` writes it. */
  function EscapedUnits(s: Text): Text {
    if s == [] then [] else EscapeUnit(s[0]) + EscapedUnits(s[1..])
  }

  lemma {:induction false} QuoteNewlinesAppend(a: Text, b: Text)
    ensures QuoteNewlines(a + b) == QuoteNewlines(a) + QuoteNewlines(b)
    decreases |a|
  {
    if a != [] {
      assert (a + b)[1..] == a[1..] + b;
      QuoteNewlinesAppend(a[1..], b);
    } else {
      assert a + b == b;
    }
  }

  lemma {:induction false} EscapedUnitsAppend(a: Text, b: Text)
    ensures EscapedUnits(a + b) == EscapedUnits(a) + EscapedUnits(b)
    decreases |a|
  {
    if a != [] {
      assert (a + b)[1..] == a[1..] + b;
      EscapedUnitsAppend(a[1..], b);
    } else {
      assert a + b == b;
    }
  }

  /**
   * The two replacements of `escape` act unit by unit: a safe unit stays, a
   * newline becomes `'\n'`, and every other unit gets a backslash in front.
   * (The backslashes the first replacement adds are never newlines, so the
   * second one only sees the original newlines.)
   */
  lemma {:induction false} EscapeUnitwise(s: Text)
    requires s != []
    ensures Escape(s) == EscapedUnits(s)
  {
    BackslashThenQuote(s);
  }

  lemma {:induction false} BackslashThenQuote(s: Text)
    ensures QuoteNewlines(BackslashUnsafe(s)) == EscapedUnits(s)
    decreases |s|
  {
    if s != [] {
      var head := if IsSafe(s[0]) || s[0] == LF then [s[0]] else [BACKSLASH, s[0]];
      QuoteNewlinesAppend(head, BackslashUnsafe(s[1..]));
      BackslashThenQuote(s[1..]);
      if !(IsSafe(s[0]) || s[0] == LF) {
        assert head[1..] == [s[0]];
      }
    }
  }

  /** `escape` of a concatenation of non-empty strings is the concatenation of their escapes. */
  lemma EscapeAppend(a: Text, b: Text)
    requires a != [] && b != []
    ensures Escape(a + b) == Escape(a) + Escape(b)
  {
    EscapeUnitwise(a);
    EscapeUnitwise(b);
    EscapeUnitwise(a + b);
    EscapedUnitsAppend(a, b);
  }

  /** A non-empty string of safe units comes back unchanged. */
  lemma {:induction false} EscapeKeepsSafe(s: Text)
    requires s != [] && forall i :: 0 <= i < |s| ==> IsSafe(s[i])
    ensures Escape(s) == s
  {
    EscapeUnitwise(s);
    SafeUnitsStay(s);
  }

  lemma {:induction false} SafeUnitsStay(s: Text)
    requires forall i :: 0 <= i < |s| ==> IsSafe(s[i])
    ensures EscapedUnits(s) == s
    decreases |s|
  {
    if s != [] {
      SafeUnitsStay(s[1..]);
    }
  }

  /** `escape` applied to each of `strings`, element by element. */
  function EscapeAll(strings: seq<Text>): (r: seq<Text>)
    ensures |r| == |strings|
    ensures forall i :: 0 <= i < |strings| ==> r[i] == Escape(strings[i])
  {
    if strings == [] then [] else [Escape(strings[0])] + EscapeAll(strings[1..])
  }

  lemma {:induction false} EscapeAllAppend(a: seq<Text>, b: seq<Text>)
    ensures EscapeAll(a + b) == EscapeAll(a) + EscapeAll(b)
    decreases |a|
  {
    if a != [] {
      assert (a + b)[1..] == a[1..] + b;
      EscapeAllAppend(a[1..], b);
    } else {
      assert a + b == b;
    }
  }

  /** `parts.join(" ")`. */
  function JoinedBySpace(parts: seq<Text>): Text {
    if parts == [] then []
    else if |parts| == 1 then parts[0]
    else parts[0] + [SPACE] + JoinedBySpace(parts[1..])
  }

  /** Joining two non-empty lists puts exactly one space between their joins. */
  lemma {:induction false} JoinedBySpaceAppend(a: seq<Text>, b: seq<Text>)
    requires a != [] && b != []
    ensures JoinedBySpace(a + b) == JoinedBySpace(a) + [SPACE] + JoinedBySpace(b)
    decreases |a|
  {
    if |a| > 1 {
      assert (a + b)[1..] == a[1..] + b;
      JoinedBySpaceAppend(a[1..], b);
    } else {
      assert (a + b)[1..] == b;
    }
  }

  /** `join(strings)`: the loop collecting the escapes, then `results.join(" ")`. */
  method Join(strings: seq<Text>) returns (r: Text)
    ensures r == JoinedBySpace(EscapeAll(strings))
    ensures strings == [] ==> r == []
    ensures |strings| == 1 ==> r == Escape(strings[0])
  {
    var results: seq<Text> := [];
    for i := 0 to |strings|
      invariant results == EscapeAll(strings[..i])
    {
      assert strings[..i + 1] == strings[..i] + [strings[i]];
      EscapeAllAppend(strings[..i], [strings[i]]);
      results := results + [Escape(strings[i])];
    }
    assert strings[..|strings|] == strings;
    if |strings| == 1 {
      assert results == [Escape(strings[0])] + EscapeAll(strings[1..]);
    }
    r := JoinedBySpace(results);
  }
}
