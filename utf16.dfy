/**
 * JavaScript strings as the shellwords library sees them: sequences of UTF-16
 * code units (its regular expressions carry no `u` flag, so every class and
 * every `.` looks at one code unit at a time), together with the two character
 * classes of ECMAScript regular expressions that the tokenizer relies on:
 * `\s` and the line terminators that `.` refuses.
 */
module Utf16 {

  /** One UTF-16 code unit. */
  newtype CodeUnit = x: int | 0 <= x < 0x1_0000

  /** A JavaScript string. */
  type Text = seq<CodeUnit>

  const TAB: CodeUnit := 0x09
  const LF: CodeUnit := 0x0A
  const VT: CodeUnit := 0x0B
  const FF: CodeUnit := 0x0C
  const CR: CodeUnit := 0x0D
  const SPACE: CodeUnit := 0x20
  const DQUOTE: CodeUnit := 0x22
  const DOLLAR: CodeUnit := 0x24
  const SQUOTE: CodeUnit := 0x27
  const BACKSLASH: CodeUnit := 0x5C
  const BACKTICK: CodeUnit := 0x60
  const NBSP: CodeUnit := 0xA0
  const LS: CodeUnit := 0x2028
  const PS: CodeUnit := 0x2029
  const BOM: CodeUnit := 0xFEFF

  /** ECMAScript LineTerminator: the code units that `.` does not match. */
  predicate IsLineTerminator(c: CodeUnit) {
    c == LF || c == CR || c == LS || c == PS
  }

  /** What `.` matches when the `s` flag is absent. */
  predicate MatchesDot(c: CodeUnit) {
    !IsLineTerminator(c)
  }

  /**
   * What `\s` matches: ECMAScript WhiteSpace (tab, vertical tab, form feed,
   * space, no-break space, byte order mark and the Unicode space separators)
   * and LineTerminator.
   */
  predicate IsSpace(c: CodeUnit) {
    || c == TAB || c == VT || c == FF || c == SPACE || c == NBSP || c == BOM
    || c == 0x1680 || (0x2000 <= c <= 0x200A) || c == 0x202F || c == 0x205F || c == 0x3000
    || IsLineTerminator(c)
  }

  /** Every code unit of `s` is matched by `\s`. */
  predicate AllSpace(s: Text) {
    forall i :: 0 <= i < |s| ==> IsSpace(s[i])
  }
}
