# shellwords in Dafny

A model of the tokenizer of the TypeScript library `shellwords` (marques-work),
with proofs of its properties. The library does shell-style word splitting in
the manner of Ruby's `Shellwords`: quotes, backslash escapes and whitespace
separation, with no globbing, expansion or metacharacters. It has four pieces:

- `scan`: a driver loop that imitates Ruby's `String#scan` with a `\G` anchor.
- `SHELL_PARSE_REGEX`: one step of the tokenizer. It skips leading whitespace,
  takes the first alternative that matches (word run, `'…'`, `"…"`, backslash
  escape, garbage), then an optional separator `(\s|$)?`.
- `split`: builds the words, throws "Unmatched quote" on garbage, and hands
  each word's raw text to an optional callback.
- `escape` and `join`: the writing side. The test suite reads their output back
  with `split` (spec/shellwords_spec.ts:78-102).

Strings are sequences of UTF-16 code units (`Utf16.CodeUnit`), as the library's
regular expressions see them (they carry no `u` flag). `\s` is `Utf16.IsSpace`,
with the ECMAScript WhiteSpace and LineTerminator sets written out. `.` is
`Utf16.MatchesDot`: every unit except LF, CR, U+2028 and U+2029.

Modules, in dependency order:

| file | module | contents |
|---|---|---|
| `utf16.dfy` | `Utf16` | code units, `\s`, `.` |
| `scanner.dfy` | `Scanner` | `scan` as the method `Scan`, proved equal to the function `Scanned`; the handler is a function from state and match to a reply that returns a value with a new state, or throws |
| `shellwords.dfy` | `Shellwords` | the pattern as the classifier `ShellMatch`; the handler `OnMatch`; `split` as the method `Split`, proved equal to `Tokenized` |
| `split_steps.dfy` | `SplitSteps` | what one match and one turn of the loop do, for each shape of input |
| `split_properties.dfy` | `SplitProperties` | the callback contract, blank input, unmatched quotes, the quoting and backslash rules |
| `escaping.dfy` | `Escaping` | `escape`, and `join` as the method `Join` |
| `round_trip.dfy` | `RoundTrip` | `split(escape(s)) == [s]` and `split(join(L)) == L` without CR, U+2028 and U+2029; the failure for strings with them |
| `split_examples.dfy` | `SplitExamples` | runs of empty quotes and runs of backslash escapes, for every length, with two cases from the test suite as instances |

How the JavaScript maps to the model:

- The handler's closure variables `words`, `field` and `rawParsed` become the
  record `SplitState`. It also holds the list of raw spans, in the order the
  callback would receive them.
- A throw becomes `Reply.Throw`, then `Outcome.Threw`, then
  `Failure(UnmatchedQuote)`.
- `split`'s handler returns `""` on a word boundary and otherwise `undefined`.
  `scan` appends the string `"undefined"` for the latter (`Shellwords.UNDEFINED`).
  `split` discards what `scan` returns.
- The chain `word || sq || dq… || esc…` picks the capture of the one
  alternative that matched. An empty `sq` or `dq` falls through to the
  `esc` fallback, which gives the empty string too, so `Shellwords.Decoded`
  gives the empty string for those.

Behaviour the model pins down, against the library's own tests and Ruby's
`Shellwords`, whose algorithm the code follows:

- **Round trip.** The test suite checks `split(escape(t)) == [t]` and
  `split(join(L)) == L` only for the empty string and runs of spaces, newlines
  and tabs (spec/shellwords_spec.ts:78-102). The model proves exactly where
  the first holds: for the strings without CR, U+2028 and U+2029
  (`RoundTrip.SplitEscapeIff`). The second holds for lists of such strings
  (`RoundTrip.SplitJoin`). `escape` puts a backslash in front of such a unit.
  JavaScript's `.` does not take it. Ruby's `shellsplit` pattern carries the
  `m` flag, under which Ruby's `.` takes every unit. So `split` reads a literal backslash, and the unit becomes a separator.
- **Callback.** The tests expect one call per word, with the word's raw text
  and its separator (spec/shellwords_spec.ts:199-219). Turn by turn, each
  match's text joins the pending raw text. A boundary hands that text over,
  with the separator unit in it (`SplitSteps.OnMatchState`, `SplitSteps.EndAt`).
  Over a whole line, `SplitProperties.SplitSpans` proves one argument per word.
  The arguments, in order, are a prefix of the line with only whitespace left
  over. Whitespace after the last separator is never reported.
- **Push after the loop.** The push after the loop (src/shellwords.ts:93-99)
  fires exactly when the line ends right after a lexeme that is not an empty
  quote (`SplitProperties.SplitFlushes`). At the end of input the separator
  group takes no part, so such a last word is never pushed inside the loop.
- **Trailing backslash.** A backslash at the end of the line or before a line
  terminator stays a literal backslash (`SplitProperties.LoneBackslash`). The
  tests expect this for continuation lines (spec/shellwords_spec.ts:148-155).
  Before a line terminator it ends the word. At the end of the line the word
  stays open and is pushed after the loop.
- **Empty quotes.** `''` and `""` always end the field (src/shellwords.ts:81),
  so `a''b` splits into `a` and `b`. In Ruby's `Shellwords`, as in a POSIX
  shell, it is the one word `ab` (`SplitProperties.EmptyQuotesEndField`).

## Model

| member | source | states |
|---|---|---|
| Scanner.Scan | src/shellwords.ts:14-32 | the loop returns exactly what `Scanned` defines: the skipped text and each reply, in order, then the unmatched rest; or the handler's exception |
| Scanner.ScannedTurn | src/shellwords.ts:20-24 | a turn whose match starts at 0 and whose handler returns: `scan` throws, or ends in a state, exactly as it does on the line with the match sliced off |
| Scanner.ScanEchoRebuildsLine | src/shellwords.ts:19-31 | with a pattern that reports substrings and a handler that echoes the match, `scan` returns its input: nothing skipped is lost |
| Scanner.ScanThrowsOnlyFromHandler | src/shellwords.ts:19-29 | `scan` throws only when the handler throws |
| Shellwords.SpaceRunFacts | src/shellwords.ts:50 | `\s*` takes only whitespace and stops only before a non-space unit or at the end |
| Shellwords.WordRunFacts | src/shellwords.ts:52 | `[^\s\\'"]+` takes only word units and stops only before a unit that is not one, or at the end |
| Shellwords.SingleQuoteCloseFacts | src/shellwords.ts:54 | `'[^']*'` closes at the first following single quote, and fails exactly when there is none |
| Shellwords.DoubleQuoteClose | src/shellwords.ts:56 | the closing position found for `"…"` holds a double quote |
| Shellwords.DoubleQuoteCloseSome | src/shellwords.ts:56 | what the scan for `"…"` finds before the closing quote is a body the group accepts |
| Shellwords.DoubleQuoteCloseNone | src/shellwords.ts:56 | when that scan finds nothing, no prefix before any double quote is a body: the alternative cannot match |
| Shellwords.Lex | src/shellwords.ts:51-61 | the atomic group at a non-space unit always takes at least one unit |
| Shellwords.LexShape | src/shellwords.ts:51-61 | what each alternative takes and captures; word and escape start exactly at word units and backslashes; garbage is only an unclosable quote |
| Shellwords.Separator | src/shellwords.ts:62 | `(\s|$)?` captures one unit exactly when whitespace follows. Otherwise the group takes no part, at the end of input too: there `$` matches the empty string, and ECMAScript rejects an empty iteration of `?` (section 22.2.2.3.1 of ECMA-262) |
| Shellwords.ShellMatchNone | src/shellwords.ts:49-63 | the pattern fails exactly on a line of whitespace |
| Shellwords.ShellMatch | src/shellwords.ts:49-63 | a match starts at index 0 (the `\G` anchor), is non-empty and lies within the line |
| Shellwords.ShellMatchShape | src/shellwords.ts:49-63 | where the match ends: with a separator, on the whitespace unit it captured; without one, at the end of the line or before a non-space unit |
| Shellwords.ShellMatchGarbage | src/shellwords.ts:51-61 | garbage arises only at a `'` with no later `'`, or at a `"` with no well-formed closing |
| Shellwords.ShellMatchOpen | src/shellwords.ts:79-81 | a lexeme that does not end the field adds at least one unit to it |
| Shellwords.ShellMatchAdvances | src/shellwords.ts:49-63 | every match takes at least one unit, so the loop of `scan` terminates |
| Shellwords.ShellMatchFaithful | src/shellwords.ts:49-63 | every match is the text of the line at its index |
| Shellwords.ShellMatchFits | src/shellwords.ts:49-63 | every match starts at index 0 (the `\G` anchor) and is a non-empty prefix of the line |
| Shellwords.Decoded | src/shellwords.ts:79 | the decoded capture is never longer than the capture, and outside garbage a non-empty capture decodes to a non-empty text |
| Shellwords.Unbackslash | src/shellwords.ts:79 | `replace(/\\(X)/g, "$1")` never lengthens the text and keeps a non-empty text non-empty |
| Shellwords.OnMatch | src/shellwords.ts:70-91 | the handler throws exactly on the garbage alternative |
| Shellwords.Flush | src/shellwords.ts:93-99 | after the loop, words and spans are only appended, at most one of each; a word is added exactly when the field is non-empty, and it is the field with its raw text |
| Shellwords.Split | src/shellwords.ts:65-102 | `split` returns exactly what `Tokenized` defines |
| SplitSteps.TokenizedByFinal | src/shellwords.ts:93-101 | `split` fails when the loop throws, and otherwise flushes the final state |
| SplitSteps.RunMatch | src/shellwords.ts:70-91 | a turn on a match other than garbage continues from the handler's new state on the rest of the line |
| SplitSteps.RunGarbage | src/shellwords.ts:73-75 | a turn on garbage throws |
| SplitSteps.RunBlank | src/shellwords.ts:25-28 | whitespace alone leaves the state unchanged |
| SplitSteps.OnMatchState | src/shellwords.ts:77-90 | the handler's new state: the field grows by the decoded capture and the raw text by the match; on a boundary both are pushed and reset |
| SplitSteps.MatchAt | src/shellwords.ts:49-63 | the match on whitespace, an alternative and more text: whitespace plus the alternative plus the separator unit when whitespace follows, with the alternative's groups |
| SplitSteps.StepAt | src/shellwords.ts:70-91 | one turn on such a line: the state pushed or grown, and the loop going on after the separator |
| SplitSteps.ContinueAt | src/shellwords.ts:79-81 | an alternative followed by the end of the line or a non-space unit, and not an empty quote: no separator, and the field goes on |
| SplitSteps.EndAt | src/shellwords.ts:81-89 | an alternative followed by whitespace: the field is pushed with the separator unit in its span |
| SplitSteps.LexWord | src/shellwords.ts:52 | a word run followed by a non-word unit is matched as a word |
| SplitSteps.LexSingle | src/shellwords.ts:54 | `'c'` with no single quote in `c` is matched as single-quoted with capture `c` |
| SplitSteps.LexDouble | src/shellwords.ts:56 | `"c"` with a well-formed body `c` is matched as double-quoted with capture `c` |
| SplitSteps.LexEscape | src/shellwords.ts:58 | a backslash and a unit that `.` takes form one escape |
| SplitSteps.LexLoneBackslash | src/shellwords.ts:58 | a backslash at the end or before a line terminator is an escape of one unit |
| SplitSteps.SepText | src/shellwords.ts:62 | the text the separator group consumes is a prefix of at most one unit, and it is empty exactly at the end of the line or before a non-space unit |
| SplitProperties.ConsumedAfterMatch | src/shellwords.ts:77-88 | each turn accounts for exactly the text it matched, in the spans and the pending raw text |
| SplitProperties.RunKeeps | src/shellwords.ts:70-91 | over the whole loop, words and spans are only appended, one span per word, the raw text reported is a prefix of the input with only whitespace left over, and after any non-blank text either the field is open or a word was pushed with no raw text pending |
| SplitProperties.SplitSpans | src/shellwords.ts:77-99 | one callback per word; the callback arguments, in order, are a prefix of the line, and the rest is whitespace |
| SplitProperties.SplitBlank | src/shellwords.ts:65-101 | blank input, and only blank input, gives no words |
| SplitProperties.RunEndsOpen | src/shellwords.ts:70-99 | on a non-blank line, from any state, a run that does not throw ends with an open field exactly when the line ends right after a lexeme that is neither garbage nor one that ends the field |
| SplitProperties.SplitFlushes | src/shellwords.ts:93-101 | the push after the loop fires exactly when the line ends open; `split` returns the loop's words and spans, plus the open field and its raw text in that case |
| SplitProperties.ThrowsAtGarbage | src/shellwords.ts:73-75 | the loop throws, from any state, exactly when the scan reaches garbage |
| SplitProperties.SplitFailsAtGarbage | src/shellwords.ts:70-75 | `split` fails with "Unmatched quote" exactly when the scan reaches garbage, and otherwise returns words |
| SplitProperties.LexUnclosed | src/shellwords.ts:60 | a quote that cannot be closed is matched as garbage |
| SplitProperties.UnclosedQuote | src/shellwords.ts:54-60 | a `'` with no later `'`, or a `"` with no well-formed closing, where a match starts, makes the loop throw |
| SplitProperties.SingleQuotesAreLiteral | src/shellwords.ts:79-81 | single-quoted text joins the field as it stands, backslashes included; `''` ends the field |
| SplitProperties.DoubleQuoteNewlineEscapeUnused | src/shellwords.ts:79 | on every body the pattern lets through, the unescape with newline in its class equals the one for `$ ` " \` alone |
| SplitProperties.DoubleQuoteKeepsOtherBackslashes | src/shellwords.ts:79 | inside double quotes a backslash before any other unit is kept with that unit |
| SplitProperties.DoubleQuotedStep | src/shellwords.ts:79-81 | double-quoted text joins the field with only `\$ \` \" \\` resolved; `""` ends the field |
| SplitProperties.EmptyQuotesEndField | src/shellwords.ts:81-89 | `''` or `""` pushes the field even when no whitespace follows |
| SplitProperties.ForDoubleQuotesUnescapes | src/shellwords.ts:79 | backslashing the four shell escapes of `s` gives a well-formed body that unescapes to `s` |
| SplitProperties.SplitOneLexeme | src/shellwords.ts:65-101 | a line that is one alternative splits into its decoded capture, with the whole line as its span, whether the loop pushes it (an empty quote) or the push after the loop does |
| SplitProperties.SplitDoubleQuoted | src/shellwords.ts:79 | every string, line terminators included, is read back from double quotes as one word |
| SplitProperties.BackslashEscapes | src/shellwords.ts:79 | outside quotes a backslash is dropped and the unit after it kept literally |
| SplitProperties.LoneBackslash | src/shellwords.ts:58-89 | a backslash at the end or before a line terminator is an escape of one unit and stays a literal backslash. Before a line terminator, that unit is the separator and the word ends; at the end there is no separator and the field stays open |
| Escaping.Escape | src/shellwords.ts:104-109 | `escape("")` is `''`, and the result is never empty |
| Escaping.BackslashThenQuote | src/shellwords.ts:108 | the two replacements act unit by unit |
| Escaping.EscapeUnitwise | src/shellwords.ts:108 | `escape` keeps safe units, writes a newline as `'\n'` and puts a backslash before every other unit |
| Escaping.EscapeAppend | src/shellwords.ts:108 | `escape` of a concatenation of non-empty strings is the concatenation of their escapes |
| Escaping.EscapeKeepsSafe | src/shellwords.ts:108 | a non-empty string of `[A-Za-z0-9_\-.,:+/@]` is returned unchanged |
| Escaping.EscapeAll | src/shellwords.ts:113-115 | the collected list has one element per string, the escape of the string at the same position |
| Escaping.JoinedBySpaceAppend | src/shellwords.ts:116 | joining two non-empty lists puts exactly one space between their joins |
| Escaping.Join | src/shellwords.ts:111-117 | `join` is the escapes joined by single spaces; `[]` gives the empty string; one string gives its escape |
| RoundTrip.RunEscapedUnits | src/shellwords.ts:108 | the loop reads the escaped units of `s` back into the field as `s`: pushed when whitespace follows, left open before the end of the line, a quote or a backslash |
| RoundTrip.RunEscape | src/shellwords.ts:104-109 | `escape(s)` followed by whitespace is read back as the one word `s`, pushed with the separator in its span |
| RoundTrip.EscapeEndsLine | src/shellwords.ts:104-109 | `escape(s)` at the end of the line leaves `s` in the open field, or, for `escape("") == ''`, pushes the empty word |
| RoundTrip.SplitEscape | spec/shellwords_spec.ts:98-100 | `split(escape(s)) == [s]` without CR, U+2028 and U+2029, with `escape(s)` as the one callback argument |
| RoundTrip.SplitEscapeCarriageReturn | src/shellwords.ts:108 | `escape("\r")` is backslash-CR, and `split` reads it as the word `\` |
| RoundTrip.EscapeAtBreak | src/shellwords.ts:108 | at the first CR, U+2028 or U+2029 the escape has a backslash in front of it |
| RoundTrip.BreakFirstWord | src/shellwords.ts:58 | before a CR, U+2028 or U+2029 written as a backslash and that unit, the first word `split` returns is the text before it with a literal backslash |
| RoundTrip.SplitEscapeBreaks | src/shellwords.ts:104-109 | a string with a CR, U+2028 or U+2029 does not come back as itself |
| RoundTrip.SplitEscapeIff | src/shellwords.ts:104-109 | `split(escape(s)) == [s]` holds exactly when `s` has no CR, U+2028 or U+2029 |
| RoundTrip.RunJoined | src/shellwords.ts:111-117 | the loop on `join(strings)` does not throw and ends in a state that flushes to exactly the strings, one span per escape with its space |
| RoundTrip.SplitJoin | spec/shellwords_spec.ts:102 | `split(join(L)) == L` when no string of `L` has a CR, U+2028 or U+2029 |
| SplitExamples.RunPaired | src/shellwords.ts:81 | a run of empty quote pairs pushes one empty word per pair, with the pair as its span |
| SplitExamples.SplitPaired | spec/shellwords_spec.ts:141-142 | a line of empty quote pairs splits into as many empty words |
| SplitExamples.FourEmptyQuotes | spec/shellwords_spec.ts:141-142 | `''""''""` gives four empty words |
| SplitExamples.RunBackslashed | src/shellwords.ts:79 | a run of backslash escapes adds the escaped units to the field and leaves it open |
| SplitExamples.SplitBackslashed | src/shellwords.ts:79 | a word of backslash escapes splits into the word of the escaped units |
| SplitExamples.EscapedLetters | spec/shellwords_spec.ts:47-48 | `\r\n` outside quotes is the word `rn` |

## Left out

- The `rgx` template helper (src/shellwords.ts:39-47) only strips comments and whitespace to build a regular expression. The pattern it builds is modelled directly, as `ShellMatch`.
- No regular-expression engine is modelled: no lookahead, back-reference or the `m` flag. Only their observable effect is kept: the first alternative wins without backtracking, and the separator group captures one whitespace unit or takes no part. With the `m` flag, `$` could also match before a line terminator, but `\s` takes that terminator first.
- The `Shellwords` class and the default export (src/shellwords.ts:119-125) only re-export the three functions.
- `dist/shellwords.js` is a stale build of an older source and is not part of this model.
- The callback is not an arbitrary closure with side effects. `split` returns its arguments as the list `spans`. When no callback is given, the spans are simply unused.
- Shellwords.Split: when `split` throws, the spans the callback received before the unmatched quote are not part of the `Failure` result. JavaScript exceptions become that result.
- Scanner.Scan: the handler is a pure function of the state and the match rather than a closure, so handlers that read state outside `SplitState` are not modelled.
- Surrogate pairs are two code units, as they are for the library's patterns. No Unicode normalisation or case folding happens anywhere.
