# Code-point lookahead reader of an ECMAScript regular-expression validator

This project models, in Dafny, the reader at the bottom of the js-regex
validator (`src/reader.rs`). The reader scans a pattern text of UTF-16 code
units from a cursor up to an exclusive `end` bound. It keeps a window of
the next four code points (`cp1`..`cp4`) and the widths in code units of the
first three (`w1`..`w3`). It offers `reset`, `rewind`, `advance`, `eat`,
`eat2` and `eat3`.

A mode flag picks one of two decoders:

- legacy: every code unit is a code point of width 1;
- Unicode: `codePointAt` joins a lead surrogate and a following trail
  surrogate into `(lead - 0xD800) * 0x400 + (trail - 0xDC00) + 0x10000`
  (section 21.1.3.3 of ECMA-262 2015). Such a code point has width 2.

The model is functional. A `Reader` is an immutable record. `Rewind`,
`Reset`, `Advance` and `Eat*` are pure functions returning the new record.
The `eat` functions return a `(matched, reader)` pair. The source's `-1`
"no code point" sentinel is `None`.

Files:

- `wrappers.dfy`: the `Option` type.
- `utf16.dfy`: code units, code points, `CodePointAt` and its inverse
  `Encode` (UTF-16 encoding), with the round trip in both directions.
- `reader.dfy`: the decoders, the reader state and its operations, the
  window invariant `Consistent`, and the proof that `Advance` keeps it.
- `reader_properties.dfy`: lemmas that relate several operations. They
  cover what the window means, what a full scan yields in each mode, and
  how `eat2`/`eat3` compose from `eat`.
- `reader_examples.dfy`: the source's unit test, and a surrogate pair that
  straddles `end`.

Main results:

- `AdvanceIsRewind`: `advance` updates the window incrementally, and the
  result is exactly what `rewind` to the new cursor rebuilds from scratch.
- `WindowIsDrainPrefix`: the window holds the first four of the code points
  the reader still yields. `Drain` lists those code points; it is defined by
  repeated `advance`.
- `UnicodeReadsEncoding`: in Unicode mode, scanning the UTF-16 encoding of
  any sequence of scalar values yields exactly that sequence.
- `LegacyReadsUnits`: in legacy mode, scanning yields the code units
  themselves.

## Model

| member | source | states |
|---|---|---|
| Utf16.CodePointAt | src/reader.rs:13-16 | the decoded value is above 0xFFFF exactly when a lead surrogate at `i` is followed by a trail surrogate; otherwise it is the code unit at `i` |
| Utf16.DecodeEncode | src/reader.rs:14-16 | decoding the UTF-16 encoding of any scalar value gives that value back, whatever units follow it |
| Utf16.EncodeDecode | src/reader.rs:14-16 | re-encoding a decoded code point gives back exactly the one or two units it was read from |
| CodePointReader.At | src/reader.rs:4-20 | a code point is found exactly before `end` (inside the text); legacy mode gives the code unit; Unicode mode gives a value above 0xFFFF exactly where a surrogate pair starts, and the code unit elsewhere |
| CodePointReader.Width | src/reader.rs:8-19 | a width is 1 or 2; always 1 in legacy mode; 2 exactly for a code point above 0xFFFF in Unicode mode |
| CodePointReader.Rewind | src/reader.rs:91-105 | rewinding moves the cursor to the given offset and keeps the text, bound and mode |
| CodePointReader.RewindWindow | src/reader.rs:91-105 | after `rewind(i)`, slot `k` holds the code point `k` positions after `i` (reached by stepping over each earlier code point's width), and each width is that of its slot |
| CodePointReader.RewindConsistent | src/reader.rs:91-105 | `rewind` always establishes the window invariant |
| CodePointReader.ConsistentIsRewindFixpoint | src/reader.rs:91-105 | the window invariant holds exactly when rewinding to the current cursor would change nothing |
| CodePointReader.New | src/reader.rs:37-52 | the fresh reader is in legacy mode over the empty text, has an empty window, and satisfies the window invariant |
| CodePointReader.Reset | src/reader.rs:78-89 | `reset` stores text, bound and mode, puts the cursor at `start`, satisfies the window invariant, and its window is the lookahead from `start` |
| CodePointReader.Advance | src/reader.rs:107-123 | with no current code point nothing changes; text, bound and mode are always kept; otherwise the cursor moves by `w1` and the old second slot becomes the current code point |
| CodePointReader.AdvanceIsRewind | src/reader.rs:107-123 | from a consistent reader with a current code point: the cursor is before `end`, `w1` is 1 or 2, the cursor moves by `w1` and stays within the text, and the result equals `rewind` to the new cursor, so it is consistent |
| CodePointReader.Drain | src/reader.rs:107-123 | repeated `advance` yields no more code points than there are code units between the cursor and `end` |
| CodePointReader.Eat | src/reader.rs:125-131 | `eat(cp)` matches exactly when the current code point is `cp`; on a miss the reader is unchanged; text, bound and mode are always kept; on a match it advances by `w1`, stays consistent, and has consumed exactly `cp` from the remaining input |
| CodePointReader.Eat2 | src/reader.rs:133-140 | `eat2` matches exactly when the first two slots are the given code points; on a miss nothing changes; text, bound and mode are always kept; on a match the reader stays consistent, the cursor moves by `w1 + w2`, and exactly those two code points are consumed |
| CodePointReader.Eat3 | src/reader.rs:142-150 | `eat3` matches exactly when the first three slots are the given code points; on a miss nothing changes; text, bound and mode are always kept; on a match the reader stays consistent, the cursor moves by `w1 + w2 + w3`, and exactly those three code points are consumed |
| ReaderProperties.AtSpec | src/reader.rs:4-16 | `at` gives no code point at or past `end` in both modes; before it, legacy gives the code unit and Unicode gives the unit or the combined surrogate pair |
| ReaderProperties.WidthSpec | src/reader.rs:8-19 | widths are 1 or 2; always 1 in legacy mode; in Unicode mode 2 exactly for a code point above 0xFFFF, which is exactly when a surrogate pair starts at the offset |
| ReaderProperties.AtUnits | src/reader.rs:13-19 | a decoded code point and its width cover exactly the code units it was read from, all inside the text |
| ReaderProperties.RewindIgnoresWindow | src/reader.rs:91-105 | the result of `rewind` depends only on text, bound, mode and target offset |
| ReaderProperties.ResetForgets | src/reader.rs:78-89 | `reset` keeps nothing of the reader's previous state |
| ReaderProperties.AbsentWindow | src/reader.rs:94-104 | when there is no current code point, the whole window is empty |
| ReaderProperties.WindowIsDrainPrefix | src/reader.rs:91-123 | the four slots are the first four code points the reader still yields through `advance`, and `None` past the last one |
| ReaderProperties.LegacyReadsUnits | src/reader.rs:4-11 | in legacy mode a full scan yields the code units from the cursor up to `end` (or the end of the text) |
| ReaderProperties.UnicodeReadsEncoding | src/reader.rs:13-20 | in Unicode mode, if the units between the cursor and `end` are the UTF-16 encoding of scalar values, a full scan yields exactly those values |
| ReaderProperties.ResetDecodesUtf16 | src/reader.rs:78-89 | resetting over a whole UTF-16 text in Unicode mode and scanning it decodes the original scalar values |
| ReaderProperties.ModesAgreeWithoutPairs | src/reader.rs:4-20 | over a text with no lead surrogate, the Unicode-mode window equals the legacy-mode one |
| ReaderProperties.Eat2IsTwoEats | src/reader.rs:125-140 | `eat2(a, b)` succeeds exactly when `eat(a)` then `eat(b)` succeed, and then ends in the same state |
| ReaderProperties.Eat3IsEat2ThenEat | src/reader.rs:133-150 | `eat3(a, b, c)` succeeds exactly when `eat2(a, b)` then `eat(c)` succeed, and then ends in the same state |
| ReaderExamples.EatTest | src/reader.rs:159-170 | on "abcdefghijk" reset with bound 11 in Unicode mode, the test's eight calls answer true, false, true, true, false, true, true, false |
| ReaderExamples.PairAcrossEnd | src/reader.rs:13-20 | in Unicode mode, a surrogate pair whose trail lies at `end` is still read whole with width 2, and `advance` moves the cursor past `end`; in legacy mode the lead is read alone |

## Left out

- `src/reader.rs` is an unfinished port from TypeScript and does not compile. The model follows its evident intent:
  - the swappable `implem` object becomes a boolean mode field, read by `At` and `Width`;
  - `w4`, set at `reader.rs:50` but never declared, is dropped;
  - the `-1` sentinel compared against `Option<char>` becomes `None`.
- Reads past the text: if `end` exceeds the text's length, `charCodeAt`/`codePointAt` would give NaN/undefined at offsets past the text. The model reports no code point there, as it does at or past `end`.
- Integer width: cursors and widths are unbounded naturals. `usize` overflow of `index + w1 + w2 + w3` is not modelled; it needs a text near the address-space size.
- The getters `source`, `index`, `currentCodePoint` and `nextCodePoint*` are plain field reads of the record (`src`, `index`, `cp1`..`cp4`). They have no separate members.
- The grammar validator (`src/validator.rs` is an empty stub), flag validation, the Unicode property and identifier tables, and the pattern tests in `src/lib.rs` and `tests/invalid.rs` are not part of this model. Their implementation is not among the files modelled.
