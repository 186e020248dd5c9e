# Decimal to Roman-like numerals by currying, composing and piping

This project models a small decimal-to-"Roman-like" numeral converter that
was written to demonstrate functional composition. A number `n` is first
expanded into `n` copies of `I` (`replicateIs`). Three substitution rules are
then applied in order: `IIIII -> V`, `VV -> X`, `XXXXX -> L`. Each rule is a
partial application of a curried `replace(oldValue, newValue)`. The converter
is assembled in three equivalent ways:

- nested calls (`decimaltoRomanNumeral`);
- `compose`, a right-to-left `reduceRight` fold (`decimaltoRomanNumeral_2`);
- `pipe`, a left-to-right `reduce` fold (`decimaltoRomanNumeral_3`).

A fourth variant (`decimaltoRomanNumeral_IMPERATIVE`) only does the unary
expansion.

Files:

- `pipeline.dfy`, module `Pipeline`: `compose` and `pipe` over
  `seq<T -> T>`, with `Nested` (the nested call `f1(f2(... fk(x)))`) as the
  reference definition. Also proves that piping a sequence is composing its
  reverse.
- `roman_numerals.dfy`, module `RomanNumerals`: the leftmost literal
  substitution, the curried `Replace`, the unary expansion, the three rules
  and the converters. Also proves the closed form of the result.
- `oracle_table.dfy`, module `OracleTable`: the repository's table of
  expected conversions, and lemmas on how the converters fare against it.

## The substitution replaces only the leftmost occurrence

`replace` builds `new RegExp(oldValue)` without the global flag. So
`inputStr.replace(...)` rewrites only the leftmost occurrence of the pattern.
The table of expected conversions expects `"X"` for 10 (tests.js:16), which
would need every occurrence of `IIIII` to be replaced. The model follows the
code.

Because of this, `IIIII -> V` fires at most once. Its output is `V` followed
by `n - 5` copies of `I`, and that string never contains `VV` or an `X`. The
converter therefore yields:

- `"I"` repeated `n` times, for `n < 5`;
- `"V"` followed by `"I"` repeated `n - 5` times, for `n >= 5`.

It matches the table of expected conversions for 0 to 9. For 10 it yields
`"VIIIII"`, while the table (tests.js:16) expects `"X"`. The lemma
`OracleTable.ConvertersMissTen` states this for all three converters.

`compose(rules..., replicateIs)` and `pipe(replicateIs, rules...)` also take
`replicateIs`, a function from numbers to strings, as one of their stages.
`reduceRight` and `reduce` both call it first, on the input number. The model
therefore applies `ReplicateIs` to the input and folds the three string rules
(`seq<string -> string>`) over its result.

## Model

| member | source | states |
|---|---|---|
| `Pipeline.Compose` | index.js:49 | the returned function applies the sequence right to left: it equals the nested call `fs[0](fs[1](... x))` |
| `Pipeline.Pipe` | index.js:70 | the returned function applies the sequence left to right: it equals the nested call of the reversed sequence |
| `Pipeline.ReduceRight` | index.js:49 | the `fns.reduceRight((y, f) => f(y), x)` fold; no contract of its own, its meaning is proved by `ReduceRightIsNested` |
| `Pipeline.Reduce` | index.js:70 | the `fns.reduce((y, f) => f(y), x)` fold; no contract of its own, its meaning is proved by `ReduceIsNestedReversed` |
| `Pipeline.ReduceRightIsNested` | index.js:49 | the `reduceRight` fold computes the nested call (last function first) for every sequence and start value |
| `Pipeline.ReduceIsNestedReversed` | index.js:70 | the `reduce` fold computes the nested call of the reversed sequence |
| `Pipeline.PipeIsComposeOfReversed` | index.js:49-70 | `pipe(fs)` and `compose(reverse(fs))` agree on every argument |
| `Pipeline.ComposeIsPipeOfReversed` | index.js:49-70 | `compose(fs)` and `pipe(reverse(fs))` agree on every argument |
| `Pipeline.ComposeRunsLastFirst` | index.js:49 | composing `fs + [f]` first applies `f` and then `compose(fs)` |
| `Pipeline.PipeRunsFirstFirst` | index.js:70 | piping `[f] + fs` first applies `f` and then `pipe(fs)` |
| `Pipeline.Reversed` | index.js:49-70 | the reversed sequence has the same length, and element `i` is element `|s| - 1 - i` of the original |
| `Pipeline.NestedSnoc` | index.js:49 | applying `init + [f]` right to left applies `f` first, then `init` |
| `RomanNumerals.FindFrom` | index.js:23 | the result is the first index at or after `from` where the pattern occurs; `None` exactly when it occurs nowhere from there on |
| `RomanNumerals.ReplaceLeftmost` | index.js:23 | a non-global literal replace: the input is unchanged when the pattern does not occur; otherwise the leftmost occurrence alone is replaced, and the length changes by `|replacement| - |pattern|` |
| `RomanNumerals.Replace` | index.js:21-25 | the curried replace returns a total one-argument transformer that performs the leftmost literal substitution |
| `RomanNumerals.ReplaceWithoutOccurrence` | index.js:21-25 | a rule leaves unchanged every string in which its pattern does not occur |
| `RomanNumerals.ReplaceOnlyLeftmost` | index.js:21-25 | a rule keeps the text before the leftmost occurrence and the text after it, puts the replacement in between, and changes the length by the difference of the two lengths |
| `RomanNumerals.NoOccurrenceWithoutChar` | index.js:30-31 | a pattern cannot occur in a string that lacks one of its characters |
| `RomanNumerals.RepeatI` | index.js:17 | `"I".repeat(count)` has length `count` and every character is `I` |
| `RomanNumerals.OnlyIs` | index.js:17 | a string made only of `I`s is the expansion of its own length, so the expansion is unique |
| `RomanNumerals.ReplicateIs` | index.js:16-18 | `replicateIs(n)` has length `n` and holds only `I`s, so `replicateIs(0)` is empty |
| `RomanNumerals.DecimalToRomanNumeralImperative` | index.js:6-9 | the imperative variant returns `decimal` copies of `I` |
| `RomanNumerals.ImperativeIsReplicateIs` | index.js:6-11 | the imperative variant equals `replicateIs` for every input and gives `"II"` for 2 |
| `RomanNumerals.ReplaceIIIIIWithV` | index.js:29 | the partially applied rule `replace("IIIII", "V")`; a constant, whose effect on an expansion is proved by `FirstRuleOnExpansion` |
| `RomanNumerals.ReplaceVVWithX` | index.js:30 | the partially applied rule `replace("VV", "X")`; a constant, proved a no-op on the first rule's output by `LaterRulesAreNoOps` |
| `RomanNumerals.ReplaceXXXXXWithL` | index.js:31 | the partially applied rule `replace("XXXXX", "L")`; a constant, proved a no-op on the first rule's output by `LaterRulesAreNoOps` |
| `RomanNumerals.FirstRuleOnExpansion` | index.js:29 | on an expansion, `IIIII -> V` does nothing below five; from five on it turns only the first five `I`s into one `V` |
| `RomanNumerals.NoVVAfterFirstRule` | index.js:30 | after the first rule, `VV` occurs nowhere |
| `RomanNumerals.NoXAfterFirstRule` | index.js:31 | after the first rule, `XXXXX` occurs nowhere |
| `RomanNumerals.LaterRulesAreNoOps` | index.js:29-38 | `VV -> X` and `XXXXX -> L` leave every output of `IIIII -> V` on an expansion unchanged |
| `RomanNumerals.DecimalToRomanNumeral` | index.js:36-40 | the nested converter gives `n` copies of `I` below five, and `V` followed by `n - 5` copies of `I` from five on |
| `RomanNumerals.OutputShape` | index.js:36-40 | the converter's output holds only `I` and `V`; its length is at most `n`, and exactly `n - 4` from five on |
| `RomanNumerals.DemonstrationCalls` | index.js:43-45 | the converter gives `"II"`, `"V"` and `"VI"` for 2, 5 and 6 |
| `RomanNumerals.ComposedRules` | index.js:53-55 | the rules passed to `compose`, last rule first; a constant, used by `DecimalToRomanNumeral2` |
| `RomanNumerals.PipedRules` | index.js:73-75 | the rules passed to `pipe`, first rule first; a constant, the reverse of `ComposedRules`, used by `DecimalToRomanNumeral3` |
| `RomanNumerals.DecimalToRomanNumeral2` | index.js:52-57 | the composed converter equals the nested converter on every input |
| `RomanNumerals.DecimalToRomanNumeral3` | index.js:71-76 | the piped converter equals the nested converter on every input |
| `OracleTable.TestCases` | tests.js:5-17 | the table of expected conversions from 0 to 10, in table order; a constant, compared with the converters by `ConverterMatchesTableBelowTen`, `VariantsMatchTableBelowTen` and `ConvertersMissTen` |
| `OracleTable.SmallExpansions` | index.js:16-18 | the expansions of 0 to 4 are `""`, `"I"`, `"II"`, `"III"`, `"IIII"` |
| `OracleTable.ConverterMatchesTableBelowTen` | tests.js:5-15 | the nested converter returns the expected numeral for every table entry from 0 to 9 |
| `OracleTable.VariantsMatchTableBelowTen` | tests.js:5-15 | the composed and piped converters return the expected numeral for every table entry from 0 to 9 |
| `OracleTable.ConvertersMissTen` | tests.js:16 | all three converters return `"VIIIII"` for 10, which differs from the `"X"` the table expects |

## Left out

- Console output: `console.clear()` (index.js:3), the `test` helper's `console.log` report and its `assert`/`try`/`catch` (index.js:86-95), and the top-level demonstration calls (index.js:11, index.js:43-45). They are I/O and exception-driven reporting. Their expected values are stated as lemmas instead (`ImperativeIsReplicateIs`, `DemonstrationCalls`).
- The harness `executeTests` in tests.js: it prints a verdict per table entry and per converter. Only its table is used here, in `OracleTable`. JavaScript turns the table's keys into strings and `repeat` turns them back into numbers; that coercion is not modelled.
- RepeatI, ReplicateIs and the converters built on them: negative, non-integer, infinite and very large inputs are not modelled. `"I".repeat` throws a `RangeError` for a negative count, for `Infinity`, and for a count whose result would exceed the engine's maximum string length (about 2^29 characters in V8); it truncates a fractional count. `RepeatI`, `ReplicateIs` and the converters take a `nat` and return a string for every one, so these error paths and the string-length limit are outside the model's domain.
- The general regular-expression engine: `new RegExp(oldValue)` is modelled as a literal leftmost substring search, and the replacement as literal text. This is exact for the three rules, whose patterns contain no metacharacters and whose replacements contain no `$`.
- Characters are Dafny `char`s rather than UTF-16 code units; the rules only use ASCII letters.
- The further rules hinted at after the third rule (index.js:32) and an all-occurrences replacement: neither is in the code.
- Module and `require`/`export` plumbing.
