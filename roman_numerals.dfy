/** The decimal to "Roman-like" numeral converter: a unary expansion into `I`s
    followed by curried, partially applied substitution rules, assembled three
    ways (nested calls, `compose`, `pipe`).

    `replace(oldValue, newValue)` builds `new RegExp(oldValue)` without the
    global flag, so the substitution rewrites only the LEFTMOST occurrence of
    the pattern. The patterns used are literal (no metacharacters) and the
    replacements hold no `$`, so the substitution is modelled as a literal
    leftmost search-and-replace.
 */
module RomanNumerals {
  import Pipeline

  datatype Option<T> = None | Some(value: T)

  // ---------------------------------------------------------------------
  // Leftmost literal substitution (`String.prototype.replace` with a
  // non-global, metacharacter-free RegExp)
  // ---------------------------------------------------------------------

  /** `pattern` occurs in `s` starting at index `i`. */
  predicate Occurs(pattern: string, s: string, i: nat) {
    i + |pattern| <= |s| && s[i..i + |pattern|] == pattern
  }

  /** `i` is the leftmost occurrence of `pattern` in `s`. */
  predicate IsLeftmost(pattern: string, s: string, i: nat) {
    Occurs(pattern, s, i) && forall j: nat :: j < i ==> !Occurs(pattern, s, j)
  }

  /** The first index at or after `from` where `pattern` occurs in `s`, if any. */
  function FindFrom(pattern: string, s: string, from: nat): (r: Option<nat>)
    ensures r.Some? ==> from <= r.value && Occurs(pattern, s, r.value)
    ensures r.Some? ==> forall j: nat :: from <= j < r.value ==> !Occurs(pattern, s, j)
    ensures r.None? ==> forall j: nat :: from <= j ==> !Occurs(pattern, s, j)
    decreases |s| - from
  {
    if from + |pattern| > |s| then None
    else if s[from..from + |pattern|] == pattern then Some(from)
    else FindFrom(pattern, s, from + 1)
  }

  /** `s.replace(new RegExp(pattern), replacement)`: the leftmost occurrence
      of `pattern` is replaced; without one, `s` comes back unchanged. */
  function ReplaceLeftmost(s: string, pattern: string, replacement: string): (t: string)
    ensures (forall i: nat :: !Occurs(pattern, s, i)) ==> t == s
    ensures forall i: nat :: IsLeftmost(pattern, s, i) ==>
      t == s[..i] + replacement + s[i + |pattern|..]
    ensures (exists i: nat :: Occurs(pattern, s, i)) ==>
      |t| == |s| - |pattern| + |replacement|
  {
    match FindFrom(pattern, s, 0)
    case None => s
    case Some(i) => s[..i] + replacement + s[i + |pattern|..]
  }

  /** `replace(oldValue, newValue)`: the curried substitution. The returned
      one-argument transformer is total and performs the leftmost replacement. */
  function Replace(oldValue: string, newValue: string): (rule: string -> string)
    ensures forall s :: rule(s) == ReplaceLeftmost(s, oldValue, newValue)
  {
    inputStr => ReplaceLeftmost(inputStr, oldValue, newValue)
  }

  /** A transformer built by `Replace` leaves alone every string in which its
      pattern does not occur. */
  lemma ReplaceWithoutOccurrence(oldValue: string, newValue: string, s: string)
    requires forall i: nat :: !Occurs(oldValue, s, i)
    ensures Replace(oldValue, newValue)(s) == s
  {
  }

  /** A transformer built by `Replace` rewrites only the leftmost occurrence:
      the text before it and the text after it are kept, and the length
      changes by the difference of the two lengths. */
  lemma ReplaceOnlyLeftmost(oldValue: string, newValue: string, s: string, i: nat)
    requires IsLeftmost(oldValue, s, i)
    ensures var t := Replace(oldValue, newValue)(s);
      && t[..i] == s[..i]
      && t[i..i + |newValue|] == newValue
      && t[i + |newValue|..] == s[i + |oldValue|..]
      && |t| == |s| - |oldValue| + |newValue|
  {
  }

  /** When a character of the pattern is missing from `s`, the pattern does
      not occur in `s`. */
  lemma NoOccurrenceWithoutChar(pattern: string, s: string, c: char)
    requires c in pattern && c !in s
    ensures forall i: nat :: !Occurs(pattern, s, i)
  {
    var k :| 0 <= k < |pattern| && pattern[k] == c;
    forall i: nat ensures !Occurs(pattern, s, i) {
      if i + |pattern| <= |s| {
        assert s[i..i + |pattern|][k] == s[i + k] != c;
      }
    }
  }

  // ---------------------------------------------------------------------
  // Unary expansion
  // ---------------------------------------------------------------------

  /** `"I".repeat(count)`. A negative count, `Infinity` and a count beyond
      the engine's maximum string length throw in the source and are outside
      the model's domain. */
  function RepeatI(count: nat): (s: string)
    ensures |s| == count
    ensures forall i :: 0 <= i < |s| ==> s[i] == 'I'
  {
    if count == 0 then "" else "I" + RepeatI(count - 1)
  }

  /** A string made only of `I`s is the expansion of its own length. */
  lemma {:induction false} OnlyIs(s: string)
    requires forall i :: 0 <= i < |s| ==> s[i] == 'I'
    ensures s == RepeatI(|s|)
  {
    var e := RepeatI(|s|);
    assert forall i :: 0 <= i < |s| ==> s[i] == e[i];
  }

  /** `replicateIs(howMany)`: exactly `howMany` copies of `I`. */
  function ReplicateIs(howMany: nat): (s: string)
    ensures |s| == howMany
    ensures forall i :: 0 <= i < |s| ==> s[i] == 'I'
  {
    RepeatI(howMany)
  }

  /** `decimaltoRomanNumeral_IMPERATIVE(decimal)`: only the unary expansion,
      through one local binding. */
  function DecimalToRomanNumeralImperative(decimal: nat): (romanNumeral: string)
    ensures |romanNumeral| == decimal
    ensures forall i :: 0 <= i < |romanNumeral| ==> romanNumeral[i] == 'I'
  {
    var romanNumeral := RepeatI(decimal);
    romanNumeral
  }

  /** The imperative variant is `replicateIs`, and gives `"II"` for 2. */
  lemma ImperativeIsReplicateIs(decimal: nat)
    ensures DecimalToRomanNumeralImperative(decimal) == ReplicateIs(decimal)
    ensures DecimalToRomanNumeralImperative(2) == "II"
  {
  }

  // ---------------------------------------------------------------------
  // The partially applied rules
  // ---------------------------------------------------------------------

  const ReplaceIIIIIWithV: string -> string := Replace("IIIII", "V")
  const ReplaceVVWithX: string -> string := Replace("VV", "X")
  const ReplaceXXXXXWithL: string -> string := Replace("XXXXX", "L")

  /** The closed form of the first rule's output on an expansion: the
      expansion itself below five, otherwise `V` followed by the rest in `I`s. */
  function Collapsed(decimal: nat): string {
    if decimal < 5 then ReplicateIs(decimal) else "V" + ReplicateIs(decimal - 5)
  }

  /** The `IIIII -> V` rule fires once at most: below five `I`s it does
      nothing, otherwise the first five `I`s become one `V`. */
  lemma {:induction false} FirstRuleOnExpansion(decimal: nat)
    ensures ReplaceIIIIIWithV(ReplicateIs(decimal)) == Collapsed(decimal)
  {
    var s := ReplicateIs(decimal);
    if decimal < 5 {
      forall i: nat ensures !Occurs("IIIII", s, i) {
      }
      ReplaceWithoutOccurrence("IIIII", "V", s);
    } else {
      assert s[0..5] == "IIIII";
      assert IsLeftmost("IIIII", s, 0);
      ReplaceOnlyLeftmost("IIIII", "V", s, 0);
      OnlyIs(s[5..]);
    }
  }

  /** Strings after the first rule hold no `VV`: a `V` can stand only first. */
  lemma {:induction false} NoVVAfterFirstRule(decimal: nat)
    ensures forall i: nat :: !Occurs("VV", Collapsed(decimal), i)
  {
    var w := Collapsed(decimal);
    assert forall j :: 1 <= j < |w| ==> w[j] == 'I';
    forall i: nat ensures !Occurs("VV", w, i) {
      if i + 2 <= |w| {
        assert w[i..i + 2][1] == w[i + 1] == 'I';
      }
    }
  }

  /** Strings after the first rule hold no `X` at all. */
  lemma {:induction false} NoXAfterFirstRule(decimal: nat)
    ensures forall i: nat :: !Occurs("XXXXX", Collapsed(decimal), i)
  {
    assert 'X' in "XXXXX";
    NoOccurrenceWithoutChar("XXXXX", Collapsed(decimal), 'X');
  }

  /** The `VV -> X` and `XXXXX -> L` rules never change an output of the
      `IIIII -> V` rule applied to an expansion. */
  lemma {:induction false} LaterRulesAreNoOps(decimal: nat)
    ensures var w := ReplaceIIIIIWithV(ReplicateIs(decimal));
      ReplaceVVWithX(w) == w && ReplaceXXXXXWithL(w) == w
  {
    FirstRuleOnExpansion(decimal);
    NoVVAfterFirstRule(decimal);
    NoXAfterFirstRule(decimal);
    ReplaceWithoutOccurrence("VV", "X", Collapsed(decimal));
    ReplaceWithoutOccurrence("XXXXX", "L", Collapsed(decimal));
  }

  // ---------------------------------------------------------------------
  // The three converters
  // ---------------------------------------------------------------------

  /** `decimaltoRomanNumeral(decimal)`: the nested calls. Below five the
      result is the expansion; from five on it is `V` followed by
      `decimal - 5` copies of `I` (no later rule ever fires). */
  function DecimalToRomanNumeral(decimal: nat): (numeral: string)
    ensures decimal < 5 ==> numeral == ReplicateIs(decimal)
    ensures decimal >= 5 ==> numeral == "V" + ReplicateIs(decimal - 5)
  {
    LaterRulesAreNoOps(decimal);
    FirstRuleOnExpansion(decimal);
    ReplaceXXXXXWithL(ReplaceVVWithX(ReplaceIIIIIWithV(ReplicateIs(decimal))))
  }

  /** The converter's output uses only `I` and `V`, is never longer than the
      input value, and is exactly four shorter from five on. */
  lemma {:induction false} OutputShape(decimal: nat)
    ensures var numeral := DecimalToRomanNumeral(decimal);
      && (forall i :: 0 <= i < |numeral| ==> numeral[i] == 'I' || numeral[i] == 'V')
      && |numeral| <= decimal
      && |numeral| == (if decimal < 5 then decimal else decimal - 4)
  {
    var numeral := DecimalToRomanNumeral(decimal);
    if decimal >= 5 {
      var rest := ReplicateIs(decimal - 5);
      assert numeral == "V" + rest;
      assert forall i :: 1 <= i < |numeral| ==> numeral[i] == rest[i - 1];
    }
  }

  /** The rule list in `compose` order: last rule first. */
  const ComposedRules: seq<string -> string> := [ReplaceXXXXXWithL, ReplaceVVWithX, ReplaceIIIIIWithV]

  /** The rule list in `pipe` order: first rule first. */
  const PipedRules: seq<string -> string> := [ReplaceIIIIIWithV, ReplaceVVWithX, ReplaceXXXXXWithL]

  /** `decimaltoRomanNumeral_2`: `compose(rules..., replicateIs)`. `reduceRight`
      calls `replicateIs` first, so the string rules fold over its result. */
  function DecimalToRomanNumeral2(decimal: nat): (numeral: string)
    ensures numeral == DecimalToRomanNumeral(decimal)
  {
    var s := ReplicateIs(decimal);
    assert Pipeline.Nested([ReplaceIIIIIWithV], s) == ReplaceIIIIIWithV(s);
    assert Pipeline.Nested([ReplaceVVWithX, ReplaceIIIIIWithV], s)
        == ReplaceVVWithX(ReplaceIIIIIWithV(s));
    assert Pipeline.Nested(ComposedRules, s)
        == ReplaceXXXXXWithL(ReplaceVVWithX(ReplaceIIIIIWithV(s)));
    Pipeline.Compose(ComposedRules)(s)
  }

  /** `decimaltoRomanNumeral_3`: `pipe(replicateIs, rules...)`. `reduce`
      calls `replicateIs` first, so the string rules fold over its result. */
  function DecimalToRomanNumeral3(decimal: nat): (numeral: string)
    ensures numeral == DecimalToRomanNumeral(decimal)
  {
    var s := ReplicateIs(decimal);
    assert Pipeline.Reversed(PipedRules) == ComposedRules;
    assert Pipeline.Compose(ComposedRules)(s) == DecimalToRomanNumeral2(decimal);
    Pipeline.Pipe(PipedRules)(s)
  }

  /** The demonstration calls: 2, 5 and 6 give `"II"`, `"V"` and `"VI"`. */
  lemma {:induction false} DemonstrationCalls()
    ensures DecimalToRomanNumeral(2) == "II"
    ensures DecimalToRomanNumeral(5) == "V"
    ensures DecimalToRomanNumeral(6) == "VI"
  {
  }
}
