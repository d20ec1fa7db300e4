# Sentence-to-action translation of `run_test.py`

This project models the part of `run_test.py` that turns a free-text test
script, in English or Italian, into a list of structured steps. It models
it as pure Dafny functions and proves properties of them. The pipeline has
five parts:

- **The verb table (`ACTION_MAP`).** 22 verbs map onto six actions: click,
  fill, select, expect, goto and waitFor.
- **Variable substitution (`apply_variables`).** Every `{{ name }}`
  placeholder whose name is in the mapping is replaced by its value. Every
  other placeholder is left exactly as written.
- **Sentence splitting (`split_sentences`).**
  - The text is cut at every `.`, `!` and `?`.
  - Each piece is stripped of surrounding whitespace.
  - Empty pieces are dropped.
- **Step parsing (`parse_step`).**
  - The first whitespace-separated token, lower-cased, is looked up in the
    verb table.
  - The rest of the sentence goes through that action's extraction
    patterns: first match wins, else a `TODO` step that keeps the sentence
    verbatim.
  - A click never gives `TODO`. When neither its link pattern nor its
    button pattern matches, the whole remainder is a raw target.
- **Step lists (`parse_steps`).** Sentence splitting followed by one
  `parse_step` per sentence.

Modules, one file each:

| file | module | contents |
|---|---|---|
| `text.dfy` | `Text` | ASCII character classes, `str.strip`, the first token of `str.split`, case-insensitive keyword occurrence, the first and last occurrence of a keyword in a range |
| `actions.dfy` | `Actions` | the verb table and the lookup |
| `variables.dfy` | `Variables` | placeholder matching and substitution; templates (`Segment`) as the reference the substitution is proved against |
| `sentences.dfy` | `Sentences` | `re.split` on terminators, the stripped non-empty fragments |
| `patterns.dfy` | `Patterns` | the eight regular expressions, each as a hand-written anchored matcher; `re.search` as the leftmost position where the matcher succeeds; a declarative "occurs" predicate per pattern, with an if-and-only-if lemma tying the search to it |
| `parser.dfy` | `StepParser` | the `Step` datatype, `parse_step` and `parse_steps` |
| `scenarios.dfy` | `Scenarios` | worked sentences, one or more per action |

## How the regular expressions are modelled

Each pattern is a function that tries a match anchored at a position `p`.
`Search` takes the leftmost `p` at which that function succeeds, as
`re.search` does.

- **Greedy capture.** `(.+) X` ends at the last occurrence of `X` that
  still leaves room for what follows.
- **Lazy capture.** `(.+?) X` ends at the first such occurrence.
- **Optional prefixes.** `(?:on the )?`, `(?:that )?` and `(?:to )?` are
  tried first. When the rest of the pattern then fails, matching falls back
  to no prefix at the same position.
- **Case.** Keywords compare case-insensitively, by ASCII case folding.
  Captured text keeps its case.
- **Line feeds.**
  - The regex `.` does not match a line feed. So every capture stays on the
    line where it starts, and `LineEnd` gives the end of that line.
  - Only `.`, `!` and `?` cut a description, so a sentence can hold a line
    feed. No precondition excludes one: on such sentences the model does
    what the code does.

A few consequences of the code as written, proved here:

- **Link names.** Without the word `on`, the article stays in a link's
  name. "Click the Home link" clicks the link named "the Home"
  (`Scenarios.ClickTheHomeLink`).
- **Addresses with dots.** Sentence splitting cuts an address at its dot.
  "Go to https://example.com" gives a goto step to "https://example"
  followed by the TODO step "com" (`Scenarios.AddressSplitAtDot`).
- **Substitution twice.** Substituting a second time is not always a
  no-op. With `a` mapped to `b` and `b` to `c`, `{{{{a}}}}` becomes
  `{{b}}` and then `c` (`Variables.SubstitutionNotIdempotent`). It is a
  no-op for every description made of placeholders and brace-safe
  literal text, in which every `{` is followed by a character other than
  `{`, when every value is brace-safe too (`Variables.ApplyIdempotent`).
- **Cutting off the verb.**
  - `parse_step` cuts the verb off by length: `step[len(tokens[0]):]`. A
    step with leading whitespace would therefore lose characters other
    than its verb.
  - The model keeps that slice as written (`StepParser.Remainder`).
  - Every sentence that `split_sentences` produces is stripped, so there
    the slice removes exactly the verb (`StepParser.SentenceStartsWithVerb`).

## Model

| member | source | states |
|---|---|---|
| `Actions.ActionMap` | run_test.py:6-29 | the 22-verb table; its meaning is carried by `ActionMapIsSynonyms`, `SynonymsDisjoint`, `SynonymCounts` and `ActionMapSize` |
| `Actions.ActionMapIsSynonyms` | run_test.py:6-29 | a verb maps to an action exactly when it is one of that action's synonyms |
| `Actions.NamesDistinct` | run_test.py:6-29 | two actions have the same name exactly when they are the same action |
| `Actions.EveryActionHasAVerb` | run_test.py:6-29 | each of the six actions is named by at least one verb |
| `Actions.SynonymsDisjoint` | run_test.py:6-29 | no verb belongs to two actions |
| `Actions.KeysAreSynonyms` | run_test.py:6-29 | the table's verbs are exactly the union of the six synonym sets |
| `Actions.SynonymCounts` | run_test.py:6-29 | click, fill, select, expect, goto and waitFor have 4, 5, 2, 5, 4 and 2 verbs |
| `Actions.ActionMapSize` | run_test.py:6-29 | the table has 22 distinct verbs |
| `Actions.KeysAreLowerTokens` | run_test.py:6-29 | every verb is non-empty, lower case and free of whitespace, so a lower-cased token can reach it |
| `Actions.Lookup` | run_test.py:50-51 | `ACTION_MAP.get(verb.lower())`; `LookupIsTableEntry`, `LookupIsSynonym` and `LookupIgnoresCase` state what it gives |
| `Actions.LookupIsTableEntry` | run_test.py:50-51 | the lookup gives the table's entry for the lower-cased token, and nothing when the table has none |
| `Actions.LookupIsSynonym` | run_test.py:50-51 | the lookup gives an action exactly when the lower-cased token is one of its synonyms |
| `Actions.LookupIgnoresCase` | run_test.py:50-51 | tokens that agree up to letter case look up the same action |
| `Actions.NameIsNotTodo` | run_test.py:6-29 | no action in the table is named `TODO`, the entry of a step that performs nothing |
| `Actions.NotAVerb` | run_test.py:6-29 | a word that is no action's synonym is not in the table |
| `Variables.ApplyVariables` | run_test.py:32-37 | `re.sub` of every known placeholder; `ApplyCopiesChar`, `ApplySlotPrefix`, `ApplyLiteralPrefix` and `ApplyTemplate` state what it computes |
| `Variables.MatchPlaceholder` | run_test.py:37 | a match of `{{\s*(\w+)\s*}}` at the front is a placeholder text with blank padding around a word-character name, at least five characters long |
| `Variables.MatchSlot` | run_test.py:37 | the pattern matches every well-formed placeholder, whatever follows it, and captures its name |
| `Variables.EmptyMappingIdentity` | run_test.py:32-37 | with an empty mapping the text comes back unchanged |
| `Variables.ApplyCopiesChar` | run_test.py:37 | a character other than `{`, or a `{` not followed by `{`, is copied and substitution goes on after it |
| `Variables.ApplyLiteralPrefix` | run_test.py:37 | literal text in which every `{` is followed by a character other than `{` (such as `Type {name} here`) is copied unchanged, whatever follows it |
| `Variables.ApplySlotPrefix` | run_test.py:34-37 | a placeholder at the front is replaced by its value when its name is known and kept verbatim otherwise; substitution resumes right after it |
| `Variables.ApplyTemplate` | run_test.py:32-37 | on every description made of placeholders and brace-safe literal text (stray braces as in `Type {name} here`, `a { b` or `{x}` included), substitution equals the reference expansion: known names replaced, unknown placeholders kept with their braces, literals copied |
| `Variables.ApplyOnePlaceholder` | run_test.py:34-37 | a lone placeholder becomes its value, or stays as written when its name is unknown |
| `Variables.Resolve` | run_test.py:32-37 | resolving known placeholders keeps the number of segments; with `ExpandIsResolved`, the substitution is the text of the resolved template |
| `Variables.ExpandIsResolved` | run_test.py:32-37 | the expansion is the text of the resolved template, and that template expands to itself |
| `Variables.ResolveWellFormed` | run_test.py:32-37 | resolving keeps a template well formed when every value is brace-safe |
| `Variables.ApplyIdempotent` | run_test.py:32-37 | substituting twice equals substituting once on such templates when every value is brace-safe |
| `Variables.ApplyBraceBeforePlaceholderStart` | run_test.py:37 | a `{` before `{{` starts no match and is copied |
| `Variables.ApplyBraced` | run_test.py:37 | in `{{{{k}}}}` the outer braces are copied and the inner placeholder substituted |
| `Variables.SubstitutionNotIdempotent` | run_test.py:32-37 | without the template condition a second pass can change the text again, even with brace-free values |
| `Sentences.SplitPieces` | run_test.py:42 | `re.split` gives at least one piece and no piece holds a terminator |
| `Sentences.PiecesOfPlain` | run_test.py:42 | text without terminators is one piece |
| `Sentences.PiecesAppend` | run_test.py:42 | splitting at a terminator concatenates the pieces of both sides |
| `Sentences.Fragments` | run_test.py:42 | the kept fragments are non-empty and equal to their own strip |
| `Sentences.FragmentsAppend` | run_test.py:42 | fragment selection distributes over concatenation |
| `Sentences.FragmentsKeepNoTerminator` | run_test.py:42 | stripping and filtering introduce no terminator |
| `Sentences.SplitSentences` | run_test.py:40-42 | every sentence is non-empty, stripped and free of `.`, `!`, `?` |
| `Sentences.SentencesOfPlain` | run_test.py:40-42 | text without terminators gives `[]` when blank and `[text.strip()]` otherwise |
| `Sentences.SentencesAppend` | run_test.py:40-42 | the sentences of text cut at a terminator are those of the part before followed by those of the part after |
| `Sentences.FirstTerminator` | run_test.py:42 | finds the first terminator, with none before it, or reports that there is none |
| `Sentences.NoSentencesIff` | run_test.py:40-42 | no sentence results exactly when the text is made of whitespace and terminators only |
| `Text.LowerStrFolds` | run_test.py:50 | lower-casing leaves no upper-case letter, so lowering twice is lowering once |
| `Text.Strip` | run_test.py:42 | `strip()` is the piece after the leading whitespace with only whitespace after it, empty exactly for blank input, otherwise beginning and ending with non-whitespace |
| `Text.StripChars` | run_test.py:42 | every character of the stripped text is a character of the input |
| `Text.StripStripped` | run_test.py:42 | already stripped text is its own strip |
| `Text.StripIndented` | run_test.py:54 | blank text followed by stripped text strips to the stripped text |
| `Text.FirstToken` | run_test.py:47-50 | `split()[0]` is empty exactly for blank input, holds no whitespace, follows only whitespace and ends at whitespace or at the end |
| `Text.FirstTokenIs` | run_test.py:47-50 | the non-whitespace run a string opens with is its first token |
| `Text.FirstTokenIsPrefix` | run_test.py:54 | a stripped non-blank string begins with its first token |
| `Text.LineEnd` | run_test.py:57 | the end of the line that the regex `.` can reach from a position |
| `Text.LastLit` | run_test.py:57 | the last occurrence of a keyword in a range, or the absence of any, which is where a greedy capture stops |
| `Text.FirstLit` | run_test.py:93 | the first occurrence of a keyword in a range, or the absence of any, which is where a lazy capture stops |
| `Text.LitAtLower` | run_test.py:57 | a keyword occurs at a position exactly when the lower-cased text there equals it, which is how `re.IGNORECASE` compares |
| `Text.LastLitMeaning` | run_test.py:57 | the last occurrence has no occurrence after it in the range, and no occurrence at all is reported only when there is none |
| `Text.FirstLitMeaning` | run_test.py:93 | the first occurrence has no occurrence before it in the range, and no occurrence at all is reported only when there is none |
| `Patterns.Leftmost` | run_test.py:57 | the scan over positions behind `re.search`; `LeftmostFirst` and `SearchFrom` state its result |
| `Patterns.Search` | run_test.py:57 | `re.search` with one pattern's anchored matcher; `SearchWitness`, `SearchFirst` and `SearchFrom` state its result |
| `Patterns.LeftmostFirst` | run_test.py:57 | `re.search` returns the leftmost position where the pattern matches, and fails only when it matches nowhere |
| `Patterns.SearchFrom` | run_test.py:57 | a pattern that matches at some position makes `re.search` succeed |
| `Patterns.SearchWitness` | run_test.py:57 | a successful `re.search` returns what the pattern captures at some position |
| `Patterns.SearchFirst` | run_test.py:57 | a match with none before it is what `re.search` returns |
| `Patterns.GreedyBefore` | run_test.py:57 | `(.+) X` captures a non-empty single-line text ending at the last `X` on the line |
| `Patterns.LinkAt` | run_test.py:57 | the link pattern anchored at a position; `LinkAtWitness`, `LinkSearch`, `LinkParts` and `LinkBare` state what it captures |
| `Patterns.LinkSearch` | run_test.py:57 | the link pattern matches exactly when ` link` follows some character on its line |
| `Patterns.LinkAtWitness` | run_test.py:57 | a match of the link pattern at any position means ` link` follows some character on its line |
| `Patterns.LinkParts` | run_test.py:57 | `on the N link` on one line captures exactly N |
| `Patterns.LinkBare` | run_test.py:57 | `N link` on one line, with N not beginning with `o` or `O`, captures N whole |
| `Patterns.ButtonAt` | run_test.py:60 | the button pattern anchored at a position; `ButtonAtWitness`, `ButtonSearch` and `ButtonParts` state what it captures |
| `Patterns.ButtonSearch` | run_test.py:60 | the button pattern matches exactly when `the ` and a later ` button` occur on one line with a character between them |
| `Patterns.ButtonAtWitness` | run_test.py:60 | a match of the button pattern at any position means `the ` and a later ` button` occur on one line with a character between them |
| `Patterns.ButtonParts` | run_test.py:60 | `the N button` on one line captures exactly N |
| `Patterns.FieldAt` | run_test.py:66 | `the (.+) <keyword> (.+)` anchored at a position; `FieldAtFound`, `FieldAtAbsent` and `FieldSomewhere` state what it captures |
| `Patterns.FieldWithAt` | run_test.py:66 | the input-field pattern; `FieldWithParts` and `FieldWithSearch` state what it captures |
| `Patterns.TextareaWithAt` | run_test.py:73 | the textarea pattern; `TextareaWithSearch` states when it matches |
| `Patterns.FieldAtFound` | run_test.py:66 | a match of `the (.+) field with (.+)` is `the `, a non-empty name, the keyword and a non-empty value running to the end of the line, with no later keyword on the line that leaves a value |
| `Patterns.FieldAtAbsent` | run_test.py:66 | the pattern fails at a position only when `the ` is not there or no keyword on its line leaves room for a name and a value |
| `Patterns.FieldSomewhere` | run_test.py:66 | the field pattern matches at some position exactly when `the N <keyword> V` occurs on one line |
| `Patterns.FieldWithParts` | run_test.py:66 | `the N field with V`, with a one-line name and a value without spaces, captures exactly N and V |
| `Patterns.FieldWithSearch` | run_test.py:66 | the input-field pattern matches exactly when `the N field with V` occurs on one line |
| `Patterns.TextareaWithSearch` | run_test.py:73 | the textarea pattern matches exactly when `the N textarea with V` occurs on one line |
| `Patterns.SelectAt` | run_test.py:83 | the dropdown pattern anchored at a position; `SelectAtFound`, `SelectAtAbsent`, `SelectParts` and `SelectSearch` state what it captures |
| `Patterns.SelectAtFound` | run_test.py:83 | a match of `(.+) from the (.+) dropdown` is a non-empty option, ` from the `, a non-empty name and ` dropdown` on one line, the name ending at the last ` dropdown` and the option at the last ` from the ` before it |
| `Patterns.SelectAtAbsent` | run_test.py:83 | the pattern fails at a position only when no ` from the ` is followed on its line by ` dropdown` |
| `Patterns.SelectParts` | run_test.py:83 | `O from the N dropdown`, with a one-line option and a name without spaces, captures exactly O and N |
| `Patterns.SelectSearch` | run_test.py:83 | the select pattern matches exactly when `O from the N dropdown` occurs on one line |
| `Patterns.ContainsAt` | run_test.py:93 | `(.+?) contains '(.+)'` anchored at a position; `ContainsAtFound` and `ContainsAtAbsent` state what it captures |
| `Patterns.ExpectAt` | run_test.py:93 | the expect pattern with its optional `that `; `ExpectAtWitness`, `ExpectParts` and `ExpectSearch` state what it captures |
| `Patterns.ContainsAtFound` | run_test.py:93 | a match of `(.+?) contains '(.+)'` is a non-empty target ending at the first ` contains '`, a non-empty value and the last quote on the line |
| `Patterns.ContainsAtAbsent` | run_test.py:93 | the pattern fails at a position only when no ` contains '` is followed on its line by a quote |
| `Patterns.ExpectParts` | run_test.py:93 | `that T contains 'V'`, with a quote-free one-line target and a one-line value, captures exactly T and V |
| `Patterns.ExpectAtWitness` | run_test.py:93 | a match of the expect pattern at any position means `T contains 'V'` occurs on one line |
| `Patterns.ExpectSearch` | run_test.py:93 | the expect pattern matches exactly when `T contains 'V'` occurs on one line |
| `Patterns.RestOfLine` | run_test.py:99 | `(.+)` captures the non-empty rest of the line and fails only on an empty one |
| `Patterns.GotoAt` | run_test.py:99 | the goto pattern with its optional `to `; `GotoSearch` and `GotoWholeLine` state what it captures |
| `Patterns.GotoSearch` | run_test.py:99 | the goto pattern matches exactly when some character is not a line feed |
| `Patterns.GotoWholeLine` | run_test.py:99 | on one line the destination is the whole remainder, less a leading `to ` when something follows it |
| `Patterns.DigitsAt` | run_test.py:105 | `(\d+)` at a digit captures the maximal run of digits there, and fails elsewhere |
| `Patterns.DigitSearch` | run_test.py:105 | the digit pattern matches exactly when the text holds a digit |
| `Patterns.FirstDigitRun` | run_test.py:105 | the match is the digit run starting at the first digit |
| `Patterns.DecimalValue` | run_test.py:107 | `int()` of a digit run; `DecimalValueOfNumeral` and `LeadingZeros` state its value |
| `Patterns.DecimalValueOfNumeral` | run_test.py:107 | `int()` of a number's decimal numeral is that number |
| `Patterns.LeadingZeros` | run_test.py:107 | leading zeros do not change the value `int()` reads |
| `StepParser.Verb` | run_test.py:47-53 | the action of the lower-cased first token, or none for blank input; `UnknownIsTodo` and `VerbThenRest` state it |
| `StepParser.Remainder` | run_test.py:54 | `step[len(tokens[0]):].strip()`; `VerbThenRest` and `SentenceStartsWithVerb` state that on a sentence it is the text after the verb |
| `StepParser.ParseClick` | run_test.py:56-63 | a click sentence always gives a click step |
| `StepParser.ParseFill` | run_test.py:65-80 | a fill sentence gives a fill step or TODO with the sentence |
| `StepParser.ParseSelect` | run_test.py:82-90 | a select sentence gives a select step or TODO with the sentence |
| `StepParser.ParseExpect` | run_test.py:92-96 | an expect sentence gives an expect step or TODO with the sentence |
| `StepParser.ParseGoto` | run_test.py:98-102 | a goto sentence gives a goto step or TODO with the sentence |
| `StepParser.ParseWait` | run_test.py:104-108 | a wait sentence gives a wait step or TODO with the sentence |
| `StepParser.ClickCases` | run_test.py:56-63 | link role exactly when the link pattern occurs; button role exactly when only the button pattern does; otherwise the raw remainder |
| `StepParser.FillCases` | run_test.py:65-80 | input field exactly when `field with` occurs; textarea exactly when only `textarea with` does; otherwise TODO |
| `StepParser.SelectCases` | run_test.py:82-90 | a select step exactly when the dropdown pattern occurs, otherwise TODO |
| `StepParser.ExpectCases` | run_test.py:92-96 | an expect step exactly when the contains pattern occurs, otherwise TODO |
| `StepParser.GotoCases` | run_test.py:98-102 | TODO exactly when the remainder is empty; on one line the destination is the remainder without a leading `to ` |
| `StepParser.WaitCases` | run_test.py:104-108 | TODO exactly when the remainder has no digit |
| `StepParser.WaitNumeral` | run_test.py:104-108 | the seconds are the number written by the first run of digits |
| `StepParser.Extract` | run_test.py:56-108 | the patterns give a step of the sentence's action, or TODO with the sentence, and never TODO for a click |
| `StepParser.ParseStep` | run_test.py:45-110 | TODO keeps the sentence verbatim; no known verb gives TODO; a non-TODO step performs the verb's action; a click verb never gives TODO |
| `StepParser.ActionFieldMeaning` | run_test.py:45-110 | a step's `"action"` entry is `TODO` exactly for a TODO step, and otherwise the name of the action it performs |
| `StepParser.ActionFieldOfStep` | run_test.py:45-110 | the `"action"` entry of a parsed sentence is `TODO` exactly when it is a TODO step, and otherwise the table's name of the sentence's verb |
| `StepParser.ActionFieldIdentifies` | run_test.py:45-110 | two steps have the same `"action"` entry exactly when they perform the same action, or are both TODO |
| `StepParser.UnknownIsTodo` | run_test.py:47-53 | a blank sentence, or one whose lower-cased first token is not in the table, gives TODO with the sentence verbatim |
| `StepParser.VerbThenRest` | run_test.py:47-54 | for a verb, a space and a stripped rest, the verb is the first token and the rest is the remainder |
| `StepParser.GotoSteps` | run_test.py:98-102 | a goto sentence is TODO exactly when nothing follows its verb |
| `StepParser.StepsOf` | run_test.py:115 | one step per sentence, the i-th being `parse_step` of the i-th sentence |
| `StepParser.StepsOfAppend` | run_test.py:115 | the steps of concatenated sentence lists are concatenated |
| `StepParser.ParseSteps` | run_test.py:113-115 | as many steps as sentences, in order; every TODO carries a non-empty, stripped, terminator-free sentence |
| `StepParser.SentenceStartsWithVerb` | run_test.py:54 | every sentence begins with its first token, so cutting that many characters removes exactly the verb |
| `StepParser.ParseStepsAppend` | run_test.py:113-115 | cutting the description at a terminator cuts the step list there |
| `StepParser.NoStepsIff` | run_test.py:113-115 | no step results exactly when the description is whitespace and terminators only |
| `StepParser.OneSentence` | run_test.py:113-115 | a non-blank description without terminators is the one step of its stripped text |
| `StepParser.ParseStepsTerminated` | run_test.py:113-115 | a stripped sentence without terminators, closed by one terminator, is a description of exactly its own step |
| `Scenarios.ClickLoginButton` | run_test.py:60-62 | "Click the Login button" clicks the button named "Login" |
| `Scenarios.ClickLoginButtonSteps` | run_test.py:113-115 | the description "Click the Login button." is the one step clicking the button named "Login" |
| `Scenarios.ClickOnTheHomeLink` | run_test.py:57-59 | "Click on the Home link" clicks the link named "Home" |
| `Scenarios.ClickTheHomeLink` | run_test.py:57-59 | "Click the Home link" clicks the link named "the Home" |
| `Scenarios.FillUsername` | run_test.py:66-72 | "Fill the username field with admin" fills the input "username" with "admin" |
| `Scenarios.SelectGold` | run_test.py:83-89 | "Select Gold from the plan dropdown" selects "Gold" in the dropdown "plan" |
| `Scenarios.VerifyWelcome` | run_test.py:93-95 | "Verify that the page contains 'Welcome'" expects "Welcome" in "the page" |
| `Scenarios.GoToAddress` | run_test.py:98-101 | a navigation verb, `to ` and a one-line address give a goto step to that address |
| `Scenarios.GotoSentence` | run_test.py:47-54 | a navigation verb followed by a space and a stripped rest hands that rest to the goto pattern |
| `Scenarios.GoToLogin` | run_test.py:98-101 | "Go to https://example.com/login" goes to that address |
| `Scenarios.WaitSeconds` | run_test.py:104-107 | a waiting verb followed by a number waits that many seconds |
| `Scenarios.WaitFive` | run_test.py:104-107 | "Wait 5" waits five seconds |
| `Scenarios.AspettaFive` | run_test.py:104-107 | "Aspetta 5" waits five seconds |
| `Scenarios.FrobnicateIsTodo` | run_test.py:51-53 | "Frobnicate", a space and any text at all gives TODO with the sentence verbatim |
| `Scenarios.FrobnicateSteps` | run_test.py:113-115 | the description "Frobnicate the widget." is the one TODO step "Frobnicate the widget" |
| `Scenarios.UnknownWord` | run_test.py:51-53 | a single word that is not a verb gives TODO |
| `Scenarios.GotoDescription` | run_test.py:113-115 | a navigation sentence without terminators is a description of one goto step |
| `Scenarios.SingleStep` | run_test.py:113-115 | a stripped text without terminators is a description of the one step it parses to |
| `Scenarios.TerminatedSentence` | run_test.py:113-115 | a verb, a space and a stripped terminator-free rest, closed by one terminator, is a description of the one step of the sentence without it |
| `Scenarios.GoToHost` | run_test.py:113-115 | "Go to https://example" is a description of one goto step to that address |
| `Scenarios.DomainIsTodo` | run_test.py:51-53 | "com" on its own is a description of one TODO step |
| `Scenarios.AddressSplitAtDot` | run_test.py:42 | "Go to https://example.com" gives a goto step to "https://example" and the TODO step "com" |

## Left out

- `execute_step` (run_test.py:118-159) is not part of this model. It hands steps to the Playwright browser library, which is foreign code.
- `run_test` (run_test.py:162-172) is not part of this model. It launches a browser and manages the page's lifecycle.
- `main` and the `__main__` block (run_test.py:175-186) are not part of this model. They do file I/O, JSON loading, command-line arguments and process exit.
- Unicode: whitespace is Python's `isspace` among the first 128 code points. `\w` and `\d` are their ASCII classes. Case folding, for `lower()` and for `re.IGNORECASE`, is ASCII only.
- `Variables.ApplyVariables`: values are strings. The `str()` conversion of other value types (run_test.py:36) is not modelled.
- No general regular-expression engine: only the eight fixed patterns are modelled, each as its own matcher.
- `StepParser.ParseStep`: the final `TODO` fallback (run_test.py:110) cannot be reached, because every action in the table has its own branch. The closed `Action` datatype makes that match exhaustive, so the line has no counterpart.
- `Variables.ApplyTemplate`: literal text holding `{{` where no placeholder follows (`{{ }}`, `{{a`), or ending in `{`, is not a template literal. Substitution on such text is given only by `Variables.ApplyVariables` itself, step by step, with no statement against the reference expansion.
- `StepParser.ParseWait`: `int()` of the digit run is modelled as exact for any length. On Python 3.11 and later, `int()` raises `ValueError` for a string of more than 4300 digits by default, and the error leaves `parse_steps`. The model gives a wait step there instead.
- `Actions.Lookup`: it is evaluated through the six synonym sets, not the 22-entry map. `Actions.LookupIsTableEntry` proves it equal to the map lookup.
