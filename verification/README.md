# control-translation: a verified model

The control-translation service turns a proven mitigation pattern into a rule
for a target control, and labels the rule "equivalent" or "narrower". This
project models the parts of the service on which that label and the durability
of its results rest, and proves what they keep.

- **The ModSecurity-to-Akamai compiler** (`RegexSyntax`, `RegexReading`,
  `RegexSemantics`, `Expansion`, `InlineFlags`, `RegexTranslator`, `RegexTranslation`,
  `Wildcards`, `TranslationMeaning`, `Fidelity`, `TranslationTheorems`,
  `EmittedMeaning`, `OptionalDots`, `OneBranch`, `ClassBranches`, `EdgeAnchors`, `WildcardRungs`,
  `TranslationLimits`, `PercentEncoding`, `Tokenizer`, `Operators`,
  `RuleCompiler`, `RulePlaces`, `LetterCase`, `RuleExactness`, `GateTables`, `ShapeGate`). The cursor-style translator is
  proved to be "read a tree, expand it, render it". The tree has a backtracking
  semantics of its own, possessive quantifiers and anchors included, and a
  wildcard value has a glob semantics; the theorems compare the two on every
  text and every string. `EmittedExactly` says without side conditions what
  the emitted values match; `NeverMisses`, `NeverAdds` and `Exactness` compare
  that with the source under conditions on the text; `OneBranchExactly`,
  `ClassBranchExactly`, `AnchorsExactly` and `WildcardRungsExactly` give
  conditions both ways; `EquivalentRule` and `OneDirectiveExactly` carry the
  label from values to whole rules, to what part of the request each condition
  inspects, letter case and encodings included; and
  `TranslationLimits` holds an accepted text for each way the label goes wrong.
- **The durable queue, its worker and the result table** (`LeaseRows`,
  `LeaseProtocol`, `LeaseTheorems`, `LeaseStuck`, `LeaseResults`,
  `LeaseLimits`, `LeaseWorker`, `Timestamps`, `Calendar`). A transition system interleaves submitters, workers,
  heartbeats, cancellations, crashes and the clock statement by statement; the
  stores and the worker loop are classes and methods whose statements are the
  same functions on rows. Times are texts, written by the clock in microseconds
  since the epoch and compared as texts.
- **The shared-contract v2 verifier and planner** (`Coverage`,
  `BypassAccounting`, `PathSegments`, `WafConditions`, `WafGate`, `WafRules`, `WafRoutes`,
  `WafDocuments`, `WafPlan`). Two graph walks, the work accounting, and the
  translation of Boolean alternatives into an OR of AND rules.
- **The lineage resolver** (`Lineage`), over JSON values as trees (`Json`).

Verify everything with `dafny verify dfyconfig.toml`.

## Where the code and its documentation differ

The model follows the code. Each difference is a lemma.

- An exhausted run does not always end as a terminal failure
  (go-api/internal/httpapi/worker.go:24-25): a crash on the last attempt, or a
  lost statement after it, leaves the row `running` (`CrashOnLastAttempt`,
  `LostFailureOnLastAttempt`). `StuckExactly` says which running rows can still
  change without being canceled.
- A retry can leave a second result row (go-api/internal/httpapi/worker.go:27-30):
  result ids are drawn afresh for each attempt
  (go-api/internal/capability/capability.go:257-258), so the merge key differs
  (`TwoResultsForOneRun`). `TwoResultsMeanLoss` says when.
- A canceled run can go back to the queue, because the failure statement is
  fenced by the run id alone (`CanceledIsRequeued`); `TerminalStates` shows that
  this is the only way out of a terminal state under the single worker.
- The label "equivalent" is not always right: `.?`, possessive markers, signed
  hexadecimal escapes, `\v`, anchors beside an alternation, escaped class brackets
  and range endpoints; and a value with wildcards may hold a ladder rung with a
  wildcard character. `EmittedExactly` gives the meaning of what is emitted for
  every ladder-free text; `OneBranchExactly`, `ClassBranchExactly` (with
  `ListedExactly` for one class), `AnchorsExactly` and `WildcardRungsExactly` say
  exactly when the label holds on their texts.
- `t:lowercase` lowers the text before an exact comparison, but is compiled to a
  comparison without letter case, so that `@streq ABC` under it never holds in the
  source and its rule does (`UpperArgumentOverMatches`). `OneDirectiveExactly` says
  exactly when the two agree.
- `@contains`, `@beginsWith`, `@endsWith` and `@pm` do not look for wildcard
  characters in their argument (`AffixExact`, `PhrasesExact`).
- `@within` and `@eq` are compiled to a list of words and to one text under the
  label "equivalent"; the operators accept more than these for every argument
  (`WithinIsNarrower`, `NumbersAreNarrower`).
- An ambiguous correlation is meant to be a failure
  (go-api/internal/upstream/upstream.go:369-371), but with an orchestration
  subject it passes (`AmbiguityAdmitted`, `AmbiguousRowsResolve`).
- A form field, a multipart name and an XPath node of a structured body are
  translated as JSON fields of the same name, and the occurrence of a query,
  header or cookie is dropped (`FormFieldBecomesJson`, `OccurrenceIsDropped`),
  although the plan is labelled as preserving every selector
  (src/control_translation/shared_contracts_v2.py:2519-2523). `BuildPlan` says
  exactly when the emitted rules are the source's alternatives, and
  `PlanMeaningExactly` exactly when they answer every request alike.

## Assumptions made parameters

- The Unicode tables for letters, digits, spaces and case are functions; of the
  letter-or-digit test only its ASCII part is assumed, of the space test that it
  separates blanks from quotes and the keyword's letters. The case flag is an
  arbitrary folding of characters, which for `@pm` merges neither wildcard
  character with another, for whole rules compares lower cases, and for `\v` and
  listed classes leaves the line feed and the shorthands' sets alone. `.` is any
  character and `$` the end of the string; `\v` is any vertical white space.
- Transformations other than `t:lowercase` are taken to leave source and target
  with the same text, as docs/assumptions-and-followups.md:43-45 assumes of the
  decoding ones; `t:none` takes an earlier `t:lowercase` back.
- Where the reader takes a text that a Perl-compatible engine would read
  otherwise, the source side keeps the reader's tree: a quantifier character at
  the start of a branch or after another quantifier stands for itself, and so
  does `*` after an opening parenthesis. `\x` without two digits is NUL, a `+`
  after it repeats it, and the character after the sign stands for itself.
- A request gives one text for each of its parts and selectors, whatever it is.
  Source and target are taken to cut the same texts from the same part, as the
  table in the repository's own README.md:155-164 has it: `ARGS_GET` and
  `QUERY_STRING` are the query, `ARGS_POST` and `REQUEST_BODY` the body. A variable
  over two parts is tested on either. In the planner each test is an arbitrary
  answer.
- Run, result and worker ids, clock readings, translation results, storage
  outcomes and cancellation requests are chosen by the environment; new run and
  worker ids are unused. Digests and content addresses are values.
- A clock reading is taken at the statement it is written with. The theorems on
  leases hold through year 9999, the last in which the texts have one width.
- A location without an occurrence names the same component as occurrence 0, as
  in the code's labels (src/control_translation/shared_contracts_v2.py:925), and
  that is what a condition, which has no occurrence, is read to inspect.
- Header case folding maps only `*` to `*`; the tables of blanks and lower-case
  letters and the embedded route profile are given.

## Model

| member | source | states |
|---|---|---|
| `RegexReading.ReadingIsExact` | go-api/internal/translation/modsec_akamai.go:468-603 | The reader accepts a text with a tree exactly when the tree is well formed and prints as that text: reading and printing are inverse, for all texts and trees |
| `RegexReading.PrintIsInjective` | go-api/internal/translation/modsec_akamai.go:468-603 | A text has at most one well-formed tree |
| `RegexReading.AlternationRead` | go-api/internal/translation/modsec_akamai.go:468-512 | Whatever the cursor reads from any position is well formed and is exactly the text between the old and the new cursor |
| `RegexReading.AlternationPrinted` | go-api/internal/translation/modsec_akamai.go:468-512 | A well-formed tree printed anywhere, before the end or a closing parenthesis, is read back as that tree |
| `RegexReading.NestingBounded` | go-api/internal/translation/modsec_akamai.go:468-475 | No text with groups nested deeper than eight is read |
| `Expansion.PrintOfReadSource` | go-api/internal/translation/modsec_akamai.go:369-400 | Splitting off inline flags and edge anchors loses nothing of the text |
| `InlineFlags.LettersExactly` | go-api/internal/translation/modsec_akamai.go:453-466 | The letters split off are exactly those of a leading `(?letters)` group |
| `InlineFlags.FlagIsTheTexts` | go-api/internal/translation/modsec_akamai.go:453-466 | On every accepted text the case flag is set if and only if the text's own leading group holds `i`, and that group holds nothing but `i` and `s` |
| `InlineFlags.FlagsChangeCaseOnly` | go-api/internal/translation/modsec_akamai.go:453-466 | Flags put before a text without flags: it is accepted or refused as before, with the same values, and the case flag is set if and only if they hold `i` |
| `RegexTranslator.Translator.ParseAlternationAt` | go-api/internal/translation/modsec_akamai.go:468-488 | The one-pass method, its cursor and its `lossy` and `narrowed` flags equal reading a tree from the old cursor and then expanding it, accepted or declined alike; it terminates |
| `RegexTranslator.Translator.ParseConcatAt` | go-api/internal/translation/modsec_akamai.go:490-512 | The same refinement for a concatenation, with the bound of 32 after every step |
| `RegexTranslator.Translator.ParseTermAt` | go-api/internal/translation/modsec_akamai.go:514-547 | The same for a quantified term: generalization, the possessive marker and the lossy flag |
| `RegexTranslator.Translator.ParseAtomAt` | go-api/internal/translation/modsec_akamai.go:554-603 | The same for an atom, and whether it is a single character |
| `RegexTranslator.Translator.ParseGroupAt` | go-api/internal/translation/modsec_akamai.go:557-585 | The same for a group: the ladder shortcut, the narrowed flag, the closing parenthesis |
| `RegexTranslator.Translator.ParseClassAt` | go-api/internal/translation/modsec_akamai.go:605-632 | The same for a class, which ends at the first closing bracket |
| `RegexTranslator.Translator.ParseEscapeAt` | go-api/internal/translation/modsec_akamai.go:634-667 | The same for an escape |
| `RegexTranslator.EnumerateClass` | go-api/internal/translation/modsec_akamai.go:669-710 | The class loop lists the members the class body enumerates, each once and in order, or declines |
| `RegexTranslator.AsEncodingLadder` | go-api/internal/translation/modsec_akamai.go:748-772 | The branches are a ladder exactly when they are nonempty literals each of which is the encoding of the one before |
| `RegexTranslator.RenderLoop` | go-api/internal/translation/modsec_akamai.go:712-737 | The rendering loop writes one value per part sequence, adjacent runs once, and reports whether a wildcard was used |
| `RegexTranslator.CrossLoop` | go-api/internal/translation/modsec_akamai.go:497-505 | The nested loops build the product of prefixes and suffixes in order |
| `RegexTranslator.ExpandBounded` | go-api/internal/translation/modsec_akamai.go:468-512 | Every expansion carried forward has between 1 and 32 alternatives |
| `RegexTranslator.CarriedOn` | go-api/internal/translation/modsec_akamai.go:478-512 | Alternatives are joined or united if and only if no more than 32 come of it |
| `RegexTranslator.QuantifierTaken` | go-api/internal/translation/modsec_akamai.go:528-535 | A quantifier is taken if and only if its atom is, is no word boundary, and as a group is no ladder and has alternatives of one part each |
| `RegexTranslation.LadderDepth` | go-api/internal/translation/modsec_akamai.go:777-794 | A common depth is reported exactly when there is a ladder and all ladders have that depth |
| `RegexTranslation.EmitLoop` | go-api/internal/translation/modsec_akamai.go:401-451 | The emission loops equal the specification: alignment, literal-wildcard refusal, empty values, the bound of 32, first occurrences |
| `RegexTranslation.TranslateRegex` | go-api/internal/translation/modsec_akamai.go:369-466 | The whole imperative translation equals: read the tree, expand it, render the expansion |
| `RegexTranslation.TranslateBounded` | go-api/internal/translation/modsec_akamai.go:425-451 | Every accepted text has at most 4096 bytes and 1 to 32 distinct nonempty values |
| `Wildcards.RenderMatches` | go-api/internal/translation/modsec_akamai.go:712-737 | A rendered value matches a string exactly when the part sequence, its ladders at that depth, does, where no literal is a wildcard character |
| `Wildcards.DecoratedGlob` | go-api/internal/translation/modsec_akamai.go:425-436 | The stars at unanchored edges mean: some window of the string |
| `Wildcards.AlignedIsPositional` | go-api/internal/translation/modsec_akamai.go:401-424 | Forcing one depth on all ladders only removes matches |
| `TranslationMeaning.ClassExact` | go-api/internal/translation/modsec_akamai.go:669-710 | An enumerated simple class has exactly the members of the source class, up to the case flag |
| `Fidelity.Complete` | go-api/internal/translation/modsec_akamai.go:490-667 | Every match of the source tree between two positions, under backtracking semantics, is matched by some part sequence of its expansion, lossy or not |
| `Fidelity.Sound` | go-api/internal/translation/modsec_akamai.go:490-667 | Where nothing was generalized, every match of a part sequence, each ladder on any rung, is a match of the source tree |
| `EmittedMeaning.EmittedExactly` | go-api/internal/translation/modsec_akamai.go:369-603 | For every accepted text without ladders, with no further condition: a string matches some emitted value exactly when the text as the translator reads it is found in the string (optional and starred atoms as any run, possessive markers dropped, classes as listed, anchors outside all branches) |
| `EmittedMeaning.EmittedWithin` | go-api/internal/translation/modsec_akamai.go:369-603 | With ladders, emitted values match only strings in which the text as read is found, where no rung of a wildcard value holds a wildcard character |
| `EmittedMeaning.AsReadExpands` | go-api/internal/translation/modsec_akamai.go:490-667 | The text as read has the same expansion as the text and nothing in it is generalized |
| `OptionalDots.OptionalDotExactly` | go-api/internal/translation/modsec_akamai.go:514-547 | For every accepted one-branch text of characters and quantified or plain dots: the emitted values match exactly the strings the source finds if and only if no `.?` stands in a block, between characters or anchored edges, that holds no run |
| `OptionalDots.SameStrings` | go-api/internal/translation/modsec_akamai.go:536-543 | The same boundary on trees: such a branch and the branch as read find the same strings if and only if no block is tight |
| `OptionalDots.BranchRuns` | go-api/internal/translation/modsec_akamai.go:514-547 | The backtracking matches of such a branch are its block-by-block matches with the least and most characters each block takes |
| `TranslationTheorems.SourceTreePrints` | go-api/internal/translation/modsec_akamai.go:369-400 | The source tree used as the meaning of an accepted text prints back as that text, so the theorems are about that text |
| `TranslationTheorems.NeverMisses` | go-api/internal/translation/modsec_akamai.go:490-545 | Every string the source finds is matched by some emitted value, for every accepted ladder-free text, lossy or not, with simple classes, without `\v` and with no top-level alternation beside an anchor |
| `TranslationTheorems.NeverAdds` | go-api/internal/translation/modsec_akamai.go:401-424 | Every string an emitted value matches is found by the source, ladders included, for non-lossy texts with simple classes and no top-level alternation beside an anchor, without `.?`, `\v`, possessive markers or wildcard rungs |
| `TranslationTheorems.Exactness` | go-api/internal/translation/modsec_akamai.go:369-603 | Under the label equivalent, found by the source if and only if matched by an emitted value, under those conditions |
| `OneBranch.OneBranchExactly` | go-api/internal/translation/modsec_akamai.go:514-547 | For every accepted one-branch text of characters, however spelled, and of dots under any quantifier and marker: the emitted values match exactly the strings the source finds if and only if no hexadecimal escape has a sign, there is no `\v`, behind a possessive quantifier nothing must be matched, and no `.?` stands in a block without a run |
| `OneBranch.HarmfulDiffers` | go-api/internal/translation/modsec_akamai.go:524-526 | A branch with a signed escape, or with a possessive quantifier before something that must be matched, does not find the shortest string it is read to find |
| `OneBranch.VerticalDiffers` | go-api/internal/translation/modsec_akamai.go:634-667 | Where nothing else is misread, a branch with `\v` finds a string, with a line feed for it, that it is not read to find |
| `OneBranch.HexExactly` | go-api/internal/translation/modsec_akamai.go:648-659 | Two places after `\x` are read if and only if the second is a digit and the first a digit or a sign, and as which character |
| `ClassBranches.ClassBranchExactly` | go-api/internal/translation/modsec_akamai.go:605-710 | For every accepted text of one branch of characters, escapes, shorthands, dots and classes, lossy or not: the emitted values match exactly the strings the source finds if and only if every atom, one by one, is read with the characters the source takes there |
| `ClassBranches.ListedExactly` | go-api/internal/translation/modsec_akamai.go:669-710 | An enumerated class is read as the class it is if and only if every character that one of its ranges or escapes spans is listed and every listed character lies in one of them, up to the case flag |
| `ClassBranches.AtomExactly` | go-api/internal/translation/modsec_akamai.go:634-667 | Of the atoms that are no class, exactly the shorthands and `\v` are misread |
| `ClassBranches.ListedSome` | go-api/internal/translation/modsec_akamai.go:605-632 | A class is listed if and only if it is neither empty nor negated and its body enumerates one to eight characters |
| `EdgeAnchors.AnchorsExactly` | go-api/internal/translation/modsec_akamai.go:378-392 | For every accepted text whose branches are words: the label is right if and only if no anchor stands beside an alternation |
| `WildcardRungs.WildcardRungsExactly` | go-api/internal/translation/modsec_akamai.go:807-814 | For every accepted text of one alternative that is not generalized, ladders included: the values match only what the source finds if and only if no rung of a wildcard value holds a `*` or `?` |
| `TranslationTheorems.EmittedDiagonal` | go-api/internal/translation/modsec_akamai.go:401-424 | The emitted values are exactly the uniform choices of the positional expansion: one per depth and alternative |
| `TranslationTheorems.LadderIsIterates` | go-api/internal/translation/modsec_akamai.go:748-772 | Two or more literal branches form a ladder exactly when branch k is the k-fold encoding of the first |
| `TranslationLimits.OptionalDotOverMatches` | go-api/internal/translation/modsec_akamai.go:536-543 | `^.?$` is emitted as `*` under the label equivalent and matches `ab` |
| `TranslationLimits.PossessiveOverMatches` | go-api/internal/translation/modsec_akamai.go:524-526 | `^.*+a$` finds nothing in `a`, its translation `*a` matches it |
| `TranslationLimits.AnchorBesideAlternationMisses` | go-api/internal/translation/modsec_akamai.go:378-392 | A text of two branches, the start anchor on the first and the end anchor on the second, finds `ax`; its translation does not match it |
| `TranslationLimits.EscapedRangeMisses` | go-api/internal/translation/modsec_akamai.go:669-710 | `^[\t-\r]$` finds a line feed, its translation under the label equivalent does not match it |
| `TranslationLimits.EscapedBracketMisses` | go-api/internal/translation/modsec_akamai.go:605-632 | `^[Z-\]]$` is emitted under the label equivalent as three values of two characters; the source finds `Z`, which none of them matches |
| `TranslationLimits.SignedHexOverMatches` | go-api/internal/translation/modsec_akamai.go:634-667 | `^\x+5$` is emitted as one control character that the source does not find |
| `TranslationLimits.VerticalSpaceMisses` | go-api/internal/translation/modsec_akamai.go:634-667 | `^\v$` is emitted under the label equivalent as one vertical tab; the source finds a line feed |
| `TranslationLimits.StarRungOverMatches` | go-api/internal/translation/modsec_akamai.go:807-814 | A ladder over `*` is emitted as a value that matches every string |
| `TranslationLimits.MixedDepthsMissed` | go-api/internal/translation/modsec_akamai.go:401-424 | Two ladders in one text: the source finds a mixed-depth string that no value matches |
| `PercentEncoding.QuoteLoop` | go-api/internal/translation/modsec_akamai.go:937-948 | The encoding loop escapes exactly the bytes outside the unreserved set of section 2.3 of RFC 3986 |
| `PercentEncoding.UnquoteTimesUndoes` | go-api/internal/translation/modsec_akamai.go:937-948 | Decoding k times undoes encoding k times, for every byte string and k |
| `PercentEncoding.QuoteTimesLength` | go-api/internal/translation/modsec_akamai.go:937-948 | The k-th encoding has length n + 2kr, with n the length and r the reserved bytes of v |
| `PercentEncoding.UnquotePlusUndoes` | go-api/internal/translation/modsec_akamai.go:950-952 | Form decoding undoes the plus form for every byte string |
| `PercentEncoding.PlusIsForm` | go-api/internal/translation/modsec_akamai.go:950-952 | Replacing `%20` after quoting is form encoding byte by byte: exactly the spaces become plus signs |
| `PercentEncoding.UniqueLoop` | go-api/internal/translation/modsec_akamai.go:816-827 | First occurrences in order |
| `PercentEncoding.Unique` | go-api/internal/translation/modsec_akamai.go:816-844 | The same elements, none twice, no more than before |
| `PercentEncoding.UniqueInOrder` | go-api/internal/translation/modsec_akamai.go:816-844 | The members stand in the order of their first occurrences |
| `PercentEncoding.EncodingVariantsLoop` | go-api/internal/translation/modsec_akamai.go:922-935 | The loop computes the variants of all values |
| `PercentEncoding.EncodingVariantsKeep` | go-api/internal/translation/modsec_akamai.go:922-935 | Every value is kept; at most four variants per value, none twice |
| `PercentEncoding.FormsOf` | go-api/internal/translation/modsec_akamai.go:922-935 | The variants of a value are the value, its quoting, its form encoding and its double quoting, and no others |
| `PercentEncoding.EncodingVariantsDecode` | go-api/internal/translation/modsec_akamai.go:922-963 | Every variant decodes back to one of the values, the plus form included |
| `Tokenizer.Tokenize` | go-api/internal/translation/modsec_akamai.go:152-192 | The tokenizing loop equals its recursive specification, unterminated quotes included |
| `Tokenizer.TokensExactly` | go-api/internal/translation/modsec_akamai.go:152-192 | A text is read as a list of tokens if and only if it writes them, each bare or in quotes in any spelling the reader admits; it is refused if and only if some quote is opened and never closed |
| `Tokenizer.UnterminatedExactly` | go-api/internal/translation/modsec_akamai.go:166-184 | A quote stays open if and only if every later quote has an odd number of backslashes right before it |
| `Tokenizer.TokenizerRoundTrip` | go-api/internal/translation/modsec_akamai.go:152-192 | For every list of tokens, however each is written and whatever blanks stand between, the directive that writes them after the keyword is read as them |
| `Tokenizer.TrimExactly` | go-api/internal/translation/modsec_akamai.go:153 | Trimming takes off all blanks at both ends and nothing else |
| `Operators.OperatorValues` | go-api/internal/translation/modsec_akamai.go:854-920 | Every accepted operator gives at least one value and no empty one |
| `Operators.AffixExact` | go-api/internal/translation/modsec_akamai.go:869-893 | The value emitted for `@contains`, `@beginsWith` and `@endsWith` tests what the operator tests on every string if and only if the argument has no `*` or `?` |
| `Operators.PhrasesExact` | go-api/internal/translation/modsec_akamai.go:894-907 | The `@pm` values match exactly the strings in which some phrase occurs if and only if every phrase with a `*` or `?` contains a phrase without |
| `Operators.PhraseOverMatches` | go-api/internal/translation/modsec_akamai.go:894-907 | The phrase list `a*b` matches `axb` |
| `Operators.FieldsOfJoined` | go-api/internal/translation/modsec_akamai.go:888-915 | The fields of words joined by a separator are the words |
| `Operators.FieldsExactly` | go-api/internal/translation/modsec_akamai.go:888-915 | The fields are exactly the maximal stretches without separators |
| `Operators.MembersExactly` | go-api/internal/translation/modsec_akamai.go:888-915 | The values of `@within`, `@ipMatch` and `@pm` are the words of the argument, all and no others |
| `Operators.WithinIsNarrower` | go-api/internal/translation/modsec_akamai.go:889-894 | For every argument the values of `@within` match only what the operator accepts, and never all of it, under the label equivalent |
| `Operators.NumbersAreNarrower` | go-api/internal/translation/modsec_akamai.go:884-888 | For every argument the value of `@eq` matches only texts of the same number, and never all of them, under the label equivalent |
| `RuleCompiler.FieldsLoop` | go-api/internal/translation/modsec_akamai.go:888-915 | The scan that cuts at separators equals its specification |
| `RuleCompiler.OperatorMatchLoop` | go-api/internal/translation/modsec_akamai.go:854-920 | The operator dispatch, with the field, unique and phrase loops, equals its specification, refusals included |
| `RuleCompiler.BuildRuleLoop` | go-api/internal/translation/modsec_akamai.go:1083-1111 | The loop over one directive's variables equals its specification, refusals included |
| `RuleCompiler.CompileAkamai` | go-api/internal/translation/modsec_akamai.go:1062-1118 | The compiler loops equal the specification: chaining test, variables per directive, flags, operation |
| `RuleCompiler.RuleMeaning` | go-api/internal/translation/modsec_akamai.go:1062-1118 | Whatever each test answers, the compiled rule holds only if the source does, and the two agree on all requests if and only if there is one directive or every directive but the last chains |
| `RulePlaces.PlaceExactly` | go-api/internal/translation/modsec_akamai.go:68-82 | Every emitted condition, read by its own fields, inspects what is left of its variable's part of the request and selector; that is all of it if and only if no coverage note admits a gap and the condition type carries the selector |
| `RulePlaces.CompiledExactly` | go-api/internal/translation/modsec_akamai.go:1034-1118 | A list of directives compiles if and only if it has one to eight, each with values and known variables and transformations, literals for methods and addresses, and more than one only under a chain with one variable each |
| `RuleExactness.OperatorExact` | go-api/internal/translation/modsec_akamai.go:854-920 | Under one comparison of characters, whatever it is, the values of an exact operator match exactly the texts the operator accepts |
| `RuleExactness.CaseOfMatch` | go-api/internal/translation/modsec_akamai.go:854-920 | The case flag the compiler reads off an operator is the source's own letter case, from the operator and its text |
| `RuleExactness.BuiltValues` | go-api/internal/translation/modsec_akamai.go:976-1028 | A condition carries the directive's polarity and, by the part it inspects, the values in upper case, with their encodings, or as they are, with the two flags where the type has them |
| `RuleExactness.CaseExactly` | go-api/internal/translation/modsec_akamai.go:1088 | The emitted case flag tests on every text what the source tests on the text it inspects, lowered or not, if and only if the values keep the letter case: every character compared alike, or, for literals, every text let through listed as the source sees it |
| `LetterCase.ValueExactly` | go-api/internal/translation/modsec_akamai.go:1088 | For one value, with wildcards or without: that holds if and only if every character of the value other than a wildcard is compared alike |
| `LetterCase.ListExactly` | go-api/internal/translation/modsec_akamai.go:1088 | For a list of literals: if and only if whatever a value lets through is, as the source sees it, one of the values |
| `LetterCase.LowerExactly` | go-api/internal/translation/modsec_akamai.go:1088 | Under `t:lowercase` that means: every character is its own lower case, and for a list, the lower case of every value is in it |
| `RuleExactness.FormsExact` | go-api/internal/translation/modsec_akamai.go:922-935 | Literal values of a component that may be encoded match exactly the four transport forms of the texts the operator accepts |
| `RuleExactness.FormsDecode` | go-api/internal/translation/modsec_akamai.go:922-963 | Those forms take in every text the source accepts; and, where the source sees the values as they are, each of them decodes to a text that it accepts |
| `RuleExactness.EquivalentRule` | go-api/internal/translation/modsec_akamai.go:1062-1118 | A rule of exact directives, one or an unbroken chain, compiled under the label equivalent, acts on a request exactly where the source does, each condition on the part its own fields name, if no directive loses or gains a target; the source lowers what it inspects under `t:lowercase`, and literals that may be encoded are tested in their four forms |
| `RuleExactness.KeptRule` | go-api/internal/translation/modsec_akamai.go:1062-1118 | Whatever the coverage notes admit, such a rule acts exactly where the source would, asked only of the parts that are left |
| `RuleExactness.OneDirectiveExactly` | go-api/internal/translation/modsec_akamai.go:1062-1118 | One directive under the label equivalent, of one value or of literals: it acts exactly where the source does, on every request, if and only if its values keep the letter case and either no target is lost or gained or the values match the empty text, and so everything |
| `RuleExactness.UpperArgumentOverMatches` | go-api/internal/translation/modsec_akamai.go:1088 | `SecRule XML "@streq ABC" "t:lowercase"` compiles under the label equivalent; the source holds on no request, the compiled rule acts on `ABC` |
| `ShapeGate.ValidateSyntax` | go-api/internal/adapters/akamai.go:52-93 | The gate reports the errors of the specification, and none if and only if the candidate is an object without an action, with an operation and acceptable conditions |
| `ShapeGate.AcceptedExactly` | go-api/internal/adapters/akamai.go:52-150 | On any JSON: accepted if and only if such an object, each condition with a known kind, a polarity, nonempty values, a named JSON field and a real header where its kind needs one and nowhere else |
| `ShapeGate.BodyErrorsLoop` | go-api/internal/adapters/akamai.go:81-131 | The loop over the conditions reports each one's errors |
| `ShapeGate.EmittedApart` | go-api/internal/translation/modsec_akamai.go:1016-1028 | Nothing of a compiled condition is lost in its JSON: two with the same JSON are the same |
| `ShapeGate.CompiledPasses` | go-api/internal/translation/modsec_akamai.go:976-1028 | A compiled rule passes every clause of the gate if and only if no header selector is blank or synthetic |
| `LeaseRows.RemainingUpdate` | go-api/internal/lifecycle/store.go:176-187 | The attempts left over all rows change by the changed row's difference, whatever the order of summation |
| `LeaseProtocol.RowChange` | go-api/internal/lifecycle/store.go:171-300 | Between two states a row is unchanged or was changed by exactly one guarded statement |
| `LeaseProtocol.RowsOkKept` | go-api/internal/lifecycle/store.go:171-300 | Every step of every participant keeps the row invariant |
| `LeaseProtocol.ResultsNeverChange` | go-api/internal/store/databricks.go:138-192 | No step changes or removes a stored result row |
| `LeaseProtocol.DurableKept` | go-api/internal/httpapi/worker.go:116-175 | Every step keeps: a result pointer leads to the stored row it was completed with, and a worker about to complete has published |
| `LeaseTheorems.AlwaysInvariant` | go-api/internal/lifecycle/store.go:39-300 | Over every interleaving of submissions, workers, heartbeats, cancellations, crashes and clock, the whole invariant holds in every state |
| `LeaseTheorems.CompletionIsDurable` | go-api/internal/httpapi/worker.go:116-175 | Over every run, a row's result pointer leads to the same stored identity in every later state |
| `LeaseTheorems.BoundedAttempts` | go-api/internal/lifecycle/store.go:171-196 | Over every run, a row is claimed at most `maxAttempts` times |
| `LeaseTheorems.SubmissionIsIdempotent` | go-api/internal/lifecycle/store.go:39-85 | Over every interleaving of lookup, insert and re-read, answers under one key name one run and one digest, at most one says created, and a conflict means another digest |
| `LeaseTheorems.LiveLeaseKept` | go-api/internal/lifecycle/store.go:171-196 | Over every run, while the lease of a running row is live, compared as the queue compares it, text against text, the row is not reclaimed: it keeps its worker and attempt up to the statement that completes, fails or cancels it |
| `LeaseTheorems.LeaseGranted` | go-api/internal/lifecycle/store.go:171-227 | A claim and a heartbeat make the lease live for its whole length |
| `LeaseTheorems.InputDecides` | go-api/internal/lifecycle/store.go:305-309 | Under one key the same input gets the same answer whatever else differs, and of two inputs with different hashes at most one gets a run |
| `Calendar.TextOrder` | go-api/internal/lifecycle/sqlite.go:36-38 | Before year 10000 the texts written for two clock readings are ordered as the readings are |
| `LeaseTheorems.NonOwnerChangesNothing` | go-api/internal/lifecycle/store.go:210-252 | A heartbeat or a completion by a worker that does not own the row changes no row |
| `LeaseTheorems.AlwaysPinned` | go-api/internal/httpapi/worker.go:32-33 | Under the single worker, over every run, what is held is owned or canceled and every queued row has attempts left |
| `LeaseTheorems.TerminalStates` | go-api/internal/lifecycle/store.go:229-278 | Under the single worker, completed and failed rows never change, and a canceled row is left only by the failure statement of the worker that held it |
| `LeaseStuck.StuckExactly` | go-api/internal/lifecycle/store.go:171-278 | In every reachable state, a running row can still leave `running` or be claimed again without being canceled if and only if it is not stuck: attempts exhausted, owner gone, nobody left who could fail it |
| `LeaseStuck.StuckForever` | go-api/internal/lifecycle/store.go:176-187 | Along every continuation without its cancellation, a stuck row never changes |
| `LeaseStuck.AbandonedStays` | go-api/internal/lifecycle/store.go:176-187 | A row on its last attempt that nobody can settle keeps status, attempt and owner until it is canceled or its live owner reads it back |
| `LeaseLimits.CrashOnLastAttempt` | go-api/internal/httpapi/worker.go:20-25 | For every bound on attempts, a run with a single worker that ends in a stuck row |
| `LeaseLimits.LostFailureOnLastAttempt` | go-api/internal/httpapi/worker.go:147-157 | For every bound, a run without a crash that abandons a row: the statement that records the failure is lost |
| `LeaseLimits.CanceledIsRequeued` | go-api/internal/lifecycle/store.go:268-273 | A run, with a single worker, in which a canceled row goes back to the queue |
| `LeaseLimits.TwoResultsForOneRun` | go-api/internal/httpapi/worker.go:27-30 | A run, with a single worker, that leaves two result rows for one run |
| `LeaseResults.TwoResultsMeanLoss` | go-api/internal/httpapi/worker.go:27-30 | Under the single worker, a run that left two result rows lost an attempt after the first insert: a crash, a failed read-back or a failed completion; so it has one where every inserting attempt completed |
| `LeaseResults.SecondInsertAfterLoss` | go-api/internal/httpapi/worker.go:142-175 | Between two inserts for one run the worker of the first lost its attempt without completing the row |
| `LeaseResults.InsertsBounded` | go-api/internal/httpapi/worker.go:116-175 | Over every interleaving a run has at most one result row for each time it was selected |
| `LeaseLimits.CompletedIsReopened` | go-api/internal/lifecycle/store.go:268-273 | A run with two workers in which a completed row is reopened and left queued with no attempts |
| `LeaseWorker.LifecycleStore.CreateLifecycleRun` | go-api/internal/lifecycle/store.go:39-85 | Created only if the key was free; otherwise, also when a rival commits between lookup and insert, the existing run or a conflict, and only the rival's row is added |
| `LeaseWorker.LifecycleStore.ClaimNextQueuedRun` | go-api/internal/lifecycle/store.go:171-196 | Nothing changes when nothing is claimable or the statement fails; otherwise the oldest claimable row alone is claimed, also when the read-back fails, and the answer is the worker's latest running row |
| `LeaseWorker.LifecycleStore.OldestOf` | go-api/internal/lifecycle/store.go:176-187 | The selection by creation time |
| `LeaseWorker.LifecycleStore.LatestOf` | go-api/internal/lifecycle/store.go:194-195 | The selection by update time |
| `LeaseWorker.LifecycleStore.Heartbeat` | go-api/internal/lifecycle/store.go:210-227 | Only an owned running row changes, and only its lease and update time |
| `LeaseWorker.LifecycleStore.CompleteLifecycleRun` | go-api/internal/lifecycle/store.go:229-252 | Only an owned row is completed, not when another row has the result, and not when the statement is lost |
| `LeaseWorker.LifecycleStore.FailLifecycleRun` | go-api/internal/lifecycle/store.go:254-278 | The row with this id is requeued or failed, whoever owns it, unless the statement is lost |
| `LeaseWorker.LifecycleStore.RequestCancellation` | go-api/internal/lifecycle/store.go:282-303 | A queued or running row is canceled, a terminal one is left |
| `LeaseWorker.ResultTable.SaveCompletedRun` | go-api/internal/store/databricks.go:138-192 | The table afterwards; success if and only if both statements answer and the row there has this very identity; no existing row changes |
| `LeaseWorker.Finish` | go-api/internal/httpapi/worker.go:142-175 | The queue afterwards, whichever statement is lost: failed or requeued when the result was not saved, completed when it was and the row is still this worker's, otherwise unchanged; a row becomes completed only over a published result, and attempts do not change |
| `LeaseWorker.ProcessOne` | go-api/internal/httpapi/worker.go:116-175 | The queue and the table after a pass: nothing published if a cancellation was seen; the run completed with its stored result if it was saved, nobody canceled and the statement got through; requeued, or failed on its last attempt, if it was not saved; otherwise running or canceled; no other row changes but by its claim or cancellation; no work reported when nothing was claimable or the claim or its read-back failed; the attempts left never grow, and shrink whenever it finds work |
| `LeaseWorker.Drain` | go-api/internal/httpapi/worker.go:97-104 | With no new submissions the loop stops, whatever each pass brings, and then nothing was claimable or the last claim failed; where every pass goes smoothly, every row that was waiting with attempts left ends completed with its result stored |
| `LeaseWorker.MeasureStep` | go-api/internal/lifecycle/store.go:171-300 | In every interleaving no step but an insert raises the attempts left, and every claim lowers them |
| `LeaseWorker.ClaimsBounded` | go-api/internal/httpapi/worker.go:97-104 | Over any stretch of a run without inserts there are at most as many claims as attempts were left |
| `Timestamps.TextOrderIsTimeOrder` | go-api/internal/lifecycle/sqlite.go:36-38 | Through year 9999, byte order of the stored texts is time order |
| `Timestamps.TextOrderExactly` | go-api/internal/lifecycle/sqlite.go:36-38 | Text order is time order for all times before year n if and only if n is at most 10000 |
| `Coverage.Walk.MembersOf` | src/control_translation/shared_contracts_v2.py:417-440 | The recursive walk with its visiting set equals the specification, restores the set, and terminates on every group graph |
| `Coverage.Walk.CollectFrom` | src/control_translation/shared_contracts_v2.py:887-906 | The same for the component walk and its result list |
| `Coverage.CoverageMembers` | src/control_translation/shared_contracts_v2.py:417-440 | Succeeds if and only if every path from the reference is in scope, resolvable, acyclic and truly declared; returns the members of the components below; an error is explained by a path |
| `Coverage.CoverageComponentIds` | src/control_translation/shared_contracts_v2.py:887-906 | Succeeds if and only if every path ends in components or known groups and enters no group twice; returns, without duplicates, exactly the components below; where the member walk succeeds their members make up its result |
| `Coverage.CollectWhenSound` | src/control_translation/shared_contracts_v2.py:887-906 | That condition for any visiting set, scope and declarations ignored |
| `Coverage.MembersExact` | src/control_translation/shared_contracts_v2.py:417-440 | Success if and only if every path is sound, and the members are those of the reachable components, for any visiting set |
| `Coverage.MembersFault` | src/control_translation/shared_contracts_v2.py:417-440 | Each error code is witnessed by a path whose end has that fault |
| `Coverage.CollectExact` | src/control_translation/shared_contracts_v2.py:887-906 | What is listed is what was found before and the components below, each once |
| `BypassAccounting.CheckDimension` | src/control_translation/shared_contracts_v2.py:1535-1616 | A dimension passes if and only if it is executed or declared unsupported with the evidence prescribed for that, in its planned place |
| `BypassAccounting.CountDimensions` | src/control_translation/shared_contracts_v2.py:1516-1616 | The dimension loop accepts exactly the accounted campaigns and counts them |
| `BypassAccounting.CountCampaign` | src/control_translation/shared_contracts_v2.py:1516-1648 | One campaign is accepted if and only if it is complete, its resolutions included, and its attempt ids are new |
| `BypassAccounting.CheckFamilies` | src/control_translation/shared_contracts_v2.py:1681-1712 | The sorted lists of the search bounds are accepted if and only if they list the families of the dimensions, governed or not |
| `BypassAccounting.CountWork` | src/control_translation/shared_contracts_v2.py:1500-1712 | Accepted if and only if the campaigns are the obligations, each is complete, attempt ids are globally unique, and resolutions, counts and family lists agree; then planned = executed + unsupported and executed is the number of distinct attempt ids; the check for silent dispositions never fires |
| `BypassAccounting.WorkConserved` | src/control_translation/shared_contracts_v2.py:1674-1679 | Over complete campaigns, planned work is executed plus unsupported work, and each executed item has its own attempt id |
| `BypassAccounting.Account` | src/control_translation/shared_contracts_v2.py:653-678 | Accepted if and only if represented and unsupported members partition the source members and no excess work is disposed of; then the counts are those of the two classes and add up |
| `PathSegments.SegmentKeeps` | src/control_translation/shared_contracts_v2.py:1923-1925 | Decoding an escaped payload gives the payload, escaping writes no slash, and different payloads stay different |
| `PathSegments.JoinedExactly` | src/control_translation/shared_contracts_v2.py:2133-2135 | The path emitted for a payload is the stem of the resolved path without its trailing slashes, one slash and the escaped payload |
| `PathSegments.PayloadRecovered` | src/control_translation/shared_contracts_v2.py:2133-2135 | The payload is read off the path by decoding what stands behind its last slash |
| `WafConditions.ConditionMeaning` | src/control_translation/shared_contracts_v2.py:1975-2050 | The emitted condition asks exactly what the rule asks of its component if and only if the component is a first occurrence or of any name, and where it is in a structured body it is any field or a JSON pointer other than `*`: form fields, multipart names and XPath nodes are emitted as JSON fields, and an occurrence is dropped |
| `WafConditions.RuleFineExactly` | src/control_translation/shared_contracts_v2.py:1998-2024 | A rule maps without loss if and only if it has an id and a component, its carrier and name are what the component goes by, and it asks a test that has a meaning |
| `WafGate.GateOfCondition` | src/control_translation/adapters/akamai_waf.py:142-206 | The shape gate passes a rule's emitted condition if and only if a header selector is a real header and a structured field that is not any field has a name that is neither blank nor `*` |
| `WafGate.CheckRule` | src/control_translation/adapters/akamai_waf.py:119-140 | The gate loop passes a rule if and only if it has conditions and each of them passes |
| `WafGate.StarSelectorRefused` | src/control_translation/adapters/akamai_waf.py:166-178 | No structured field spelled `*` gets past the gate unless it is any field |
| `WafGate.FormFieldBecomesJson` | src/control_translation/shared_contracts_v2.py:2025-2026 | A form field passes every check and the gate and is emitted as a JSON field |
| `WafGate.OccurrenceIsDropped` | src/control_translation/shared_contracts_v2.py:1975-2050 | The second occurrence of a query passes every check and the gate, and is emitted as a test of the query without an occurrence |
| `WafRules.CollectRules` | src/control_translation/shared_contracts_v2.py:2188-2223 | The rule loop accepts exactly the rules that map without loss, with distinct components and ids, and tabulates each component's condition and carrier |
| `WafRoutes.TravelsExactly` | src/control_translation/shared_contracts_v2.py:2053-2071 | An input is on a route if and only if its method and path key, or its method, path and stated scheme and authority, are the route's |
| `WafRoutes.ExpectedFilters` | src/control_translation/shared_contracts_v2.py:2289-2294 | The inputs a binding must name are the component's inputs on the route, in their order |
| `WafRoutes.ResolvesExactly` | src/control_translation/shared_contracts_v2.py:2107-2131 | The method and path asked are the route's own method and its rendered or profile path, if neither is empty |
| `WafRoutes.PayloadsApart` | src/control_translation/shared_contracts_v2.py:2133-2135 | On one route two payloads give the same path if and only if they are the same |
| `WafRoutes.TranslateBound` | src/control_translation/shared_contracts_v2.py:2261-2352 | A bound alternative is accepted if and only if it is in coverage, its bindings are exactly the authenticated inputs on its route, payloads are present and the route resolves; it gives one AND rule for each admitted path and no other, under its id and numbered if there are several; an admitted path is the route's own, or its stem extended by a payload |
| `WafRoutes.BoundPayloads` | src/control_translation/shared_contracts_v2.py:2284-2308 | The payloads collected are exactly those authenticated for the path components on this route |
| `WafDocuments.TranslateRuleDocument` | src/control_translation/shared_contracts_v2.py:2158-2355 | Accepted if and only if expressible; every emitted rule mirrors an alternative and every alternative has such a rule; the emitted conjunctions are exactly the document's alternatives if and only if every component they use is inspected where it is; they pass the gate if and only if every rule they use is presentable; every coverage alternative is represented and the carriers are the rules' own |
| `WafDocuments.TranslateCarriers` | src/control_translation/shared_contracts_v2.py:2358-2442 | Accepted if and only if every binding agrees with its component and none is repeated; the keys are the bindings' own |
| `WafDocuments.CarrierFineExactly` | src/control_translation/shared_contracts_v2.py:2382-2418 | A declared carrier is accepted if and only if it is what its known component goes by, or for an unknown one names a header or cookie |
| `WafDocuments.ConditionsMean` | src/control_translation/shared_contracts_v2.py:2224-2254 | The conditions looked up for an alternative keep every test of its conjunction that can be emitted, ask only of places that can be, and are its conjunction where that is all of it |
| `WafDocuments.ConditionsPass` | src/control_translation/shared_contracts_v2.py:2224-2254 | The gate passes the conditions of an alternative if and only if its components' rules are presentable |
| `WafDocuments.WrongAlternative` | src/control_translation/shared_contracts_v2.py:2025-2026 | Everything an alternative asks can be emitted if and only if all its components are in the right places |
| `WafDocuments.BoundMeans` | src/control_translation/shared_contracts_v2.py:2309-2352 | A bound alternative's conditions mirror, in that sense, the tests of its components off the path together with the exact path and the method, and are these where the components are in the right places |
| `WafPlan.TranslateDocuments` | src/control_translation/shared_contracts_v2.py:2457-2496 | All artifacts or none: accepted if and only if each is expressible, some has rules, and executed carriers equal declared ones; the rules mirror the alternatives, and are they if and only if every used component is inspected where it is; past the gate if and only if every used rule is presentable |
| `WafPlan.RefIds` | src/control_translation/shared_contracts_v2.py:278-303 | References are accepted if and only if nonempty where required, of the kind and scope, known and distinct |
| `WafPlan.BuildPlan` | src/control_translation/shared_contracts_v2.py:2445-2590 | A plan is produced if and only if everything is expressible and every used rule is presentable to the gate; its rules mirror the source's alternatives, and are exactly these if and only if every used component is a first occurrence or of any name and every used field of a structured body is a JSON pointer or any field; every coverage alternative is a rule, every obligation maps to the emitted artifact, every directive is carried over |
| `WafPlan.PlanMeaning` | src/control_translation/shared_contracts_v2.py:2445-2590 | Whatever a request answers to each test, the OR of the emitted AND rules equals the OR over coverage alternatives of the AND of their components' tests, path components replaced by the resolved route |
| `WafPlan.PlanMeaningExactly` | src/control_translation/shared_contracts_v2.py:2445-2590 | For every plan: its OR of AND rules answers every request as the OR of the source's alternatives does if and only if each alternative includes one that can be emitted whole; otherwise some request separates the two |
| `Lineage.Collector.Visit` | go-api/internal/upstream/upstream.go:372-392 | In whatever order object members are visited, exactly the nonempty strings under the key, at any depth, are collected |
| `Lineage.OneValue` | go-api/internal/upstream/upstream.go:372-400 | A value is returned exactly when it is the only one in the whole document |
| `Lineage.RoleVulnerability` | go-api/internal/upstream/upstream.go:404-426 | The vulnerability a record names in its role's place, or none |
| `Lineage.RoleCandidate` | go-api/internal/upstream/upstream.go:430-458 | The source candidate a record names in its role's place, or none |
| `Lineage.CheckRecord` | go-api/internal/upstream/upstream.go:152-169 | A record passes if and only if it agrees with the command's correlation and subject |
| `Lineage.ResolveLineage` | go-api/internal/upstream/upstream.go:107-215 | Resolution answers if and only if some vulnerability and candidate make the records one story, with those identities |
| `Lineage.OwnRoleOnly` | go-api/internal/upstream/upstream.go:310-332 | A resolved record states its own role's capability and contract or none, never another role's, and has its reference's id and the terminal state its role needs |
| `Lineage.DocumentMentions` | go-api/internal/upstream/upstream.go:50-72 | A row mentions what its own columns, its request or its result hold |
| `Lineage.LineageAgreement` | go-api/internal/upstream/upstream.go:107-215 | Without an orchestration subject, each of the three records mentions exactly one correlation, subject revision, vulnerability and candidate, the same in all and the command's |
| `Lineage.AmbiguityAdmitted` | go-api/internal/upstream/upstream.go:152-169 | A record that mentions two correlations passes the correlation check if and only if the command has an orchestration subject |
| `Lineage.AmbiguousRowsResolve` | go-api/internal/upstream/upstream.go:107-215 | A command and three rows that resolve although one row belongs to two other runs |

## Left out

- TranslationTheorems.Exactness: the conditions on the text are sufficient; with several branches, classes or groups a condition that is also necessary would have to decide when other branches happen to make up for a construct that is read more widely. `EmittedExactly` states the exact meaning for all ladder-free texts, and the theorems of `OneBranch`, `ClassBranches`, `EdgeAnchors` and `WildcardRungs` the exact conditions on theirs.
- TranslationTheorems.NeverMisses: the conditions are sufficient, as above.
- TranslationTheorems.NeverAdds: the conditions are sufficient, as above.
- OptionalDots.OptionalDotExactly: assumes that some character does not occur in the text; `OneBranchExactly` extends it to escapes and possessive markers, not to classes and groups.
- OneBranch.OneBranchExactly: assumes that some character does not occur in the text, and leaves out branches with groups, shorthands and classes; `ClassBranchExactly` has the classes and shorthands, without quantifiers.
- ClassBranches.ClassBranchExactly: for classes that a Perl-compatible engine closes at the first bracket, without named classes and without escaped letters other than the shorthands and `\n`, `\r`, `\t`, `\f`, `\v`.
- TranslationLimits.EscapedBracketMisses: the source meaning of this text is given by the tree that closes the class at the unescaped bracket, since the reader has no tree for it.
- Operators.OperatorValues: no reference meaning is claimed for `@ipMatch`; matching of address ranges is not part of this model.
- RuleExactness.EquivalentRule: leaves out client addresses; a request method is tested by upper-case literals only.
- RuleExactness.OneDirectiveExactly: for several values with wildcards under `t:lowercase` only the direction from kept letter case to equal answers holds here (`EquivalentRule`); the other would have to decide when other values happen to make up for one in upper case.
- RuleCompiler.CompileAkamai: splitting the text into directives, parsing variables and actions, tags, notes, names and prose are plumbing around the compiled conditions.
- Tokenizer.Tokenize: starts after the keyword has been recognised and removed.
- LeaseWorker.ProcessOne: takes heartbeats and cancellations in two batches, before and after the worker looks for a cancellation; other workers and arbitrary interleavings are in the transition system.
- LeaseStuck.StuckExactly: for leases that run out before year 10000.
- BypassAccounting.CountWork: the governed derivation of dimensions and the validation of one resolution are inputs, and the comparison of the final accounting document is left out.
- BypassAccounting.CheckDimension: the shape of digests and sizes in the wire evidence is one input.
- Coverage.CoverageMembers: components and groups are given as maps, duplicates having been refused when they were indexed.
- WafPlan.BuildPlan: artifacts are taken in the given order instead of being sorted by their order field, so the order of emitted rules is not captured; documents are already decoded.
- WafDocuments.TranslateRuleDocument: names, descriptions and provenance fields of the emitted rules.
- Lineage.ResolveLineage: stops before the assembly of the pattern, the qualification and the evidence references (with the sort of their keys).
- The Python lifecycle worker, its publication outbox and the callback dispatcher.
- Databricks drivers, SQL transport, HTTP routes, configuration, schemas, hashing and JSON encoding.
- The firewall and EDR adapters, prompts, the demo UI, and conflict detection in the Akamai adapter.
