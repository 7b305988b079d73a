# Verification of the ait command-line engine

A Dafny model of the table-driven command line of `ait-node`, which re-implements a Clap-style grammar in
JavaScript, and of a few small parts of `ait-node` and `ait-runner` beside it. Everything is proved for every
grammar, every token list and every text; the last rows instantiate the general results on real table rows.
`dafny verify dfyconfig.toml` checks the whole project.

- `Basics`, `Decimal`: results, sequences, decimal text and the integers it denotes.
- `Integers`: the 32- and 64-bit value parsers, the handlers' later conversions, the rejection classifier.
- `Matching`, `Similarity`, `Ranking`: the Jaro score behind the "similar argument" tips. The greedy matching turns
  out to be the unique stable matching of the two texts when every position prefers the smallest partner. That
  fact gives its maximality and the symmetry of the score.
- `Grammar`, `Worklist`, `Usage`, `Constraints`: grammars, the requirement worklist over a possibly cyclic graph,
  the constraint pass and the usage line that chases the requirements a second time.
- `Tokens`, `Pipeline`: the left-to-right token pass, and the runner's checks from tokens to the command handler.
- `HelpScan`, `Descent`: cutting the arguments at the first active help flag, and the walk to a command.
- `CommandRows`: the rows pull, blame, external update and task start, against the checks that their handlers make
  on the stored values and positionals.
- `Redaction`: leftmost replacement of a secret, and bounded messages.
- `AddonContract`, `EnvironmentNames`, `RepositoryIndexes`: the addon contract and platform selection, the family of
  environment names, and the normalised index list.

A grammar key is a string, as in the source: an option name, `#` and a number for a positional, or a group key. A
well-formed grammar has distinct argument keys, none of which is a group key; the four rows modelled here are
proved to be so. The token list, the raw option values and the raw positionals are what `parseArgs` of `node:util` yields for
`strict: false`: tokens in order, the last value of an option (all values of a repeatable one), positionals in order.

## Findings

- The classifier of rejected `--limit` values of `repo jobs` does not always blame the stage that failed: `-0` is
  read as an integer by the parser and rejected as out of range, and the classifier calls it no integer. This is the
  only family of texts where they differ (`Integers.JobLimitReasonIsTheCause`).
- Redaction can put a secret back together: redacting `a<` from `aa<` gives `a<redacted>`. It fails on some text exactly
  for the secrets described by `Redaction.CanReappear`, which is a condition on the secret alone; for a secret
  without angle brackets it says that the secret is a part of the word `redacted`.
- If a key named both an argument and a group, the transitive pass and the one-step reading of the grammar could
  part (`Constraints.SharedKeysBreakOneStep`, on an invented grammar). The rows of pull, blame, external update and
  task start are proved to share no key; the other rows of the table are not modelled.
- The checks that the handlers of pull and external update make again are exactly the grammar's, so they never fire.
  So are those of blame and task start, where the grammar asks for one thing more: the path on blame, which the runner
  counts, and `--json` with `--full` on task start, which the runner checks.
- A repeatable option would lose all but one value if it had a declared kind, or a short name and an attached `=`:
  the pass then overwrites the list (`Pipeline.RepeatableKeepsAll`). The repeatable options of the program, `role`,
  `path` and `group`, have neither.

## Model

| member | source | states |
|---|---|---|
| Matching.StablePairingIsUnique | ait-node/src/terminal.js:2051-2060 | The greedy window match is the one and only matching in which no two positions could both do better with a smaller partner. |
| Matching.PairsAreSymmetric | ait-node/src/terminal.js:2051-2060 | Matching from the candidate to the value gives the very same pairs, reversed. |
| Matching.PairsAreMaximum | ait-node/src/terminal.js:2051-2060 | No matching of equal characters within the distance window has more pairs (exchange argument). |
| Matching.WindowExactly | ait-node/src/terminal.js:2051-2055 | Two positions with the same character may be matched when they are the same or when one more than their distance, doubled, fits into the longer text. |
| Similarity.Confidence | ait-node/src/terminal.js:2047-2066 | The nested loops over the used sets compute 1 for equal texts and otherwise the number that a stable pairing of the two texts gives: a third of m/left + m/right + (m - half the places, rounded down, where the listed matches differ)/m, or 0 without pairs. |
| Similarity.ScoreExactly | ait-node/src/terminal.js:2060-2065 | That number is the same for any stable pairing and any listing of its positions in order. |
| Similarity.PicksCorrespond | ait-node/src/terminal.js:2062-2063 | The matched characters of both sides are equally many and the same multiset. |
| Similarity.NoSingleMismatch | ait-node/src/terminal.js:2064 | Halving the mismatch count hides nothing: two rearrangements of the same characters never differ in one place only. |
| Similarity.ScoreIsOneOnlyForEqualTexts | ait-node/src/terminal.js:2047-2066 | The score lies in [0, 1] and is 1 exactly for equal texts. |
| Similarity.ScoreIsSymmetric | ait-node/src/terminal.js:2047-2066 | The score does not depend on which text is the typed one. |
| Ranking.RankingIsStableSort | ait-node/src/terminal.js:2067-2069 | The suggestions are exactly the candidates above 0.7, each once, by score and then by candidate order. |
| Ranking.SimilarValues | ait-node/src/terminal.js:2046-2070 | The suggestions are the candidates scoring above 0.7, by score and then by candidate order; the last one, the tip, scores most of all candidates and more than any later one. |
| Ranking.LastSuggestionIsBest | ait-node/src/terminal.js:2067-2069 | The last suggestion exists exactly when some candidate scores above 0.7, has the highest score, and is the last candidate with it. |
| Integers.AcceptedExactly | ait-node/src/terminal.js:1923-1960 | Each integer kind accepts exactly the texts that write an integer of its range: a fitting sign, zeros, canonical digits. |
| Integers.ParsesItsOwnText | ait-node/src/terminal.js:1923-1960 | The decimal text of every integer in range parses back to that integer. |
| Integers.SecondConversionSucceeds | ait-node/src/terminal.js:2203-2222 | A text accepted by the token pass converts later to the integer it writes; a plain number is only given up to 2^53-1. |
| Integers.WidthReasonIsTheCause | ait-node/src/terminal.js:2187-2200 | For u32, u64, usize and i64 the reason names the actual defect and the raw message is never shown. |
| Integers.PositiveReasonIsTheCause | ait-node/src/terminal.js:2182-2186 | For line and positive kinds "1 or greater" is the reason exactly when the text writes zero. |
| Integers.JobsReasonIsTheCause | ait-node/src/terminal.js:2174-2177 | For job counts the range reason is given exactly for out-of-range integers of native size. |
| Integers.JobLimitReasonIsTheCause | ait-node/src/terminal.js:2178-2181 | For job limits the classifier blames the stage that failed, except exactly for zero written with a minus. |
| Integers.MinusZeroLimitIsMisclassified | ait-node/src/terminal.js:2218-2222 | The input -0 shows the exception. |
| Worklist.Chase | ait-node/src/terminal.js:2138-2148 | The worklist ends on every grammar, cyclic ones included, with the least set closed under requirements, without repetition, behind the base requirements and in the breadth-first order in which its keys are found. |
| Worklist.AddedExactly | ait-node/src/terminal.js:2145 | Adding to an insertion-ordered set puts every new entry once, where it comes first, behind the old ones. |
| Worklist.SecondChase | ait-node/src/terminal.js:1986-1997 | Chasing again from a closure with extra keys finds nothing new exactly when the extra keys need nothing new. |
| Usage.SelectedUsage | ait-node/src/terminal.js:1982-2011 | The line is built from the keys and from the least set that the second worklist computes; four commands quote their help text. |
| Usage.FlagsAreListedOnce | ait-node/src/terminal.js:1998-2002 | Every visible flag that is required or asked for is listed once, no other is, and required ones come first. |
| Usage.LineExactly | ait-node/src/terminal.js:1998-2004 | The line's flags are the required visible ones in table order, then the other visible ones that are asked for in table order, then help if it is asked for. |
| Usage.PositionalsExactly | ait-node/src/terminal.js:2006-2007 | The line's positionals are those of the table in its order, shown as given just when they are asked for. |
| Grammar.OrderedKeysExactly | ait-node/src/terminal.js:2116-2118 | The ordered keys are those of all tokens but the terminators, in order: names, and "#" with the number of positionals before. |
| Grammar.SatisfiedExactly | ait-node/src/terminal.js:2121-2122 | A key is satisfied when it is supplied or its group has a supplied member. |
| Constraints.ValidateConstraints | ait-node/src/terminal.js:2113-2159 | The transitive pass accepts exactly by the one-step rule on the supplied keys; the conflict reported is the first one, with all supplied conflicts that the argument declares, in its order; otherwise the missing keys are those of the required set in the order of their discovery, and the usage line adds a required key exactly when an added "unless" argument needs one. |
| Constraints.ConflictsExactly | ait-node/src/terminal.js:2126-2127 | The conflicts of an argument that count are its declared ones that are supplied, each in its order and as often as declared. |
| Constraints.BaseExactly | ait-node/src/terminal.js:2136-2137 | The base is the required arguments in table order and then the required groups in table order. |
| Constraints.NotExcusedExactly | ait-node/src/terminal.js:2149-2151 | The arguments added by "unless" are those with no satisfied excuse, in table order. |
| Constraints.OneStepIsEnough | ait-node/src/terminal.js:2125-2154 | With the required set closed transitively, everything is satisfied exactly when no supplied keys conflict, everything required is satisfied, every direct requirement of a supplied key is, and every "unless" argument is supplied or excused. |
| Constraints.DirectNeedsCoverTheClosure | ait-node/src/terminal.js:2138-2152 | If the direct requirements are satisfied then so are all transitive ones. |
| Constraints.SharedKeysBreakOneStep | ait-node/src/terminal.js:2120-2122 | Around any three keys, a grammar in which the first names both an argument and a group, and on which the two rules part. |
| Constraints.OneSidedConflictsSuffice | ait-node/src/terminal.js:2125-2128 | The one-step decision is the same under the symmetric closure of the declared conflicts, and the closure of a well-formed grammar is well-formed, so the pass decides alike on both. |
| Constraints.ReportIsExact | ait-node/src/terminal.js:2152-2153 | The missing-argument report names every required and unsatisfied key once and no other, options before positionals. |
| Constraints.ReportKeepsOrder | ait-node/src/terminal.js:2152-2153 | Within options, and within positionals, the report keeps the order in which keys became required. |
| Constraints.UsageAddsNothing | ait-node/src/terminal.js:2155 | On the missing-argument path the usage line finds no new required key, exactly when the "unless" arguments that were added need nothing new. |
| Tokens.ParsedArguments.ValidateTokens | ait-node/src/terminal.js:2231-2300 | The pass accepts exactly the admissible token lists, reports the first inadmissible token, and overwrites values and positionals by their parsed texts. |
| Tokens.FlagPassesExactly | ait-node/src/terminal.js:2240-2270 | An option token passes exactly when it is declared, may occur again if it does, has no value if it takes none, and otherwise a value of its kind that is attached or not dash-led; a leading "=" is dropped only behind a short name. |
| Tokens.FlagErrorsExactly | ait-node/src/terminal.js:2240-2299 | Which error a declared option token gets, as an exact condition on the token for each error. |
| Tokens.LongWordBehind | ait-node/src/terminal.js:2250-2261 | When a long option stands where the value should, it is blamed without its "=" part exactly if no option has its name. |
| Tokens.ClusterBehind | ait-node/src/terminal.js:2250-2261 | When a short cluster stands there, its first letter is blamed exactly if no option has it and it is not h. |
| Tokens.PositionalPassesExactly | ait-node/src/terminal.js:2271-2281 | A positional passes, and is replaced by a text, exactly when there is room for it or the command is variadic, and the text is what the kind of its place promises, or the given text where no kind is declared. |
| Tokens.PositionalErrorsExactly | ait-node/src/terminal.js:2271-2278 | A positional is surplus exactly without room, and otherwise wrong exactly when it is no value of its kind. |
| Tokens.ValuesExactly | ait-node/src/terminal.js:2203-2229 | A value parses to a text exactly when the kind promises that text: an unchanged integer of the range, an unchanged choice, an unchanged non-empty path, or the one non-numeric trimmed core of a work reference between white space. |
| Tokens.ParsedValuesStay | ait-node/src/terminal.js:1821-1831 | Parsing a parsed value again changes nothing, for every kind but the native ones. |
| Pipeline.AdmissibleIsSupply | ait-node/src/terminal.js:2231-2300 | The left-to-right decision is a decision on what is supplied: each option by itself, each positional in its place, no forbidden repetition. |
| Pipeline.OrderOfOptionsIsFree | ait-node/src/terminal.js:2113-2300 | Permuting options, and moving them between positionals, changes neither the token pass's decision nor the supplied keys. |
| Pipeline.DecisionIgnoresOptionOrder | ait-node/src/terminal.js:2434-2447 | Whether a token list reaches the handler is free in the order of options. |
| Pipeline.ValueIsGiven | ait-node/src/terminal.js:2231-2300 | After the token pass a value is stored under a name exactly when an option of that name was given. |
| Pipeline.BooleanIsGiven | ait-node/src/terminal.js:2435 | After the token pass a boolean option is true exactly when it was given. |
| Pipeline.StoredValueIsOfItsKind | ait-node/src/terminal.js:2244-2280 | Under an option with a value the handler finds what the option's kind promises about the given text, its leading "=" dropped in a cluster. |
| Pipeline.RepeatableKeepsAll | ait-node/src/terminal.js:2244-2280 | A repeatable option reaches the handler as all its values in order exactly when the pass replaces none of them; otherwise one text is left. |
| Pipeline.HandlerConversionSucceeds | ait-node/src/terminal.js:395-404 | A handler that converts a stored integer option again gets the integer that the given text writes. |
| Pipeline.EnoughPositionals | ait-node/src/terminal.js:2440-2443 | When both passes accept there are enough positionals; this rests on the numbering of positionals. |
| Pipeline.FullComesWithJson | ait-node/src/terminal.js:2444-2446 | When both passes accept, --full comes with --json. |
| Pipeline.CheckCommandLine | ait-node/src/terminal.js:2434-2447 | The runner's checks end with the handler exactly for admissible, help-free token lists that meet the one-step rule; the two late checks never fire; a rejection carries the error of the first bad token, the first conflict, or the missing keys in order. |
| HelpScan.ArgumentsThroughHelp | ait-node/src/terminal.js:2302-2322 | The loops cut at the first help flag of the scan, whose steps the next row pins down. |
| HelpScan.StepExactly | ait-node/src/terminal.js:2305-2318 | Only "--" stops the scan; two words are consumed exactly by a long option without "=" whose name takes a value and by a cluster whose last letter is its first that takes one; help is asked exactly by the long flag or by the first h of a cluster before any such letter, and the cut is behind it. |
| HelpScan.CutExactlyAtReachedHelp | ait-node/src/terminal.js:2302-2322 | The cut is at a position exactly when the scan reaches it, step by step from the start, and it asks for help. |
| HelpScan.ValuesAreNotHelp | ait-node/src/terminal.js:2305-2317 | A word consumed as an option's value, or behind a scanned "--", is never taken as help. |
| HelpScan.ResultIsAPrefix | ait-node/src/terminal.js:2306-2312 | The result is the input or a prefix whose last word is the help flag or a cluster cut behind its h. |
| HelpScan.RestIsIrrelevant | ait-node/src/terminal.js:2306-2312 | What follows the help flag, in its cluster or in later words, has no effect. |
| HelpScan.CuttingIsIdempotent | ait-node/src/terminal.js:2302-2322 | Cutting twice is cutting once. |
| Descent.Descend | ait-node/src/terminal.js:2368-2420 | The walk ends within one more iteration than there are words, at the first command or the first word that stops it. |
| Descent.WalkHasOneOutcome | ait-node/src/terminal.js:2368-2420 | A walk has one outcome: two selections are at the same word, two ends without a command are at the same word and the same, and no walk has both. |
| Descent.SelectedNameIsConsumedWords | ait-node/src/terminal.js:2414-2419 | A selected name is the space-join of the non-empty consumed words; all names on the way have help and are no commands; empty words are only passed at the root. |
| Descent.FindCommand | ait-node/src/terminal.js:2358-2420 | Version flags, aliases and the empty command line, and then the walk. |
| Descent.AliasesExactly | ait-node/src/terminal.js:2362-2363 | Two spellings are rewritten in place and nothing else is. |
| Descent.EndsForValue | ait-node/src/terminal.js:2376-2381 | A help flag with a value, and at the root a version flag with one, is refused under its name. |
| Descent.EndsForCluster | ait-node/src/terminal.js:2382-2386 | A cluster of letters is read by its first one: help, the version at the root, or an unknown word of dash and letter. |
| Descent.EndsForPlainWord | ait-node/src/terminal.js:2414-2419 | Any other word leads on exactly when there is help below the name, and is unknown otherwise. |
| Descent.HelpForExactly | ait-node/src/terminal.js:2387-2400 | The word "help" shows the help of the whole path behind it, or blames the first part that leads nowhere. |
| Descent.ChildrenExactly | ait-node/src/terminal.js:2072-2080 | The children of a name are "help", the words listed right below it, one hidden command and two alternative spellings. |
| Descent.HelpExactly | ait-node/src/terminal-help.js:199-208 | Help for the word "help" exists below a listed name with listed names below it; for other words help has to be listed. |
| CommandRows.PullDecision | ait-node/src/terminal.js:1711 | The row of pull accepts exactly the key sets where --merge and --force come with --restore and --force without --merge. |
| CommandRows.BlameDecision | ait-node/src/terminal.js:1658 | The row of blame, with its cycle of --start and --end, accepts exactly the key sets with the path, a line or a whole range or neither, at most one version, and what --via-parent and --remote need. |
| CommandRows.ExternalUpdateDecision | ait-node/src/terminal.js:1704 | The row of external update, through its group, accepts exactly the key sets where the name comes with just one of --to and --latest, or --locked without any of them, or nothing. |
| CommandRows.TaskStartDecision | ait-node/src/terminal.js:1729 | The row of task start, through "required unless", accepts exactly the key sets with --intent, just one of --title and --from, not both scopes, and --full only with --json. |
| CommandRows.PullHandlerAgrees | ait-node/src/terminal.js:86-90 | On admissible tokens the handler of pull accepts the truth of the stored values exactly when the grammar accepts the tokens. |
| CommandRows.BlameHandlerAgrees | ait-node/src/terminal.js:126-142 | The grammar accepts exactly when there is a path and the handler of blame accepts the stored values. |
| CommandRows.ExternalUpdateHandlerAgrees | ait-node/src/terminal.js:311-322 | The grammar accepts exactly when the handler of external update accepts the stored values and the positionals. |
| CommandRows.TaskStartHandlerAgrees | ait-node/src/terminal.js:1866-1882 | The grammar accepts exactly when the handler of task start accepts the stored values and --full comes with --json. |
| CommandRows.TaskStartTables | ait-node/src/terminal.js:1729 | The row of task start and its options meet what the late-check result asks of the tables. |
| CommandRows.PullTables | ait-node/src/terminal.js:1711 | So do the row of pull and its options. |
| CommandRows.BlameTables | ait-node/src/terminal.js:1658 | So do the row of blame, its options and its one required positional. |
| CommandRows.ExternalUpdateTables | ait-node/src/terminal.js:1704 | So do the row of external update, its options and its optional positional. |
| Redaction.ReplaceFirst | ait-runner/src/error.rs:34-41 | The first occurrence is replaced and the search goes on behind it. |
| Redaction.RedactExactly | ait-runner/src/error.rs:29-45 | Redaction keeps the variant and replaces the secret in the message of every variant that has one; nothing else changes. |
| Redaction.RedactionIsSafeExactly | ait-runner/src/error.rs:29-45 | Every redacted text is free of the secret exactly when the secret cannot reappear: it is not inside the mark, does not cover it, does not begin with an end of it, and does not end with a beginning of it unless its own overlap prevents that. |
| Redaction.RedactedErrorsAreClean | ait-runner/src/error.rs:29-45 | For a secret without angle brackets, the messages of all redacted errors are free of it exactly when it is no part of "redacted". |
| Redaction.RedactingTwice | ait-runner/src/error.rs:29-45 | Redacting again then changes nothing. |
| Redaction.BracketSecretReappears | ait-runner/src/error.rs:29-45 | A message and a secret with a bracket for which redaction produces the secret. |
| Redaction.BoundedMessage | ait-runner/src/error.rs:55-66 | A bounded message is the message, or a prefix and an ellipsis of together max(max_chars, 1) characters; bounding shows no secret that the message did not contain. |
| AddonContract.Validate | ait-node/src/runtime.js:4122-4165 | The loop accepts exactly the contracts with a valid identity, six valid rows, and no target or package twice, and names the first bad row. |
| AddonContract.AcceptedContracts | ait-node/src/runtime.js:4122-4165 | A contract is accepted exactly when its head is the fixed one and its rows are six fixed rows in any order. |
| AddonContract.Loader.Load | ait-node/src/runtime.js:4117-4168 | A contract is validated once and then kept; a failed load keeps nothing. |
| AddonContract.SelectionByPigeonhole | ait-node/src/runtime.js:4197-4218 | For rows that list as many distinct targets of an injective table as there are, selection finds the row of every platform in the table and of no other. |
| AddonContract.SupportedPlatformsHaveOneRow | ait-node/src/runtime.js:760-767 | For every contract that loads, each supported os, cpu and libc has exactly one row, no other combination has any, and never two rows match. |
| EnvironmentNames.FamilyIsBuiltNames | ait-runner/src/environment_contract.rs:30-45 | A name matches the family's registry entry exactly when it is prefix, external name and suffix for some external name, and there is never more than one. |
| EnvironmentNames.ExternalNamesExactly | ait-runner/src/environment_contract.rs:40-44 | An external name has capital letters, digits and underscores, and not only underscores. |
| EnvironmentNames.AtMostOneEntry | ait-runner/src/environment_contract.rs:67-96 | No variable name matches two entries of the registry. |
| RepositoryIndexes.Normalize | ait-runner/src/main.rs:150-158 | The normalised list is strictly increasing and holds the given indexes. |
| RepositoryIndexes.NormalFormIsUnique | ait-runner/src/main.rs:150-158 | It depends only on which indexes are given. |

## Left out

- Similarity.Confidence: scores are exact reals; the source computes them in double precision, so a score could round across 0.7 or two scores could round to a tie.
- Ranking.SimilarValues: the characters are of any type, code points in the source; which names are candidates, and the layout of the tips, are not modelled.
- Tokens.ParsedArguments.ValidateTokens: what the overwritten values hold after a failure is not stated, because the runner drops them; the "=" that the source strips from a token's own value in place is stripped where the value is used.
- Pipeline.CheckCommandLine: the command's own `validate` and `invoke` are not run; the choice of the long or short help text is left out.
- AddonContract.Loader.Load: reading the file and the exact-key checks on its JSON are a typed contract here.
- Descent.FindCommand: the check for NUL characters, the tips of unknown subcommands and writing the texts are left out; help texts are a set of paths. Words are counted in code points where JavaScript counts UTF-16 units, so a dash followed by one astral character is reported here as that word, in the source cut behind the dash and half of the character.
- Descent.SelectedNameIsConsumedWords: that help paths are trimmed is an assumption about the help table, which is not modelled.
- Tokens.FlagCheck: an unknown option behind a value-less one is reported by its first two code points, in the source by its first two UTF-16 units.
- Native validators (patchset, review, authoring and floating-point values) are a function parameter of a command: given a text they yield a text, a rejection or a bridge failure.
- `parseArgs` of `node:util` itself: its token list is the input.
- Diagnostic wording, labels and the layout of `booleanValueUsage`: only sets and orders of keys are kept.
- A usage line for a command without a grammar row, and the error for a label of an undeclared key: every command has a row and every reference in the table resolves.
- The display prefix that an error adds before its message, and the FileSystem variant's path, are outside redaction in the source and here.
- The forwarding methods of `runtime.js`, the closures of the command table, addon path resolution and the rest of the runner's `main.rs`: calls into native code, or input and output.
- The snapshot, merge and storage crates of ait-core: this project is about the command-line engine and the runner's small contracts.
