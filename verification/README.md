# configlib, modelled and proved

configlib turns raw configuration facts (defaults, files, environment, command
line) into one governed value per key, keeps that ruling in a runtime store
that only validated transactions may change, and hands out scoped views and
text exports of it. This project models that core in Dafny and proves what its
documentation and tests promise.

The files follow the program:

- `Text`, `Ordering`, `Keys`, `Values`, `Scanner`, `Parsing`: strings, the
  iteration order of `std::map`, dotted keys, scalar values, the
  quote/escape/comment scanner and typed parsing.
- `Facts` (with `Sources` and `Diagnostics`), `Policy`, `Resolver`: facts are
  grouped by key, validated, sorted and decided. `ResolverLaws` says when a
  result is ok and who wins; `PrecedenceLaws` which source overrides which;
  `OrderLaws` what can and cannot matter; `Reports` what each diagnostic means.
- `Governed`, `Store`, `Runs`: the store's fixed rules and its overlay as values,
  the store and its transactions as objects whose methods are proved against
  those values, and every run of any number of interleaved transactions.
  `DefaultLaws` says which default a store knows and what resetting to it gives.
- `Views` (with the key algebra, `Prefixes`), `Exports`: key listing and export.
- `FileLoader`, `CliLoader` with `FileLaws`, `LineLaws`, `CliLaws`: the loaders and what
  each line and option does. `RoundTrip`: exported text read back, resolved again and
  found to be the same configuration.
- `Reasons`: no rejected fact and no speaking line goes without a diagnostic.

Conventions. A key is its dotted text, which is all that equality, ordering and
map lookups of `KeyPath` look at; the class `KeyPath` covers the part list kept
beside it. A double is an identity and the text it prints as, so different
doubles may print alike, and `std::stod` is a parameter. Integers are 64-bit.
Diagnostics keep severity, code, key and source. The operations a transaction
stages are `Op` values; `OpsOf` lists the four staged collections in the order in
which validation and application visit them, one call of `ValidateEach` or
`ApplyEach` for each loop. Exports are sequences of entries; `Render` writes
their text. The three `emit_key` lambdas are one class, `Emitter`, with the
scope (prefix, full or local names) as its parameter. Library calls (`std::sort`,
`strtoll`, `std::getline`, trimming by `std::find_if`) are functions with proved
characterisations. The export laws ask that base entries are filed under their own
keys (`ResolvedConfig::set` files them so, and resolution only uses it) and that
overrides and erases are disjoint, which `Runs.RunInvariant` gives in every run.
Integer texts follow section 7.22.1.4 of ISO/IEC 9899:2011, which has no binary prefix.
The laws of runs are about values; `Runs.Perform` ties real store and transaction objects
to them.
Definitions that methods and specifications share (the precedence table, access flags, export
modes, words and numerals, comment signs, codes, orders) each have a law that says what they
mean without using them, down to the flags, characters and codes.

Where the code does not do what one might expect, the code is kept:

- A dotted key inside a section is left as it is (`src/loaders.cpp:157`,
  `tests/test_files.cpp:31`), although `docs/FILE_DISCOVERY.md:83` says that it
  gets the section as a prefix: `FileLaws.DocumentedDottedKey` is the documented input,
  and `FileLaws.SectionPrefixesExactly` says that a line gets the prefix exactly when its
  key has no dot.
- A view's key listing is exact for every local key but the empty one, which the
  ill-formed full key "prefix." can add or take away; `Views.ListingExactly`
  gives the exact condition, `Views.EmptyStoreListsDanglingKey` a run that breaks it, and
  it always holds when keys are valid. The same key is the one on which qualifying does
  not undo localising (`Prefixes.QualifyLocalize`).
- Insertion order can decide a key's value: by request under FirstWins and LastWins, and as
  the tie-break among facts of top precedence otherwise (which is then reported). The value
  is independent of the order exactly when all facts that the key's conflict policy makes
  eligible show one value (`OrderLaws.OrderDecidesExactly`, `OrderLaws.FirstWinsByOrder`).
- Insertion order also decides, without a diagnostic, which default a store knows and a
  reset gives: the last inserted conforming one, whatever its precedence and the conflict
  policy, although `docs/FIRE_TESTING.md:130` says that conflicting defaults follow the same
  rules as other facts and `docs/API_FREEZE_CANDIDATE.md:49` that order must not silently
  decide. It is independent of the order exactly when all conforming internal defaults of
  the key show one value (`DefaultLaws.DefaultOrderExactly`); it is the one that the
  conflict policy would choose among them as `DefaultLaws.KnownDefaultIsWinnerExactly` says;
  `DefaultLaws.DefaultOrderIsSilent` is a run in which an ok resolution hides the difference.
- The integers 0 and 1, printed, are inferred as Bools (`Parsing.InferPrinted`).
- A string is exported unquoted and its newlines are written as they are. Exported entries
  read back exactly when every string among them has no newline and needs no quoting
  (`RoundTrip.TextRoundTrip`, and in every run `RoundTrip.ExportRoundTrip`); "a\nb" and " x"
  do not (`RoundTrip.NewlineAndSpaceAreLost`), and a string with a newline can have the text
  of two entries (`RoundTrip.NewlineMakesEntries`).
- "--flag=false" loads as true: an inline value is dropped and the option still loads exactly
  when it is a flag (`CliLoader.InlineValueIgnoredExactly`).
- An erase is not checked against Required. A required key stays present in every run
  exactly when it is not runtime-mutable (`Runs.RequiredStaysPresentExactly`); one staged
  and committed erase takes any mutable key away (`Runs.MutableKeyCanBeErased`), and
  nothing but its own erase does (`Runs.OnlyItsEraseRemoves`).

## Model

| member | source | states |
|---|---|---|
| Keys.IsValidDotted | src/key.cpp:17-24 | the index loop accepts exactly the dotted texts without empty parts |
| Keys.KeyPath.FromDotted | src/key.cpp:9 | a key made from its dotted text keeps the text and has its non-empty pieces as parts |
| Keys.KeyPath.FromParts | src/key.cpp:10 | a key made from parts keeps them and has their join as its dotted text |
| Keys.KeyPath.RebuildParts | src/key.cpp:34-41 | the getline loop refills the parts with the non-empty pieces |
| Keys.KeyPath.RebuildDotted | src/key.cpp:26-32 | the loop refills the text with the parts joined by dots |
| Keys.ValidIffRoundTrip | src/key.cpp:17-41 | a dotted text is valid if and only if joining its parsed parts gives it back |
| Keys.JoinThenSplit | src/key.cpp:26-41 | non-empty dot-free parts join to a valid key that splits back into them |
| Text.IsSpaceExactly | src/loaders.cpp:27 | the six space characters of the C locale |
| Text.TrimUnique | src/loaders.cpp:26-32 | trimming spaces, a tight text, spaces gives the tight text |
| Text.TrimSplit | src/loaders.cpp:26-32 | every text is spaces, its trimmed form, spaces |
| Text.GetLinesCons | src/key.cpp:38 | the first getline takes what precedes the first delimiter |
| Ordering.SortedKeysExact | src/resolver.cpp:116-122 | iterating a map visits each key once, in ascending order |
| Ordering.LessIsDictionary | src/key.cpp:44 | keys are ordered as texts: a proper beginning first, else by the first different character |
| Ordering.SortedKeysDictionary | src/resolver.cpp:116-122 | a map is visited in that order |
| Values.InInt64Exactly | src/value.cpp:12 | the range of a 64-bit integer |
| Values.DecimalTextReads | src/value.cpp:35 | the printed decimal digits denote the number, without a leading zero |
| Parsing.StrToLLExact | src/loaders.cpp:424-425 | strtoll in base 0 uses a whole text exactly when it is a signed decimal, octal or hexadecimal numeral, and converts it to the number denoted |
| Parsing.ParseIntExact | src/loaders.cpp:421-428 | a text parses as an integer exactly when, trimmed, it is a whole numeral that fits in 64 bits, and then as that number |
| Parsing.ParsePrintedInt | src/loaders.cpp:421-428 | every 64-bit integer, the minimum included, is parsed back from its printed text |
| Parsing.ParsePrinted | src/loaders.cpp:411-439 | every value but a double is parsed back from its printed text at its own type |
| Parsing.InferPrinted | src/loaders.cpp:441-449 | inference reads back every printed Bool and every printed integer but 0 and 1, which it reads as Bools |
| Parsing.ParseBoolExact | src/loaders.cpp:415-420 | a text parses as true exactly when, trimmed and letter case aside, it is 1, true, yes or on, and as false exactly when 0, false, no or off |
| Parsing.ParseValueExact | src/loaders.cpp:411-439 | what a text stands for at each type |
| Parsing.InferValueExact | src/loaders.cpp:441-449 | without a type: a Bool word, else an integer, else a double with a point, else the unquoted text |
| Parsing.DigitOfExactly | src/loaders.cpp:424 | the sixteen digits in either case |
| Parsing.NumeralExamples | src/loaders.cpp:424 | -0x1F, +017 and 90 are numerals with the values -31, 15 and 90 |
| Parsing.NearNumerals | src/loaders.cpp:424 | 08, 0b1, 0x, a lone sign and nothing are none |
| Scanner.StripInlineComment | src/loaders.cpp:38-49 | the flag loop cuts at the first comment sign outside quotes and escapes, and trims |
| Scanner.UnquoteCopy | src/loaders.cpp:51-76 | removes one pair of equal quotes and resolves the escapes between them |
| Scanner.UnescapeInner | src/loaders.cpp:57-72 | the escape loop, a backslash before the closing quote standing for itself |
| Scanner.EscapesExactly | src/loaders.cpp:60-66 | a backslash makes n, t and r a newline, a tab and a return, and leaves any other character |
| Scanner.ScanSign | src/loaders.cpp:46 | a comment sign, # or ;, ends the text outside quotes and is passed over inside |
| Scanner.ScanEscape | src/loaders.cpp:43 | a backslash takes the next character with it, in and out of quotes |
| Scanner.ScanQuote | src/loaders.cpp:44-45 | a quote opens and closes its own kind and is text inside the other |
| Scanner.UnquoteExactly | src/loaders.cpp:51-76 | only a pair of equal quotes is taken off |
| Scanner.StripIdempotent | src/loaders.cpp:38-49 | stripping a stripped text changes nothing |
| Scanner.StripOfTrim | src/loaders.cpp:131-133 | trimming before stripping makes no difference |
| Scanner.ScanQuoted | src/loaders.cpp:41-47 | the scanner passes over any escaped string in double quotes and resumes outside |
| Scanner.UnquoteQuote | src/loaders.cpp:51-76 | unquoting undoes escaping and quoting for every string |
| Scanner.SurvivesExactly | src/loaders.cpp:38-76 | an unquoted text survives stripping and unquoting exactly when it is tight, shows the scanner no comment and is not in quotes |
| Diagnostics.DiagnosticLog.AddError | src/diagnostic.cpp:19-21 | appends one error |
| Facts.FactSet.Add | src/fact.cpp:7-10 | appends a fact stamped with its position, keeping all stamps positions |
| Facts.FactSet.ForKey | src/fact.cpp:20-26 | the key's facts in order |
| Facts.FactsForExactly | src/fact.cpp:20-26 | exactly the key's facts, as often and in the order in which they were added |
| Facts.FactSet.Clear | src/fact.cpp:29 | empties the set |
| Policy.PolicySet.constructor | src/policy.cpp:7-14 | the initial precedence table and no key policies |
| Policy.PolicySet.SetPrecedence | src/policy.cpp:16-19 | changes one kind's precedence only |
| Policy.PolicySet.Key | src/policy.cpp:27-32 | yields the key's policy, created with defaults only when absent |
| Policy.PolicySet.Require | src/policy.cpp:34-39 | sets type and Required, keeping the rest of the key's policy and all other keys |
| Policy.PolicySet.MakeOptional | src/policy.cpp:41-46 | sets type and Optional, keeping the rest |
| Policy.PolicySet.AllowedStrings | src/policy.cpp:48-53 | replaces the allow-list by the given strings, keeping the rest |
| Policy.PolicySet.IntRange | src/policy.cpp:55-60 | sets both bounds, keeping the rest |
| Policy.PolicySet.Conflict | src/policy.cpp:62-65 | sets the conflict policy, keeping the rest |
| Resolver.ResolvedConfig.Set | src/result.cpp:9-11 | files the entry under its own key |
| Resolver.ValidateValue | src/resolver.cpp:17-51 | logs each violated rule of the policy in order and accepts exactly the values that meet it |
| Resolver.FactDiagsExact | src/resolver.cpp:17-51 | validation is silent exactly on values that meet the policy, and all it says are errors |
| Resolver.PickByOrder | src/resolver.cpp:59-69 | the earliest or the latest inserted candidate |
| Resolver.ReportDisagreements | src/resolver.cpp:71-78 | one conflict for each candidate whose value differs from the first |
| Resolver.ReportTopDisagreements | src/resolver.cpp:80-94 | the same among the leading candidates of top precedence, stopping at the first weaker one |
| Resolver.ChooseCandidate | src/resolver.cpp:53-97 | the choice and the diagnostics under all four conflict policies |
| Resolver.GroupFacts | src/resolver.cpp:105-114 | groups the application facts with valid keys at their effective precedence, in insertion order, and reports invalid keys |
| Resolver.ReportMissing | src/resolver.cpp:116-120 | reports each required key that has no fact, in key order |
| Resolver.FilterValid | src/resolver.cpp:129-135 | keeps the candidates that meet the policy, in order |
| Resolver.ResolveKey | src/resolver.cpp:122-140 | one key's turn: its diagnostics and its entry, or none without a conforming candidate |
| Resolver.ResolveGroups | src/resolver.cpp:122-140 | the loop over all groups in key order |
| Resolver.ResolveFacts | src/resolver.cpp:101-143 | the whole resolver computes the specified configuration and diagnostics |
| ResolverLaws.ChooseIsWinner | src/resolver.cpp:53-97 | the chosen candidate beats every other one: by precedence then insertion, or as the first or last inserted |
| ResolverLaws.ConfigShowsRulings | src/resolver.cpp:122-140 | the configuration has an entry exactly where there is a ruling, filed under its key, with the ruling's value and source and its candidates |
| ResolverLaws.RulingIsWinners | src/resolver.cpp:53-97 | a ruling is that of the one candidate that beats all others, the candidates being in insertion order |
| ResolverLaws.CandidatesExactly | src/resolver.cpp:105-135 | a key's candidates are exactly its conforming application facts at their effective precedence |
| ResolverLaws.OkMeansSilent | src/result.cpp:101 | a result is ok exactly when there is no diagnostic at all |
| ResolverLaws.OkExactly | src/resolver.cpp:53-143 | ok exactly when every application fact has a valid key and meets its policy, every required key has one, and the facts that compete agree |
| ResolverLaws.OkConfigKeys | src/resolver.cpp:101-143 | when ok, the configuration has exactly the application facts' keys, every required key among them |
| ResolverLaws.SameValueExactly | src/resolver.cpp:13-15 | two values agree exactly when they are equal, doubles when they print alike: an integer and a string never do |
| PrecedenceLaws.HighestStandingRules | src/resolver.cpp:53-114 | where precedence decides, a conforming fact rules if, by given precedence or else the table, it stands above all other conforming ones, the later above its equals |
| PrecedenceLaws.LowerStandingNeverRules | src/resolver.cpp:53-114 | and one that stands below another does not rule |
| PrecedenceLaws.HigherKindOverrides | src/policy.cpp:21-25 | of two facts added without precedence the one whose kind is higher in the table overrides the other, and rules if its kind is strictly highest |
| PrecedenceLaws.GivenPrecedenceOverrides | src/resolver.cpp:111-113 | a precedence that was given is compared as it is |
| PrecedenceLaws.AbsentKindCountsZero | src/policy.cpp:21-25 | a kind that the table does not have counts as zero |
| PrecedenceLaws.InitialTableOrder | src/policy.cpp:7-14 | with the initial table runtime overrides command line overrides environment overrides file overrides default |
| PrecedenceLaws.GivenAgainstInitialTable | src/policy.cpp:7-14 | where a given precedence falls among the kinds of the initial table: above 10 a default, 30 a file, 50 the environment, 60 the command line, 70 runtime |
| PrecedenceLaws.FileFactsStamped | src/loaders.cpp:160-175 | every fact of a file is an application fact of kind File with that kind's precedence in the table |
| PrecedenceLaws.CliFactsStamped | src/loaders.cpp:296-349 | likewise for the command line |
| PrecedenceLaws.CliOverridesFile | src/policy.cpp:7-14 | with the initial table a value from the command line overrides one from a file |
| Reports.FactDiagsMean | src/resolver.cpp:17-51 | the resolver reports each broken rule under its own code, about the fact, and nothing else |
| Reports.ResolutionReports | src/resolver.cpp:53-143 | a resolution's diagnostics are exactly the ill-formed keys, missing required keys, broken rules and conflicts, each with its code, key and source |
| Reports.DiagnosticsInOrder | src/resolver.cpp:105-140 | ill-formed keys are reported first, then missing ones, then what is wrong with the facts |
| Reports.OnlyErrorsCount | src/diagnostic.cpp:10-30 | only diagnostics of severity error make a log have errors |
| Reports.OpReports | src/store.cpp:175-212 | one staged operation is refused exactly because its key may not be changed or reset, has no default, or would get a value that breaks a rule, each with its code |
| Reports.TransactionReports | src/store.cpp:175-212 | a validation's diagnostics are exactly those of the staged operations |
| OrderLaws.OrderIndependent | src/resolver.cpp:101-143 | facts with the same set of claims, in any order and repetition, give the same verdict, rulings at the same keys, and the same shown value at each key whose eligible facts show one value, as they do when the verdict is ok wherever precedence or agreement decides |
| OrderLaws.PermutationIndependent | src/fact.cpp:7-10 | adding the same facts in a permuted order changes neither the verdict, nor which keys are ruled on, nor when ok any shown value, if no key uses FirstWins or LastWins |
| OrderLaws.OrderDecidesExactly | src/resolver.cpp:53-97 | under each conflict policy a key's value is independent of the order exactly when its eligible facts show one value: all conforming ones under FirstWins and LastWins, those of top precedence among them otherwise |
| OrderLaws.FirstWinsByOrder | src/resolver.cpp:59-63 | "a" and "b" from one source under FirstWins: the order decides |
| OrderLaws.Locality | src/resolver.cpp:105-140 | the ruling at a key depends only on that key's application facts in their relative order |
| OrderLaws.OtherKeysNeverMatter | src/resolver.cpp:105-140 | facts added for other keys never change a key's ruling |
| OrderLaws.LowerPrecedenceNeverMatters | src/resolver.cpp:53-97 | facts of strictly lower precedence than the winner never change the ruling under HighestPrecedenceWins, even when they break the policy |
| Governed.ValidatorsAgree | src/store.cpp:14-49 | the store's validator and the resolver's accept the same values |
| Governed.PolicyDiagsExact | src/store.cpp:14-49 | the store's validator is silent exactly on values that meet the key's policy |
| Governed.OpDiagsExact | src/store.cpp:175-212 | validating one staged operation is silent exactly when it is allowed |
| Governed.ValidatesByKey | src/store.cpp:175-212 | a transaction validates exactly when, at every key, what is staged there is allowed |
| Governed.OpsOfOrder | src/store.cpp:183-210 | validation and application visit sets, erases, base resets and default resets, each in key order |
| Governed.StagedApart | src/store.cpp:119-173 | after any staging calls no key is in two of the four collections |
| Governed.StagedIsLast | src/store.cpp:119-173 | the collections hold for each key the last operation staged on it |
| Governed.ReplayOpSlot | src/store.cpp:397-418 | applying one operation settles its own key and no other, and keeps overrides and erases disjoint |
| Governed.CommitRefinesReplay | src/store.cpp:216-220 | a successful commit has the effect of performing every staged operation one by one in call order |
| Governed.ApplyOrderImmaterial | src/store.cpp:397-418 | the order of the four apply loops, and of the keys in them, does not matter |
| Governed.CommitIdempotent | src/store.cpp:216-220 | committing twice equals committing once |
| Governed.CommitsCommute | src/store.cpp:397-418 | transactions on disjoint keys commute, whatever their verdicts |
| Store.AccessPolicy.RuntimeMutable | src/store.cpp:67-70 | changes that flag of that key only |
| Store.AccessPolicy.Exportable | src/store.cpp:72-75 | changes that flag of that key only |
| Store.AccessPolicy.Secret | src/store.cpp:77-82 | a key made secret is no longer exportable; unmaking it restores nothing; mutability and reset rights stay |
| Store.AccessPolicy.Resettable | src/store.cpp:84-87 | changes that flag of that key only |
| Store.ConfigStore.FromLayers | src/store.cpp:250-257 | a store over given layers, without runtime changes |
| Store.ConfigStore.CollectDefaults | src/store.cpp:238-245 | adds an entry's internal defaults, the last candidate winning |
| Store.ConfigStore.FromResult | src/store.cpp:230-248 | the store ruled by the result, the policies and the access rules, with the result's diagnostics and without runtime changes |
| Store.ConfigStore.Get | src/store.cpp:261-267 | the override, or nothing when erased, or the base value |
| Store.ConfigStore.ValidatePolicyValue | src/store.cpp:14-49 | logs each violated rule and accepts exactly when it logs none |
| Store.ConfigStore.ValidateMutation | src/store.cpp:387-395 | logs a denied mutation and the violated rules of the value, if there is one |
| Store.ConfigStore.ApplyOp | src/store.cpp:397-418 | one turn of an apply loop |
| Store.ConfigStore.ApplyEach | src/store.cpp:397-418 | an apply loop is the replay of its operations |
| Store.ConfigStore.ApplyTransaction | src/store.cpp:397-418 | the four loops together replay all that is staged |
| Store.ConfigStore.BeginTransaction | src/store.cpp:376 | a new transaction over this store with nothing staged |
| Store.ConfigTransaction.SetValue | src/store.cpp:119-126 | stages the value and takes the key out of the other collections |
| Store.ConfigTransaction.Erase | src/store.cpp:148-155 | stages the erase and takes the key out of the other collections |
| Store.ConfigTransaction.ResetToBase | src/store.cpp:157-164 | stages the reset and takes the key out of the other collections |
| Store.ConfigTransaction.ResetToDefault | src/store.cpp:166-173 | stages the reset and takes the key out of the other collections |
| Store.ConfigTransaction.ValidateOp | src/store.cpp:183-210 | one turn of a validation loop |
| Store.ConfigTransaction.ValidateResetDefault | src/store.cpp:197-210 | a default reset needs the reset right, a known default and the right to set it |
| Store.ConfigTransaction.ValidateEach | src/store.cpp:183-210 | a validation loop accepts exactly when all its operations are allowed, and logs all that is wrong |
| Store.ConfigTransaction.Validate | src/store.cpp:175-212 | accepts exactly when all that is staged is allowed; the diagnostics are those of this call only |
| Store.ConfigTransaction.Commit | src/store.cpp:216-220 | applies all when valid; a rejected commit leaves the store unchanged and the transaction with this call's diagnostics |
| Store.ConfigTransaction.Rollback | src/store.cpp:222-228 | nothing staged, nothing logged |
| Runs.RunInvariant | src/store.cpp:175-228 | in every run overrides and erases stay disjoint and concern mutable keys only, overrides meet their policies, and every transaction's collections stay apart |
| Runs.EveryValueMeetsPolicy | src/store.cpp:261-267 | whatever a store built from a resolution returns, in any state of any run, meets its key's policy |
| Runs.LockedKeysNeverChange | src/store.cpp:320-323 | a key that is not runtime-mutable has no runtime change and reads as its base value |
| Runs.FlagOffLocks | tests/test_store.cpp:54-57 | a key whose rule has the mutability flag off never changes in any run, and no transaction that stages a set, an erase or a default reset of it validates |
| Runs.FlagOnUnlocks | src/store.cpp:95-98 | with the flag on, or without a rule, a committed set or erase takes effect |
| Runs.ResetByFlag | src/store.cpp:110-113 | a reset to base takes effect exactly when the rule's reset flag is on or there is no rule, and is refused otherwise |
| Runs.CommitReplaysHistory | src/store.cpp:216-228 | in any run a commit performs the transaction's calls since its last rollback one by one, or nothing when it does not validate |
| Runs.VerdictIsStable | src/store.cpp:175-212 | no other transaction's steps, commits included, change a transaction's verdict |
| Runs.RecommitChangesNothing | src/store.cpp:216-220 | in any run committing again at once changes nothing |
| Runs.CommitsCommuteInRuns | src/store.cpp:397-418 | in any run commits of transactions on disjoint keys commute |
| Runs.MutableKeyCanBeErased | src/store.cpp:186-189 | a run that stages and commits one erase takes any runtime-mutable key away, required or not |
| Runs.RequiredStaysPresentExactly | src/store.cpp:175-228 | in a store built from an ok resolution a required key reads as some value in every run exactly when it is not runtime-mutable |
| Runs.OnlyItsEraseRemoves | src/store.cpp:397-418 | a base key reads as some value in every run that never stages its erase |
| Runs.Perform | src/store.cpp:119-228 | real store and transaction objects, driven through any interleaving of calls, end in the state of the modelled run |
| DefaultLaws.LastDefaultIs | src/store.cpp:241-245 | the last internal default among candidates in insertion order has the greatest stamp of all of them |
| DefaultLaws.KnownDefaultsExactly | src/store.cpp:237-246 | a key has a known default exactly when one of its conforming facts is an internal default, and it is the last inserted one |
| DefaultLaws.DefaultMeetsPolicy | src/store.cpp:237-246 | a known default meets its key's policy |
| DefaultLaws.ResetToDefaultWorks | src/store.cpp:197-210 | resetting a mutable, resettable key with a known default always validates, on top of any valid transaction, and after the commit the key reads as the default |
| Prefixes.QualifyComposes | src/view.cpp:29-33 | qualifying through q then p is qualifying through p.q |
| Prefixes.LocalizeQualify | src/view.cpp:29-47 | localising undoes qualifying, and a qualified key is owned |
| Prefixes.QualifyLocalize | src/view.cpp:29-47 | on an owned key qualifying undoes localising exactly when the key is not the prefix and a final dot; always on valid keys |
| Prefixes.OwnsComposes | src/view.cpp:35-39 | p.q owns a key exactly when p owns it and q owns its localised form |
| Views.ListingExactly | src/view.cpp:108-123 | a view lists a local key exactly when it accepts it, but for the stated condition on the empty local key |
| DefaultLaws.DefaultOrderExactly | docs/API_FREEZE_CANDIDATE.md:49 | under every policy and verdict the known default is independent of the order in which facts were added exactly when all conforming internal defaults of the key show one value |
| DefaultLaws.KnownDefaultIsWinnerExactly | docs/FIRE_TESTING.md:126-131 | the known default is the one the key's conflict policy would choose among its internal defaults: always under LastWins, under FirstWins when it is the only one, otherwise when the last has top precedence among them |
| DefaultLaws.ShadowedDefaultsDecideByOrder | src/store.cpp:237-246 | when two internal defaults stand below a stronger fact, resolution says nothing, rules for the stronger fact, and a committed reset reads as the default added last |
| DefaultLaws.DefaultOrderIsSilent | src/store.cpp:237-246 | the run for defaults m and n, in either order, below a file's 3 |
| Reasons.RejectionHasReason | docs/FIRE_TESTING.md:36-40 | an application fact that is not among its key's candidates is named by key and source in an error |
| Reasons.FactAccounted | docs/FIRE_TESTING.md:36-40 | each application fact is a candidate in its key's entry or is named in an error |
| Reasons.LoserHasReason | src/resolver.cpp:71-94 | a competing candidate that does not show the ruled value is named in an error |
| Reasons.LineAccounted | src/loaders.cpp:130-176 | a line that is not blank, a comment or a named header adds exactly one fact or one error with its line number; any other adds nothing |
| Reasons.LinesConserved | src/loaders.cpp:126-178 | a file adds as many facts and errors as it has such lines |
| Reasons.LineHeard | src/loaders.cpp:126-178 | for each such line of a file some fact or error carries its number |
| Views.DanglingKeyBreaksListing | src/view.cpp:108-123 | in any store, one committed value at a mutable "prefix." lists an empty local key that is not accepted, and one committed erase there hides one that is |
| Views.EmptyStoreListsDanglingKey | src/view.cpp:108-123 | the concrete run that stages "p." in an empty store |
| Views.ListingOfValidKeys | src/view.cpp:108-123 | with valid keys the listing is exact, so the final erase loop drops nothing live |
| Views.ResolvedKeysValid | src/resolver.cpp:108-111 | a store built from a resolution starts with valid keys only |
| Views.ListingInEveryRun | src/view.cpp:108-123 | in every run from valid base keys with valid staged keys a view lists exactly the local keys it accepts, each naming one effective key inside the prefix |
| Views.ListedOnce | src/view.cpp:122 | the returned list holds each listed key once |
| Exports.Emitter.Emit | src/store.cpp:348-354 | one emit_key call: nothing outside the scope, twice, or unexportable; the emitted set matches the output |
| Exports.Emitter.EmitOverrides | src/store.cpp:365 | the loop over the runtime overrides |
| Exports.Emitter.EmitBase | src/store.cpp:366-368 | the loop over the base entries that are not erased |
| Exports.Emitter.EmitErased | src/store.cpp:358-361 | the loop over the erased keys |
| Exports.ExportScope | src/view.cpp:129-156 | the export body shared by stores and views, in every mode |
| Exports.ExportStore | src/store.cpp:344-370 | the store's export |
| Views.ConfigView.Get | src/view.cpp:53-55 | reads the store at the qualified key |
| Views.ConfigView.Keys | src/view.cpp:108-123 | the listed local keys in ascending order |
| Views.ConfigView.CollectLocal | src/view.cpp:110-121 | one loop of the listing |
| Views.ConfigView.ExportConfig | src/view.cpp:129-156 | the view's export under full names |
| Views.ConfigView.ExportLocalConfig | src/view.cpp:158-186 | the view's export under local names |
| Exports.EffectiveExportExactly | src/store.cpp:344-370 | the effective export has one entry for each exportable effective key, with its value or redacted, and none for any other |
| Exports.ChangedExportAt | src/store.cpp:356-363 | the changed-only export names each exportable key with a runtime change once, with its override or its erasure, and no other key |
| Exports.ModesShow | src/store.cpp:344-370 | mode by mode and on the rules' flags: the four change modes show exactly the exportable changed keys, the two effective ones exactly the exportable keys with a value, secret ones redacted |
| Exports.ModesAlike | src/view.cpp:129-186 | in every scope the four change modes export alike, and so do the two effective ones |
| Exports.ChangedInOrder | src/store.cpp:356-363 | a changed-only export lists overridden keys in key order, then erased ones in key order |
| Exports.EffectiveInOrder | src/store.cpp:365-369 | an effective export lists overridden keys in key order, then base keys in key order |
| Exports.PatchedBaseIsEffective | src/store.cpp:344-370 | patching the untouched store's export with the changed-only export gives the effective export |
| Views.ViewExportIsFiltered | src/view.cpp:129-156 | in every mode a view exports the store's entries inside its prefix, in order |
| Views.LocalExportIsRenamed | src/view.cpp:158-186 | with valid keys the local export is that list under localised names |
| Exports.OnlyPublicKeysNamed | tests/test_fire.cpp:146-166 | in every mode and scope every entry is that of an owned, exportable key, shows its value only if it is not secret and its erasure only if it is erased |
| Exports.HiddenNeverMatters | src/store.cpp:344-370 | stores that differ only in which non-exportable keys there are, what these hold, and what secret keys hold, export the same entries in the same order in every scope and mode |
| FileLoader.ClassifyByText | src/loaders.cpp:131-134 | what a line is depends on its stripped text only |
| FileLoader.LoadLine | src/loaders.cpp:130-176 | one turn of the line loop: section, facts and diagnostics |
| FileLoader.LoadAssignment | src/loaders.cpp:150-175 | an assignment adds one fact or one diagnostic |
| FileLoader.LoadKeyValueFile | src/loaders.cpp:126-178 | the whole loader over the file's lines |
| FileLaws.ClassifyWritten | src/loaders.cpp:131-151 | any text written after a plain key and an equals sign is read as its own stripped form |
| FileLaws.QuotingIsExact | src/loaders.cpp:130-176 | every string, escaped inside double quotes after a plain key and before any comment, loads as exactly that string |
| FileLaws.SingleQuotesAreLiteral | src/loaders.cpp:44-56 | any text without a single quote or a backslash loads literally between single quotes, comment signs and double quotes included |
| FileLaws.CommentIsTail | src/loaders.cpp:46 | spaces followed by any comment, after '#' or ';', are such a trailing text |
| FileLaws.CommentLineIsBlank | src/loaders.cpp:131-134 | a line of spaces, with or without such a comment, says nothing |
| FileLaws.SectionsAreSugar | src/loaders.cpp:126-176 | blanking each plain header and writing each dotless key as section.key gives the same facts and diagnostics, line numbers included |
| FileLaws.SectionPrefixesExactly | src/loaders.cpp:157 | under a section a readable line files its fact at section.key exactly when its key has no dot, and at the key itself otherwise |
| FileLaws.DottedKeyKeepsItsName | tests/test_files.cpp:25-31 | below any plain header a dotted key keeps its own name |
| FileLaws.DocumentedDottedKey | docs/FILE_DISCOVERY.md:76-87 | the documented input files feature.enabled, not server.feature.enabled |
| LineLaws.LineSourceExactly | src/loaders.cpp:153 | a fact or error names the file and its line, and no other line |
| LineLaws.ClassifyExactly | src/loaders.cpp:137-151 | brackets around a name make a header; otherwise the first equals sign ends a key, and without one the line is refused |
| LineLaws.AssignmentMeans | src/loaders.cpp:150-175 | an assignment is refused for an empty or ill-formed key or a text not of the expected type, each with its code, key and line, and otherwise adds the one fact |
| LineLaws.OtherLineMeans | src/loaders.cpp:131-149 | a header sets the section, an empty header and a line without an equals sign are refused, each with its code |
| LineLaws.BoolWordReads | docs/LOADERS.md:148 | an unquoted word under a Bool policy loads as what it means in any letter case, or is refused |
| LineLaws.OnIsTrue | src/loaders.cpp:417 | "key = on" is true |
| LineLaws.QuotedTextReads | src/loaders.cpp:441-449 | a quoted text without a policy loads as itself, unless it means a Bool or an integer or has a point |
| LineLaws.QuotedNameIsItself | src/loaders.cpp:441-449 | "key = "svc"" is the string svc |
| RoundTrip.RenderExactly | src/store.cpp:51-56 | each entry is one line of key and text, or of a mark for a redacted and for an erased key |
| RoundTrip.StringLineReads | src/store.cpp:51-56 | a string without a newline is exported on a line that loads as a string, and as the same one exactly when it needs no quoting |
| RoundTrip.TextRoundTrip | src/store.cpp:51-56 | the rendered text of entries of expected types reads back as one fact per entry, in order, with key, value and line, and no diagnostic, exactly when every string among them has no newline and needs no quoting |
| RoundTrip.NewlineMakesEntries | src/store.cpp:51-56 | a string that holds a newline and the line of another entry has the text of two entries |
| RoundTrip.NewlineAndSpaceAreLost | src/store.cpp:51-56 | "a\nb", which needs no quoting, and " x" do not read back |
| RoundTrip.ExportRoundTrip | src/store.cpp:344-370 | in every reachable state, if the exported keys can be carried, the effective export reads back under the same policies as exactly one fact per entry without a diagnostic exactly when every exported string fits its line |
| RoundTrip.ReloadedConfigIsExport | src/resolver.cpp:101-143 | resolving what was read back gives exactly the exported keys and values, and is ok exactly when every required key was exported |
| RoundTrip.ReloadReadsTheSame | src/loaders.cpp:118-179 | facts, resolved, changed by any run, exported, read back and resolved again read at every exportable key as the running store does |
| CliLoader.FindRuleIsFirst | src/loaders.cpp:112-116 | the first rule for the option, none exactly when no rule has it |
| CliLoader.ComplainUnknown | src/loaders.cpp:84-87 | silent, a warning or an error, as the policy says |
| CliLoader.LoadOption | src/loaders.cpp:308-345 | one option token, with or without an inline value, and whether it consumed the next argument |
| CliLoader.LoadArgs | src/loaders.cpp:296-349 | the whole token loop |
| CliLoader.LoadFormsAgree | src/loaders.cpp:308-335 | splitting "opt=v" into "opt" and "v" wherever the loop looks at a token leaves facts and diagnostics unchanged |
| CliLaws.OptionMeans | src/loaders.cpp:308-345 | an option and its value give one fact with the rule's key, a value of the rule's type and the option as source, or one parse error |
| CliLaws.TypedOptionMeans | src/loaders.cpp:337-344 | which value, type by type |
| CliLaws.LoneOptionMeans | src/loaders.cpp:316-335 | an unknown option, an ill-formed rule key, a flag and a missing value, each with its code |
| CliLaws.NextArgumentMeans | src/loaders.cpp:330-335 | an option takes the next argument exactly when it has no inline value and its rule has a valid key and takes one |
| CliLaws.PositionalMeans | src/loaders.cpp:300-306 | a first non-option is the program's name, a later one an unknown input |
| CliLaws.PortIsInt | tests/test_loaders.cpp:55 | "--port" "10001" under an Int rule is the integer |
| CliLoader.InlineValueIgnoredExactly | src/loaders.cpp:325-328 | "opt=v" reads as "opt" alone, whatever v, exactly when the option takes no value, and adds a fact then exactly when it is a flag |
| CliLoader.FlagFalseIsTrue | src/loaders.cpp:325-328 | "--flag=false" loads as true |
| CliLoader.ArgumentsConserved | src/loaders.cpp:296-349 | with unknown inputs reported, the arguments are the skipped program name, facts, diagnostics and separately consumed values, counted exactly |

## Left out

- The C interface (`src/c_api.cpp`), schemas (`src/schema.cpp`) and struct bindings: wrappers and independent per-key checks over the same core.
- File opening, discovery, `environ` and argv pointers: input and output; the file loader starts from the file's lines and the command-line loader from strings.
- `load_environment` and `load_internal_defaults`: the pattern of the command-line loader with weaker laws, and a plain loop.
- Floating-point printing, parsing and range: doubles are abstract, and since printing loses digits no double round trip holds.
- Message and explanation texts, enum names, versions: no behaviour depends on them.
- Typed getters, `*_or` getters, `add_default` and its kind, and the setters of the loader policies: one-line wrappers; loader policies are values here.
- Aliasing through the references that `FactSet::add`, `PolicySet::key` and `AccessPolicy::path` return: a caller may use them to change a stored fact, policy or rule afterwards; the model has value updates only.
- A transaction without a store (`src/store.cpp:177-180`): the constructor takes a reference, so the branch is not reachable through it.
- Copying and moving stores: a transaction goes on referring to the object it was begun on (`docs/LIFETIMES.md` only says that it must not outlive it), and what a moved-from store holds is not modelled.
- Policy.PolicySet.Key: returns the policy's value, not a reference through which a caller may edit the stored policy.
- Parsing.ParsePrinted: excludes doubles, because their printed text loses digits.
- RoundTrip.ExportRoundTrip: excludes doubles and secret keys that were made exportable again, since neither is written in full.
