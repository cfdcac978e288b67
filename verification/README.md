# A model of the condition library's decision core

This project models the decision core of a Go library for conditions, rules and decision packages, and proves properties of
that model. `dafny verify dfyconfig.toml` checks all of it.

* **Ranking** (`Ranker*.dfy`, from `ranker.go`): a hand-written in-place quicksort over a seven-key order, the selectors
  that must agree with it, fallbacks, and the weighted pick over the top tier.
* **Bytecode** (`Bytecode*.dfy`, `StableSort.dfy`, from `bytecode.go`): the name registry, the compiler from condition
  trees to stack code, the adapter that fills typed facts from nested values, the stack machine, the equality index, and
  whole programs. `BytecodeExpr.dfy` gives conditions the meaning the library's own evaluator gives them
  (`value_helpers.go`, `dsl_helpers.go`, `functions.go`, `rank_native.go`); the compiler, the machine and the index are
  measured against it. `BytecodeResults.dfy` says which rules fire, in which order, and what they come to.
* **Rule engine and workflows** (`Rules.dfy`, `Engine.dfy`, `EngineResults.dfy`, `Workflow.dfy`, from `engine.go`), and
  their agreement with the compiled program (`EngineParity.dfy`). `Folds.dfy` holds the sums, concatenations and last
  entries in which results are described.
* **Audit chain** (`Audit.dfy`, `Decimals.dfy`, from `decision_server.go`): the appending store and the verifier of whole
  chains.
* **BCL text** (`Bcl*.dfy`, `GoQuote.dfy`, `Utf8.dfy`, from `bcl/bcl.go`): scanner, value and map parsers with the grammar
  they read (`BclGrammar.dfy`), printers, and nested condition blocks with the and/or/not text made of them. `WordLexer.dfy`
  shows that what is asked of the expression lexer can be met.
* **Fact trees** (`FactTree.dfy`, `FactHeap.dfy`, `FactPaths.dfy`, `BclFacts.dfy`, from `source.go`, `facts.go` and
  `bcl/bcl.go`): storing at a path in linked maps and growing slices, and looking paths up.
* **Effects** (`Effects.dfy`, from `decision_platform.go`): which effect a request ends with.

Code that changes things step by step is written as methods over arrays and objects, each proved against a function of its
inputs; the properties are lemmas about those functions. Maps and slices that Go links by reference are cells of a store,
so that in-place writes, regrown arrays and reassigned slices are visible; the tree they show is a ghost field.

Where a promise does not hold of the code, the code is kept, a lemma gives an input that breaks the promise, and the exact
condition under which it holds is proved for all inputs:

* compiled comparisons against the meaning of conditions (`CompareCorrect`): integer facts and float literals
  (`TruncationExact`, `TruncationDeviates`), ordered strings (`StringsExact`, `StringOrderDeviates`), null
  (`NullDeviates`), values of unlike kinds (`UnlikeDeviates`), times (`TimeDeviates`), ordered booleans; compiled set tests
  (`InCorrect`, `InDeviates`), `between` (`BetweenCorrect`, `TimeDeviates`) and `exists` (`ExistsCorrect`,
  `ExistsDeviates`);
* ids past the width of their type (`IdsInjective`, `NameOfId`, `IdsWrap`), and unregistered action types
  (`UnknownActionCollides`);
* the equality index below an `or` (`IndexSafeExactly`, `OrIndexUnsafe`) and for a whole program (`IndexAgreesExactly`,
  `OrIndexVisible`);
* the order in which Go's map visits the buckets of that index, which shows when rules tie in priority, salience,
  specificity and id (`OrderInvisibleExactly`, `TiedCommuteExactly`, `TieVisible`);
* deny- and allow-overrides when a rule both allows and denies (`DenyOverridesExact`, `AllowOverridesExact`,
  `MixedRulesDeviate`);
* fallbacks when a candidate repeats the winner's identifier (`FallbacksComplete`, `RepeatedIdLost`);
* floats that print without a dot (`RestoredUnchanged`, `ValueRoundTrip`, `WholeFloatDeviates`), and empty maps and keys
  when facts are flattened (`ReplayRebuilds`, `EmptyMapLost`);
* keys with dots in printed maps (`MapRoundTripExactly`);
* paths that a store overwrites, indexes written with leading zeros among them (`KeptExactly`, `LeadingZeroCollides`);
* blocks without lines in a condition, which are dropped whatever they would come to (`HarmlessExactly`,
  `EmptyAnyIgnored`).

Floating point is modelled over `real`. SHA-256, FNV, JSON, clocks, the expression language's own lexer and evaluator,
Go's float printing and its tables of printable runes are parameters.

## Model

| member | source | states |
|---|---|---|
| RankerOrder.BetterTotal | ranker.go:656-676 | any two results are ordered one way or have all seven keys equal, never both |
| RankerOrder.BetterTransitive | ranker.go:656-676 | the seven-key order is transitive, with BetterAsymmetric a strict order |
| RankerOrder.BetterAsymmetric | ranker.go:656-676 | no two results are each better than the other |
| RankerOrder.LeTransitive | ranker.go:656-676 | "not worse" is transitive, which the sort's splits rely on |
| RankerOrder.LeByKeys | ranker.go:656-676 | an entry that is not worse is eligible if the other is, then has the higher priority, then the higher specificity, then the higher score, then the lower cost, then the lower fallback, then the smaller id |
| RankerSort.MedianOfThree | ranker.go:692-701 | the first, middle and last element end in order, the range permuted; these are the sentinels of the unguarded scans |
| RankerSort.ScanUp | ranker.go:705-707 | the unguarded upward scan stops at or before a sentinel, everything passed being not worse than the pivot |
| RankerSort.ScanDown | ranker.go:708-710 | the same downward |
| RankerSort.PartitionStep | ranker.go:704-716 | one turn of the Hoare loop keeps the split and the sentinels and brings the indexes together |
| RankerSort.Partition | ranker.go:692-716 | the range is permuted and split at the pivot, and both sides are strictly smaller than the range |
| RankerSort.InsertionSort | ranker.go:731-740 | the short range ends sorted and permuted, the rest of the array untouched |
| RankerSort.QuickSort | ranker.go:686-729 | the range ends sorted and permuted, the rest untouched, and 2 to the depth of nested calls is at most the range's length |
| RankerSort.SortCandidateResults | ranker.go:678-684 | the whole slice ends as a permutation of itself ordered by betterCandidate |
| RankerSort.RangePermuted | ranker.go:686-729 | a rearranged range holds the same multiset |
| RankerSort.SettledAfterLeft | ranker.go:717-727 | after sorting the smaller left part, what is left to the loop is settled against everything outside it |
| RankerSort.SettledAfterRight | ranker.go:717-727 | the same for the right part |
| RankerSort.InsertedSorted | ranker.go:731-740 | shifting and inserting at the right place extends the sorted prefix |
| RankerAssess.EvalEligibility | ranker.go:588-617 | a rule or nested group is evaluated to its three-valued outcome (holds, fails, error), first error or decisive member first |
| RankerAssess.EvalEligibilityGroup | ranker.go:619-654 | the same for all, any and none groups |
| RankerAssess.RuleOutcomeExactly | ranker.go:588-617 | a rule holds if and only if it is disabled, or its own condition and its nested group hold; it fails if and only if it is enabled, neither of the two errs and one of them fails |
| RankerAssess.GroupOutcomeExactly | ranker.go:619-654 | an all group holds iff every member holds and fails iff a member fails behind members that hold; an any group holds iff a member holds behind members that fail and fails iff every member fails; a none group the other way round; otherwise it errs |
| RankerAssess.GroupMeaning | ranker.go:619-654 | without errors an all group holds iff every member does, any iff one does, none iff none does |
| RankerAssess.NormalizeOrdered | ranker.go:999-1017 | a scaled score lies in 0..1 with the bounds at the ends; a better metric never scores less in either direction |
| RankerAssess.NormalizeExactly | ranker.go:999-1017 | a value that lies at a share of the way from the lower to the upper bound scores that share, or one less that share when lower is better; with no bounds it counts as it is |
| RankerAssess.ScoreMetricValueIsMetric | ranker.go:578-586 | taking priority and cost from the cached comparison values never changes the metric |
| RankerAssess.ApplyScoreRule | ranker.go:519-545 | one score rule: its condition, the missing metric in strict and lenient mode, and the points added |
| RankerAssess.RankCandidateNative | ranker.go:505-547 | the candidate is turned away, or errs, exactly when the conditions of its rules and score rules say so; its score is the sum they describe, an ineligible one scoring zero, and its comparison values are the metrics at their paths |
| RankerAssess.RankCandidateInto | ranker.go:770-844 | the stored result is eligible exactly when the rules and score rules say so, with the described score and keys; an ineligible one keeps the sum gathered up to the rule that turned it away, which the ranked order then uses |
| RankerAssess.AssessmentAgrees | ranker.go:549-576 | when every condition evaluates alike natively and interpreted, both paths assess the candidate alike |
| RankerAssess.AssessmentExactly | ranker.go:505-547 | a candidate is eligible if and only if every rule is disabled or holds, no score condition errs and in strict mode no applicable metric is lacking; it errs if and only if a condition errs before it is turned away; when eligible its score is the rules' scores, disabled ones included, and the normalised metric times weight of each score rule that applies |
| RankerAssess.AssessedExactly | ranker.go:770-844 | the entry in the ranking: that eligibility and score, and four comparison keys that are the metrics at their own paths, or 0, 0, the greatest float and 0 |
| RankerAssess.CanRankNative | ranker.go:549-576 | true exactly when every condition of the rules, however deep in groups, and of the score rules has a native form |
| RankerSelect.RankInto | ranker.go:253-308 | on the native evaluator if every condition has a native form and on the interpreted one if not, the ranking is a sorted permutation of all assessments; there is a winner, the first entry, if and only if some candidate meets its rules, and an error if and only if one errs |
| RankerSelect.SelectBestInto | ranker.go:349-391 | on the evaluator chosen alike, the loop's best is the best of all eligible assessments, none iff no candidate meets its rules, an error iff one errs |
| RankerSelect.SelectBestID | ranker.go:316-347 | the native loop over identifier, score and comparison values alone finds the best of all eligible native assessments, none iff no candidate meets its rules, an error iff one errs |
| RankerSelect.AssessmentsExactly | ranker.go:253-391 | the assessments of a request are one per candidate, each as its own rules, scores and metrics describe, or an error if and only if some candidate errs |
| RankerSelect.BestExactly | ranker.go:316-391 | the best is an eligible candidate whose keys nobody eligible exceeds: priority, then specificity, then score, then the lower cost; there is one if and only if a candidate meets its rules |
| RankerSelect.BetterSelectionIsBetter | ranker.go:742-759 | the comparison on identifier, score and cached values equals betterCandidate on the results |
| RankerSelect.SelectorsAgree | ranker.go:253-391 | the ranking's winner and both selectors' choices agree in every key, identifier and score included, or all find none; no two candidates need different identifiers |
| RankerSelect.PathsAgree | ranker.go:549-576 | when every condition evaluates alike, the native and the interpreted assessments of all candidates are the same, errors included |
| RankerSelect.SelectorsAgreeAcross | ranker.go:253-391 | all three agree, though the identifier's selector is always native, when every condition has a native form or every condition evaluates alike natively and interpreted |
| RankerSelect.SelectFallbacks | ranker.go:393-415 | the fallbacks are the other eligible candidates of the ranking on the evaluator chosen alike, cut at a positive limit |
| RankerSelect.FallbacksComplete | ranker.go:393-415 | with no limit, winner and fallbacks are every eligible candidate exactly once if and only if no other eligible candidate has the winner's identifier |
| RankerSelect.RepeatedIdLost | ranker.go:393-415 | two eligible candidates with one identifier, of which the second is neither winner nor fallback |
| RankerSelect.FallbacksOrdered | ranker.go:393-415 | fallbacks keep the ranked order |
| RankerWeighted.CollectBucket | ranker.go:437-468 | whatever the candidates' conditions, the streaming bucket ends as exactly the natively eligible candidates of the greatest (priority, specificity), in request order, with their summed weight |
| RankerWeighted.TierMembers | ranker.go:453-467 | the tier holds exactly the eligible candidates at its keys, every weight positive |
| RankerWeighted.TierExactly | ranker.go:453-467 | the tier is, in request order, exactly the eligible candidates at its priority and specificity, each weighing its own metric if that is positive and 1 if it is absent or not |
| RankerWeighted.BestInTier | ranker.go:316-347 | the best candidate of the other selectors is in the top tier |
| RankerWeighted.Pick | ranker.go:474-482 | over reals the pick loop always returns, and returns the entry whose half-open prefix-sum interval holds the hash point |
| RankerWeighted.IntervalUnique | ranker.go:474-482 | only one entry's interval holds the point |
| RankerWeighted.StableHash | ranker.go:761-768 | the point is the remainder of the hash by the total weight, so it lies from zero up to the total |
| RankerWeighted.SelectWeightedID | ranker.go:417-483 | the selection is the picked entry of the top tier, none iff nobody is eligible, an error iff an assessment fails |
| BytecodeRegistry.Registry.constructor | bytecode.go:109-129 | a new registry's name tables are empty |
| BytecodeRegistry.Registry.Field | bytecode.go:131-139 | a known name keeps its id, a new one gets the next number, wrapped to 16 bits |
| BytecodeRegistry.Registry.Namespace | bytecode.go:153-161 | the same for namespaces, 32 bits |
| BytecodeRegistry.Registry.Intern | bytecode.go:163-171 | the same for strings, 32 bits |
| BytecodeRegistry.Registry.ActionRef | bytecode.go:188-196 | the same for action references |
| BytecodeRegistry.Registry.ActionType | bytecode.go:181-186 | a registered action keeps its type, an unknown one takes its reference number as type |
| BytecodeRegistry.IdStable | bytecode.go:131-171 | a name's id does not change as names are added |
| BytecodeRegistry.IdsInjective | bytecode.go:131-171 | all names have different ids and none has zero if and only if there are fewer names than the id's width can count |
| BytecodeRegistry.NameOfId | bytecode.go:173-179 | looking an id up gives its (non-empty) name back if and only if its position has not wrapped |
| BytecodeRegistry.IdsWrap | bytecode.go:131-179 | a table as long as its width, whose last name has id 0 and is not found, and a longer one in which two names share an id |
| BytecodeCompiler.CompileLiteral | bytecode.go:793-820 | kind, raw value and float of a literal, strings interned on the way |
| BytecodeCompiler.AddSetTo | bytecode.go:822-849 | the set's parts are appended sorted, its id is the number of sets before it, wrapped |
| BytecodeCompiler.CompileCompareExpr | bytecode.go:741-768 | instruction and tables after compiling a comparison, or no code for the same shapes |
| BytecodeCompiler.CompileBytecodeExpr | bytecode.go:664-739 | instructions and tables after compiling an expression, or no code for the same shapes |
| BytecodeForms.CompilesExactly | bytecode.go:664-768 | a condition compiles, whatever was compiled before, if and only if every part of it below and, or and not is a literal, a comparison of a path with a literal, a test of a path against a list of literals, exists of one path, or between of a path and two numbers |
| BytecodeCompiler.CompileGrows | bytecode.go:664-768 | compiling only extends names, strings and sets, so ids handed out before stay valid |
| BytecodeFacts.FactSlots.Grow | bytecode.go:213-224 | every slot keeps its value, new ones are missing |
| BytecodeFacts.FactSlots.SetString | bytecode.go:238-242 | the one slot holds the string id, grown to if need be, and no other changes |
| BytecodeFacts.SetTypedValue | bytecode.go:1200-1239 | the path and a string are registered and the value stored in the slot of the path; nil, kinds it does not keep and the empty path store nothing |
| BytecodeFacts.AdaptAnyValue | bytecode.go:1241-1303 | the walk over nested maps, structs and lists, in whatever order members come, makes exactly the stores of its flattened paths |
| BytecodeFacts.WalkExactly | bytecode.go:1241-1303 | the stores are exactly the plain values that some steps into the nested value lead to, each under the names and indexes of its steps with dots between, empty names left out and an index in first place put behind items |
| BytecodeFacts.NamedExactly | bytecode.go:1200-1239 | of several facts at one path the last that has a value is the one that holds, nil replacing nothing |
| BytecodeFacts.AdaptFacts | bytecode.go:466-484 | the slots are emptied first, so nothing of an earlier value remains |
| BytecodeFacts.AdaptRepresents | bytecode.go:1200-1303 | whatever the registry held before, the slots the adapter fills represent the named facts it met, in the tables it leaves, as long as no id has wrapped; a later fact at a path replaces an earlier one and nil replaces nothing |
| BytecodeVM.SearchPart | bytecode.go:1013-1041 | binary search in a sorted part equals membership |
| BytecodeVM.EvalIn | bytecode.go:1013-1041 | a set test equals plain membership in the part of the fact's kind |
| BytecodeVM.EvalInstructions | bytecode.go:851-905 | the stack loop with its jumps accepts exactly when the run's final top value is true; empty code accepts |
| BytecodeVM.ExecIsRun | bytecode.go:851-905 | without jumps the loop is a run of the code from left to right |
| BytecodeVM.JumpsExactly | bytecode.go:851-905 | a jump is taken exactly when the top value is the one it asks for, and never on an empty stack |
| BytecodeVM.AcceptsExactly | bytecode.go:851-905 | empty code accepts, code that leaves nothing does not, and any other accepts exactly when the last value it leaves is true |
| BytecodeCorrect.TruncationExact | bytecode.go:970-979 | an integer fact against a float literal compares as on numbers if and only if a condition on operator, fact and fraction holds |
| BytecodeCorrect.TruncationDeviates | bytecode.go:970-979 | 2 == 2.5 is true for the compiled code and false for its meaning |
| BytecodeCorrect.StringsExact | bytecode.go:951-955 | string operators on interned ids compare as on strings, or as on numbers when both are written as numbers, if and only if a condition on the two strings and their ids holds |
| BytecodeCorrect.StringOrderDeviates | bytecode.go:951-955 | "a" < "b" is false for the compiled code when "b" was interned first |
| BytecodeCorrect.CompareCorrect | bytecode.go:907-968 | a comparison instruction gives the comparison's meaning if and only if operator, fact and literal are in no deviating case: a truncated float, a string order, an absent fact under null or !=, unlike kinds, ordered booleans, a time, which equals no literal and is ordered by its text, against a literal's raw operand |
| BytecodeCorrect.NullDeviates | bytecode.go:907-934 | an absent fact fails == null and passes != null, and a present one fails != null, where the evaluator says the opposite |
| BytecodeCorrect.UnlikeDeviates | bytecode.go:936-968 | 5 != "a" and 5 == "5" are false for the compiled code and true for the evaluator |
| BytecodeCorrect.TimeDeviates | bytecode.go:942-944 | a time of zero equals null, and one of five equals 5 and lies between 1 and 9, for the compiled code and not for the evaluator |
| BytecodeCorrect.AddSetCorrect | bytecode.go:822-849 | the appended set, reached by its wrapped id in any later program, accepts exactly the facts for which a literal of the fact's own kind and value is listed |
| BytecodeCorrect.InCorrect | value_helpers.go:84-132 | that is the meaning of in, equality with some listed literal, if and only if no literal of another kind equals the fact without one of its own doing so |
| BytecodeCorrect.InDeviates | bytecode.go:1013-1041 | 2 in [2.0] is false for the compiled code |
| BytecodeCorrect.BetweenCorrect | dsl_helpers.go:192-203 | a compiled between gives its meaning if and only if the fact is a string outside the bounds as text, a time inside or outside both by its seconds and by its text, or a number, or absent |
| BytecodeCorrect.ExistsCorrect | functions.go:76-86 | a compiled exists answers as the evaluator does, errors included, if and only if the fact at its path is a string that names something the facts answer |
| BytecodeCorrect.ExistsDeviates | bytecode.go:698-706 | exists(a) accepts a = 5, an error for the evaluator, and a = "b" where there is no b; exists("a") does not compile |
| BytecodeCorrect.CompileSorted | bytecode.go:822-849 | every set a compilation leaves is sorted, as the binary searches need |
| BytecodeCorrect.CompileCorrect | bytecode.go:664-905 | for every compiled expression and facts on which its comparisons, set tests and calls are exact, in any later state of the tables, the code run on any stack pushes exactly one value, the expression's meaning, and never underflows |
| BytecodeCorrect.VerdictIsMeaning | bytecode.go:851-905 | so the machine ends with that one value and the verdict is the meaning |
| BytecodeIndex.AlwaysPushes | bytecode.go:664-905 | exact or not, every compiled expression pushes one value and never underflows |
| BytecodeIndex.IndexSound | bytecode.go:1104-1134 | a rule whose indexed equality is reached through && alone accepts only facts that hold its key |
| BytecodeIndex.IndexSafeExactly | bytecode.go:1104-1134 | for any nesting of and and or, filing a rule under its first equality is safe for given facts if and only if the rest of the condition, that equality taken as false, does not hold while the key fails |
| BytecodeIndex.NeededThroughAnd | bytecode.go:1104-1134 | an equality reached through and alone is needed: nothing of the condition holds without it |
| BytecodeIndex.OrIndexUnsafe | bytecode.go:1107-1112 | a compiled or, and facts that it accepts and its key shuts out |
| BytecodeProgram.BuildIndex | bytecode.go:344-379 | every rule of a namespace is listed once, and either under its key or among the defaults, all lists in evaluation order, rules that tie in the order of the rule set |
| BytecodeProgram.SortSame | bytecode.go:513-528 | when no two rules tie in priority, salience, specificity and id, any two lists of the same rules sort to the same list |
| BytecodeProgram.Candidates | bytecode.go:486-503 | the candidates are what some order of the buckets, each visited once, leaves: the defaults, then the buckets whose key holds, stably sorted, by the order that CandidatesInOrder spells out |
| BytecodeProgram.Evaluate | bytecode.go:409-464 | the result of a program is the evaluation of the candidates that some order of the buckets leaves, one after the other, under the mode's stop condition, which EvaluatedExactly spells out |
| BytecodeResults.CandidatesInOrder | bytecode.go:486-528 | in every order of the buckets, of two candidates the one of greater priority comes first, then of greater salience, then of greater specificity, then of smaller id |
| BytecodeResults.EvaluatedExactly | bytecode.go:409-464 | whatever the modes of program and rules: the candidates within their times whose code accepts fire in that order, and are applied up to and with the first that ends the run; ids and actions are theirs in order, the score is the sum of the scores of their actions, allowed is decided by the last allow or deny action and the decision by the last rule that has one |
| BytecodeResults.OneMode | bytecode.go:448-460 | when program and rules have one mode, as compiled ones do, the first-match and highest-priority modes apply one rule, the overrides all up to the first that denies or allows, the other modes all |
| BytecodeResults.HighestPriorityExactly | bytecode.go:448-450 | in the highest-priority mode the only id is that of a firing rule that no firing rule is ahead of in priority, salience, specificity and id, and there is none if and only if none fires |
| BytecodeScan.PassingKeepsResult | bytecode.go:409-464 | leaving out rules that would not fire changes no part of the result in any mode |
| BytecodeScan.OrderInvisibleExactly | bytecode.go:486-528 | for any property of rules, firing among them: the candidates with it come in the order of a scan in every order of the buckets if and only if, of two of them that tie, the one compiled first has no key or has the other's key |
| BytecodeScan.OrderKeepsResult | bytecode.go:486-528 | the result is the same in every order of the buckets when no two candidates that fire tie harmfully |
| BytecodeScan.OrderInvisible | bytecode.go:486-528 | when no two rules tie, there is one list of candidates |
| BytecodeScan.TiedCommuteExactly | bytecode.go:428-447 | two rules that tie may change places, whatever fired before, if and only if their actions read the same in either order and they do not set different decisions |
| BytecodeScan.TieVisible | bytecode.go:486-528 | two compiled rules without ids, both firing and both holding their keys: visited one way the buckets end in the scan's denial, the other way in an allowance |
| BytecodeScan.IndexAgreesExactly | bytecode.go:409-528 | with different rule ids, and in every order of the buckets, indexed evaluation equals a scan of the whole namespace if and only if every rule the scan fires holds its own key |
| BytecodeScan.FiringPassIsEnough | bytecode.go:409-528 | whatever the ids and the order of the buckets, indexed evaluation equals the scan if every rule the scan fires holds its key and no two rules that fire tie harmfully |
| BytecodeScan.OrIndexVisible | bytecode.go:409-528 | a one-rule program that allows when scanned and not when indexed |
| BytecodeScan.IndexInvisible | bytecode.go:409-528 | so it does in every mode and every order of the buckets when accepting a rule's condition implies its key and no two rules that fire tie harmfully |
| BytecodeRuleSet.FirstEqualityIndex | bytecode.go:1104-1134 | the first equality below any nesting of and and or, left before right, its names registered on the way |
| BytecodeRuleSet.CompileActions | bytecode.go:1043-1078 | the actions the decision and score imply, then the rule's own |
| BytecodeForms.ImpliedExactly | bytecode.go:1043-1053 | a decision to allow or deny comes first as an action, then a score that is not zero, cut off behind the point; nothing else is implied |
| BytecodeForms.OwnExactly | bytecode.go:1054-1077 | the rule's own actions follow one by one with their numbers, those that allow, deny or score under those types |
| BytecodeRuleSet.CompileBytecodeRule | bytecode.go:624-662 | the compiled rule and the registry and sets it leaves, or an error for the same conditions |
| BytecodeRuleSet.SpecificityExactly | bytecode.go:1080-1102 | the specificity of a condition is the number of its comparisons and of its calls of exists, as its compiled code has them |
| BytecodeRuleSet.RuleExactly | bytecode.go:624-662 | a compiled rule keeps id and times, its namespace and decision ids stand for the names given as long as none has wrapped, its actions are the implied ones and its own, and priority and salience are the rule's cut to 32 bits |
| BytecodeRuleSet.RulesExactly | bytecode.go:624-662 | every compiled rule has the program's mode and as specificity the number of tests in its code |
| BytecodeRuleSet.CompileRuleSet | bytecode.go:321-381 | the program, or an error, of the enabled rules in order, indexed |
| BytecodeForms.RulesCompileExactly | bytecode.go:321-381 | a rule set compiles if and only if the condition of every rule does, of disabled ones too |
| BytecodeRuleSet.CompiledIndexInvisible | bytecode.go:321-528 | for every compiled rule set whose indexed equalities are reached through && alone, indexed evaluation equals scanning every rule, in every mode and every order of the buckets in which no two firing rules tie harmfully; and its code never underflows and its sets are sorted |
| Engine.ApplyMatchedRule | engine.go:423-446 | matched id, score, decision and allowed flag after a rule and its actions |
| Engine.EvalRulesWithNext | engine.go:287-319 | result, next stage and error of a rule list in its order: disabled and inactive rules skipped, the stop condition of the mode, the first next stage |
| EngineResults.EvalExactly | engine.go:287-319 | how far a rule list is read: up to an error, the first next stage, the first that stops its mode, or its end; of the rules read, those that are enabled, within their times and true fire; ids, score and actions are theirs in order, the decision is the last one given, and allowed is decided by the last word among their decisions and actions that allows or denies |
| EngineResults.SortedExactly | engine.go:386-395 | of two rules in the engine's order the earlier has the greater priority or, at equal priorities, no smaller salience |
| EngineResults.SortedKeepsTies | engine.go:386-395 | rules that tie in both stay in the order given, and none is lost |
| Engine.RuleDecides | engine.go:514-554 | a rule that only allows leaves allowed true, one that only denies false, one that does neither leaves it |
| Engine.DenyOverridesExact | engine.go:287-319 | deny-overrides ends allowed exactly when some firing rule allows and none denies, if and only if the first denying rule's own decision and actions end in a deny |
| Engine.AllowOverridesExact | engine.go:287-319 | allow-overrides ends allowed exactly when some firing rule allows, if and only if the first allowing rule's own decision and actions end in an allow |
| Engine.MixedRulesDeviate | engine.go:287-319 | a deny decision with an allow action passes deny-overrides, an allow decision with a deny action fails allow-overrides |
| Engine.OverridesIgnoreOrder | engine.go:287-347 | when no rule both allows and denies, both hold and neither depends on the order of the rules |
| Workflow.EvalWorkflow | engine.go:253-280 | the stages run are all different, each entered from the one before, up to no stage, a repeated one, an unknown one or an error; ids and actions are the stages' in order, the score is their sum, matched holds iff some stage matched, the decision is the last given, and allowed is decided by the last stage that allows or denies, false iff that one denies, and false when there is none |
| Workflow.CollectedAddsUp | engine.go:397-417 | merging the results of stages one after the other comes to that, whatever the stages |
| Workflow.EndingExactly | engine.go:253-280 | the run ends in an error exactly when its last stage errs, is done exactly when no stage comes next, and otherwise names the repeated or unknown stage |
| Workflow.WalkUnique | engine.go:253-280 | there is one whole run only, so path, result and ending are determined |
| Workflow.ReachesUnique | engine.go:253-280 | a start and facts give one path only |
| Workflow.LoopExactlyWhenRepeated | engine.go:253-280 | a loop is reported exactly when following the next function from the start repeats a stage before reaching no stage, an unknown stage or an error |
| Workflow.NothingBeyond | engine.go:253-280 | following the next function from the start reaches no stage after the end of a run that did not loop |
| EngineParity.EvalTwins | engine.go:287-319 | a list of rules and the list of their compiled forms give the same ids, decision, allowed and score in every mode |
| EngineParity.EngineOrder | engine.go:386-395 | the engine's sort leaves the enabled rules in the one order of priority and salience |
| EngineParity.ScanOrder | bytecode.go:513-528 | the program's order of a namespace is the engine's, when rules do not tie in priority and salience |
| EngineParity.CompiledMirrors | bytecode.go:624-662 | a compiled rule has the id, times, rank, actions, decision and stop behaviour of its source rule |
| EngineParity.CompiledAgrees | bytecode.go:851-905 | where the engine gives a condition its meaning and the compiled comparisons are exact, engine and compiled code agree on the condition |
| EngineParity.EngineAndScanAgree | bytecode.go:321-464 | engine and compiled rules agree on matched ids, decision, allowed and score in every mode, whatever the rule ids, for plain rules that do not tie and on each of whose conditions the two agree |
| EngineParity.EngineAndIndexedAgree | bytecode.go:409-528 | so does the indexed program, in every order of the buckets, wherever every rule that fires holds its own key |
| EngineParity.EngineAndProgramAgree | bytecode.go:321-464 | so they do, in every mode and every order of the buckets, when every condition means the same to both and no indexed equality lies below an or, on facts filled in at any later time |
| EngineParity.EngineAndAdaptedAgree | bytecode.go:466-484 | and on whatever nested value the adapter is given after compiling |
| EngineParity.UnknownActionCollides | bytecode.go:181-196 | an unregistered action type acts as allow, deny or score if and only if it is among the first three names referenced, or among the first three after any 65,536 |
| Audit.FormatInt | decision_server.go:794-806 | the backward-filled buffer holds the decimal digits of every non-negative 64-bit number, and nothing for a negative one |
| Decimals.NumberInjective | decision_server.go:794-806 | different numbers have different digits |
| Audit.ChainInputInjective | decision_server.go:788-792 | the newline-joined layout determines all five fields when the middle ones hold no newline |
| Audit.ChainInputAmbiguous | decision_server.go:788-792 | with a newline in a field two different records have one layout |
| Audit.VerifyAuditChain | decision_server.go:66-93 | a chain is accepted exactly when every envelope is intact, linked to the one before and numbered one above it |
| Audit.VerifiesExactly | decision_server.go:66-93 | accepted means of every envelope: a positive number, one above the one before; the previous hash is the one before's chain hash, or empty for the first; the payload hash is that of its record; and the chain hash is that of number, time, id and the two hashes joined by newlines |
| Audit.TamperEvident | decision_server.go:66-93 | two accepted chains with the same last hash have the same length and equal fields except signatures, given injective non-empty hashes |
| Audit.MemoryDecisionStore.SaveAuditEnvelope | decision_server.go:170-196 | the store holds the log of the saves so far; a save whose context is over is refused and changes nothing, not even the counter |
| Audit.MemoryDecisionStore.ListAuditEnvelopes | decision_server.go:211-222 | the listing is the run's log, each envelope once and in order |
| Audit.IdsDistinct | decision_server.go:170-196 | no two envelopes of any run have the same id |
| Audit.RunVerifies | decision_server.go:66-93 | the log of every run of saves is accepted: numbered 1 to n, each record once and in order, every envelope linked to the one before |
| Audit.StoreSound | decision_server.go:170-222 | so in every reachable store the listing is accepted, ids are all different, and the last hash kept is that of the last envelope |
| GoQuote.QuoteRoundTrip | bcl/bcl.go:2491-2493 | unquoting what the slow path writes gives back every byte string, valid UTF-8 or not, whatever runes count as printable |
| GoQuote.PlainRoundTrip | bcl/bcl.go:2494-2498 | unquoting a string written on the fast path gives it back |
| GoQuote.EscapesExactly | bcl/bcl.go:1522 | what unquoting makes of an octal and a hexadecimal escape, octal ones above a byte being refused |
| Utf8.DecodeEncode | bcl/bcl.go:2491-2493 | decoding a rune undoes encoding it, whatever follows |
| Utf8.EncodeDecode | bcl/bcl.go:2491-2493 | encoding undoes decoding on every string that is not broken there |
| BclScanner.BclScanner.constructor | bcl/bcl.go:129 | the scanner starts at the first byte, line 1, column 1 |
| BclScanner.BclScanner.Next | bcl/bcl.go:131-249 | the token at or after the position, the scanner left at its end; line and column are always the position's true line and column |
| BclTokens.CommentIgnored | bcl/bcl.go:141-147 | taking a comment out of a text, up to the end of its line, leaves the tokens that follow as they were |
| BclTokens.BlankIgnored | bcl/bcl.go:136-140 | so does taking blanks out in front of a token |
| BclTokens.OnlyBlanksSkipped | bcl/bcl.go:131-150 | where there is no comment only spaces, tabs and carriage returns are passed over, and all of them |
| BclTokens.WordExactly | bcl/bcl.go:131-249 | a longest run of word bytes is one token, a number if it reads as one and an identifier if not |
| BclTokens.StringExactly | bcl/bcl.go:200-226 | from a quote to the next one not behind a backslash is one token, line breaks included, and without one the rest of the text is |
| BclValue.BclParser.ParseValue | bcl/bcl.go:1313-1355 | value and following token of the grammar, or an error; the scan always advances, so it ends |
| BclValue.BclParser.SkipLines | bcl/bcl.go:1509-1513 | the first token that is not a newline |
| BclValue.AppendString | bcl/bcl.go:2491-2508 | the destination followed by the quoted string, escaped exactly when a byte needs it |
| BclValue.AppendValue | bcl/bcl.go:2448-2467 | the destination followed by the printed value |
| BclValue.AppendItems | bcl/bcl.go:2469-2478 | the destination followed by the bracketed list |
| BclValue.ParseDecimal | bcl/bcl.go:1320-1323 | reading a printed 64-bit integer gives it back |
| BclValue.ValueParses | bcl/bcl.go:1313-1355 | a printed value inside any delimited text is parsed to what it restores to, and the parser stops at the delimiter |
| BclGrammar.SpellingParses | bcl/bcl.go:1313-1355 | every spelling of a value, with newlines and commas wherever the grammar lets them stand, is read to its meaning, and the parser stops behind it |
| BclGrammar.ValueSpelled | bcl/bcl.go:1313-1355 | conversely, whatever the parser accepts is a spelling of the value it gives |
| BclValue.RestoredUnchanged | bcl/bcl.go:2458-2459 | a value is restored unchanged if and only if every float in it prints with a dot |
| BclValue.WholeFloatDeviates | bcl/bcl.go:2458-2459 | a float that prints as "1" comes back as the integer 1 |
| BclValue.ValueRoundTrip | bcl/bcl.go:2448-2508 | printing and parsing gives the same value and stops at the delimiter if and only if every float in it prints with a dot |
| BclValue.FloatFreeDotted | bcl/bcl.go:2448-2508 | strings, flags, integers and nested lists of them always do |
| BclFacts.SetFactPath | bcl/bcl.go:1638-1663 | storing in place on linked maps has the effect on the tree that the root map shows, failures included |
| BclFacts.AssignSucceeds | bcl/bcl.go:1638-1663 | a store fails exactly on an empty segment |
| BclFacts.AssignLeaves | bcl/bcl.go:1638-1663 | rebuilding part of a map, a store adds its own value and keeps every other |
| BclFacts.ReplayRebuilds | bcl/bcl.go:1281-1311 | replaying a map's entries in any order, repeated or not, rebuilds it if and only if it has no empty key and no empty map inside |
| BclFacts.EmptyMapLost | bcl/bcl.go:1281-1311 | a map that holds only an empty map has no entries and comes back empty |
| BclMap.SplitDots | bcl/bcl.go:1303-1304 | splitting a dotted key gives back the keys it was made of |
| BclMap.ParseMapBlock | bcl/bcl.go:1281-1311 | map and following token of the block grammar, or an error, the map filled in place |
| BclGrammar.BlockParses | bcl/bcl.go:1281-1311 | a block of entries in any spelling, with newlines wherever they may stand, is read to the stores of its entries in order, and the parser stops behind the closing brace |
| BclGrammar.BlockSpelled | bcl/bcl.go:1281-1311 | conversely, whatever the parser accepts as a map block is a spelling of entries whose stores make the map it gives |
| BclMap.EntryParses | bcl/bcl.go:1292-1302 | one printed entry scans as its key, an equals sign and its value |
| BclMap.AppendInlineEntries | bcl/bcl.go:2408-2431 | in whatever order the keys come, the text lists every value of the nested map under its dotted path, and nothing else |
| BclMap.AppendFactsEntries | bcl/bcl.go:2376-2398 | the same, one entry a line |
| BclMap.MapRoundTrip | bcl/bcl.go:1281-1311 | a nested map printed in either layout and any order parses back to itself, and the parser stops behind the closing brace |
| BclMap.MapRoundTripExactly | bcl/bcl.go:1281-1311 | if every dotted key reads as one word, the map comes back if and only if none of its keys holds a dot |
| BclMap.SpacedKeyLost | bcl/bcl.go:1281-1311 | a printed key with a space in it does not parse |
| BclMap.AppendInlineBlock | bcl/bcl.go:2400-2406 | what it appends parses back to the map |
| BclMap.AppendFactsBlock | bcl/bcl.go:2362-2374 | what it appends parses back to the map; an empty map appends nothing |
| BclCondition.JoinConditions | bcl/bcl.go:1469-1493 | the joined text: nothing, the one expression, or all of them in parentheses around the operator |
| BclCondition.ParseConditionLines | bcl/bcl.go:1435-1467 | text and next position of the line grammar |
| BclCondition.TrimExactly | bcl/bcl.go:1472 | trimming takes the blanks off both ends and nothing else |
| BclCondition.LinesParse | bcl/bcl.go:1435-1467 | every call returns the position just past the brace that matches its own, and the text of exactly its block |
| BclCondition.MissingBrace | bcl/bcl.go:1435-1467 | for any lines, closing a brace at their end changes no text: a block that is not closed ends with the lines |
| BclCondition.TreeRoundTrip | bcl/bcl.go:1435-1493 | the text of any tree reads back, under or below and below not, with the tree's meaning, whatever its lines contain; a block in which nothing counts has no text |
| BclCondition.HarmlessRoundTrip | bcl/bcl.go:1435-1493 | the text is true exactly when all, any or not all of the items are, for trees in which every block without lines is what its parent ignores: true inside all and not, false inside any |
| BclCondition.FilledHarmless | bcl/bcl.go:1435-1493 | trees without empty blocks are such trees |
| BclEmptyBlocks.HarmlessExactly | bcl/bcl.go:1435-1493 | for trees whose lines are atoms that occur once, that condition is exact: text and tree agree under every assignment if and only if every block without lines is harmless |
| BclCondition.EmptyAnyIgnored | bcl/bcl.go:1452-1457 | an empty any block inside all is dropped, though nothing in it holds |
| BclConditionText.Normalize | bcl/bcl.go:1384-1406 | the condition of a block's raw text, structured or not |
| BclConditionText.StrayBrace | bcl/bcl.go:1394-1405 | what stands behind a brace that closes nothing is put with and, and joined to the tree in front of it, each in parentheses if both are there |
| BclConditionText.RenderLines | bcl/bcl.go:1408-1421 | the lines of a written tree are the tree's lines, however it is indented |
| BclConditionText.BlockMeaning | bcl/bcl.go:1384-1495 | the condition made of a written tree has the tree's meaning |
| FactHeap.FactHeap.Write | source.go:234-238 | one assignment to a linked map or slice changes the tree shown by the root at that one place |
| FactTree.Written | source.go:222-279 | the same for any place reached by a path: nothing is reached twice, so nothing else changes |
| FactTree.FollowShows | facts.go:73-93 | references and tree lead to the same places |
| FactPaths.SetFactPath | source.go:222-279 | storing in place, arrays regrown and reassigned on the way, has the effect on the tree that the root shows, failures and what they leave behind included; when it succeeds and what it creates, SetSucceeds and SetShape say |
| FactPaths.SetSucceeds | source.go:222-279 | a store succeeds if and only if no segment is empty and every node already on the way is a map, or a slice that the segment indexes, a nil in a slice counting as absent |
| FactPaths.EmptyRootStores | source.go:222-279 | from an empty root that is: no segment is empty |
| FactPaths.SetShape | source.go:233-279 | after a successful store a container created on the way is a slice if its segment parses as an index and a map if not, holding that member alone, a slice being filled up with nil; one that was there keeps its kind and all its other members |
| FactPaths.AssignSlice | source.go:281-313 | the slice is stored at its place and the tree changes there alone |
| FactPaths.GrowSlice | source.go:328-335 | the same array, or a longer copy filled up with nil that nothing refers to yet |
| FactPaths.LookupParts | facts.go:73-133 | the lookup follows the references to where the tree has the value, or fails where the tree does |
| FactPaths.SetThenLookup | source.go:222-279 | after a successful store the path holds the value |
| FactPaths.SetUnchanged | source.go:222-279 | a successful store changes nothing if and only if the path held the value already |
| FactPaths.KeptExactly | source.go:222-279 | after a successful store a path keeps what it held if and only if the place it leads to and the place stored at are apart, neither at or below the other, or the store changed nothing |
| FactPaths.SetKeeps | source.go:222-279 | a store, successful or not, keeps every value on a path that parts from its own; what is new elsewhere is only nil in a grown slice |
| FactPaths.StoredAndKept | source.go:222-279 | for canonical paths: the value is there, and every path neither prefix nor extension keeps what it held |
| FactPaths.LeadingZeroCollides | source.go:320-326 | a store at a.01 overwrites a.1 |
| Effects.EvaluateRules | decision_platform.go:705-740 | one policy's rules: the effects of the matching ones up to a stopping one are resolved in order |
| Effects.EvaluatePolicies | decision_platform.go:698-751 | the policies' effect by membership: deny iff a deny takes part, review iff one does and no deny, escalate iff one does and neither of those, allow iff one does and none of the three, an unknown effect only when none of the four does, abstain iff all abstain; an error iff a condition fails |
| Effects.PoliciesExactly | decision_platform.go:698-751 | the effects that take part are those of the matched rules up to a stopping one in every policy that applies, and the default of each in which none matched; an error iff a condition reached in one of them errs |
| Effects.ApplyRuleSets | decision_platform.go:494-514 | rule-set decisions take part in order, an abstaining one without effect |
| Effects.RuleSetsExactly | decision_platform.go:494-514 | the decisions that take part are those of the rule sets that apply and decide, in order; an error iff one of those that apply fails |
| Effects.Evaluate | decision_platform.go:466-559 | effect, decision text and allowed flag of a request, the effect by membership among all that takes part; allowed is true exactly when the effect is allow |
| Effects.WinnerGreatest | decision_platform.go:1085-1090 | the winner of a list ranks at least as high as all before it and above all after it |
| Effects.WinnerByMembership | decision_platform.go:1068-1090 | what wins a list of effects, by membership: deny, review, escalate, allow, an unknown one, abstain, in this order |
| Effects.FinalEffectGreatest | decision_platform.go:494-538 | the final effect takes part, or abstains when nobody does, and none that takes part ranks above it; among equals a policy's wins |
| Effects.FinalByMembership | decision_platform.go:494-538 | the same of the final effect, over the policies' effects and the rule sets' decisions together |
| Effects.DecisionExactly | decision_platform.go:494-538 | the decision text is the last rule set's, or without rule sets the policies' effect; where that is empty or abstains, it is the final effect |
| Effects.NormalizeExactly | decision_platform.go:1049-1066 | the effect of a text is its trimmed lower-case form, and abstain for blanks |
| Effects.AllowedExactly | decision_platform.go:1092-1103 | whatever the decision text says, allowed ends up true exactly for the effect allow |
| Effects.DecisionCanDisagree | decision_platform.go:506-512 | a policy's deny stands while a rule set's decision text says allow |
| StableSort.Search | bytecode.go:1013-1041 | binary search finds the first index from which a monotone test holds |
| StableSort.SortedUnique | engine.go:386-395 | elements that never tie have one sorted order only |
| StableSort.SortPermutes | engine.go:386-395 | a stable sort is a permutation |

## Left out

- Floating point: no NaN, infinities, rounding or overflow of conversions; the guard at the end of the weighted pick, which
  only rounding can reach, is shown unreachable over reals.
- RankerSelect.SelectBestInto: identifier, score and keys only; the result's reasons, actions and events share storage with
  the scratch result and are not modelled.
- RankerAssess.RankCandidateInto: no reasons, actions, events or traces; the native and interpreted paths collect different
  nested actions, so they are compared on eligibility and score.
- RankerSelect.PathsAgree: that conditions evaluate alike natively and interpreted is its hypothesis; of the
  native evaluator (`rank_native.go`) only the comparisons are modelled, in `BytecodeExpr.dfy`.
- RankerWeighted.SelectWeightedID: the hash key's text and the FNV sum are one parameter, and weights come from the same
  metric function as the other paths.
- BytecodeVM.EvalInstructions: no backward jumps (the compiler emits no jumps at all), and code that underflows is excluded,
  where the Go library panics; compiled code is proved never to.
- BytecodeCorrect.CompileCorrect: calls other than `exists` and `between` do not compile in the Go library and give no code
  here; conditions with inexact comparisons, set tests or calls are excluded, exactly those being named by `CompareCorrect`,
  `InCorrect`, `BetweenCorrect` and `ExistsCorrect`, and so are the two names in other spellings, which only the compiler
  accepts.
- BytecodeCorrect.CompareCorrect: values that have no order compare as not ordered, as in the lenient native evaluator, while
  the strict one reports an error. A condition that contains a call is evaluated by an interpreter outside the repository,
  whose operators are taken to be those of `value_helpers.go` too.
- BytecodeScan.OrderKeepsResult: one direction; rules that tie harmfully may still give one result, as
  `TiedCommuteExactly` says of two of them.
- BclMap.MapRoundTripExactly: keys that are not words together with their dots; `SpacedKeyLost` is one.
- BclEmptyBlocks.HarmlessExactly: lines that depend on each other, for which a harmful block may happen not to show.
- BytecodeFacts.AdaptAnyValue: reflection itself: struct tags, pointers and interfaces are already resolved, integers already
  converted to 64 bits, and a map's members come in some order; generated adapters and copies of typed facts.
- BytecodeProgram.Evaluate: the scratch buffers of the evaluation context and the event and payload parts of compiled
  actions; facts, time and the program are fixed during a call.
- BytecodeRuleSet.CompileRuleSet: rule ids are a function of the id text; parsing of conditions, and its errors, are a
  parameter; the compile option that sets another default execution mode.
- Engine.ApplyMatchedRule: action handlers with their errors and events.
- Engine.EvalRulesWithNext: rule groups, action handlers, events and traces; one clock reading per run.
- Workflow.EvalWorkflow: assignments, events and service-level fields of stages; several workflows in map order.
- EngineParity.EngineAndProgramAgree: covers rules with distinct (priority, salience) in 32 bits, whole-number scores,
  lower-case decisions, registered action types other than `score`, no stop flags or next stages; the engine's evaluator is
  assumed to give each condition its meaning, and in `EngineAndScanAgree` only to agree with the compiled code.
- Audit.MemoryDecisionStore.SaveAuditEnvelope: the mutex and signatures; a context is over or not for the whole call; and a
  store that has used up its 63-bit counter.
- BclValue.AppendValue: Go types without a case of their own, which print as the string of their default format; lists of
  strings print as lists of any values and are not kept apart.
- BclScanner.BclScanner.Next: the error-reporting copies of line and column inside tokens; the scanner's own are proved.
- BclMap.MapRoundTrip: keys must be words the scanner reads as one token; quoted keys parse but are never printed.
- BclConditionText.BlockMeaning: starts from the text between the braces; trimming that text and finding its closing brace
  are not modelled, and the expression lexer is required to read parentheses and connectives around complete texts.
- FactPaths.SetFactPath: values stored are nil or plain, as its callers store them; an index so large that no array can be
  allocated; facts whose maps or slices are shared between places.
- FactPaths.LookupParts: structs, pointers and maps of other key types, which the Go library reads by reflection.
- Effects.Evaluate: scores, actions, events, explanations and fingerprints; ranking and optimisation only as a possible
  error, since they change neither effect nor decision; lower-casing and case folding are ASCII.
- Whole BCL packages, imports, constant substitution and the package printer, which omits some fields on purpose.
- HTTP routing, authorization, SQLite, file polling, schema validation, simulation and diagnostics.
- The merging of results as an algebra: it re-reads earlier deny actions, so it is not associative, and no law is claimed.
