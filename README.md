# A Dafny model of the SpEL rule engine

The engine stores rules of the shape `condition THEN transformation`,
each with an output variable, grouped into named rulesets.  Executing a
ruleset runs its rules in order against a map of input facts: a rule whose
condition evaluates to exactly TRUE evaluates its transformation and stores
the result under its output variable.  Later rules can read it there, with
two exceptions: a null result does not hide a fact of the same name (and
removes the `#` variable), and an output name holding '.' or brackets
cannot be read back by name, because the resolver splits it as a path.
Expressions are Spring Expression Language (SpEL); the engine's own code is
what surrounds the evaluator, and that is what this project models:

- `SpelFunctions.dfy` (module `SpelFunctionUtils`): the null-tolerant
  string functions rules call (case mapping, lenient substring, variadic
  concat, length, contains/startsWith/endsWith, trim).  A Java `String`
  that may be null is an `Option<string>`.
- `PropertyAccess.dfy`: the two-layer resolver `PropertyAccessWrapper`
  as a class holding the copied facts and the mutable output layer, with
  the dotted-path walk `getNestedValue` and the `name[i]` list indexing of
  `handleArrayAccess`.
- `RuleParser.dfy`: `parseRule`, splitting a rule text at `THEN`.
- `RuleExecution.dfy`: `executeRuleset` and its null-safety helpers.
  SpEL is a parameter (`Spel`): a parser and two evaluators whose
  behaviour is never looked into; every property is proved for all of them.
  The loop is a method proved equal to the recursive specification
  `RunRules`, and the ordering, chaining, key and null-safety properties
  are lemmas about `RunRules`.
- `JavaStrings.dfy`: the parts of `java.lang.String` and
  `Integer.parseInt` the code relies on (`indexOf`, `contains`,
  `split` with its removal of trailing empty pieces, `trim`, decimal
  parsing).  `Values.dfy` holds the dynamic `Value` type of the facts and
  Java's `Map.get`, for which an absent key and a null value are the same.
  `Wrappers.dfy` holds `Option` and `Result`.

A thrown exception is a `Failure` carrying the exception's message.

## Model

| member | source | states |
|---|---|---|
| SpelFunctionUtils.UpperString | src/main/java/com/rules/service/service/SpelFunctionUtils.java:12 | upper-casing keeps the length and maps each character on its own |
| SpelFunctionUtils.LowerString | src/main/java/com/rules/service/service/SpelFunctionUtils.java:19 | lower-casing keeps the length and maps each character on its own |
| SpelFunctionUtils.ToUpperCase | src/main/java/com/rules/service/service/SpelFunctionUtils.java:11-13 | null exactly for null input; otherwise each character is upper-cased on its own, so the length is kept and no lower-case letter is left |
| SpelFunctionUtils.ToLowerCase | src/main/java/com/rules/service/service/SpelFunctionUtils.java:18-20 | null exactly for null input; otherwise each character is lower-cased on its own, so the length is kept and no upper-case letter is left |
| SpelFunctionUtils.UpperCaseIdempotent | src/main/java/com/rules/service/service/SpelFunctionUtils.java:11-13 | upper-casing twice is upper-casing once |
| SpelFunctionUtils.LowerCaseOfUpperCase | src/main/java/com/rules/service/service/SpelFunctionUtils.java:11-20 | lower-casing after upper-casing equals lower-casing alone |
| SpelFunctionUtils.Substring | src/main/java/com/rules/service/service/SpelFunctionUtils.java:25-33 | null gives null; in-range bounds give the slice; any other bounds give the input unchanged |
| SpelFunctionUtils.Length | src/main/java/com/rules/service/service/SpelFunctionUtils.java:52-54 | 0 exactly for null or empty input, otherwise the number of characters |
| SpelFunctionUtils.LengthAfterFunctions | src/main/java/com/rules/service/service/SpelFunctionUtils.java:11-82 | case mapping keeps the length; trim and substring never increase it |
| SpelFunctionUtils.SubstringWhole | src/main/java/com/rules/service/service/SpelFunctionUtils.java:25-33 | substring from 0 to length(s) gives s back |
| SpelFunctionUtils.Concat | src/main/java/com/rules/service/service/SpelFunctionUtils.java:38-47 | null argument array gives ""; otherwise the in-order join of the arguments with null as "", whose length is the sum of their lengths |
| SpelFunctionUtils.JoinedLength | src/main/java/com/rules/service/service/SpelFunctionUtils.java:42-46 | the joined text's length is the sum of the argument lengths, null counting 0 |
| SpelFunctionUtils.JoinedAppend | src/main/java/com/rules/service/service/SpelFunctionUtils.java:43-45 | joining two argument lists is joining each and concatenating |
| SpelFunctionUtils.NullArgumentIgnored | src/main/java/com/rules/service/service/SpelFunctionUtils.java:44 | removing a null argument does not change the result |
| SpelFunctionUtils.Contains | src/main/java/com/rules/service/service/SpelFunctionUtils.java:59-61 | true iff both arguments are non-null and the search text occurs in the input |
| SpelFunctionUtils.StartsWith | src/main/java/com/rules/service/service/SpelFunctionUtils.java:66-68 | true iff both are non-null and the prefix is a prefix of the input |
| SpelFunctionUtils.EndsWith | src/main/java/com/rules/service/service/SpelFunctionUtils.java:73-75 | true iff both are non-null and the suffix ends the input |
| SpelFunctionUtils.AffixIsContained | src/main/java/com/rules/service/service/SpelFunctionUtils.java:59-75 | startsWith and endsWith each imply contains |
| SpelFunctionUtils.Trim | src/main/java/com/rules/service/service/SpelFunctionUtils.java:80-82 | null exactly for null; otherwise String.trim of the input: a slice of it with only characters at or below U+0020 removed before and after, neither end such a character, empty iff the input had only such characters |
| SpelFunctionUtils.TrimIdempotent | src/main/java/com/rules/service/service/SpelFunctionUtils.java:80-82 | trimming twice is trimming once |
| JavaStrings.IndexOf | src/main/java/com/rules/service/service/PropertyAccessWrapper.java:97-98 | -1 when the pattern never occurs, otherwise an occurrence with none before it |
| JavaStrings.Contains | src/main/java/com/rules/service/service/PropertyAccessWrapper.java:65 | true iff the pattern occurs |
| JavaStrings.Trim | src/main/java/com/rules/service/service/RuleParserService.java:18-19 | the result is a prefix of the input without its leading trimmable run, and everything cut after it is trimmable; neither end is trimmable; empty iff the input is all trimmable; a trimmed input is unchanged |
| JavaStrings.TrimIsSlice | src/main/java/com/rules/service/service/SpelFunctionUtils.java:80-82 | trim removes a run of trimmable characters at each end and keeps the slice between |
| JavaStrings.TrimPadding | src/main/java/com/rules/service/service/RuleParserService.java:18-19 | one space added at either end of a trimmed text is trimmed away |
| JavaStrings.Split | src/main/java/com/rules/service/service/RuleParserService.java:13 | no occurrence gives the text alone; otherwise the pieces between occurrences with only trailing empty ones dropped; no piece holds the separator |
| JavaStrings.DropTrailingEmpty | src/main/java/com/rules/service/service/RuleParserService.java:13 | split keeps a prefix of the pieces whose last is non-empty, dropping only empty ones |
| JavaStrings.FirstPiece | src/main/java/com/rules/service/service/RuleParserService.java:13 | when the separator does not occur earlier, the text before it is the first piece |
| JavaStrings.SinglePiece | src/main/java/com/rules/service/service/RuleParserService.java:13 | a text without the separator splits into itself alone |
| JavaStrings.ParseInt | src/main/java/com/rules/service/service/PropertyAccessWrapper.java:107 | a value exactly when the text after an optional sign is non-empty, all digits, and its signed value fits an int; that value is the result |
| JavaStrings.ParseDecimal | src/main/java/com/rules/service/service/PropertyAccessWrapper.java:107 | parsing the decimal text of a non-negative int gives it back |
| PropertyAccess.HandleArrayAccess | src/main/java/com/rules/service/service/PropertyAccessWrapper.java:90-136 | element index of the list under the name before the first '[' when the current value is a map, the first '[' precedes the first ']', the text between parses as an int and is in range; null in every other case |
| PropertyAccess.WalkAppend | src/main/java/com/rules/service/service/PropertyAccessWrapper.java:59-78 | walking a path in two parts is walking it at once; a null reached early stays null |
| PropertyAccess.PlainNameIsMapLookup | src/main/java/com/rules/service/service/PropertyAccessWrapper.java:51-81 | a path without '.', '[' or ']' is a plain map lookup |
| PropertyAccess.DottedPath | src/main/java/com/rules/service/service/PropertyAccessWrapper.java:56-78 | a.b is entry b of the map under a, and null when a holds anything else |
| PropertyAccess.BracketPositions | src/main/java/com/rules/service/service/PropertyAccessWrapper.java:97-100 | in name[digits] the first brackets are the ones around the digits |
| PropertyAccess.ArrayAccessAtDecimal | src/main/java/com/rules/service/service/PropertyAccessWrapper.java:97-122 | name[i] reaches element i of the list under name when i is in range |
| PropertyAccess.IndexedSegment | src/main/java/com/rules/service/service/PropertyAccessWrapper.java:65-66 | the path name[i] yields element i of the list under name when i is in range |
| PropertyAccess.IndexedPathIsOneAccess | src/main/java/com/rules/service/service/PropertyAccessWrapper.java:65-66 | a path without '.' holding both brackets is one array access on the whole map |
| PropertyAccess.PathOfDotsYieldsLayer | src/main/java/com/rules/service/service/PropertyAccessWrapper.java:51-80 | the path "." splits into no segments and yields the whole map |
| PropertyAccess.PropertyAccessWrapper.constructor | src/main/java/com/rules/service/service/PropertyAccessWrapper.java:17-20 | the facts are the given map, the output layer is empty |
| PropertyAccess.PropertyAccessWrapper.AddOutputVariable | src/main/java/com/rules/service/service/PropertyAccessWrapper.java:25-27 | the output layer gets the one entry, the rest of the state is unchanged |
| PropertyAccess.PropertyAccessWrapper.GetNestedValue | src/main/java/com/rules/service/service/PropertyAccessWrapper.java:51-81 | the loop computes the walk of NestedValue |
| PropertyAccess.PropertyAccessWrapper.Get | src/main/java/com/rules/service/service/PropertyAccessWrapper.java:33-40 | the output layer's value when it is not null, otherwise the facts' value |
| PropertyAccess.PropertyAccessWrapper.GetOutputVariables | src/main/java/com/rules/service/service/PropertyAccessWrapper.java:171-173 | a snapshot equal to the output layer |
| RuleParser.ParseRule | src/main/java/com/rules/service/service/RuleParserService.java:8-22 | null or blank gives "Rule cannot be empty"; otherwise success iff the split at THEN has two pieces, and "Rule must contain 'THEN' keyword" when it has not; on success the halves are the two pieces trimmed |
| RuleParser.ParseRuleRoundTrip | src/main/java/com/rules/service/service/RuleParserService.java:13-21 | c THEN t parses back into c and t for trimmed c, t without THEN |
| RuleParser.TrailingThenRejected | src/main/java/com/rules/service/service/RuleParserService.java:13-16 | a rule ending in THEN is rejected as lacking THEN |
| RuleParser.SecondThenRejected | src/main/java/com/rules/service/service/RuleParserService.java:13-16 | a second THEN followed by text is rejected |
| RuleParser.NoThenRejected | src/main/java/com/rules/service/service/RuleParserService.java:9-16 | a text without THEN is rejected, as empty when blank |
| RuleParser.TwoPiecesAccepted | src/main/java/com/rules/service/service/RuleParserService.java:14-21 | a non-blank rule splitting into two pieces is accepted with both pieces trimmed |
| RuleParser.ThenPiece | src/main/java/com/rules/service/service/RuleParserService.java:13 | the text before the first THEN is the first piece |
| RuleParser.NotBlank | src/main/java/com/rules/service/service/RuleParserService.java:9 | a text holding the letter T is not blank |
| RuleExecution.RuleFailure | src/main/java/com/rules/service/service/RuleExecutionService.java:410-413 | a rule error is a RuntimeException whose message is "Error executing rule id: " followed by the cause's message ("null" when it has none) |
| RuleExecution.IsNullPropertyAccess | src/main/java/com/rules/service/service/RuleExecutionService.java:448-454 | true iff the message is non-null and holds "cannot be found on null", or "EL1007E", or both "Property or field" and "null" |
| RuleExecution.SuppressedMessagesMentionNull | src/main/java/com/rules/service/service/RuleExecutionService.java:448-454 | a suppressed message mentions "null" or "EL1007E" |
| RuleExecution.SafeEvaluateCondition | src/main/java/com/rules/service/service/RuleExecutionService.java:420-432 | the evaluator's result when it succeeds; false for a null access under null safety; otherwise the evaluator's failure |
| RuleExecution.SafeEvaluateTransformation | src/main/java/com/rules/service/service/RuleExecutionService.java:434-446 | the evaluator's result when it succeeds; null for a null access under null safety; otherwise the evaluator's failure |
| RuleExecution.ConditionPolicyOnlyMasksNullAccess | src/main/java/com/rules/service/service/RuleExecutionService.java:420-432 | the policy changes a condition's outcome iff evaluation failed with a null access; strict successes are kept |
| RuleExecution.TransformationPolicyOnlyMasksNullAccess | src/main/java/com/rules/service/service/RuleExecutionService.java:434-446 | the policy changes a transformation's outcome iff evaluation failed with a null access; strict successes are kept |
| RuleExecution.Defined | src/main/java/com/rules/service/service/RuleExecutionService.java:362 | the variables are exactly the non-null entries of the map they were set from |
| RuleExecution.SetVariableKeepsDefined | src/main/java/com/rules/service/service/RuleExecutionService.java:401 | setting an output variable keeps the variables equal to the non-null entries of facts overwritten by outputs |
| RuleExecution.OutputWriteKeepsVariables | src/main/java/com/rules/service/service/RuleExecutionService.java:399-401 | writing an output and setting the variable keeps the variables equal to the non-null entries of facts overwritten by outputs |
| RuleExecution.DefinedReadsAlike | src/main/java/com/rules/service/service/RuleExecutionService.java:362 | dropping null variables changes no lookup |
| RuleExecution.ContextFor | src/main/java/com/rules/service/service/RuleExecutionService.java:345-362 | a rule sees the facts and outputs as root object, and reads as variables what facts overwritten by outputs hold |
| RuleExecution.RuleStep | src/main/java/com/rules/service/service/RuleExecutionService.java:386-413 | a parse or evaluation error of the condition fails the rule; a condition other than TRUE skips it; a TRUE one fires it with the transformation's value, or fails on the transformation's parse or evaluation error; every error is a RuleFailed naming the rule |
| RuleExecution.ExecuteRuleset | src/main/java/com/rules/service/service/RuleExecutionService.java:335-418 | the loop's result is Execute's: "Ruleset not found: name" for no rules, otherwise the fold RunRules |
| RuleExecution.RunFrom | src/main/java/com/rules/service/service/RuleExecutionService.java:381-415 | running from rule i is rule i's step followed by running from rule i + 1 |
| RuleExecution.ExecuteRulesetWithDefaults | src/main/java/com/rules/service/service/RuleExecutionService.java:329-332 | the two-argument form is the three-argument one with null safety on |
| RuleExecution.RunAppend | src/main/java/com/rules/service/service/RuleExecutionService.java:381-415 | rules run strictly in order: a + b runs a, then b from a's outputs, and a failure in a ends the run |
| RuleExecution.FailureAborts | src/main/java/com/rules/service/service/RuleExecutionService.java:410-413 | a failing rule's error is the run's result and later rules are not tried |
| RuleExecution.SkippedRuleIsInvisible | src/main/java/com/rules/service/service/RuleExecutionService.java:393-407 | a rule that does not fire leaves the run as if it were absent |
| RuleExecution.UntouchedOutputKept | src/main/java/com/rules/service/service/RuleExecutionService.java:399 | a name no rule writes keeps its presence and value |
| RuleExecution.FiredRuleRecorded | src/main/java/com/rules/service/service/RuleExecutionService.java:399-403 | a fired rule's value, even null, is in the result unless a later rule writes the same name; the last write wins |
| RuleExecution.RunKeys | src/main/java/com/rules/service/service/RuleExecutionService.java:393-409 | a run only adds keys, only output-variable names of its rules, at most one per rule |
| RuleExecution.ExecuteKeys | src/main/java/com/rules/service/service/RuleExecutionService.java:342-417 | the result's keys are output-variable names, at most as many as rules |
| RuleExecution.ChainedOutputVisible | src/main/java/com/rules/service/service/RuleExecutionService.java:399-403 | after a rule fires with a non-null value, later rules resolve its name to it, both directly and as a variable |
| RuleExecution.StrictStepAgrees | src/main/java/com/rules/service/service/RuleExecutionService.java:386-413 | a rule step that succeeds without null safety has the same outcome with it |
| RuleExecution.NullSafetyOnlyRescues | src/main/java/com/rules/service/service/RuleExecutionService.java:420-446 | a run that succeeds without null safety gives the same outputs with it |
| RuleExecution.NullConditionSkipsRule | src/main/java/com/rules/service/service/RuleExecutionService.java:424-428 | a null access in a condition skips the rule under null safety and fails the run without it |
| RuleExecution.NullTransformationStoresNull | src/main/java/com/rules/service/service/RuleExecutionService.java:438-442 | a null access in a fired transformation stores null under null safety and fails the run without it |

## Left out

- SpEL parsing and evaluation are parameters (`Spel`): no grammar, no typing, no function invocation; the evaluators are total and deterministic in the context they are given.
- RuleExecution.Spel: evaluation is modelled as free of side effects. In Java the evaluation context is mutable: a SpEL assignment `#x = ...` changes the variables, and a call to a public method of the root object such as `addOutputVariable(...)` writes the wrapper's output layer but not the returned map. Neither is modelled. SkippedRuleIsInvisible and the loop invariant of ExecuteRuleset that keeps the wrapper's outputs equal to the returned map rely on this.
- RuleExecution.ExecuteRuleset: `inputData` is a non-null map. In Java a null `inputData` passes the empty-ruleset check and then throws a NullPointerException when the wrapper is built (RuleExecutionService.java:345); that failure is not modelled.
- The accessors PropertyAccessWrapperAccessor and NestedMapPropertyAccessor, the context configuration service, the controller, the DTOs, the JPA entity, the repository and the rule CRUD service are not part of this model; the rules `findByRuleset` returns are a parameter, ids are their text.
- The registration of STRING_UPPERCASE (RuleExecutionService.java:354-359) and the helper `toUpperCase` (457-459) are the evaluator's business; the helper computes what `SpelFunctionUtils.ToUpperCase` computes.
- The debug probe evaluating `age` and `#age` (RuleExecutionService.java:364-378), all logging and `@Transactional`: they change no state.
- The nested copies of the wrapper and the accessors inside RuleExecutionService.java (44-327) repeat the standalone classes, which are modelled once.
- The wrapper's fixed accessors (`getAge`, `getName` and the others down to `getValue`) and its `STRING_*` delegates: each only forwards to a modelled operation.
- The wrapper's `toString` (PropertyAccessWrapper.java:206-211): it merges both layers, outputs over facts, and prints the result; text rendering of values is not modelled.
- SpelFunctionUtils.LowerCaseOfUpperCase: holds for the ASCII mapping only; in Java, lower-casing the upper-cased "ß" gives "ss".
- SpelFunctionUtils.ToUpperCase, SpelFunctionUtils.ToLowerCase: case mapping covers ASCII letters only; Java's locale-sensitive Unicode mapping (which can change the length) is not modelled.
- JavaStrings.ParseInt: only ASCII digits; Java also accepts other Unicode decimal digits.
- Strings are sequences of `char` (UTF-16 units in Java); no encoding or normalisation.
- The Java-array branch of handleArrayAccess (PropertyAccessWrapper.java:124-129) is folded into the `List` case of `Value`; floats, numbers other than `int` and arbitrary objects are the opaque `Other`.
- PropertyAccess.PropertyAccessWrapper.GetNestedValue: a null path (returning null) is not representable; paths are non-null strings.
- The message of an exception that is not an expression error, and exceptions other than ParseException and SpelEvaluationException from the evaluator, are not modelled.
