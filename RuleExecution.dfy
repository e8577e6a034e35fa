/** Running a ruleset (the class RuleExecutionService): the rules are tried
    in order against the input facts; a rule whose condition is exactly
    TRUE evaluates its transformation and stores the result under its
    output variable, where later rules can read it.  SpEL itself is a
    parameter: a parser and two evaluators that are never looked into. */
module RuleExecution {
  import opened Wrappers
  import opened Values
  import JavaStrings
  import PropertyAccess

  /** A stored rule.  Its UUID is kept as its text; the columns are all
      non-null. */
  datatype Rule = Rule(id: string, condition: string, transformation: string, outputVariable: string)

  /** What an expression can see: the root object (the facts and the outputs
      so far, read through PropertyAccessWrapper) and the `#` variables. */
  datatype Context = Context(properties: map<string, Value>, outputVariables: map<string, Value>, variables: map<string, Value>)

  /** A parsed expression; what it means is up to the evaluator. */
  datatype Expression = Expression(source: string)

  /** The SpEL library as the executor uses it.  A failure carries the
      exception's message, which Java allows to be null: `parse` fails with a
      ParseException, the evaluators with a SpelEvaluationException.
      `getBoolean` is `getValue(context, Boolean.class)`, whose result may be
      null. */
  datatype Spel = Spel(
    parse: string -> Result<Expression, Option<string>>,
    getBoolean: (Expression, Context) -> Result<Option<bool>, Option<string>>,
    getValue: (Expression, Context) -> Result<Value, Option<string>>)

  /** The two exceptions `executeRuleset` throws: IllegalArgumentException
      for an empty ruleset, RuntimeException wrapping an expression error. */
  datatype ExecutionError = RulesetNotFound(message: string) | RuleFailed(message: string)

  /** A Java string in a concatenation: null prints as "null". */
  function MessageText(message: Option<string>): string
  {
    match message
    case None => "null"
    case Some(m) => m
  }

  /** The RuntimeException thrown when rule `id` meets an expression error. */
  function RuleFailure(id: string, message: Option<string>): (e: ExecutionError)
    ensures e.RuleFailed? && "Error executing rule " + id + ": " <= e.message
    ensures e.message[|"Error executing rule " + id + ": "|..] == MessageText(message)
  {
    RuleFailed("Error executing rule " + id + ": " + MessageText(message))
  }

  // ---------------------------------------------------------------------
  // Null safety

  /** `isNullPropertyAccess`: the message is non-null and tells of a
      property read on null. */
  function IsNullPropertyAccess(message: Option<string>): (b: bool)
    ensures b <==> (message.Some? &&
                    (JavaStrings.Occurs(message.value, "cannot be found on null") ||
                     JavaStrings.Occurs(message.value, "EL1007E") ||
                     (JavaStrings.Occurs(message.value, "Property or field") && JavaStrings.Occurs(message.value, "null"))))
  {
    match message
    case None => false
    case Some(m) =>
      JavaStrings.Contains(m, "cannot be found on null") ||
      JavaStrings.Contains(m, "EL1007E") ||
      (JavaStrings.Contains(m, "Property or field") && JavaStrings.Contains(m, "null"))
  }

  /** Only a message naming null or the error code EL1007E is ever
      suppressed. */
  lemma SuppressedMessagesMentionNull(message: Option<string>)
    requires IsNullPropertyAccess(message)
    ensures JavaStrings.Occurs(message.value, "null") || JavaStrings.Occurs(message.value, "EL1007E")
  {
    var m := message.value;
    if JavaStrings.Occurs(m, "cannot be found on null") {
      assert "cannot be found on null" == "cannot be found on " + "null" + "";
      JavaStrings.OccursWithin(m, "cannot be found on ", "null", "");
    }
  }

  /** `safeEvaluateCondition`: the condition's value; an evaluation error is
      read as false when null safety is on and the error is a null property
      access, and is passed on otherwise. */
  function SafeEvaluateCondition(spel: Spel, e: Expression, context: Context, nullSafe: bool): (r: Result<Option<bool>, Option<string>>)
    ensures spel.getBoolean(e, context).Success? ==> r == spel.getBoolean(e, context)
    ensures spel.getBoolean(e, context).Failure? ==>
      if nullSafe && IsNullPropertyAccess(spel.getBoolean(e, context).error) then r == Success(Some(false))
      else r == spel.getBoolean(e, context)
  {
    match spel.getBoolean(e, context)
    case Success(b) => Success(b)
    case Failure(message) =>
      if nullSafe && IsNullPropertyAccess(message) then Success(Some(false)) else Failure(message)
  }

  /** `safeEvaluateTransformation`: the transformation's value; an
      evaluation error is read as null when null safety is on and the error
      is a null property access, and is passed on otherwise. */
  function SafeEvaluateTransformation(spel: Spel, e: Expression, context: Context, nullSafe: bool): (r: Result<Value, Option<string>>)
    ensures spel.getValue(e, context).Success? ==> r == spel.getValue(e, context)
    ensures spel.getValue(e, context).Failure? ==>
      if nullSafe && IsNullPropertyAccess(spel.getValue(e, context).error) then r == Success(Null)
      else r == spel.getValue(e, context)
  {
    match spel.getValue(e, context)
    case Success(v) => Success(v)
    case Failure(message) =>
      if nullSafe && IsNullPropertyAccess(message) then Success(Null) else Failure(message)
  }

  /** Null safety changes a condition's outcome only by turning a null
      property access failure into false. */
  lemma ConditionPolicyOnlyMasksNullAccess(spel: Spel, e: Expression, context: Context)
    ensures SafeEvaluateCondition(spel, e, context, true) != SafeEvaluateCondition(spel, e, context, false) <==>
      (spel.getBoolean(e, context).Failure? && IsNullPropertyAccess(spel.getBoolean(e, context).error))
    ensures SafeEvaluateCondition(spel, e, context, false).Success? ==>
      SafeEvaluateCondition(spel, e, context, true) == SafeEvaluateCondition(spel, e, context, false)
  {
  }

  /** Null safety changes a transformation's outcome only by turning a null
      property access failure into null. */
  lemma TransformationPolicyOnlyMasksNullAccess(spel: Spel, e: Expression, context: Context)
    ensures SafeEvaluateTransformation(spel, e, context, true) != SafeEvaluateTransformation(spel, e, context, false) <==>
      (spel.getValue(e, context).Failure? && IsNullPropertyAccess(spel.getValue(e, context).error))
    ensures SafeEvaluateTransformation(spel, e, context, false).Success? ==>
      SafeEvaluateTransformation(spel, e, context, true) == SafeEvaluateTransformation(spel, e, context, false)
  {
  }

  // ---------------------------------------------------------------------
  // The evaluation context

  /** The `#` variables after each entry of `m` was set in turn: Spring's
      `setVariable` with a null value removes the variable. */
  function Defined(m: map<string, Value>): (d: map<string, Value>)
    ensures d.Keys <= m.Keys
    ensures forall k :: k in d ==> d[k] == m[k] && d[k] != Null
    ensures forall k :: k in m && m[k] != Null ==> k in d
  {
    map k | k in m && m[k] != Null :: m[k]
  }

  /** `context.setVariable(name, value)`. */
  function SetVariable(variables: map<string, Value>, name: string, value: Value): map<string, Value>
  {
    if value == Null then variables - {name} else variables[name := value]
  }

  /** Setting a variable keeps the variables in step with the map they were
      set from. */
  lemma SetVariableKeepsDefined(m: map<string, Value>, name: string, value: Value)
    ensures SetVariable(Defined(m), name, value) == Defined(m[name := value])
  {
  }

  /** Writing an output and setting it as a variable keeps the variables
      equal to the non-null entries of the facts overwritten by the outputs. */
  lemma OutputWriteKeepsVariables(facts: map<string, Value>, outputs: map<string, Value>, name: string, value: Value)
    ensures SetVariable(Defined(facts + outputs), name, value) == Defined(facts + outputs[name := value])
  {
    SetVariableKeepsDefined(facts + outputs, name, value);
    assert (facts + outputs)[name := value] == facts + outputs[name := value];
  }

  /** Reading a variable, absent counting as null, reads the map it was set
      from: dropping the nulls loses nothing. */
  lemma DefinedReadsAlike(m: map<string, Value>, name: string)
    ensures Get(Defined(m), name) == Get(m, name)
  {
  }

  /** The context a rule is evaluated in: the facts and the outputs so far
      as the root object, and as variables the facts overwritten by the
      outputs. */
  function ContextFor(facts: map<string, Value>, outputs: map<string, Value>): (c: Context)
    ensures c.properties == facts && c.outputVariables == outputs
    ensures forall k :: Get(c.variables, k) == Get(facts + outputs, k)
  {
    Context(facts, outputs, Defined(facts + outputs))
  }

  // ---------------------------------------------------------------------
  // One rule, and the whole run

  /** One pass of the loop body for `rule`: `Success(None)` when the rule
      does not fire, `Success(Some(v))` when it fires with value `v`, a
      `RuleFailed` when an expression error escapes. */
  function RuleStep(spel: Spel, rule: Rule, facts: map<string, Value>, outputs: map<string, Value>, nullSafe: bool): (r: Result<Option<Value>, ExecutionError>)
    ensures r.Success? && r.value.Some? ==>
      var cond := spel.parse(rule.condition);
      cond.Success? && SafeEvaluateCondition(spel, cond.value, ContextFor(facts, outputs), nullSafe) == Success(Some(true))
    ensures r.Failure? ==> r.error.RuleFailed? && "Error executing rule " + rule.id + ": " <= r.error.message
    ensures spel.parse(rule.condition).Failure? ==> r == Failure(RuleFailure(rule.id, spel.parse(rule.condition).error))
    ensures spel.parse(rule.condition).Success? ==>
      var condition := SafeEvaluateCondition(spel, spel.parse(rule.condition).value, ContextFor(facts, outputs), nullSafe);
      && (condition.Failure? ==> r == Failure(RuleFailure(rule.id, condition.error)))
      && (condition.Success? && condition.value != Some(true) ==> r == Success(None))
      && (condition == Success(Some(true)) ==>
            var transform := spel.parse(rule.transformation);
            && (transform.Failure? ==> r == Failure(RuleFailure(rule.id, transform.error)))
            && (transform.Success? ==>
                  var result := SafeEvaluateTransformation(spel, transform.value, ContextFor(facts, outputs), nullSafe);
                  && (result.Failure? ==> r == Failure(RuleFailure(rule.id, result.error)))
                  && (result.Success? ==> r == Success(Some(result.value)))))
  {
    var context := ContextFor(facts, outputs);
    match spel.parse(rule.condition)
    case Failure(message) => Failure(RuleFailure(rule.id, message))
    case Success(conditionExpr) =>
      match SafeEvaluateCondition(spel, conditionExpr, context, nullSafe)
      case Failure(message) => Failure(RuleFailure(rule.id, message))
      case Success(conditionResult) =>
        if conditionResult != Some(true) then Success(None)
        else
          match spel.parse(rule.transformation)
          case Failure(message) => Failure(RuleFailure(rule.id, message))
          case Success(transformExpr) =>
            match SafeEvaluateTransformation(spel, transformExpr, context, nullSafe)
            case Failure(message) => Failure(RuleFailure(rule.id, message))
            case Success(result) => Success(Some(result))
  }

  /** The rules from `outputs` on, in order: a firing rule writes its output
      variable, the first failure ends the run. */
  function RunRules(spel: Spel, rules: seq<Rule>, facts: map<string, Value>, nullSafe: bool, outputs: map<string, Value>): Result<map<string, Value>, ExecutionError>
    decreases |rules|
  {
    if rules == [] then Success(outputs)
    else
      match RuleStep(spel, rules[0], facts, outputs, nullSafe)
      case Failure(e) => Failure(e)
      case Success(None) => RunRules(spel, rules[1..], facts, nullSafe, outputs)
      case Success(Some(v)) => RunRules(spel, rules[1..], facts, nullSafe, outputs[rules[0].outputVariable := v])
  }

  /** `executeRuleset(name, inputData, nullSafeEvaluation)` on the rules the
      repository returned for `name`. */
  function Execute(spel: Spel, rulesetName: string, rules: seq<Rule>, inputData: map<string, Value>, nullSafe: bool): Result<map<string, Value>, ExecutionError>
  {
    if rules == [] then Failure(RulesetNotFound("Ruleset not found: " + rulesetName))
    else RunRules(spel, rules, inputData, nullSafe, map[])
  }

  /** The rule loop of `executeRuleset`, updating the output map, the `#`
      variables and the wrapper together. */
  method ExecuteRuleset(spel: Spel, rulesetName: string, rules: seq<Rule>, inputData: map<string, Value>, nullSafeEvaluation: bool)
    returns (r: Result<map<string, Value>, ExecutionError>)
    ensures r == Execute(spel, rulesetName, rules, inputData, nullSafeEvaluation)
    ensures rules == [] ==> r == Failure(RulesetNotFound("Ruleset not found: " + rulesetName))
  {
    if |rules| == 0 {
      return Failure(RulesetNotFound("Ruleset not found: " + rulesetName));
    }
    var outputVariables: map<string, Value> := map[];
    var rootObject := new PropertyAccess.PropertyAccessWrapper(inputData);
    var variables := Defined(inputData);
    assert inputData + outputVariables == inputData;
    for i := 0 to |rules|
      invariant rootObject.properties == inputData
      invariant rootObject.outputVariables == outputVariables
      invariant variables == Defined(inputData + outputVariables)
      invariant RunRules(spel, rules[i..], inputData, nullSafeEvaluation, outputVariables) ==
                RunRules(spel, rules, inputData, nullSafeEvaluation, map[])
    {
      var rule := rules[i];
      RunFrom(spel, rules, i, inputData, nullSafeEvaluation, outputVariables);
      var context := Context(rootObject.properties, rootObject.outputVariables, variables);
      assert context == ContextFor(inputData, outputVariables);
      var conditionExpr := spel.parse(rule.condition);
      if conditionExpr.Failure? {
        return Failure(RuleFailure(rule.id, conditionExpr.error));
      }
      var conditionResult := SafeEvaluateCondition(spel, conditionExpr.value, context, nullSafeEvaluation);
      if conditionResult.Failure? {
        return Failure(RuleFailure(rule.id, conditionResult.error));
      }
      if conditionResult.value == Some(true) {
        var transformExpr := spel.parse(rule.transformation);
        if transformExpr.Failure? {
          return Failure(RuleFailure(rule.id, transformExpr.error));
        }
        var result := SafeEvaluateTransformation(spel, transformExpr.value, context, nullSafeEvaluation);
        if result.Failure? {
          return Failure(RuleFailure(rule.id, result.error));
        }
        OutputWriteKeepsVariables(inputData, outputVariables, rule.outputVariable, result.value);
        outputVariables := outputVariables[rule.outputVariable := result.value];
        variables := SetVariable(variables, rule.outputVariable, result.value);
        rootObject.AddOutputVariable(rule.outputVariable, result.value);
      }
    }
    assert rules[|rules|..] == [];
    return Success(outputVariables);
  }

  /** Running from rule `i` is taking that rule's step, then running from
      rule `i + 1`. */
  lemma RunFrom(spel: Spel, rules: seq<Rule>, i: nat, facts: map<string, Value>, nullSafe: bool, outputs: map<string, Value>)
    requires i < |rules|
    ensures RunRules(spel, rules[i..], facts, nullSafe, outputs) ==
      match RuleStep(spel, rules[i], facts, outputs, nullSafe)
      case Failure(e) => Failure(e)
      case Success(None) => RunRules(spel, rules[i + 1..], facts, nullSafe, outputs)
      case Success(Some(v)) => RunRules(spel, rules[i + 1..], facts, nullSafe, outputs[rules[i].outputVariable := v])
  {
    assert rules[i..][0] == rules[i] && rules[i..][1..] == rules[i + 1..];
  }

  /** The two-argument `executeRuleset`: null safety is on. */
  method ExecuteRulesetWithDefaults(spel: Spel, rulesetName: string, rules: seq<Rule>, inputData: map<string, Value>)
    returns (r: Result<map<string, Value>, ExecutionError>)
    ensures r == Execute(spel, rulesetName, rules, inputData, true)
  {
    r := ExecuteRuleset(spel, rulesetName, rules, inputData, true);
  }

  // ---------------------------------------------------------------------
  // Properties of a run

  /** Rules run strictly in order: running `a + b` is running `a`, then `b`
      from where `a` left off. */
  lemma {:induction false} RunAppend(spel: Spel, a: seq<Rule>, b: seq<Rule>, facts: map<string, Value>, nullSafe: bool, outputs: map<string, Value>)
    ensures RunRules(spel, a + b, facts, nullSafe, outputs) ==
      match RunRules(spel, a, facts, nullSafe, outputs)
      case Failure(e) => Failure(e)
      case Success(mid) => RunRules(spel, b, facts, nullSafe, mid)
    decreases |a|
  {
    if a == [] {
      assert a + b == b;
    } else {
      assert (a + b)[0] == a[0] && (a + b)[1..] == a[1..] + b;
      match RuleStep(spel, a[0], facts, outputs, nullSafe)
      case Failure(e) =>
      case Success(None) =>
        RunAppend(spel, a[1..], b, facts, nullSafe, outputs);
      case Success(Some(v)) =>
        RunAppend(spel, a[1..], b, facts, nullSafe, outputs[a[0].outputVariable := v]);
    }
  }

  /** A rule that throws ends the run with its error; later rules are never
      tried. */
  lemma FailureAborts(spel: Spel, pre: seq<Rule>, rule: Rule, post: seq<Rule>, facts: map<string, Value>, nullSafe: bool,
                      outputs: map<string, Value>, mid: map<string, Value>)
    requires RunRules(spel, pre, facts, nullSafe, outputs) == Success(mid)
    requires RuleStep(spel, rule, facts, mid, nullSafe).Failure?
    ensures RunRules(spel, pre + [rule] + post, facts, nullSafe, outputs) == Failure(RuleStep(spel, rule, facts, mid, nullSafe).error)
  {
    RunAppend(spel, pre, [rule] + post, facts, nullSafe, outputs);
    assert pre + [rule] + post == pre + ([rule] + post);
    assert ([rule] + post)[0] == rule;
  }

  /** A rule that does not fire adds no key and changes nothing the later
      rules can see: the run is as if it were not there. */
  lemma SkippedRuleIsInvisible(spel: Spel, pre: seq<Rule>, rule: Rule, post: seq<Rule>, facts: map<string, Value>, nullSafe: bool,
                               outputs: map<string, Value>, mid: map<string, Value>)
    requires RunRules(spel, pre, facts, nullSafe, outputs) == Success(mid)
    requires RuleStep(spel, rule, facts, mid, nullSafe) == Success(None)
    ensures RunRules(spel, pre + [rule] + post, facts, nullSafe, outputs) == RunRules(spel, pre + post, facts, nullSafe, outputs)
  {
    RunAppend(spel, pre, [rule] + post, facts, nullSafe, outputs);
    RunAppend(spel, pre, post, facts, nullSafe, outputs);
    assert pre + [rule] + post == pre + ([rule] + post);
    assert ([rule] + post)[0] == rule && ([rule] + post)[1..] == post;
  }

  /** A run never touches an output variable that none of its rules writes. */
  lemma {:induction false} UntouchedOutputKept(spel: Spel, rules: seq<Rule>, facts: map<string, Value>, nullSafe: bool,
                                             outputs: map<string, Value>, name: string)
    requires forall k :: 0 <= k < |rules| ==> rules[k].outputVariable != name
    requires RunRules(spel, rules, facts, nullSafe, outputs).Success?
    ensures Get(RunRules(spel, rules, facts, nullSafe, outputs).value, name) == Get(outputs, name)
    ensures name in RunRules(spel, rules, facts, nullSafe, outputs).value <==> name in outputs
    decreases |rules|
  {
    if rules != [] {
      match RuleStep(spel, rules[0], facts, outputs, nullSafe)
      case Success(None) =>
        UntouchedOutputKept(spel, rules[1..], facts, nullSafe, outputs, name);
      case Success(Some(v)) =>
        UntouchedOutputKept(spel, rules[1..], facts, nullSafe, outputs[rules[0].outputVariable := v], name);
    }
  }

  /** A fired rule's value is in the result under its output variable, even
      when it is null, unless a later rule writes the same name: the last
      write wins. */
  lemma FiredRuleRecorded(spel: Spel, pre: seq<Rule>, rule: Rule, post: seq<Rule>, facts: map<string, Value>, nullSafe: bool,
                          outputs: map<string, Value>, mid: map<string, Value>, v: Value)
    requires RunRules(spel, pre, facts, nullSafe, outputs) == Success(mid)
    requires RuleStep(spel, rule, facts, mid, nullSafe) == Success(Some(v))
    requires forall k :: 0 <= k < |post| ==> post[k].outputVariable != rule.outputVariable
    requires RunRules(spel, pre + [rule] + post, facts, nullSafe, outputs).Success?
    ensures rule.outputVariable in RunRules(spel, pre + [rule] + post, facts, nullSafe, outputs).value
    ensures RunRules(spel, pre + [rule] + post, facts, nullSafe, outputs).value[rule.outputVariable] == v
  {
    var written := mid[rule.outputVariable := v];
    RunAppend(spel, pre, [rule] + post, facts, nullSafe, outputs);
    assert pre + [rule] + post == pre + ([rule] + post);
    assert ([rule] + post)[0] == rule && ([rule] + post)[1..] == post;
    assert RunRules(spel, pre + [rule] + post, facts, nullSafe, outputs) == RunRules(spel, post, facts, nullSafe, written);
    UntouchedOutputKept(spel, post, facts, nullSafe, written, rule.outputVariable);
  }

  /** The output variables the rules could write. */
  function OutputNames(rules: seq<Rule>): set<string>
  {
    set k | 0 <= k < |rules| :: rules[k].outputVariable
  }

  /** A run only adds keys, only the rules' output variables, and at most
      one per rule. */
  lemma {:induction false} RunKeys(spel: Spel, rules: seq<Rule>, facts: map<string, Value>, nullSafe: bool, outputs: map<string, Value>)
    requires RunRules(spel, rules, facts, nullSafe, outputs).Success?
    ensures outputs.Keys <= RunRules(spel, rules, facts, nullSafe, outputs).value.Keys
    ensures RunRules(spel, rules, facts, nullSafe, outputs).value.Keys <= outputs.Keys + OutputNames(rules)
    ensures |RunRules(spel, rules, facts, nullSafe, outputs).value| <= |outputs| + |rules|
    decreases |rules|
  {
    if rules != [] {
      var rest := rules[1..];
      assert OutputNames(rest) <= OutputNames(rules) by {
        forall name | name in OutputNames(rest) ensures name in OutputNames(rules) {
          var k :| 0 <= k < |rest| && rest[k].outputVariable == name;
          assert rules[k + 1].outputVariable == name;
        }
      }
      match RuleStep(spel, rules[0], facts, outputs, nullSafe)
      case Success(None) =>
        RunKeys(spel, rest, facts, nullSafe, outputs);
      case Success(Some(v)) =>
        var next := outputs[rules[0].outputVariable := v];
        assert rules[0].outputVariable in OutputNames(rules);
        assert |next| <= |outputs| + 1;
        RunKeys(spel, rest, facts, nullSafe, next);
    }
  }

  /** The result of a successful execution holds at most one entry per rule,
      each named by some rule's output variable. */
  lemma ExecuteKeys(spel: Spel, rulesetName: string, rules: seq<Rule>, inputData: map<string, Value>, nullSafe: bool)
    requires Execute(spel, rulesetName, rules, inputData, nullSafe).Success?
    ensures Execute(spel, rulesetName, rules, inputData, nullSafe).value.Keys <= OutputNames(rules)
    ensures |Execute(spel, rulesetName, rules, inputData, nullSafe).value| <= |rules|
  {
    RunKeys(spel, rules, inputData, nullSafe, map[]);
  }

  /** A fired value is visible to the next rule: under a plain name, the
      root object resolves it from the output layer and `#name` reads it. */
  lemma ChainedOutputVisible(spel: Spel, first: Rule, rest: seq<Rule>, facts: map<string, Value>, nullSafe: bool,
                             outputs: map<string, Value>, v: Value)
    requires RuleStep(spel, first, facts, outputs, nullSafe) == Success(Some(v))
    requires v != Null
    requires first.outputVariable != [] && '.' !in first.outputVariable
    requires '[' !in first.outputVariable && ']' !in first.outputVariable
    ensures RunRules(spel, [first] + rest, facts, nullSafe, outputs) ==
            RunRules(spel, rest, facts, nullSafe, outputs[first.outputVariable := v])
    ensures PropertyAccess.NestedValue(ContextFor(facts, outputs[first.outputVariable := v]).outputVariables, first.outputVariable) == v
    ensures Get(ContextFor(facts, outputs[first.outputVariable := v]).variables, first.outputVariable) == v
  {
    assert ([first] + rest)[0] == first && ([first] + rest)[1..] == rest;
    PropertyAccess.PlainNameIsMapLookup(outputs[first.outputVariable := v], first.outputVariable);
  }

  /** With null safety on, a rule step succeeds whenever it succeeds with null
      safety off, and with the same outcome. */
  lemma StrictStepAgrees(spel: Spel, rule: Rule, facts: map<string, Value>, outputs: map<string, Value>)
    requires RuleStep(spel, rule, facts, outputs, false).Success?
    ensures RuleStep(spel, rule, facts, outputs, true) == RuleStep(spel, rule, facts, outputs, false)
  {
    var context := ContextFor(facts, outputs);
    var cond := spel.parse(rule.condition);
    if cond.Success? {
      ConditionPolicyOnlyMasksNullAccess(spel, cond.value, context);
      var transform := spel.parse(rule.transformation);
      if transform.Success? {
        TransformationPolicyOnlyMasksNullAccess(spel, transform.value, context);
      }
    }
  }

  /** A run that succeeds with null safety off succeeds with it on, with the
      same outputs: the policy only ever rescues failing runs. */
  lemma {:induction false} NullSafetyOnlyRescues(spel: Spel, rules: seq<Rule>, facts: map<string, Value>, outputs: map<string, Value>)
    requires RunRules(spel, rules, facts, false, outputs).Success?
    ensures RunRules(spel, rules, facts, true, outputs) == RunRules(spel, rules, facts, false, outputs)
    decreases |rules|
  {
    if rules != [] {
      StrictStepAgrees(spel, rules[0], facts, outputs);
      match RuleStep(spel, rules[0], facts, outputs, false)
      case Success(None) =>
        NullSafetyOnlyRescues(spel, rules[1..], facts, outputs);
      case Success(Some(v)) =>
        NullSafetyOnlyRescues(spel, rules[1..], facts, outputs[rules[0].outputVariable := v]);
    }
  }

  /** With null safety on, a condition that fails on a null property access
      skips its rule. */
  lemma NullConditionSkipsRule(spel: Spel, rule: Rule, facts: map<string, Value>, outputs: map<string, Value>)
    requires spel.parse(rule.condition).Success?
    requires spel.getBoolean(spel.parse(rule.condition).value, ContextFor(facts, outputs)).Failure?
    requires IsNullPropertyAccess(spel.getBoolean(spel.parse(rule.condition).value, ContextFor(facts, outputs)).error)
    ensures RuleStep(spel, rule, facts, outputs, true) == Success(None)
    ensures RuleStep(spel, rule, facts, outputs, false).Failure?
  {
  }

  /** With null safety on, a fired rule whose transformation fails on a null
      property access stores null. */
  lemma NullTransformationStoresNull(spel: Spel, rule: Rule, facts: map<string, Value>, outputs: map<string, Value>)
    requires spel.parse(rule.condition).Success?
    requires spel.getBoolean(spel.parse(rule.condition).value, ContextFor(facts, outputs)) == Success(Some(true))
    requires spel.parse(rule.transformation).Success?
    requires spel.getValue(spel.parse(rule.transformation).value, ContextFor(facts, outputs)).Failure?
    requires IsNullPropertyAccess(spel.getValue(spel.parse(rule.transformation).value, ContextFor(facts, outputs)).error)
    ensures RuleStep(spel, rule, facts, outputs, true) == Success(Some(Null))
    ensures RuleStep(spel, rule, facts, outputs, false).Failure?
  {
  }
}
