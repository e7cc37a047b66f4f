/** internal/evaluator: evaluating rulesets through a cache of compiled programs. */
module Evaluator {
  import opened Prelude
  import opened Api

  /** A compiled program, known only by its identity. */
  datatype Program = Program(id: nat)

  datatype Value = BoolValue(b: bool) | StringValue(s: string) | OtherValue

  /** The expression language: compiling an expression and running a program may both fail. */
  datatype Cel = Cel(compile: string -> Option<Program>, run: (Program, Content) -> Option<Value>)

  datatype RuleSetResult = RuleSetResult(ruleSet: OperationRuleSet, operations: seq<string>, labels: Labels)

  /** The value of an expression compiled afresh. */
  function FreshValue(cel: Cel, content: Content, expression: string): Option<Value> {
    match cel.compile(expression)
    case None => None
    case Some(program) => cel.run(program, content)
  }

  /** The operations of the matching rules, in rule order; None as soon as one rule is in error. */
  function MatchedOperations(cel: Cel, content: Content, rules: seq<Rule>): Option<seq<string>> {
    if rules == [] then
      Some([])
    else
      var rule := rules[|rules| - 1];
      match (MatchedOperations(cel, content, rules[..|rules| - 1]), FreshValue(cel, content, rule.expression))
      case (Some(operations), Some(BoolValue(matched))) =>
        Some(if matched then operations + [rule.operation] else operations)
      case _ => None
  }

  /** The dynamic labels: expressions in error are skipped, a later expression for a key wins. */
  function DynamicLabels(cel: Cel, content: Content, expressions: seq<LabelExpression>): Labels {
    if expressions == [] then
      map[]
    else
      var last := expressions[|expressions| - 1];
      var labels := DynamicLabels(cel, content, expressions[..|expressions| - 1]);
      match FreshValue(cel, content, last.expression)
      case Some(StringValue(value)) => labels[last.key := value]
      case _ => labels
  }

  /** What EvaluateRuleSet returns when nothing is cached; None stands for its error. */
  function FreshResult(cel: Cel, subject: Subject, ruleSet: OperationRuleSet): Option<RuleSetResult> {
    match MatchedOperations(cel, subject.content, ruleSet.spec.rules)
    case None => None
    case Some(operations) =>
      Some(RuleSetResult(ruleSet, operations, DynamicLabels(cel, subject.content, ruleSet.spec.labelExpressions)))
  }

  /** An error in any rule is an error of every longer rule list. */
  lemma {:induction false} ErrorsPersist(cel: Cel, content: Content, rules: seq<Rule>, i: nat)
    requires i <= |rules|
    requires MatchedOperations(cel, content, rules[..i]).None?
    ensures MatchedOperations(cel, content, rules).None?
    decreases |rules|
  {
    if i < |rules| {
      assert rules[..|rules| - 1][..i] == rules[..i];
      ErrorsPersist(cel, content, rules[..|rules| - 1], i);
    } else {
      assert rules[..i] == rules;
    }
  }

  /** A ruleset evaluates without error exactly when each of its rules yields a boolean, and its
      operations are then those of the rules that yield true. */
  lemma {:induction false} MatchedOperationsMeaning(cel: Cel, content: Content, rules: seq<Rule>)
    ensures var matched := MatchedOperations(cel, content, rules);
      && (matched.Some? <==>
           forall r <- rules :: exists b: bool :: FreshValue(cel, content, r.expression) == Some(BoolValue(b)))
      && (matched.Some? ==> forall operation: string :: operation in matched.value <==>
           exists r <- rules :: r.operation == operation &&
             FreshValue(cel, content, r.expression) == Some(BoolValue(true)))
  {
    if rules != [] {
      var front, last := rules[..|rules| - 1], rules[|rules| - 1];
      MatchedOperationsMeaning(cel, content, front);
      assert rules == front + [last];
      assert last in rules;
    }
  }

  // ----- what a result says, rule by rule and expression by expression

  /** The rule's expression compiles and runs to true. */
  ghost predicate Holds(cel: Cel, content: Content, rule: Rule) {
    var program := cel.compile(rule.expression);
    program.Some? && cel.run(program.value, content) == Some(BoolValue(true))
  }

  /** The rule's expression compiles and runs to a boolean. */
  ghost predicate Decides(cel: Cel, content: Content, rule: Rule) {
    var program := cel.compile(rule.expression);
    program.Some? && exists b: bool :: cel.run(program.value, content) == Some(BoolValue(b))
  }

  /** The i-th expression yields this text. */
  ghost predicate Yields(cel: Cel, content: Content, expressions: seq<LabelExpression>, i: nat, text: string) {
    i < |expressions| &&
    var program := cel.compile(expressions[i].expression);
    program.Some? && cel.run(program.value, content) == Some(StringValue(text))
  }

  ghost predicate YieldsText(cel: Cel, content: Content, expressions: seq<LabelExpression>, i: nat) {
    exists text :: Yields(cel, content, expressions, i, text)
  }

  /** No later expression for the same key yields a text. */
  ghost predicate IsLast(cel: Cel, content: Content, expressions: seq<LabelExpression>, i: nat)
    requires i < |expressions|
  {
    forall j :: i < j < |expressions| && expressions[j].key == expressions[i].key ==>
      !YieldsText(cel, content, expressions, j)
  }

  /** There is a label for exactly the keys of expressions that yield a text, and its value is what the last
      of those yields; expressions in error count for nothing. */
  ghost predicate LabelsAre(cel: Cel, content: Content, expressions: seq<LabelExpression>, labels: Labels) {
    && (forall k :: k in labels <==>
         exists i {:trigger expressions[i]} ::
           0 <= i < |expressions| && expressions[i].key == k && YieldsText(cel, content, expressions, i))
    && (forall i, text {:trigger Yields(cel, content, expressions, i, text)} ::
         0 <= i && Yields(cel, content, expressions, i, text) && IsLast(cel, content, expressions, i) ==>
           expressions[i].key in labels && labels[expressions[i].key] == text)
  }

  lemma {:induction false} DynamicLabelsMeaning(cel: Cel, content: Content, expressions: seq<LabelExpression>)
    ensures LabelsAre(cel, content, expressions, DynamicLabels(cel, content, expressions))
  {
    if expressions != [] {
      var front, last := expressions[..|expressions| - 1], expressions[|expressions| - 1];
      DynamicLabelsMeaning(cel, content, front);
      YieldsOneMore(cel, content, expressions);
      LabelsOneMore(cel, content, expressions, DynamicLabels(cel, content, front));
    }
  }

  lemma YieldsOneMore(cel: Cel, content: Content, expressions: seq<LabelExpression>)
    requires expressions != []
    ensures var front := expressions[..|expressions| - 1];
      forall i: nat :: i < |front| ==>
        front[i] == expressions[i] &&
        (YieldsText(cel, content, front, i) <==> YieldsText(cel, content, expressions, i))
  {
    var front := expressions[..|expressions| - 1];
    forall i: nat | i < |front|
      ensures YieldsText(cel, content, front, i) <==> YieldsText(cel, content, expressions, i)
    {
      assert forall text ::
        Yields(cel, content, front, i, text) <==> Yields(cel, content, expressions, i, text);
    }
  }

  lemma LabelsOneMore(cel: Cel, content: Content, expressions: seq<LabelExpression>, before: Labels)
    requires expressions != [] && LabelsAre(cel, content, expressions[..|expressions| - 1], before)
    requires var front := expressions[..|expressions| - 1];
      forall i: nat :: i < |front| ==>
        front[i] == expressions[i] &&
        (YieldsText(cel, content, front, i) <==> YieldsText(cel, content, expressions, i))
    ensures var last := expressions[|expressions| - 1];
      LabelsAre(cel, content, expressions, match FreshValue(cel, content, last.expression)
        case Some(StringValue(value)) => before[last.key := value]
        case _ => before)
  {
    var n := |expressions| - 1;
    var front, last := expressions[..n], expressions[n];
    var value := FreshValue(cel, content, last.expression);
    var labels := if value.Some? && value.value.StringValue? then before[last.key := value.value.s] else before;
    assert YieldsText(cel, content, expressions, n) <==> value.Some? && value.value.StringValue? by {
      if value.Some? && value.value.StringValue? {
        assert Yields(cel, content, expressions, n, value.value.s);
      }
    }
    forall k
      ensures k in labels <==> exists i {:trigger expressions[i]} ::
        0 <= i < |expressions| && expressions[i].key == k && YieldsText(cel, content, expressions, i)
    {
      if i :| 0 <= i < n && expressions[i].key == k && YieldsText(cel, content, expressions, i) {
        assert front[i].key == k;
      }
    }
    forall i, text | 0 <= i && Yields(cel, content, expressions, i, text) && IsLast(cel, content, expressions, i)
      ensures expressions[i].key in labels && labels[expressions[i].key] == text
    {
      assert YieldsText(cel, content, expressions, i);
      if i < n {
        assert Yields(cel, content, front, i, text) && IsLast(cel, content, front, i);
      }
    }
  }

  /** The operations are those of the rules that hold, one for each, in rule order. */
  ghost predicate OperationsAre(cel: Cel, content: Content, rules: seq<Rule>, operations: seq<string>, at: seq<nat>) {
    && |at| == |operations|
    && (forall j :: 0 <= j < |at| ==> at[j] < |rules| && operations[j] == rules[at[j]].operation)
    && (forall i, j :: 0 <= i < j < |at| ==> at[i] < at[j])
    && (forall i :: 0 <= i < |rules| ==> (Holds(cel, content, rules[i]) <==> i in at))
  }

  lemma {:induction false} MatchedInOrder(cel: Cel, content: Content, rules: seq<Rule>) returns (at: seq<nat>)
    requires MatchedOperations(cel, content, rules).Some?
    ensures OperationsAre(cel, content, rules, MatchedOperations(cel, content, rules).value, at)
  {
    at := [];
    if rules != [] {
      var n := |rules| - 1;
      at := MatchedInOrder(cel, content, rules[..n]);
      assert forall i :: 0 <= i < n ==> rules[..n][i] == rules[i];
      assert forall i :: i in at ==> i < n;
      if Holds(cel, content, rules[n]) {
        at := at + [n];
      }
    }
  }

  /** An error-free result, in terms of the ruleset and the language alone. */
  ghost predicate ResultIs(cel: Cel, subject: Subject, ruleSet: OperationRuleSet, result: RuleSetResult) {
    && result.ruleSet == ruleSet
    && (exists at :: OperationsAre(cel, subject.content, ruleSet.spec.rules, result.operations, at))
    && LabelsAre(cel, subject.content, ruleSet.spec.labelExpressions, result.labels)
  }

  lemma FreshResultMeaning(cel: Cel, subject: Subject, ruleSet: OperationRuleSet)
    ensures FreshResult(cel, subject, ruleSet).Some? <==>
      forall r <- ruleSet.spec.rules :: Decides(cel, subject.content, r)
    ensures FreshResult(cel, subject, ruleSet).Some? ==>
      ResultIs(cel, subject, ruleSet, FreshResult(cel, subject, ruleSet).value)
  {
    DynamicLabelsMeaning(cel, subject.content, ruleSet.spec.labelExpressions);
    MatchedOperationsMeaning(cel, subject.content, ruleSet.spec.rules);
    assert forall r: Rule :: Decides(cel, subject.content, r) <==>
      exists b: bool :: FreshValue(cel, subject.content, r.expression) == Some(BoolValue(b));
    if FreshResult(cel, subject, ruleSet).Some? {
      var at := MatchedInOrder(cel, subject.content, ruleSet.spec.rules);
    }
  }

  /** The evaluator with its program cache. */
  class CelEvaluator {
    const cel: Cel
    var programs: map<string, Program>

    /** Every cached program is the compilation of its key. */
    ghost predicate Valid()
      reads this
    {
      forall e <- programs :: cel.compile(e) == Some(programs[e])
    }

    constructor (cel: Cel)
      ensures this.cel == cel && programs == map[] && Valid()
    {
      this.cel := cel;
      programs := map[];
    }

    method GetOrCompile(expression: string) returns (program: Option<Program>)
      requires Valid()
      modifies this
      ensures Valid()
      ensures program == cel.compile(expression)
      ensures programs == if program.Some? then old(programs)[expression := program.value] else old(programs)
    {
      if expression in programs {
        return Some(programs[expression]);
      }
      program := cel.compile(expression);
      if program.Some? {
        programs := programs[expression := program.value];
      }
    }

    method Evaluate(subject: Subject, rule: Rule) returns (matched: Option<bool>)
      requires Valid()
      modifies this
      ensures Valid()
      ensures forall b: bool :: matched == Some(b) <==>
        FreshValue(cel, subject.content, rule.expression) == Some(BoolValue(b))
    {
      var program := GetOrCompile(rule.expression);
      if program.None? {
        return None;
      }
      var out := cel.run(program.value, subject.content);
      match out {
        case Some(BoolValue(b)) => return Some(b);
        case _ => return None;
      }
    }

    method EvaluateLabelExpression(subject: Subject, expression: string) returns (text: Option<string>)
      requires Valid()
      modifies this
      ensures Valid()
      ensures forall s: string :: text == Some(s) <==>
        FreshValue(cel, subject.content, expression) == Some(StringValue(s))
    {
      var program := GetOrCompile(expression);
      if program.None? {
        return None;
      }
      var out := cel.run(program.value, subject.content);
      match out {
        case Some(StringValue(s)) => return Some(s);
        case _ => return None;
      }
    }

    /** Whatever is cached, a ruleset evaluates as if every expression were compiled afresh. */
    method EvaluateRuleSet(subject: Subject, ruleSet: OperationRuleSet) returns (result: Option<RuleSetResult>)
      requires Valid()
      modifies this
      ensures Valid()
      ensures result == FreshResult(cel, subject, ruleSet)
      ensures result.Some? <==> forall r <- ruleSet.spec.rules :: Decides(cel, subject.content, r)
      ensures result.Some? ==> ResultIs(cel, subject, ruleSet, result.value)
    {
      var rules, operations := ruleSet.spec.rules, [];
      for i := 0 to |rules|
        invariant Valid()
        invariant MatchedOperations(cel, subject.content, rules[..i]) == Some(operations)
      {
        assert rules[..i + 1][..i] == rules[..i];
        var matched := Evaluate(subject, rules[i]);
        if matched.None? {
          ErrorsPersist(cel, subject.content, rules, i + 1);
          FreshResultMeaning(cel, subject, ruleSet);
          return None;
        }
        if matched.value {
          operations := operations + [rules[i].operation];
        }
      }
      assert rules[..|rules|] == rules;
      var expressions, labels := ruleSet.spec.labelExpressions, map[];
      for i := 0 to |expressions|
        invariant Valid()
        invariant DynamicLabels(cel, subject.content, expressions[..i]) == labels
      {
        assert expressions[..i + 1][..i] == expressions[..i];
        var text := EvaluateLabelExpression(subject, expressions[i].expression);
        if text.Some? {
          labels := labels[expressions[i].key := text.value];
        }
      }
      assert expressions[..|expressions|] == expressions;
      FreshResultMeaning(cel, subject, ruleSet);
      return Some(RuleSetResult(ruleSet, operations, labels));
    }
  }
}
