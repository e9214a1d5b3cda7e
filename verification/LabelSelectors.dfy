/**
 Label selectors: what a requirement list written by a client means, what a stored
 `LabelSelector` means, and the translation from the first to the second.
 */
module LabelSelectors {
  import opened Options

  type Labels = map<string, string>

  datatype Operator =
    | Equals | NotEquals | In | NotIn | Exists | DoesNotExist
    | DoubleEquals | GreaterThan | LessThan

  /** One parsed requirement, `key operator values`. */
  datatype Requirement = Requirement(key: string, operator: Operator, values: seq<string>)

  datatype ExpressionOperator = OpIn | OpNotIn | OpExists | OpDoesNotExist

  datatype Expression = Expression(key: string, operator: ExpressionOperator, values: seq<string>)

  /** The stored form: equalities in a map, everything else in a list of expressions. */
  datatype LabelSelector =
    LabelSelector(matchLabels: map<string, string>, matchExpressions: seq<Expression>)

  datatype ParseError = ConflictingEquality(key: string) | NotEqualsArity | UnsupportedOperator

  // ---------------------------------------------------------------- meaning

  /** The operators the translation accepts; `==`, `>` and `<` parse but are refused. */
  predicate Supported(operator: Operator) {
    !operator.DoubleEquals? && !operator.GreaterThan? && !operator.LessThan?
  }

  predicate RequirementMatches(r: Requirement, labels: Labels)
    requires Supported(r.operator)
  {
    match r.operator
    case Equals => r.key in labels && labels[r.key] in r.values
    case In => r.key in labels && labels[r.key] in r.values
    case NotEquals => r.key in labels ==> labels[r.key] !in r.values
    case NotIn => r.key in labels ==> labels[r.key] !in r.values
    case Exists => r.key in labels
    case DoesNotExist => r.key !in labels
  }

  predicate AllSupported(reqs: seq<Requirement>) {
    forall i | 0 <= i < |reqs| :: Supported(reqs[i].operator)
  }

  predicate RequirementsMatch(reqs: seq<Requirement>, labels: Labels)
    requires AllSupported(reqs)
  {
    forall i | 0 <= i < |reqs| :: RequirementMatches(reqs[i], labels)
  }

  predicate ExpressionMatches(e: Expression, labels: Labels) {
    match e.operator
    case OpIn => e.key in labels && labels[e.key] in e.values
    case OpNotIn => e.key in labels ==> labels[e.key] !in e.values
    case OpExists => e.key in labels
    case OpDoesNotExist => e.key !in labels
  }

  predicate Matches(s: LabelSelector, labels: Labels) {
    && (forall k | k in s.matchLabels :: k in labels && labels[k] == s.matchLabels[k])
    && (forall i | 0 <= i < |s.matchExpressions| :: ExpressionMatches(s.matchExpressions[i], labels))
  }

  /** No requirement at all: the controller refuses such a lease. */
  predicate Empty(s: LabelSelector) {
    |s.matchLabels| + |s.matchExpressions| == 0
  }

  predicate ConvertibleExpression(e: Expression) {
    if e.operator.OpIn? || e.operator.OpNotIn? then e.values != [] else e.values == []
  }

  /** The stored form can be turned back into a selector: operator and value count agree. */
  predicate Convertible(s: LabelSelector) {
    forall i | 0 <= i < |s.matchExpressions| :: ConvertibleExpression(s.matchExpressions[i])
  }

  // ---------------------------------------------------------------- when it succeeds

  predicate SingleEquality(r: Requirement) {
    r.operator.Equals? && |r.values| == 1
  }

  /** Two equalities on one key with different values. */
  predicate Conflict(a: Requirement, b: Requirement) {
    SingleEquality(a) && SingleEquality(b) && a.key == b.key && a.values[0] != b.values[0]
  }

  predicate WellFormed(r: Requirement) {
    Supported(r.operator) && (r.operator.NotEquals? ==> |r.values| == 1)
  }

  /** Exactly the requirement lists the translation accepts. */
  predicate Translatable(reqs: seq<Requirement>) {
    && (forall i | 0 <= i < |reqs| :: WellFormed(reqs[i]))
    && (forall i, j | 0 <= i < j < |reqs| :: !Conflict(reqs[i], reqs[j]))
  }

  /** The value counts the label parser guarantees for the requirements it returns. */
  predicate Arity(r: Requirement) {
    match r.operator
    case In => r.values != []
    case NotIn => r.values != []
    case Exists => r.values == []
    case DoesNotExist => r.values == []
    case _ => |r.values| == 1
  }

  // ---------------------------------------------------------------- the translation

  /** A half-built translation: the labels and expressions so far, and the `!=` values that still
      wait, by key, to be turned into one expression each. */
  datatype Draft = Draft(matchLabels: map<string, string>, exprs: seq<Expression>, notEquals: map<string, seq<string>>)

  predicate DraftMatches(d: Draft, labels: Labels) {
    && Matches(LabelSelector(d.matchLabels, d.exprs), labels)
    && (forall k | k in d.notEquals :: k in labels ==> labels[k] !in d.notEquals[k])
  }

  /** The expression form of every requirement that is neither a single equality nor a `!=`. */
  function AsExpression(r: Requirement): (e: Expression)
    requires Supported(r.operator) && !SingleEquality(r) && !r.operator.NotEquals?
    ensures forall labels :: ExpressionMatches(e, labels) <==> RequirementMatches(r, labels)
    ensures Arity(r) ==> ConvertibleExpression(e)
  {
    match r.operator
    case Equals => Expression(r.key, OpIn, r.values)
    case In => Expression(r.key, OpIn, r.values)
    case NotIn => Expression(r.key, OpNotIn, r.values)
    case Exists => Expression(r.key, OpExists, [])
    case DoesNotExist => Expression(r.key, OpDoesNotExist, [])
  }

  function Gathered(notEquals: map<string, seq<string>>, key: string): seq<string> {
    if key in notEquals then notEquals[key] else []
  }

  /** One requirement added to the draft, or the error it causes. */
  function Add(d: Draft, r: Requirement): Result<Draft, ParseError> {
    if !Supported(r.operator) then Err(UnsupportedOperator)
    else if SingleEquality(r) then
      if r.key in d.matchLabels && d.matchLabels[r.key] != r.values[0] then Err(ConflictingEquality(r.key))
      else Ok(d.(matchLabels := d.matchLabels[r.key := r.values[0]]))
    else if r.operator.NotEquals? then
      if |r.values| != 1 then Err(NotEqualsArity)
      else Ok(d.(notEquals := d.notEquals[r.key := Gathered(d.notEquals, r.key) + [r.values[0]]]))
    else Ok(d.(exprs := d.exprs + [AsExpression(r)]))
  }

  function Translate(reqs: seq<Requirement>): Result<Draft, ParseError> {
    if reqs == [] then Ok(Draft(map[], [], map[]))
    else
      match Translate(reqs[..|reqs| - 1])
      case Err(e) => Err(e)
      case Ok(d) => Add(d, reqs[|reqs| - 1])
  }

  lemma AppendedExpressionMatches(matchLabels: map<string, string>, exprs: seq<Expression>, e: Expression,
                                  labels: Labels)
    ensures Matches(LabelSelector(matchLabels, exprs + [e]), labels)
       <==> Matches(LabelSelector(matchLabels, exprs), labels) && ExpressionMatches(e, labels)
  {
    var longer := exprs + [e];
    if Matches(LabelSelector(matchLabels, longer), labels) {
      assert ExpressionMatches(longer[|exprs|], labels);
      forall i | 0 <= i < |exprs| ensures ExpressionMatches(exprs[i], labels) {
        assert longer[i] == exprs[i];
      }
    }
  }

  lemma AddMeaning(d: Draft, r: Requirement, labels: Labels)
    requires Add(d, r).Ok?
    ensures DraftMatches(Add(d, r).value, labels) <==> DraftMatches(d, labels) && RequirementMatches(r, labels)
  {
    var added := Add(d, r).value;
    if SingleEquality(r) {
      assert r.values == [r.values[0]];
      assert r.key in added.matchLabels;
      assert forall k :: k in d.matchLabels ==> k in added.matchLabels && added.matchLabels[k] == d.matchLabels[k];
    } else if r.operator.NotEquals? {
      assert r.values == [r.values[0]];
      assert r.key in added.notEquals && r.values[0] in added.notEquals[r.key];
      assert forall k, v :: k in d.notEquals && v in d.notEquals[k] ==> k in added.notEquals && v in added.notEquals[k];
    } else {
      AppendedExpressionMatches(d.matchLabels, d.exprs, AsExpression(r), labels);
    }
  }

  /** A draft matches exactly the label sets its requirements match. */
  lemma {:induction false} TranslateMeaning(reqs: seq<Requirement>, labels: Labels)
    requires Translate(reqs).Ok?
    ensures AllSupported(reqs)
    ensures DraftMatches(Translate(reqs).value, labels) <==> RequirementsMatch(reqs, labels)
  {
    if reqs != [] {
      var n := |reqs| - 1;
      var shorter := reqs[..n];
      TranslateMeaning(shorter, labels);
      AddMeaning(Translate(shorter).value, reqs[n], labels);
      forall i | 0 <= i <= n ensures Supported(reqs[i].operator) {
        assert i < n ==> reqs[i] == shorter[i];
      }
      if RequirementsMatch(reqs, labels) {
        assert forall i | 0 <= i < n :: shorter[i] == reqs[i];
      }
    }
  }

  /** The equalities of the draft are those of the list. */
  lemma {:induction false} TranslateEqualities(reqs: seq<Requirement>)
    requires Translate(reqs).Ok?
    ensures var labels := Translate(reqs).value.matchLabels;
            && (forall k | k in labels :: HasEquality(reqs, k, labels[k]))
            && (forall i | 0 <= i < |reqs| && SingleEquality(reqs[i]) ::
                  reqs[i].key in labels && labels[reqs[i].key] == reqs[i].values[0])
  {
    if reqs != [] {
      var n := |reqs| - 1;
      var shorter := reqs[..n];
      TranslateEqualities(shorter);
      var before, after := Translate(shorter).value.matchLabels, Translate(reqs).value.matchLabels;
      forall k | k in after ensures HasEquality(reqs, k, after[k]) {
        if SingleEquality(reqs[n]) && k == reqs[n].key {
          assert EqualityAt(reqs, n, k, after[k]);
        } else {
          var i: nat :| EqualityAt(shorter, i, k, before[k]);
          assert EqualityAt(reqs, i, k, after[k]);
        }
      }
      forall i | 0 <= i < |reqs| && SingleEquality(reqs[i])
        ensures reqs[i].key in after && after[reqs[i].key] == reqs[i].values[0]
      {
        assert i < n ==> shorter[i] == reqs[i];
      }
    }
  }

  predicate EqualityAt(reqs: seq<Requirement>, i: nat, key: string, value: string) {
    i < |reqs| && SingleEquality(reqs[i]) && reqs[i].key == key && reqs[i].values[0] == value
  }

  ghost predicate HasEquality(reqs: seq<Requirement>, key: string, value: string) {
    exists i: nat :: EqualityAt(reqs, i, key, value)
  }

  /** The reason an error gives is really in the list. */
  ghost predicate Justified(e: ParseError, reqs: seq<Requirement>) {
    match e
    case UnsupportedOperator => exists i :: 0 <= i < |reqs| && !Supported(reqs[i].operator)
    case NotEqualsArity => exists i :: 0 <= i < |reqs| && reqs[i].operator.NotEquals? && |reqs[i].values| != 1
    case ConflictingEquality(key) =>
      exists i, j :: 0 <= i < j < |reqs| && Conflict(reqs[i], reqs[j]) && reqs[i].key == key
  }

  lemma JustifiedGrows(e: ParseError, shorter: seq<Requirement>, reqs: seq<Requirement>)
    requires Justified(e, shorter) && shorter <= reqs
    ensures Justified(e, reqs)
  {
    assert forall i | 0 <= i < |shorter| :: reqs[i] == shorter[i];
    match e
    case UnsupportedOperator =>
    case NotEqualsArity =>
    case ConflictingEquality(key) =>
      var i, j :| 0 <= i < j < |shorter| && Conflict(shorter[i], shorter[j]) && shorter[i].key == key;
      assert Conflict(reqs[i], reqs[j]);
  }

  /** The translation succeeds on exactly the translatable lists, and an error tells the truth. */
  lemma {:induction false} TranslateSucceeds(reqs: seq<Requirement>)
    ensures Translate(reqs).Ok? <==> Translatable(reqs)
    ensures Translate(reqs).Err? ==> Justified(Translate(reqs).error, reqs)
  {
    if reqs != [] {
      var n := |reqs| - 1;
      var shorter := reqs[..n];
      TranslateSucceeds(shorter);
      assert forall i | 0 <= i < n :: shorter[i] == reqs[i];
      if Translate(shorter).Err? {
        JustifiedGrows(Translate(shorter).error, shorter, reqs);
        NotTranslatable(reqs, Translate(reqs).error);
      } else {
        TranslateEqualities(shorter);
        var d := Translate(shorter).value;
        var r := reqs[n];
        if SingleEquality(r) && r.key in d.matchLabels && d.matchLabels[r.key] != r.values[0] {
          var i: nat :| EqualityAt(shorter, i, r.key, d.matchLabels[r.key]);
          assert Conflict(reqs[i], reqs[n]);
        }
        if Add(d, r).Err? {
          NotTranslatable(reqs, Translate(reqs).error);
        } else {
          forall i, j | 0 <= i < j < |reqs| ensures !Conflict(reqs[i], reqs[j]) {
            assert reqs[i] == shorter[i];
            assert j < n ==> reqs[j] == shorter[j];
          }
        }
      }
    }
  }

  lemma NotTranslatable(reqs: seq<Requirement>, e: ParseError)
    requires Justified(e, reqs)
    ensures !Translatable(reqs)
  {
    match e
    case UnsupportedOperator =>
      var i :| 0 <= i < |reqs| && !Supported(reqs[i].operator);
      assert !WellFormed(reqs[i]);
    case NotEqualsArity =>
      var i :| 0 <= i < |reqs| && reqs[i].operator.NotEquals? && |reqs[i].values| != 1;
      assert !WellFormed(reqs[i]);
    case ConflictingEquality(key) =>
  }

  /** An error met on a prefix is the error of the whole list: the loop may return at once. */
  lemma {:induction false} TranslateStops(reqs: seq<Requirement>, i: nat)
    requires i <= |reqs| && Translate(reqs[..i]).Err?
    ensures Translate(reqs) == Translate(reqs[..i])
    decreases |reqs|
  {
    if i < |reqs| {
      var shorter := reqs[..|reqs| - 1];
      assert shorter[..i] == reqs[..i];
      TranslateStops(shorter, i);
    } else {
      assert reqs[..i] == reqs;
    }
  }

  /** Nothing gets lost: only the empty list gives an empty draft, and the expressions of a list
      with the parser's value counts can be converted back. */
  lemma {:induction false} TranslateShape(reqs: seq<Requirement>)
    requires Translate(reqs).Ok?
    ensures var d := Translate(reqs).value;
            && (|d.matchLabels| + |d.exprs| + |d.notEquals| == 0 <==> reqs == [])
            && (forall k | k in d.notEquals :: d.notEquals[k] != [])
            && ((forall i | 0 <= i < |reqs| :: Arity(reqs[i])) ==> Convertible(LabelSelector(d.matchLabels, d.exprs)))
  {
    if reqs != [] {
      var n := |reqs| - 1;
      var shorter, r, d := reqs[..n], reqs[n], Translate(reqs).value;
      TranslateShape(shorter);
      assert forall i | 0 <= i < n :: shorter[i] == reqs[i];
      assert SingleEquality(r) ==> r.key in d.matchLabels;
      assert r.operator.NotEquals? ==> r.key in d.notEquals;
    }
  }

  /**
   Translates a requirement list. Equalities with one value go to the label map, `!=` values are
   gathered by key into one `NotIn` each, and the rest becomes one expression each. The gathered
   keys are visited in any order.
   */
  method ParseLabelSelector(reqs: seq<Requirement>) returns (r: Result<LabelSelector, ParseError>)
    ensures r.Ok? <==> Translatable(reqs)
    ensures r.Ok? ==> AllSupported(reqs)
    ensures r.Ok? ==> forall labels :: Matches(r.value, labels) <==> RequirementsMatch(reqs, labels)
    ensures r.Ok? ==> (Empty(r.value) <==> reqs == [])
    ensures r.Ok? && (forall i | 0 <= i < |reqs| :: Arity(reqs[i])) ==> Convertible(r.value)
    ensures r.Err? ==> Translate(reqs) == Err(r.error) && Justified(r.error, reqs)
  {
    var matchLabels: map<string, string> := map[];
    var exprs: seq<Expression> := [];
    var notEquals: map<string, seq<string>> := map[];
    TranslateSucceeds(reqs);
    for i := 0 to |reqs|
      invariant Translate(reqs[..i]) == Ok(Draft(matchLabels, exprs, notEquals))
    {
      var req := reqs[i];
      assert reqs[..i + 1][..i] == reqs[..i];
      if SingleEquality(req) {
        if req.key in matchLabels && matchLabels[req.key] != req.values[0] {
          TranslateStops(reqs, i + 1);
          return Err(ConflictingEquality(req.key));
        }
        matchLabels := matchLabels[req.key := req.values[0]];
      } else if req.operator.NotEquals? {
        if |req.values| != 1 {
          TranslateStops(reqs, i + 1);
          return Err(NotEqualsArity);
        }
        notEquals := notEquals[req.key := Gathered(notEquals, req.key) + [req.values[0]]];
      } else if Supported(req.operator) {
        exprs := exprs + [AsExpression(req)];
      } else {
        TranslateStops(reqs, i + 1);
        return Err(UnsupportedOperator);
      }
    }
    assert reqs[..|reqs|] == reqs;
    TranslateShape(reqs);
    exprs := FlushNotEquals(Draft(matchLabels, exprs, notEquals));
    r := Ok(LabelSelector(matchLabels, exprs));
    forall labels ensures AllSupported(reqs) && (Matches(r.value, labels) <==> RequirementsMatch(reqs, labels)) {
      TranslateMeaning(reqs, labels);
    }
    TranslateMeaning(reqs, map[]);
  }

  /** Turns each gathered key into one `NotIn` expression, visiting the keys in any order. */
  method FlushNotEquals(d: Draft) returns (exprs: seq<Expression>)
    requires forall k | k in d.notEquals :: d.notEquals[k] != []
    ensures forall labels :: Matches(LabelSelector(d.matchLabels, exprs), labels) <==> DraftMatches(d, labels)
    ensures |exprs| == |d.exprs| + |d.notEquals|
    ensures Convertible(LabelSelector(d.matchLabels, d.exprs)) ==> Convertible(LabelSelector(d.matchLabels, exprs))
  {
    exprs := d.exprs;
    var waiting := d.notEquals;
    while waiting != map[]
      invariant forall k | k in waiting :: waiting[k] != []
      invariant forall labels :: DraftMatches(Draft(d.matchLabels, exprs, waiting), labels) <==> DraftMatches(d, labels)
      invariant |exprs| + |waiting| == |d.exprs| + |d.notEquals|
      invariant Convertible(LabelSelector(d.matchLabels, d.exprs)) ==> Convertible(LabelSelector(d.matchLabels, exprs))
      decreases |waiting|
    {
      var key :| key in waiting;
      var e := Expression(key, OpNotIn, waiting[key]);
      var rest := waiting - {key};
      assert waiting.Keys == rest.Keys + {key};
      forall labels
        ensures DraftMatches(Draft(d.matchLabels, exprs + [e], rest), labels)
           <==> DraftMatches(Draft(d.matchLabels, exprs, waiting), labels)
      {
        AppendedExpressionMatches(d.matchLabels, exprs, e, labels);
      }
      exprs, waiting := exprs + [e], rest;
    }
  }

  // ---------------------------------------------------------------- what the error means

  /** The conflicting-equality error is raised only for lists that match nothing: whatever the
      label set, some supported requirement of the list fails on it. */
  lemma ConflictMatchesNothing(reqs: seq<Requirement>, labels: Labels)
    requires Translate(reqs).Err? && Translate(reqs).error.ConflictingEquality?
    ensures exists k :: 0 <= k < |reqs| && Fails(reqs[k], labels)
  {
    TranslateSucceeds(reqs);
    var key := Translate(reqs).error.key;
    var i, j :| 0 <= i < j < |reqs| && Conflict(reqs[i], reqs[j]) && reqs[i].key == key;
    ConflictFails(reqs[i], reqs[j], labels);
  }

  predicate Fails(r: Requirement, labels: Labels) {
    Supported(r.operator) && !RequirementMatches(r, labels)
  }

  lemma ConflictFails(a: Requirement, b: Requirement, labels: Labels)
    requires Conflict(a, b)
    ensures Fails(a, labels) || Fails(b, labels)
  {
    assert a.values == [a.values[0]] && b.values == [b.values[0]];
  }
}
