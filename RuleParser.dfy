/** Splitting the text of a rule, `condition THEN transformation`, into its
    two halves (the class RuleParserService). */
module RuleParser {
  import opened Wrappers
  import JavaStrings

  /** The two trimmed halves of a rule. */
  datatype RuleParts = RuleParts(condition: string, transformation: string)

  /** The messages of the IllegalArgumentException the parser throws. */
  const EmptyRule: string := "Rule cannot be empty"
  const MissingThen: string := "Rule must contain 'THEN' keyword"

  /** `parseRule(rule)`: a null or blank rule is empty; otherwise it must
      split at `THEN` into exactly two pieces (trailing empty pieces are
      dropped), and the halves are those pieces trimmed.  A thrown
      exception is a `Failure` carrying its message. */
  function ParseRule(rule: Option<string>): (r: Result<RuleParts, string>)
    ensures (rule.None? || JavaStrings.Trim(rule.value) == []) ==> r == Failure(EmptyRule)
    ensures rule.Some? && JavaStrings.Trim(rule.value) != [] ==>
              (r.Success? <==> |JavaStrings.Split(rule.value, "THEN")| == 2)
    ensures rule.Some? && JavaStrings.Trim(rule.value) != [] && |JavaStrings.Split(rule.value, "THEN")| != 2 ==>
              r == Failure(MissingThen)
    ensures r.Failure? ==> r.error == EmptyRule || r.error == MissingThen
    ensures r.Success? ==> JavaStrings.IsTrimmed(r.value.condition) && JavaStrings.IsTrimmed(r.value.transformation)
    ensures r.Success? ==>
              var parts := JavaStrings.Split(rule.value, "THEN");
              |parts| == 2 && r.value == RuleParts(JavaStrings.Trim(parts[0]), JavaStrings.Trim(parts[1]))
  {
    if rule.None? || JavaStrings.Trim(rule.value) == [] then Failure(EmptyRule)
    else
      var parts := JavaStrings.Split(rule.value, "THEN");
      if |parts| != 2 then Failure(MissingThen)
      else Success(RuleParts(JavaStrings.Trim(parts[0]), JavaStrings.Trim(parts[1])))
  }

  /** `THEN` has no border: its first letter does not recur in it. */
  lemma ThenHasNoBorder()
    ensures forall d :: 0 < d < |"THEN"| ==> "THEN"[d] != "THEN"[0]
  {
  }

  /** A text holding a `T` is not blank. */
  lemma NotBlank(s: string, k: nat)
    requires k < |s| && s[k] == 'T'
    ensures JavaStrings.Trim(s) != []
  {
    assert !JavaStrings.IsTrimmable(s[k]);
  }

  /** `c THEN t` parses back into `c` and `t` when both are trimmed and
      neither holds `THEN`. */
  lemma ParseRuleRoundTrip(c: string, t: string)
    requires JavaStrings.IsTrimmed(c) && JavaStrings.IsTrimmed(t)
    requires !JavaStrings.Occurs(c, "THEN") && !JavaStrings.Occurs(t, "THEN")
    ensures ParseRule(Some(c + " THEN " + t)) == Success(RuleParts(c, t))
  {
    var rule := c + " THEN " + t;
    SplitAroundThen(c, t);
    assert rule[|c| + 1] == 'T';
    NotBlank(rule, |c| + 1);
    TwoPiecesAccepted(rule, c + " ", " " + t);
    JavaStrings.TrimPadding(c);
    JavaStrings.TrimPadding(t);
  }

  /** A non-blank rule that splits into two pieces is accepted with those
      pieces trimmed. */
  lemma TwoPiecesAccepted(rule: string, left: string, right: string)
    requires JavaStrings.Trim(rule) != []
    requires JavaStrings.Split(rule, "THEN") == [left, right]
    ensures ParseRule(Some(rule)) == Success(RuleParts(JavaStrings.Trim(left), JavaStrings.Trim(right)))
  {
  }

  /** `c THEN t` splits into `c` and `t`, each with its space. */
  lemma SplitAroundThen(c: string, t: string)
    requires !JavaStrings.Occurs(c, "THEN") && !JavaStrings.Occurs(t, "THEN")
    ensures JavaStrings.Split(c + " THEN " + t, "THEN") == [c + " ", " " + t]
  {
    var rule := c + " THEN " + t;
    var left, right := c + " ", " " + t;
    assert rule == left + "THEN" + right;
    JavaStrings.NoOccurrenceExtended(c, ' ', "THEN");
    JavaStrings.NoOccurrencePrefixed(' ', t, "THEN");
    ThenPiece(left, right);
    JavaStrings.SinglePiece(right, "THEN");
    var pieces := JavaStrings.Pieces(rule, "THEN");
    assert pieces == [left, right];
    assert JavaStrings.DropTrailingEmpty(pieces) == pieces;
  }

  /** A rule ending in `THEN` leaves an empty last piece, which the split
      drops, so it is rejected for lacking `THEN`. */
  lemma TrailingThenRejected(c: string)
    requires !JavaStrings.Occurs(c, "THEN")
    ensures ParseRule(Some(c + "THEN")) == Failure(MissingThen)
  {
    var rule := c + "THEN";
    assert rule == c + "THEN" + "";
    ThenHasNoBorder();
    JavaStrings.NoEarlyOccurrence(c, "THEN", "");
    JavaStrings.FirstPiece(c, "THEN", "");
    JavaStrings.SinglePiece("", "THEN");
    assert JavaStrings.Pieces(rule, "THEN") == [c, ""];
    NotBlank(rule, |c|);
  }

  /** A second `THEN` followed by more text makes three pieces, which are
      rejected. */
  lemma SecondThenRejected(c: string, t: string, u: string)
    requires u != []
    requires !JavaStrings.Occurs(c, "THEN") && !JavaStrings.Occurs(t, "THEN") && !JavaStrings.Occurs(u, "THEN")
    ensures ParseRule(Some(c + "THEN" + t + "THEN" + u)) == Failure(MissingThen)
  {
    var tail := t + "THEN" + u;
    var rule := c + "THEN" + tail;
    assert c + "THEN" + t + "THEN" + u == rule;
    ThenPiece(t, u);
    JavaStrings.SinglePiece(u, "THEN");
    ThenPiece(c, tail);
    var pieces := JavaStrings.Pieces(rule, "THEN");
    assert pieces == [c, t, u];
    assert JavaStrings.DropTrailingEmpty(pieces) == pieces;
    assert |JavaStrings.Split(rule, "THEN")| == 3;
    NotBlank(rule, |c|);
  }

  /** Text before the first `THEN` is the first piece. */
  lemma ThenPiece(c: string, rest: string)
    requires !JavaStrings.Occurs(c, "THEN")
    ensures JavaStrings.IndexOf(c + "THEN" + rest, "THEN") == |c|
    ensures JavaStrings.Pieces(c + "THEN" + rest, "THEN") == [c] + JavaStrings.Pieces(rest, "THEN")
  {
    ThenHasNoBorder();
    JavaStrings.NoEarlyOccurrence(c, "THEN", rest);
    JavaStrings.FirstPiece(c, "THEN", rest);
  }

  /** A rule without `THEN` is one piece and is rejected unless blank. */
  lemma NoThenRejected(s: string)
    requires !JavaStrings.Occurs(s, "THEN")
    ensures ParseRule(Some(s)) == Failure(if JavaStrings.Trim(s) == [] then EmptyRule else MissingThen)
  {
    JavaStrings.SinglePiece(s, "THEN");
  }
}
