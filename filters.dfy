/**
 * Two members of the filter language: the condition "has no Trakt link"
 * with its equality, and the sort key "air date", which falls back to a
 * default date when the air date is unknown.
 */
module Filters {
  import opened Wrappers

  /** A `DateTime`, as its count of ticks. */
  type DateTime = int

  /** What the two filter members read of a series or group. */
  datatype Filterable = Filterable(hasTraktLink: bool, airDate: Option<DateTime>)

  // ---------------------------------------------------------------- MissingTraktLinkExpression

  /**
   * An instance of `MissingTraktLinkExpression` or of a class derived from it:
   * its identity on the heap and the full name of its run-time type.
   */
  datatype Expression = Expression(address: nat, typeName: string)

  /** `TimeDependent` and `UserDependent` of the expression. */
  const MissingTraktTimeDependent := false
  const MissingTraktUserDependent := false

  /** `Evaluate`: the condition holds exactly for what has no Trakt link. */
  function MissingTraktLink(f: Filterable): (r: bool)
    ensures r <==> !f.hasTraktLink
  {
    !f.hasTraktLink
  }

  /**
   * `Equals(object)`: false for null, true for the same instance, false for
   * another run-time type, and otherwise the base class's equality, which
   * `baseEquals` stands for.
   */
  function ExpressionEquals(baseEquals: (Expression, Expression) -> bool, self: Expression, obj: Option<Expression>): (r: bool)
    ensures obj.None? ==> !r
    ensures obj == Some(self) ==> r
    ensures obj.Some? && obj.value.typeName != self.typeName ==> !r
    ensures obj.Some? && obj.value != self && obj.value.typeName == self.typeName ==> (r <==> baseEquals(self, obj.value))
  {
    if obj.None? then false
    else if obj.value == self then true
    else if obj.value.typeName != self.typeName then false
    else baseEquals(self, obj.value)
  }

  /** `object.Equals(left, right)`, which `==` calls: the same instance, or both non-null and equal by `Equals`. */
  function OperatorEquals(baseEquals: (Expression, Expression) -> bool, left: Option<Expression>, right: Option<Expression>): (r: bool)
    ensures left == right ==> r
    ensures left.None? != right.None? ==> !r
    ensures left.Some? && right.Some? ==> (r <==> ExpressionEquals(baseEquals, left.value, right))
  {
    if left == right then true
    else if left.None? || right.None? then false
    else ExpressionEquals(baseEquals, left.value, right)
  }

  /** `!=`. */
  function OperatorNotEquals(baseEquals: (Expression, Expression) -> bool, left: Option<Expression>, right: Option<Expression>): (r: bool)
  {
    !OperatorEquals(baseEquals, left, right)
  }

  /** `!=` is always the negation of `==`. */
  lemma NotEqualsNegates(baseEquals: (Expression, Expression) -> bool, left: Option<Expression>, right: Option<Expression>)
    ensures OperatorNotEquals(baseEquals, left, right) == !OperatorEquals(baseEquals, left, right)
  {
  }

  /** `GetHashCode`: the hash of the run-time type's full name; `stringHash` is `string.GetHashCode`. */
  function ExpressionHash(stringHash: string -> int, self: Expression): int {
    stringHash(self.typeName)
  }

  /** All instances of one run-time type hash equally, whatever their other state. */
  lemma SameTypeHashesEqually(stringHash: string -> int, a: Expression, b: Expression)
    requires a.typeName == b.typeName
    ensures ExpressionHash(stringHash, a) == ExpressionHash(stringHash, b)
  {
  }

  /** Instances that are equal hash equally, whatever the base equality says. */
  lemma EqualExpressionsHashEqually(baseEquals: (Expression, Expression) -> bool, stringHash: string -> int,
                                    a: Expression, b: Expression)
    requires OperatorEquals(baseEquals, Some(a), Some(b))
    ensures ExpressionHash(stringHash, a) == ExpressionHash(stringHash, b)
  {
  }

  /** `==` is symmetric when the base equality is. */
  lemma OperatorEqualsSymmetric(baseEquals: (Expression, Expression) -> bool, left: Option<Expression>, right: Option<Expression>)
    requires forall x, y :: baseEquals(x, y) == baseEquals(y, x)
    ensures OperatorEquals(baseEquals, left, right) == OperatorEquals(baseEquals, right, left)
  {
    if left.Some? && right.Some? && left != right && left.value.typeName == right.value.typeName {
      assert baseEquals(left.value, right.value) == baseEquals(right.value, left.value);
    }
  }

  // ---------------------------------------------------------------- AirDateSortingSelector

  /** An `AirDateSortingSelector`: its `DefaultValue`. */
  datatype AirDateSortingSelector = AirDateSortingSelector(defaultValue: DateTime)

  /** `TimeDependent` and `UserDependent` of the selector. */
  const AirDateTimeDependent := false
  const AirDateUserDependent := false

  /** `Evaluate`: the air date, or the selector's default when there is none; never null. */
  function AirDateKey(sel: AirDateSortingSelector, f: Filterable): (r: DateTime)
    ensures f.airDate.Some? ==> r == f.airDate.value
    ensures f.airDate.None? ==> r == sel.defaultValue
  {
    f.airDate.GetOr(sel.defaultValue)
  }

  /** The key reads nothing of the filterable but its air date. */
  lemma AirDateKeyReadsOnlyAirDate(sel: AirDateSortingSelector, f: Filterable, g: Filterable)
    requires f.airDate == g.airDate
    ensures AirDateKey(sel, f) == AirDateKey(sel, g)
  {
  }

  /** A filterable without an air date sorts exactly as one that aired on the default date. */
  lemma MissingAirDateSortsAsDefault(sel: AirDateSortingSelector, f: Filterable, g: Filterable)
    requires f.airDate.None? && g.airDate == Some(sel.defaultValue)
    ensures AirDateKey(sel, f) == AirDateKey(sel, g)
  {
  }

  /** Neither member depends on the time of evaluation or on the user. */
  lemma FiltersIndependentOfTimeAndUser()
    ensures !MissingTraktTimeDependent && !MissingTraktUserDependent
    ensures !AirDateTimeDependent && !AirDateUserDependent
  {
  }
}
