/**
 * The conditional assignment operator `=?`: its body stores the right-hand
 * side into the `inout` left-hand side only when the two differ, so that an
 * expensive setter is not run for a redundant store.
 *
 * A stored variable without observers is an object with one field; its ghost
 * field `writes` counts the stores made to it, which is what makes "no write
 * happens" observable. A property with observers or a computed setter is
 * `ObservedProperty`, where Swift's copy-in/copy-out passing of `inout`
 * arguments runs the setter on every call.
 */
module ConditionalAssignment {
  import opened Wrappers

  /** A stored variable, without observers, holding a non-optional `Equatable` value. */
  class Variable<V(==)> {
    var value: V
    ghost var writes: nat

    constructor (initial: V)
      ensures value == initial && writes == 0
    {
      value := initial;
      writes := 0;
    }

    /** `lvalue =? rvalue` for a non-optional `lvalue`. */
    method AssignIfChanged(rvalue: V)
      modifies this
      ensures value == rvalue
      ensures old(value) == rvalue ==> unchanged(this)
      ensures old(value) != rvalue ==> writes == old(writes) + 1
    {
      if rvalue != value {
        value := rvalue;
        writes := writes + 1;
      }
    }
  }

  /**
   * Swift's `==` on two optionals: two `nil`s are equal, a `nil` never equals
   * a present value, and two present values are compared by their own `==`.
   */
  predicate OptionalEquals<V(==)>(a: Option<V>, b: Option<V>)
  {
    match (a, b)
    case (None, None) => true
    case (Some(x), Some(y)) => x == y
    case _ => false
  }

  /** Swift's optional equality is exactly structural equality of the two optionals. */
  lemma OptionalEqualsIsEquality<V>(a: Option<V>, b: Option<V>)
    ensures OptionalEquals(a, b) <==> a == b
  {
  }

  /** A stored variable, without observers, holding an optional `Equatable` value. */
  class OptionalVariable<V(==)> {
    var value: Option<V>
    ghost var writes: nat

    constructor (initial: Option<V>)
      ensures value == initial && writes == 0
    {
      value := initial;
      writes := 0;
    }

    /** `lvalue =? rvalue` for an optional `lvalue` and `rvalue`. */
    method AssignIfChanged(rvalue: Option<V>)
      modifies this
      ensures value == rvalue
      ensures old(value) == rvalue ==> unchanged(this)
      ensures old(value) != rvalue ==> writes == old(writes) + 1
    {
      if !OptionalEquals(value, rvalue) {
        OptionalEqualsIsEquality(value, rvalue);
        value := rvalue;
        writes := writes + 1;
      } else {
        OptionalEqualsIsEquality(value, rvalue);
      }
    }
  }

  /**
   * A property with a `didSet` observer, or a computed property with a
   * setter: every store goes through the setter, and `observerRuns` counts the
   * times the setter and its observers ran.
   */
  class ObservedProperty<V(==)> {
    var value: V
    var observerRuns: nat

    constructor (initial: V)
      ensures value == initial && observerRuns == 0
    {
      value := initial;
      observerRuns := 0;
    }

    /** A store through the setter: the value is replaced and the observers run once. */
    method Set(newValue: V)
      modifies this
      ensures value == newValue && observerRuns == old(observerRuns) + 1
    {
      value := newValue;
      observerRuns := observerRuns + 1;
    }

    /**
     * `property =? rvalue` as Swift runs it. The property is passed `inout` by
     * copy-in and copy-out: the operator's body works on a copy, and when it
     * returns the copy is stored back through the setter, whether or not the
     * body changed it.
     */
    method AssignIfChangedInout(rvalue: V)
      modifies this
      ensures value == rvalue
      ensures observerRuns == old(observerRuns) + 1
    {
      var lvalue := value;
      if rvalue != lvalue {
        lvalue := rvalue;
      }
      Set(lvalue);
    }

    /**
     * The expansion that the operator's documentation gives as its meaning:
     * compare, and store through the setter only when the value differs.
     */
    method AssignIfChangedExplicitly(rvalue: V)
      modifies this
      ensures value == rvalue
      ensures old(value) == rvalue ==> unchanged(this)
      ensures old(value) != rvalue ==> observerRuns == old(observerRuns) + 1
    {
      if value != rvalue {
        Set(rvalue);
      }
    }
  }

  /**
   * On an observed property that already holds `true`, `property =? true`
   * still runs the observers once, while the documented expansion runs none.
   */
  method ObservedRedundantAssignment() returns (inoutRuns: nat, explicitRuns: nat)
    ensures inoutRuns == 1 && explicitRuns == 0
  {
    var p := new ObservedProperty<bool>(true);
    p.AssignIfChangedInout(true);
    inoutRuns := p.observerRuns;
    var q := new ObservedProperty<bool>(true);
    q.AssignIfChangedExplicitly(true);
    explicitRuns := q.observerRuns;
  }
}
