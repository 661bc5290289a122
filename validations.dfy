/**
  The validations of src/args/validations.rs: the `Validation` capability (a validity
  test and an error for a value), the four `Order` relations, and `OrderValidation`,
  which checks a value against a fixed bound. Values are integers here.
*/
module Validations {
  import opened Wrappers
  import opened Errors
  import ArgsErrors
  import Coercions

  /** The relation an `OrderValidation` demands of a value with respect to its bound. */
  datatype Order = GreaterThan | GreaterThanOrEqual | LessThan | LessThanOrEqual {

    /** Whether the relation is satisfied by a value equal to the bound. */
    predicate AllowsEqual() {
      this == GreaterThanOrEqual || this == LessThanOrEqual
    }

    /** Whether the relation asks the value to lie above the bound. */
    predicate Above() {
      this == GreaterThan || this == GreaterThanOrEqual
    }

    /**
      `Order::compare(bound, value)`: the value, on the left, stands in this relation to
      the bound, on the right.
    */
    function Compare(bound: int, value: int): (r: bool)
      ensures value == bound ==> (r <==> AllowsEqual())
      ensures value != bound ==> (r <==> (Above() <==> value > bound))
    {
      match this
      case GreaterThan => value > bound
      case GreaterThanOrEqual => value >= bound
      case LessThan => value < bound
      case LessThanOrEqual => value <= bound
    }

    /** The relation that holds exactly when this one does not. */
    function Negation(): Order {
      match this
      case GreaterThan => LessThanOrEqual
      case GreaterThanOrEqual => LessThan
      case LessThan => GreaterThanOrEqual
      case LessThanOrEqual => GreaterThan
    }

    /** `Display` for `Order`. */
    function Display(): (s: string)
      ensures AllowsEqual() <==> |s| > 12 && s[|s| - 12..] == " or equal to"
    {
      match this
      case GreaterThan => "greater than"
      case GreaterThanOrEqual => "greater than or equal to"
      case LessThan => "less than"
      case LessThanOrEqual => "less than or equal to"
    }
  }

  /** On integers, `<=` is the negation of `>` and `>=` the negation of `<`. */
  lemma NegationIsComplement(order: Order, bound: int, value: int)
    ensures order.Negation().Compare(bound, value) == !order.Compare(bound, value)
    ensures order.Negation().Negation() == order
  {
  }

  /** The four relations have four different texts. */
  lemma DisplayInjective(o1: Order, o2: Order)
    requires o1.Display() == o2.Display()
    ensures o1 == o2
  {
  }

  /**
    The `Validation` trait, as the pair of its required methods; `IsInvalid` is the
    trait's provided method.
  */
  datatype Validation<!T> = Validation(isValid: T -> bool, error: T -> ArgsError) {
    predicate IsInvalid(value: T) {
      !isValid(value)
    }
  }

  /** `OrderValidation`: a relation and the bound it is checked against. */
  datatype OrderValidation = OrderValidation(order: Order, bound: int) {

    /** `Validation::is_valid`. */
    predicate IsValid(value: int)
      ensures IsValid(value) <==> order.Compare(bound, value)
    {
      order.Compare(bound, value)
    }

    /** `Validation::is_invalid`, the provided method. */
    predicate IsInvalid(value: int)
      ensures IsInvalid(value) <==> order.Negation().Compare(bound, value)
    {
      NegationIsComplement(order, bound, value);
      !IsValid(value)
    }

    /** `Validation::error`: "order invalid: <value> is not <order> <bound>". */
    function Error(value: int): (e: ArgsError)
      ensures e.desc == "order invalid: " + (Coercions.IntText(value) + " is not "
                        + order.Display() + " " + Coercions.IntText(bound))
    {
      var msg := Coercions.IntText(value) + " is not " + order.Display() + " " + Coercions.IntText(bound);
      assert ScopePrefix("order invalid") == "order invalid: ";
      ArgsErrors.New("order invalid", msg)
    }

    /** The validation as the trait object the accessors take. */
    function AsValidation(): (v: Validation<int>)
      ensures forall x :: v.isValid(x) == IsValid(x) && v.error(x) == Error(x)
      ensures forall x :: v.IsInvalid(x) == IsInvalid(x)
    {
      Validation(x => IsValid(x), x => Error(x))
    }
  }

  /** `OrderValidation::new`: the relation and the bound are stored unchanged. */
  function NewOrderValidation(order: Order, bound: int): (v: OrderValidation)
    ensures v.order == order && v.bound == bound
  {
    OrderValidation(order, bound)
  }

  /**
    The validation step of `validated_value_of`: the first validation that finds the
    value invalid supplies the error; if none does, the value is returned unchanged.
  */
  function Validate<T>(value: T, validations: seq<Validation<T>>): (r: Result<T, ArgsError>)
    ensures r.Ok? <==> forall i | 0 <= i < |validations| :: validations[i].isValid(value)
    ensures r.Ok? ==> r.value == value
    ensures r.Err? ==> exists i | 0 <= i < |validations| ::
                         && validations[i].IsInvalid(value)
                         && r.error == validations[i].error(value)
                         && forall j | 0 <= j < i :: validations[j].isValid(value)
  {
    if validations == [] then Ok(value)
    else if validations[0].IsInvalid(value) then Err(validations[0].error(value))
    else
      var r := Validate(value, validations[1..]);
      assert r.Err? ==> exists i | 1 <= i < |validations| ::
                          && validations[i].IsInvalid(value)
                          && r.error == validations[i].error(value)
                          && forall j | 0 <= j < i :: validations[j].isValid(value) by {
        if r.Err? {
          var k :| 0 <= k < |validations| - 1 && validations[1..][k].IsInvalid(value)
                   && r.error == validations[1..][k].error(value)
                   && forall j | 0 <= j < k :: validations[1..][j].isValid(value);
          assert validations[k + 1].IsInvalid(value);
          assert forall j | 0 <= j < k + 1 :: validations[j].isValid(value) by {
            forall j | 0 <= j < k + 1 ensures validations[j].isValid(value) {
              if j > 0 { assert validations[j] == validations[1..][j - 1]; }
            }
          }
        }
      }
      r
  }

  /**
    The crate's documented use: a count that must be greater than 0 and at most 10.
    "5" passes both checks; "0" is stopped by the first, whose error names the bound.
  */
  lemma BoundedCountExample()
    ensures Coercions.ParseI32("5") == Some(5)
    ensures var checks := [NewOrderValidation(GreaterThan, 0).AsValidation(),
                           NewOrderValidation(LessThanOrEqual, 10).AsValidation()];
            && Validate(5, checks) == Ok(5)
            && Validate(0, checks) == Err(NewOrderValidation(GreaterThan, 0).Error(0))
  {
    assert Coercions.DigitsValue("5") == 5 by {
      assert "5"[..0] == [];
    }
    var checks := [NewOrderValidation(GreaterThan, 0).AsValidation(),
                   NewOrderValidation(LessThanOrEqual, 10).AsValidation()];
    assert checks[0].IsInvalid(0);
  }
}
