/**
  The provided methods of the `HasParsedArgs` trait of src/traits/has_parsed_args.rs,
  over the `Args` that `parsed_args()` returns (passed here as `args`): delegating
  lookups, and optional lookups that give `None` rather than an error for an option
  that has no stored value.
*/
module ParsedArgs {
  import opened Wrappers
  import opened Errors
  import Validations
  import Lib = Args

  /** `has_value`, delegated unchanged. */
  predicate HasValue(args: Lib.Args, name: string)
    reads args
    ensures HasValue(args, name) <==> name in args.values
  {
    args.HasValue(name)
  }

  /** `value_of`, delegated unchanged. */
  function ValueOf<T>(args: Lib.Args, name: string, coerce: string -> Option<T>): (r: Result<T, ArgsError>)
    reads args
    ensures r == args.ValueOf(name, coerce)
  {
    args.ValueOf(name, coerce)
  }

  /** `validated_value_of`, delegated unchanged. */
  method ValidatedValueOf<T>(args: Lib.Args, name: string, coerce: string -> Option<T>,
                             validations: seq<Validations.Validation<T>>)
    returns (r: Result<T, ArgsError>)
    ensures args.ValueOf(name, coerce).Err? ==> r == args.ValueOf(name, coerce)
    ensures args.ValueOf(name, coerce).Ok? ==>
              r == Validations.Validate(args.ValueOf(name, coerce).value, validations)
  {
    r := args.ValidatedValueOf(name, coerce, validations);
  }

  /**
    `optional_value_of`: `Ok(None)` when nothing is stored; otherwise the lookup wrapped
    in `Some`, with a coercion error passed on.
  */
  function OptionalValueOf<T>(args: Lib.Args, name: string, coerce: string -> Option<T>)
    : (r: Result<Option<T>, ArgsError>)
    reads args
    ensures name !in args.values ==> r == Ok(None)
    ensures r.Ok? && r.value.Some? ==> args.ValueOf(name, coerce) == Ok(r.value.value)
    ensures r.Err? <==> name in args.values && args.ValueOf(name, coerce).Err?
    ensures r.Err? ==> r.error == args.ValueOf(name, coerce).error
    ensures r == Ok(None) <==> name !in args.values
  {
    if HasValue(args, name) then
      match args.ValueOf(name, coerce)
      case Ok(v) => Ok(Some(v))
      case Err(e) => Err(e)
    else Ok(None)
  }

  /**
    `optional_validated_value_of`: `Ok(None)` when nothing is stored, whatever the
    validations; otherwise `validated_value_of` wrapped in `Some`, errors passed on.
  */
  method OptionalValidatedValueOf<T>(args: Lib.Args, name: string, coerce: string -> Option<T>,
                                     validations: seq<Validations.Validation<T>>)
    returns (r: Result<Option<T>, ArgsError>)
    ensures name !in args.values ==> r == Ok(None)
    ensures name in args.values && args.ValueOf(name, coerce).Err? ==>
              r == Err(args.ValueOf(name, coerce).error)
    ensures name in args.values && args.ValueOf(name, coerce).Ok? ==>
              var checked := Validations.Validate(args.ValueOf(name, coerce).value, validations);
              && (checked.Ok? ==> r == Ok(Some(checked.value)))
              && (checked.Err? ==> r == Err(checked.error))
  {
    if HasValue(args, name) {
      var checked := ValidatedValueOf(args, name, coerce, validations);
      match checked
      case Ok(v) => r := Ok(Some(v));
      case Err(e) => r := Err(e);
    } else {
      r := Ok(None);
    }
  }

  /**
    For a stored value, the optional accessor agrees with the plain one: the same value
    in `Some`, or the same error.
  */
  lemma OptionalAgreesWhenPresent<T>(args: Lib.Args, name: string, coerce: string -> Option<T>)
    requires name in args.values
    ensures args.ValueOf(name, coerce).Ok? ==>
              OptionalValueOf(args, name, coerce) == Ok(Some(args.ValueOf(name, coerce).value))
    ensures args.ValueOf(name, coerce).Err? ==>
              OptionalValueOf(args, name, coerce) == Err(args.ValueOf(name, coerce).error)
  {
  }
}
