/**
  `ArgsError` of src/args/errors.rs, the error of the panic-based generation. Its
  struct holds a single `desc` string, public here and private in src/errors.rs; the
  model represents both by the value `Errors.ArgsError` and gives this file's own
  constructors. Its `Display` and `description` return `desc`, as `Errors.ArgsError`
  does; its derived `Debug` (the struct form) is not modelled.
*/
module ArgsErrors {
  import opened Errors

  /**
    `ArgsError::new_with_usage`: `scope: ` when the scope is non-empty, the message,
    and a blank line plus the usage when the usage is non-empty.
  */
  function NewWithUsage(scope: string, msg: string, usage: string): (e: ArgsError)
    ensures usage == [] ==> e.desc == ScopePrefix(scope) + msg
    ensures usage != [] ==> e.desc == ScopePrefix(scope) + msg + "\n\n" + usage
    ensures scope != [] ==> e.desc[..|scope| + 2] == scope + ": "
  {
    var desc := if scope == [] then [] else scope + ": ";
    var desc := desc + msg;
    if usage == [] then ArgsError(desc) else ArgsError(desc + "\n\n" + usage)
  }

  /** `ArgsError::new`: no usage suffix. */
  function New(scope: string, msg: string): (e: ArgsError)
    ensures e == NewWithUsage(scope, msg, "")
    ensures e.desc == ScopePrefix(scope) + msg
  {
    NewWithUsage(scope, msg, "")
  }

  /** Both generations of the crate render an error identically. */
  lemma SameAsResultGeneration(scope: string, msg: string, usage: string)
    ensures NewWithUsage(scope, msg, usage) == Errors.NewWithUsage(scope, msg, usage)
  {
  }
}
