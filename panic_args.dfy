/**
  `Args` of src/args/mod.rs, the earlier generation: the same registration and
  resolution, but `parse` panics instead of returning an error, and a coercion failure
  is worded without quotes. A panic is modelled as the outcome `Panic(message)`.
*/
module PanicArgs {
  import opened Wrappers
  import opened Getopts
  import opened Errors
  import ArgsErrors
  import Options
  import Validations
  import Lib = Args

  class Args {
    var opts: map<string, Options.Opt>
    var optNames: seq<string>
    var programName: string
    var values: map<string, string>

    /** Every registered name has its descriptor, and every descriptor was registered. */
    ghost predicate Valid()
      reads this
    {
      && Lib.Registered(optNames, opts)
      && forall n | n in opts :: n in optNames && opts[n].longName == n && Options.Supported(opts[n])
    }

    /** `Args::new`. */
    constructor (programName: string)
      ensures Valid()
      ensures this.programName == programName
      ensures optNames == [] && opts == map[] && values == map[]
    {
      this.programName := programName;
      optNames := [];
      opts := map[];
      values := map[];
    }

    /** `register_opt`: appends the name, even again, and replaces the descriptor. */
    method RegisterOpt(opt: Options.Opt)
      requires Valid() && Options.Supported(opt)
      modifies this`optNames, this`opts
      ensures Valid()
      ensures optNames == old(optNames) + [opt.longName]
      ensures opts == old(opts)[opt.longName := opt]
    {
      optNames := optNames + [opt.Name()];
      opts := opts[opt.Name() := opt];
    }

    /** `Args::flag`. */
    method Flag(shortName: string, longName: string, desc: string)
      requires Valid()
      modifies this`optNames, this`opts
      ensures Valid()
      ensures optNames == old(optNames) + [longName]
      ensures opts == old(opts)[longName := Options.Opt(shortName, longName, desc, "", No, Optional, None)]
    {
      var opt := Options.New(shortName, longName, desc, "", No, Optional, None);
      RegisterOpt(opt.value);
    }

    /** `Args::option` (renamed so as not to hide `Option`): panics for `Occur::Multi` before registering anything. */
    method AddOption(shortName: string, longName: string, desc: string, hint: string,
                  occur: Occur, default: Option<string>) returns (outcome: Outcome)
      requires Valid()
      modifies this`optNames, this`opts
      ensures Valid()
      ensures occur == Occur.Multi ==>
                outcome == Panic("Occur::Multi is not supported yet")
                && optNames == old(optNames) && opts == old(opts)
      ensures occur != Occur.Multi ==>
                && outcome == Done
                && optNames == old(optNames) + [longName]
                && opts == old(opts)[longName := Options.Opt(shortName, longName, desc, hint, Yes,
                                                  if default.Some? then Optional else occur, default)]
    {
      var opt := Options.New(shortName, longName, desc, hint, Yes, occur, default);
      if opt.Err? {
        return Panic(opt.error);
      }
      RegisterOpt(opt.value);
      outcome := Done;
    }

    /**
      `Args::parse`. Panics with the tokenizer's message on a tokenizer failure, before any
      value is touched, and with an argument-missing message for the first required option
      without a value; otherwise stores the resolved values as src/lib.rs does.
    */
    method Parse(tokens: Result<Matches, Fail>) returns (outcome: Outcome)
      requires Valid()
      modifies this`values
      ensures Valid()
      ensures tokens.Err? ==> outcome == Panic(tokens.error.ToString()) && values == old(values)
      ensures tokens.Ok? ==>
                var res := Lib.Resolve(optNames, opts, tokens.value, old(values));
                && values == res.values
                && (res.missing.None? ==> outcome == Done)
                && (res.missing.Some? ==> outcome == Panic(ArgumentMissing(res.missing.value).ToString()))
    {
      if tokens.Err? {
        return Panic(tokens.error.ToString());
      }
      var m := tokens.value;
      var i := 0;
      while i < |optNames|
        invariant 0 <= i <= |optNames|
        invariant Lib.Registered(optNames[i..], opts)
        invariant Lib.Resolve(optNames[i..], opts, m, values) == Lib.Resolve(optNames, opts, m, old(values))
      {
        var name := optNames[i];
        // The source panics with an unrecognized-option message when the name has no
        // descriptor; the invariant rules that out.
        assert name in opts;
        var opt := opts[name];
        var value := opt.Parse(m).UnwrapOr("");
        assert optNames[i..][1..] == optNames[i + 1..];
        if value != "" {
          values := values[name := value];
        } else if opt.IsRequired() {
          return Panic(ArgumentMissing(name).ToString());
        }
        i := i + 1;
      }
      outcome := Done;
    }

    /**
      `Args::value_of`: fails, scoped by the name, when nothing is stored, or when the
      stored string does not coerce ("unable to parse <raw>", without quotes).
    */
    function ValueOf<T>(name: string, coerce: string -> Option<T>): (r: Result<T, ArgsError>)
      reads this
      ensures r.Ok? <==> name in values && coerce(values[name]).Some?
      ensures r.Ok? ==> coerce(values[name]) == Some(r.value)
      ensures name !in values ==> r == Err(ArgsErrors.New(name, "does not have a value"))
      ensures name in values && r.Err? ==> r == Err(ArgsErrors.New(name, "unable to parse " + values[name]))
    {
      if name !in values then Err(ArgsErrors.New(name, "does not have a value"))
      else
        match coerce(values[name])
        case Some(v) => Ok(v)
        case None => Err(ArgsErrors.New(name, "unable to parse " + values[name]))
    }

    /**
      `Args::validated_value_of`: a lookup or coercion error first, then the first
      failing validation's error, else the coerced value.
    */
    method ValidatedValueOf<T>(name: string, coerce: string -> Option<T>,
                               validations: seq<Validations.Validation<T>>)
      returns (r: Result<T, ArgsError>)
      ensures ValueOf(name, coerce).Err? ==> r == ValueOf(name, coerce)
      ensures ValueOf(name, coerce).Ok? ==> r == Validations.Validate(ValueOf(name, coerce).value, validations)
    {
      var looked := ValueOf(name, coerce);
      if looked.Err? {
        return looked;
      }
      var value := looked.value;
      var i := 0;
      while i < |validations|
        invariant 0 <= i <= |validations|
        invariant Validations.Validate(value, validations[i..]) == Validations.Validate(value, validations)
      {
        assert validations[i..][1..] == validations[i + 1..];
        if validations[i].IsInvalid(value) {
          return Err(validations[i].error(value));
        }
        i := i + 1;
      }
      r := Ok(value);
    }
  }

  /**
    The two generations differ in the wording of a coercion failure: only src/lib.rs
    quotes the raw string. Everything else about a lookup agrees.
  */
  lemma ValueOfAgreesExceptQuotes<T>(a: Args, b: Lib.Args, name: string, coerce: string -> Option<T>)
    requires a.values == b.values
    ensures a.ValueOf(name, coerce).Ok? <==> b.ValueOf(name, coerce).Ok?
    ensures a.ValueOf(name, coerce).Ok? ==> a.ValueOf(name, coerce) == b.ValueOf(name, coerce)
    ensures name !in a.values ==> a.ValueOf(name, coerce) == b.ValueOf(name, coerce)
    ensures name in a.values && a.ValueOf(name, coerce).Err? ==>
              a.ValueOf(name, coerce) != b.ValueOf(name, coerce)
  {
    if name in a.values && a.ValueOf(name, coerce).Err? {
      var raw := a.values[name];
      var ea := a.ValueOf(name, coerce).error;
      var eb := b.ValueOf(name, coerce).error;
      assert |ea.desc| + 2 == |eb.desc|;
    } else if name !in a.values {
      ArgsErrors.SameAsResultGeneration(name, "does not have a value", "");
    }
  }
}
