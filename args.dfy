/**
  `Args` of src/lib.rs: the configuration session. It registers option descriptors in
  order, resolves the tokenizer's matches into a map of stored strings, and hands out
  values coerced to a requested type and checked by validations. Errors are returned.
*/
module Args {
  import opened Wrappers
  import opened Getopts
  import opened Errors
  import Options
  import Validations
  import Coercions

  /** The scope of every error `parse` reports. */
  const ScopeParse: string := "parse"

  /** What one option resolves to: `opt.parse(&matches).unwrap_or("")`. */
  function Resolved(opt: Options.Opt, m: Matches): string {
    opt.Parse(m).UnwrapOr("")
  }

  /** A required option that resolved to nothing or to the empty string. */
  predicate Missing(opt: Options.Opt, m: Matches) {
    Resolved(opt, m) == "" && opt.IsRequired()
  }

  /** Every name in the sequence has a descriptor. */
  predicate Registered(names: seq<string>, opts: map<string, Options.Opt>) {
    forall i | 0 <= i < |names| :: names[i] in opts
  }

  /** The stored values after a resolution pass, and the option that stopped it, if any. */
  datatype Resolution = Resolution(values: map<string, string>, missing: Option<string>)

  /**
    The resolution pass shared by both generations of `parse`: the options are taken in
    registration order; a non-empty resolved value is stored under the option's name, an
    empty one is skipped, and the first required option without a value stops the pass.
    Entries stored before the pass, or earlier in it, are never removed.
  */
  function Resolve(names: seq<string>, opts: map<string, Options.Opt>, m: Matches,
                   values: map<string, string>): (r: Resolution)
    requires Registered(names, opts)
    ensures values.Keys <= r.values.Keys
    ensures forall k | k in values && k !in names :: r.values[k] == values[k]
    ensures forall k | k in r.values ::
              || (k in values && r.values[k] == values[k])
              || (k in names && k in opts && r.values[k] == Resolved(opts[k], m) && r.values[k] != "")
    ensures r.missing.None? <==> forall i | 0 <= i < |names| :: !Missing(opts[names[i]], m)
    ensures r.missing.None? ==>
              forall i | 0 <= i < |names| && Resolved(opts[names[i]], m) != "" ::
                names[i] in r.values && r.values[names[i]] == Resolved(opts[names[i]], m)
    ensures r.missing.Some? ==>
              exists i | 0 <= i < |names| ::
                && names[i] == r.missing.value
                && Missing(opts[names[i]], m)
                && forall j | 0 <= j < i :: !Missing(opts[names[j]], m)
    decreases |names|
  {
    if names == [] then Resolution(values, None)
    else
      var name := names[0];
      var value := Resolved(opts[name], m);
      var rest := names[1..];
      assert forall i | 0 <= i < |rest| :: rest[i] == names[i + 1];
      if value == "" && opts[name].IsRequired() then Resolution(values, Some(name))
      else
        var r := Resolve(rest, opts, m, if value != "" then values[name := value] else values);
        TailMembers(names);
        FirstMissingShift(names, opts, m, r.missing);
        r
  }

  /** Every name of the tail is a name of the sequence. */
  lemma TailMembers(names: seq<string>)
    requires names != []
    ensures forall n | n in names[1..] :: n in names
  {
  }

  /** The first missing option of the tail is the first of the whole sequence when its head resolves. */
  lemma FirstMissingShift(names: seq<string>, opts: map<string, Options.Opt>, m: Matches,
                          missing: Option<string>)
    requires Registered(names, opts) && names != [] && !Missing(opts[names[0]], m)
    requires Registered(names[1..], opts)
    requires missing.Some? ==>
               exists i | 0 <= i < |names[1..]| ::
                 && names[1..][i] == missing.value
                 && Missing(opts[names[1..][i]], m)
                 && forall j | 0 <= j < i :: !Missing(opts[names[1..][j]], m)
    ensures missing.Some? ==>
              exists i | 0 <= i < |names| ::
                && names[i] == missing.value
                && Missing(opts[names[i]], m)
                && forall j | 0 <= j < i :: !Missing(opts[names[j]], m)
  {
    if missing.Some? {
      var i :| 0 <= i < |names[1..]| && names[1..][i] == missing.value && Missing(opts[names[1..][i]], m)
               && forall j | 0 <= j < i :: !Missing(opts[names[1..][j]], m);
      forall j | 0 <= j < i + 1 ensures !Missing(opts[names[j]], m) {
        if j > 0 { assert names[j] == names[1..][j - 1]; }
      }
      assert names[i + 1] == names[1..][i];
    }
  }

  /**
    After a successful pass every registered flag is stored as "true" or "false",
    according to whether it occurred.
  */
  lemma FlagsStoredByPresence(names: seq<string>, opts: map<string, Options.Opt>, m: Matches,
                              values: map<string, string>, name: string)
    requires Registered(names, opts)
    requires name in names && opts[name].hasArg == No && opts[name].longName == name
    requires Resolve(names, opts, m, values).missing.None?
    ensures name in Resolve(names, opts, m, values).values
    ensures Resolve(names, opts, m, values).values[name] == Coercions.BoolText(m.OptPresent(name))
  {
    var i :| 0 <= i < |names| && names[i] == name;
    Options.FlagAlwaysResolves(opts[name], m);
  }

  /**
    A registered option with a value that did not occur stores its default, when the
    default is non-empty; the default also keeps the pass from failing on that option.
  */
  lemma DefaultStoredWhenAbsent(names: seq<string>, opts: map<string, Options.Opt>, m: Matches,
                                values: map<string, string>, name: string, default: string)
    requires Registered(names, opts)
    requires forall n | n in opts :: Options.Supported(opts[n])
    requires name in names && opts[name].longName == name
    requires opts[name].hasArg == Yes && opts[name].default == Some(default) && default != ""
    requires m.OptStrs(name) == []
    ensures !Missing(opts[name], m)
    ensures Resolve(names, opts, m, values).missing.None? ==>
              Resolve(names, opts, m, values).values[name] == default
  {
    var i :| 0 <= i < |names| && names[i] == name;
  }

  /**
    When the option at index k is the first registered option that is required and
    resolves to nothing or to the empty string, the pass fails naming that option.
  */
  lemma FailsOnFirstMissing(names: seq<string>, opts: map<string, Options.Opt>, m: Matches,
                            values: map<string, string>, k: nat)
    requires Registered(names, opts)
    requires k < |names| && Missing(opts[names[k]], m)
    requires forall j | 0 <= j < k :: !Missing(opts[names[j]], m)
    ensures Resolve(names, opts, m, values).missing == Some(names[k])
  {
    var r := Resolve(names, opts, m, values);
    var i :| 0 <= i < |names| && names[i] == r.missing.value && Missing(opts[names[i]], m)
             && forall j | 0 <= j < i :: !Missing(opts[names[j]], m);
    assert i == k;
  }

  /**
    What the pass stores while it walks `names` without stopping: each non-empty resolved
    value is stored under its option's name, in order, over the given map.
  */
  function Stored(names: seq<string>, opts: map<string, Options.Opt>, m: Matches,
                  values: map<string, string>): map<string, string>
    requires Registered(names, opts)
    decreases |names|
  {
    if names == [] then values
    else
      var value := Resolved(opts[names[0]], m);
      assert Registered(names[1..], opts) by {
        forall i | 0 <= i < |names[1..]| ensures names[1..][i] in opts { assert names[1..][i] == names[i + 1]; }
      }
      Stored(names[1..], opts, m, if value != "" then values[names[0] := value] else values)
  }

  /**
    A failed pass leaves exactly what the walk over the options before the first missing
    one stores: `parse` returns early at that option and nothing is undone.
  */
  lemma {:induction false} FailedPassStores(names: seq<string>, opts: map<string, Options.Opt>,
                                            m: Matches, values: map<string, string>, k: nat)
    requires Registered(names, opts)
    requires k < |names| && Missing(opts[names[k]], m)
    requires forall i | 0 <= i < k :: !Missing(opts[names[i]], m)
    ensures Registered(names[..k], opts)
    ensures Resolve(names, opts, m, values) == Resolution(Stored(names[..k], opts, m, values), Some(names[k]))
    decreases |names|
  {
    TailBeforeMissing(names, opts, m, k);
    if k > 0 {
      var value := Resolved(opts[names[0]], m);
      ResolveStep(names, opts, m, values);
      FailedPassStores(names[1..], opts, m, if value != "" then values[names[0] := value] else values, k - 1);
    }
  }

  /** The facts about the tail that carry a failed pass one option further. */
  lemma TailBeforeMissing(names: seq<string>, opts: map<string, Options.Opt>, m: Matches, k: nat)
    requires Registered(names, opts)
    requires k < |names| && Missing(opts[names[k]], m)
    requires forall i | 0 <= i < k :: !Missing(opts[names[i]], m)
    ensures Registered(names[..k], opts)
    ensures k > 0 ==> Registered(names[1..], opts) && Missing(opts[names[1..][k - 1]], m)
    ensures k > 0 ==> forall i | 0 <= i < k - 1 :: !Missing(opts[names[1..][i]], m)
    ensures k > 0 ==> names[..k][1..] == names[1..][..k - 1]
  {
    assert Registered(names[..k], opts) by {
      forall i | 0 <= i < k ensures names[..k][i] in opts { assert names[..k][i] == names[i]; }
    }
    if k > 0 {
      var rest := names[1..];
      assert Registered(rest, opts) by {
        forall i | 0 <= i < |rest| ensures rest[i] in opts { assert rest[i] == names[i + 1]; }
      }
      assert rest[k - 1] == names[k];
      forall i | 0 <= i < k - 1 ensures !Missing(opts[rest[i]], m) {
        assert rest[i] == names[i + 1];
      }
    }
  }

  /** The walk stores every option's non-empty resolved value under its name. */
  lemma {:induction false} StoredHoldsResolved(names: seq<string>, opts: map<string, Options.Opt>,
                                               m: Matches, values: map<string, string>, j: nat)
    requires Registered(names, opts)
    requires j < |names| && Resolved(opts[names[j]], m) != ""
    ensures names[j] in Stored(names, opts, m, values)
    ensures Stored(names, opts, m, values)[names[j]] == Resolved(opts[names[j]], m)
    decreases |names|
  {
    var value := Resolved(opts[names[0]], m);
    var rest := names[1..];
    var next := if value != "" then values[names[0] := value] else values;
    assert Registered(rest, opts) by {
      forall i | 0 <= i < |rest| ensures rest[i] in opts { assert rest[i] == names[i + 1]; }
    }
    if j > 0 {
      assert names[j] == rest[j - 1];
      StoredHoldsResolved(rest, opts, m, next, j - 1);
    } else if i :| 0 <= i < |rest| && rest[i] == names[0] {
      StoredHoldsResolved(rest, opts, m, next, i);
    } else {
      StoredKeepsOthers(rest, opts, m, next, names[0]);
    }
  }

  /** The walk leaves the entry of a name it does not visit as it was. */
  lemma {:induction false} StoredKeepsOthers(names: seq<string>, opts: map<string, Options.Opt>,
                                             m: Matches, values: map<string, string>, n: string)
    requires Registered(names, opts)
    requires n !in names
    ensures n in Stored(names, opts, m, values) <==> n in values
    ensures n in values ==> Stored(names, opts, m, values)[n] == values[n]
    decreases |names|
  {
    if names != [] {
      var value := Resolved(opts[names[0]], m);
      var rest := names[1..];
      assert Registered(rest, opts) by {
        forall i | 0 <= i < |rest| ensures rest[i] in opts { assert rest[i] == names[i + 1]; }
      }
      assert n !in rest by {
        forall i | 0 <= i < |rest| ensures rest[i] != n { assert rest[i] == names[i + 1]; }
      }
      StoredKeepsOthers(rest, opts, m, if value != "" then values[names[0] := value] else values, n);
    }
  }

  /**
    A failed pass still keeps what it stored before stopping: every option registered
    before the first missing one holds its non-empty resolved value, and every other
    name holds after the pass exactly what it held before.
  */
  lemma PartialStoreOnFailure(names: seq<string>, opts: map<string, Options.Opt>, m: Matches,
                              values: map<string, string>, k: nat)
    requires Registered(names, opts)
    requires k < |names| && Missing(opts[names[k]], m)
    requires forall j | 0 <= j < k :: !Missing(opts[names[j]], m)
    ensures var r := Resolve(names, opts, m, values);
            forall j | 0 <= j < k && Resolved(opts[names[j]], m) != "" ::
              names[j] in r.values && r.values[names[j]] == Resolved(opts[names[j]], m)
    ensures var r := Resolve(names, opts, m, values);
            forall n | n in r.values && n !in names[..k] :: n in values && r.values[n] == values[n]
  {
    FailedPassStores(names, opts, m, values, k);
    var prefix := names[..k];
    forall j | 0 <= j < k && Resolved(opts[names[j]], m) != ""
      ensures names[j] in Stored(prefix, opts, m, values)
      ensures Stored(prefix, opts, m, values)[names[j]] == Resolved(opts[names[j]], m)
    {
      assert prefix[j] == names[j];
      StoredHoldsResolved(prefix, opts, m, values, j);
    }
    forall n | n in Stored(prefix, opts, m, values) && n !in prefix
      ensures n in values && Stored(prefix, opts, m, values)[n] == values[n]
    {
      StoredKeepsOthers(prefix, opts, m, values, n);
    }
  }

  /** One step of the pass: an option that does not stop it is stored if non-empty. */
  lemma ResolveStep(names: seq<string>, opts: map<string, Options.Opt>, m: Matches,
                    values: map<string, string>)
    requires Registered(names, opts) && names != [] && !Missing(opts[names[0]], m)
    ensures Registered(names[1..], opts)
    ensures Resolved(opts[names[0]], m) != "" ==>
              Resolve(names, opts, m, values)
                == Resolve(names[1..], opts, m, values[names[0] := Resolved(opts[names[0]], m)])
    ensures Resolved(opts[names[0]], m) == "" ==>
              Resolve(names, opts, m, values) == Resolve(names[1..], opts, m, values)
  {
    assert forall i | 0 <= i < |names[1..]| :: names[1..][i] == names[i + 1];
  }

  /** A pass never stores the empty string, so a stored name always has a value. */
  lemma NeverStoresEmpty(names: seq<string>, opts: map<string, Options.Opt>, m: Matches,
                         values: map<string, string>)
    requires Registered(names, opts)
    requires forall k | k in values :: values[k] != ""
    ensures forall k | k in Resolve(names, opts, m, values).values ::
              Resolve(names, opts, m, values).values[k] != ""
  {
  }

  class Args {
    /** The descriptors, by long name. */
    var opts: map<string, Options.Opt>
    /** The long names in registration order, one entry per registration. */
    var optNames: seq<string>
    var programName: string
    /** The stored strings, by long name. */
    var values: map<string, string>

    /**
      Every registered name has a descriptor whose long name it is, and every descriptor
      was registered; descriptors are ones `Opt::new` can build.
    */
    ghost predicate Valid()
      reads this
    {
      && Registered(optNames, opts)
      && forall n | n in opts :: n in optNames && opts[n].longName == n && Options.Supported(opts[n])
    }

    /** `Args::new`: no options and no values. */
    constructor (programName: string)
      ensures Valid()
      ensures this.programName == programName
      ensures optNames == [] && opts == map[] && values == map[]
    {
      this.programName := programName;
      optNames := [];
      opts := map[];
      values := map[];
    }

    /**
      `register_opt`: the long name is appended even if it is already registered, and
      the descriptor replaces any earlier one with that name.
    */
    method RegisterOpt(opt: Options.Opt)
      requires Valid() && Options.Supported(opt)
      modifies this`optNames, this`opts
      ensures Valid()
      ensures optNames == old(optNames) + [opt.longName]
      ensures opts == old(opts)[opt.longName := opt]
    {
      optNames := optNames + [opt.Name()];
      opts := opts[opt.Name() := opt];
    }

    /** `Args::flag`: an optional option without a value and without a default. */
    method Flag(shortName: string, longName: string, desc: string)
      requires Valid()
      modifies this`optNames, this`opts
      ensures Valid()
      ensures optNames == old(optNames) + [longName]
      ensures opts == old(opts)[longName := Options.Opt(shortName, longName, desc, "", No, Optional, None)]
    {
      var opt := Options.New(shortName, longName, desc, "", No, Optional, None);
      RegisterOpt(opt.value);
    }

    /**
      `Args::option` (renamed so as not to hide `Option`): an option with a value, the caller's occurrence and default. The
      descriptor constructor panics for `Occur::Multi`, before anything is registered.
    */
    method AddOption(shortName: string, longName: string, desc: string, hint: string,
                  occur: Occur, default: Option<string>) returns (outcome: Outcome)
      requires Valid()
      modifies this`optNames, this`opts
      ensures Valid()
      ensures occur == Occur.Multi ==>
                outcome == Panic("Occur::Multi is not supported yet")
                && optNames == old(optNames) && opts == old(opts)
      ensures occur != Occur.Multi ==>
                && outcome == Done
                && optNames == old(optNames) + [longName]
                && opts == old(opts)[longName := Options.Opt(shortName, longName, desc, hint, Yes,
                                                  if default.Some? then Optional else occur, default)]
    {
      var opt := Options.New(shortName, longName, desc, hint, Yes, occur, default);
      if opt.Err? {
        return Panic(opt.error);
      }
      RegisterOpt(opt.value);
      outcome := Done;
    }

    /**
      `Args::parse`. A tokenizer failure is reported scoped "parse" before any value is
      touched. Otherwise the registered options are resolved in order into `values`; the
      first required option without a value is reported scoped "parse", and whatever the
      pass stored before it stays stored.
    */
    method Parse(tokens: Result<Matches, Fail>) returns (r: Result<(), ArgsError>)
      requires Valid()
      modifies this`values
      ensures Valid()
      ensures tokens.Err? ==>
                r == Err(New(ScopeParse, tokens.error.ToString())) && values == old(values)
      ensures tokens.Ok? ==>
                var res := Resolve(optNames, opts, tokens.value, old(values));
                && values == res.values
                && (res.missing.None? ==> r == Ok(()))
                && (res.missing.Some? ==>
                      r == Err(New(ScopeParse, ArgumentMissing(res.missing.value).ToString())))
    {
      if tokens.Err? {
        return Err(New(ScopeParse, tokens.error.ToString()));
      }
      var m := tokens.value;
      var i := 0;
      while i < |optNames|
        invariant 0 <= i <= |optNames|
        invariant Registered(optNames[i..], opts)
        invariant Resolve(optNames[i..], opts, m, values) == Resolve(optNames, opts, m, old(values))
      {
        var name := optNames[i];
        // The source reports an unrecognized option here when the name has no
        // descriptor; the invariant rules that out.
        assert name in opts;
        var opt := opts[name];
        var value := opt.Parse(m).UnwrapOr("");
        assert optNames[i..][1..] == optNames[i + 1..];
        if value != "" {
          values := values[name := value];
        } else if opt.IsRequired() {
          return Err(New(ScopeParse, ArgumentMissing(name).ToString()));
        }
        i := i + 1;
      }
      r := Ok(());
    }

    /** `Args::has_value`. */
    predicate HasValue(name: string)
      reads this
      ensures HasValue(name) <==> name in values
    {
      name in values
    }

    /**
      `Args::value_of`: the stored string coerced to the requested type. Fails, scoped by
      the name, when nothing is stored or when the string does not coerce.
    */
    function ValueOf<T>(name: string, coerce: string -> Option<T>): (r: Result<T, ArgsError>)
      reads this
      ensures r.Ok? <==> name in values && coerce(values[name]).Some?
      ensures r.Ok? ==> coerce(values[name]) == Some(r.value)
      ensures name !in values ==> r == Err(New(name, "does not have a value"))
      ensures name in values && r.Err? ==> r == Err(New(name, "unable to parse '" + values[name] + "'"))
    {
      if name !in values then Err(New(name, "does not have a value"))
      else
        match coerce(values[name])
        case Some(v) => Ok(v)
        case None => Err(New(name, "unable to parse '" + values[name] + "'"))
    }

    /**
      `Args::validated_value_of`: a lookup or coercion error comes first; otherwise the
      validations run in order and the first that fails supplies the error.
    */
    method ValidatedValueOf<T>(name: string, coerce: string -> Option<T>,
                               validations: seq<Validations.Validation<T>>)
      returns (r: Result<T, ArgsError>)
      ensures ValueOf(name, coerce).Err? ==> r == ValueOf(name, coerce)
      ensures ValueOf(name, coerce).Ok? ==> r == Validations.Validate(ValueOf(name, coerce).value, validations)
    {
      var looked := ValueOf(name, coerce);
      if looked.Err? {
        return looked;
      }
      var value := looked.value;
      var i := 0;
      while i < |validations|
        invariant 0 <= i <= |validations|
        invariant Validations.Validate(value, validations[i..]) == Validations.Validate(value, validations)
      {
        assert validations[i..][1..] == validations[i + 1..];
        if validations[i].IsInvalid(value) {
          return Err(validations[i].error(value));
        }
        i := i + 1;
      }
      r := Ok(value);
    }
  }

  /**
    After a successful parse, asking for a registered flag as a `bool` gives whether it
    occurred on the command line.
  */
  lemma FlagValueAfterParse(a: Args, m: Matches, before: map<string, string>, name: string)
    requires a.Valid() && name in a.optNames && a.opts[name].hasArg == No
    requires Resolve(a.optNames, a.opts, m, before).missing.None?
    requires a.values == Resolve(a.optNames, a.opts, m, before).values
    ensures a.ValueOf(name, Coercions.ParseBool) == Ok(m.OptPresent(name))
  {
    FlagsStoredByPresence(a.optNames, a.opts, m, before, name);
  }
}
