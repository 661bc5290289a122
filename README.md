# args: option resolution and typed retrieval

A model of the core of the Rust crate `args`, a small command-line argument library
built on the getopts tokenizer. A caller registers option descriptors (flags, options
with a value, multi-valued options) on an `Args` session, parses the command line into a
map of stored strings, and then asks for a value by name, coerced to a type and checked
by validations such as "greater than 0".

The repository keeps several generations side by side, and each shown one is modelled:

- `Args` (src/lib.rs, with src/options.rs and src/errors.rs): the session returns
  `Result` errors. It is a class with the fields `opts`, `optNames` and `values`; its
  `Parse` loop is proved against the function `Args.Resolve`.
- `PanicArgs` (src/args/mod.rs, with src/args/errors.rs and src/args/validations.rs): the
  earlier session, which panics. A panic is the outcome `Panic(message)`.
- `MultiOptions` (src/options/mod.rs): the newer `Single`/`Multi` descriptors. A `Multi`
  option joins all its strings with the separator.
- `ParsedArgs` (src/traits/has_parsed_args.rs): the optional accessors over a parsed
  session.
- `Validations`: the `Order` relations, `OrderValidation` and the rule "first failing
  validation wins". `Errors` and `ArgsErrors` build the error text.

The tokenizer is not modelled. Its result is an input: either a `Getopts.Matches` value
(which long names occurred, and the strings given to each in order) or a `Getopts.Fail`.
`FromStr` becomes a coercion `string -> Option<T>`. `Coercions` gives concrete ones for
`bool` (exactly "true"/"false"), `i32` and `String`.

In three places the code does something a reader might not expect; the model follows the code:

- Registering a long name twice does not leave the first descriptor in place.
  `register_opt` appends the name again and replaces the descriptor (src/lib.rs:312-317).
- `parse` never clears `values`. Entries from earlier parses stay stored. So do entries
  stored before a failing option, because the failure returns early (src/lib.rs:231-246);
  `Args.FailedPassStores` and `Args.PartialStoreOnFailure` state what such a failed pass
  leaves stored.
- `Multi::is_required` is `true` as written (src/options/mod.rs:63-65), and
  `MultiOptions.Opt.IsRequired` says so. The test at src/tst/mod.rs:230-236 expects an
  absent multi option to parse. That needs the session of that generation, which is not
  shown, to exempt multi options through `is_multi`.
  `MultiOptions.AbsentMultiIsRequiredAndEmpty` shows the two facts that would make a loop
  like src/lib.rs:238-244 reject it: an absent multi option resolves to nothing and
  reports itself required.

The registration invariant `Args.Args.Valid` says that every registered name has a
descriptor and that every descriptor was registered. With it, `Parse` proves that the
"unrecognized option" branch (src/lib.rs:232-235, src/args/mod.rs:119-121) is never taken.

## Model

| member | source | states |
|---|---|---|
| Errors.NewWithUsage | src/errors.rs:20-35 | the description is the scope prefix (empty for an empty scope, else scope and ": "), then the message verbatim, then the usage suffix (empty, or a blank line and the usage); lengths and each slice are pinned |
| Errors.New | src/errors.rs:14-16 | equals `NewWithUsage` with an empty usage, so the message ends the description |
| Errors.MessageRoundTrip | src/errors.rs:20-35 | the message can be read back out of the description when the scope and usage are known |
| Errors.NewWithUsageInjective | src/errors.rs:29 | with the same scope and usage, different messages give different errors |
| Errors.ArgsError.Display | src/errors.rs:44-48 | `Display` writes the description unchanged |
| Errors.ArgsError.Debug | src/errors.rs:38-42 | `Debug` writes the same text as `Display` |
| Errors.ArgsError.Description | src/errors.rs:50-54 | `description` returns the same text as `Display` |
| ArgsErrors.NewWithUsage | src/args/errors.rs:15-30 | an empty usage appends nothing; a non-empty usage appends exactly a blank line and the usage at the end; a non-empty scope is followed by ": " |
| ArgsErrors.New | src/args/errors.rs:11-13 | equals `NewWithUsage` with an empty usage: prefix and message only |
| ArgsErrors.SameAsResultGeneration | src/args/errors.rs:15-30 | both generations build the same description from the same arguments |
| Coercions.ParseBool | src/lib.rs:305 | `bool::from_str` accepts exactly "true" and "false" |
| Coercions.BoolRoundTrip | src/options.rs:53 | the text a flag stores reads back as the flag's presence |
| Coercions.ParseString | src/lib.rs:305 | `String::from_str` never fails and returns the text itself |
| Coercions.ParseI32 | src/lib.rs:305 | `i32::from_str` accepts only values in the 32-bit signed range, and never the empty string |
| Coercions.IntRoundTrip | src/args/validations.rs:91-93 | the decimal text used in validation messages parses back to the same `i32` |
| Options.New | src/options.rs:19-40 | fails exactly for `HasArg::Maybe` or `Occur::Multi`, with the panic text; otherwise stores every field unchanged, and the option is required iff it was declared `Req` and has no default |
| Options.NewBuildsSupported | src/options.rs:26-30 | `new` rebuilds exactly the descriptors that are supported and normalised |
| Options.Opt.Name | src/options.rs:46-48 | the name is the long name |
| Options.Opt.Parse | src/options.rs:50-62 | a valueless option yields "true"/"false" by presence; otherwise the first matched string takes priority over the default; the result is `None` iff the option takes a value, did not occur and has no default |
| Options.FlagAlwaysResolves | src/options.rs:52-54 | a valueless option never yields `None`, and yields "true" iff it occurred |
| Options.Opt.Display | src/options.rs:74-84 | `Display`/`Debug` render "option '-<short> --<long>'" |
| MultiOptions.New | src/options/mod.rs:12-26 | fails exactly for `HasArg::Maybe`; `Occur::Multi` builds a `Multi` with only names, description and hint; any other occur builds a `Single` whose default makes it optional |
| MultiOptions.Opt.Flag | src/options/mod.rs:59-61 | `flag` is the short name |
| MultiOptions.Opt.Name | src/options/mod.rs:71-73 | `name` is the long name |
| MultiOptions.Opt.IsMulti | src/options/mod.rs:67-69 | true for `Multi`, false for `Single` |
| MultiOptions.Opt.IsRequired | src/options/mod.rs:63-65 | always true for `Multi`; for `Single`, iff the stored occur is `Req` |
| MultiOptions.Opt.Parse | src/options/mod.rs:75-78 | a `Multi` yields `None` iff it did not occur, else all its strings joined in occurrence order; a `Single` yields presence text, the match or the default, as at src/options/mod.rs:138-150 |
| MultiOptions.Opt.Display | src/options/mod.rs:162-172 | `Display`/`Debug` render "option '-<flag> --<name>'" |
| MultiOptions.SplitJoin | src/options/mod.rs:77 | splitting a join on the separator gives back the strings when none of them holds the separator |
| MultiOptions.MultiParseRoundTrip | src/options/mod.rs:75-78 | the strings a `Multi` option gathered are recovered, in order, from its single stored string |
| MultiOptions.AbsentMultiIsRequiredAndEmpty | src/options/mod.rs:63-65 | an absent `Multi` resolves to nothing and still reports itself required |
| Validations.Order.Compare | src/args/validations.rs:36-43 | on a value equal to the bound, only the non-strict relations hold; otherwise "greater" relations hold iff value > bound and "less" relations iff value < bound |
| Validations.NegationIsComplement | src/args/validations.rs:38-41 | `LessThanOrEqual` is the negation of `GreaterThan` and `GreaterThanOrEqual` of `LessThan` |
| Validations.Order.Display | src/args/validations.rs:46-55 | the text ends in " or equal to" exactly for the non-strict relations |
| Validations.DisplayInjective | src/args/validations.rs:48-53 | the four relations have four different texts |
| Validations.NewOrderValidation | src/args/validations.rs:83-85 | the order and the bound are stored unchanged |
| Validations.OrderValidation.IsValid | src/args/validations.rs:95-97 | valid iff the order's `compare(bound, value)` holds |
| Validations.OrderValidation.IsInvalid | src/args/validations.rs:19 | invalid iff the negated relation holds, that is iff not valid |
| Validations.OrderValidation.Error | src/args/validations.rs:91-93 | the error reads "order invalid: <value> is not <order text> <bound>" |
| Validations.OrderValidation.AsValidation | src/args/validations.rs:88-98 | the boxed validation answers `is_valid`, `is_invalid` and `error` exactly as the `OrderValidation` |
| Validations.Validate | src/lib.rs:285-290 | Ok iff every validation accepts the value, and then the value is unchanged; otherwise the error is that of the first validation that rejects it |
| Validations.BoundedCountExample | src/lib.rs:79-82 | "5" parses to 5 and passes "> 0" and "<= 10"; 0 fails with the "> 0" validation's error |
| Args.Resolve | src/lib.rs:231-246 | the pass never removes or changes entries for other names; every new entry is a non-empty resolved value of a registered name; it succeeds iff no registered option is required and empty; on success every non-empty resolved value is stored; on failure it names the first required-and-empty option |
| Args.FlagsStoredByPresence | src/lib.rs:238-240 | after a successful pass every registered flag is stored as "true" or "false" by presence |
| Args.DefaultStoredWhenAbsent | src/lib.rs:238 | an absent option with a non-empty default is never missing, and its default is stored |
| Args.FailsOnFirstMissing | src/lib.rs:242-244 | the pass fails naming the first registered option that is required and empty |
| Args.FailedPassStores | src/lib.rs:238-244 | when option k is the first required option that resolves to nothing or "", the pass returns exactly the walk `Args.Stored` over the options before k, and names option k |
| Args.StoredHoldsResolved | src/lib.rs:238-240 | the walk stores each visited option's non-empty resolved value under its name, whatever later options it visits |
| Args.StoredKeepsOthers | src/lib.rs:238-240 | the walk leaves the entry of a name it does not visit as it was, present or absent |
| Args.PartialStoreOnFailure | src/lib.rs:238-244 | on a failed pass every option before the first missing one keeps its non-empty resolved value, and every other entry is exactly the one stored before the pass |
| Args.NeverStoresEmpty | src/lib.rs:239-240 | the empty string is never stored |
| Args.FlagValueAfterParse | src/lib.rs:301-309 | after a successful parse, a flag read as `bool` is whether it occurred |
| Args.Args.constructor | src/lib.rs:141-151 | a new session has no options and no values |
| Args.Args.RegisterOpt | src/lib.rs:312-317 | the long name is appended even when already present, and the descriptor is inserted or replaced; the invariant is kept |
| Args.Args.Flag | src/lib.rs:159-175 | registers a valueless, optional descriptor with no hint and no default |
| Args.Args.AddOption | src/lib.rs:196-215 | registers a descriptor with a value, the caller's occur (optional when there is a default) and default; `Occur::Multi` panics and registers nothing |
| Args.Args.Parse | src/lib.rs:221-250 | a tokenizer failure gives an error scoped "parse" and leaves `values` unchanged; otherwise `values` becomes the result of `Resolve` on the old values, and the first missing required option gives an error scoped "parse" |
| Args.Args.HasValue | src/lib.rs:183-185 | holds exactly when the name is a key of `values` |
| Args.Args.ValueOf | src/lib.rs:301-309 | Ok iff a string is stored and coerces, with the coerced value; otherwise "<name>: does not have a value" or "<name>: unable to parse '<raw>'" |
| Args.Args.ValidatedValueOf | src/lib.rs:281-292 | a lookup or coercion error is returned before any validation runs; otherwise the result is `Validate` of the coerced value |
| PanicArgs.Args.constructor | src/args/mod.rs:33-43 | a new session has no options and no values |
| PanicArgs.Args.RegisterOpt | src/args/mod.rs:188-193 | appends the name, even again, and inserts or replaces the descriptor; the invariant is kept |
| PanicArgs.Args.Flag | src/args/mod.rs:51-67 | registers a valueless, optional descriptor with no default |
| PanicArgs.Args.AddOption | src/args/mod.rs:83-102 | registers a descriptor with a value; `Occur::Multi` panics and registers nothing |
| PanicArgs.Args.Parse | src/args/mod.rs:108-133 | a tokenizer failure panics with the tokenizer's message before `values` is touched; otherwise `values` becomes the result of `Resolve`, and the first missing required option panics with an argument-missing message |
| PanicArgs.Args.ValueOf | src/args/mod.rs:177-185 | Ok iff a string is stored and coerces; otherwise "<name>: does not have a value" or "<name>: unable to parse <raw>", without quotes |
| PanicArgs.Args.ValidatedValueOf | src/args/mod.rs:161-172 | a lookup or coercion error first; otherwise `Validate` of the coerced value |
| PanicArgs.ValueOfAgreesExceptQuotes | src/args/mod.rs:181-182 | on the same stored values the two generations agree except for the coercion-failure text, which differs |
| ParsedArgs.HasValue | src/traits/has_parsed_args.rs:14-16 | delegates: holds iff the name is stored |
| ParsedArgs.ValueOf | src/traits/has_parsed_args.rs:44-46 | delegates unchanged to the session's `value_of` |
| ParsedArgs.ValidatedValueOf | src/traits/has_parsed_args.rs:38-41 | delegates unchanged to the session's `validated_value_of` |
| ParsedArgs.OptionalValueOf | src/traits/has_parsed_args.rs:29-35 | `Ok(None)` iff nothing is stored; otherwise the lookup in `Some`, or its coercion error |
| ParsedArgs.OptionalValidatedValueOf | src/traits/has_parsed_args.rs:19-26 | `Ok(None)` when nothing is stored, whatever the validations; otherwise `Validate`'s value in `Some`, or the coercion or validation error |
| ParsedArgs.OptionalAgreesWhenPresent | src/traits/has_parsed_args.rs:30-31 | for a stored value the optional accessor is the plain one wrapped in `Some`, errors included |

## Left out

- The getopts tokenizer (`Options::parse`, `Matches`, `register_option`/`register`): it is a foreign library. Its result is an input. The texts of its `Fail` values are reproduced in `Getopts.Fail.ToString` for concreteness and are not part of this repository. A missing required option may already be rejected by the tokenizer; either way the error is scoped "parse".
- `short_usage`, `usage`, `full_usage`: presentation produced by the tokenizer library.
- `parse_from_cli`: it reads the process arguments, which is I/O.
- `debug!` logging, `Send` bounds, and the `&mut Args` returned for chaining. `program_name` is stored by both classes, but its uses (usage text and the `debug!` messages at src/lib.rs:222 and src/args/mod.rs:109) are not modelled.
- The session of the multi-valued generation (`values_of`, `has_options`, two-argument `new`) and the definition of `SEPARATOR`. They are not shown. The separator is a parameter.
- MultiOptions.Opt.Parse: the separator is a single character; the crate joins with a string constant that is not shown.
- Validations.OrderValidation: bounds and values are integers, with `i32` text and parsing; the crate allows any `Clone + Display + PartialOrd` type, and partial orders such as floating point are not modelled.
- ArgsErrors: the `Debug` that src/args/errors.rs derives, which prints the struct form `ArgsError { desc: "…" }` with the text escaped, is not modelled; the two generations share one error value whose `Debug` is the hand-written one of src/errors.rs, which prints the bare text.
- src/args/options.rs, used by src/args/mod.rs, is not part of this model; `PanicArgs` uses the descriptor of src/options.rs.
- src/validations.rs, used by src/lib.rs, is not part of this model; both sessions use src/args/validations.rs. src/traits.rs, src/traits/has_args.rs and src/traits/mod.rs are thin delegation and are left out.
- `Options.Opt.IsRequired`: no contract of its own; `Options.New` states what it returns for every descriptor `new` builds.
