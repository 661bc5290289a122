/**
  The boundary to the getopts tokenizer, which the crate uses but does not define.
  `Matches` stands for what the tokenizer found on the command line, queried by long
  name; `Fail` is a tokenizer error, rendered with the tokenizer library's wording.
*/
module Getopts {
  import opened Wrappers

  /** Whether an option takes an argument. */
  datatype HasArg = Yes | No | Maybe

  /** How often an option may occur. */
  datatype Occur = Req | Optional | Multi

  /**
    The tokenizer's result: the long names that occurred, and for each long name the
    strings given to it, in the order they occurred on the command line.
  */
  datatype Matches = Matches(present: set<string>, strs: map<string, seq<string>>) {

    /** `Matches::opt_present`. */
    predicate OptPresent(name: string) {
      name in present
    }

    /** `Matches::opt_strs`: every string given to the option, in occurrence order. */
    function OptStrs(name: string): seq<string> {
      if name in strs then strs[name] else []
    }

    /** `Matches::opt_str`: the first string given to the option, if any. */
    function OptStr(name: string): (r: Option<string>)
      ensures r.None? <==> OptStrs(name) == []
      ensures r.Some? ==> r.value == OptStrs(name)[0]
    {
      var all := OptStrs(name);
      if all == [] then None else Some(all[0])
    }
  }

  /** A tokenizer failure. */
  datatype Fail =
    | ArgumentMissing(name: string)
    | UnrecognizedOption(name: string)
    | OptionMissing(name: string)
    | OptionDuplicated(name: string)
    | UnexpectedArgument(name: string)
  {
    /** `Fail`'s `Display`, in the tokenizer library's wording. */
    function ToString(): string {
      match this
      case ArgumentMissing(n) => "Argument to option '" + n + "' missing"
      case UnrecognizedOption(n) => "Unrecognized option: '" + n + "'"
      case OptionMissing(n) => "Required option '" + n + "' missing"
      case OptionDuplicated(n) => "Option '" + n + "' given more than once"
      case UnexpectedArgument(n) => "Option '" + n + "' does not take an argument"
    }
  }
}
