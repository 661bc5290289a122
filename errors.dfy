/**
  `ArgsError` of src/errors.rs: an error whose whole content is one rendered
  description, built from an optional scope, a message and an optional usage text.
*/
module Errors {

  datatype ArgsError = ArgsError(desc: string) {

    /** `Display`: writes the description unchanged. */
    function Display(): (s: string)
      ensures s == desc
    {
      desc
    }

    /** `Debug`: the same text as `Display`. */
    function Debug(): (s: string)
      ensures s == Display()
    {
      desc
    }

    /** `Error::description`. */
    function Description(): (s: string)
      ensures s == Display()
    {
      desc
    }
  }

  /** The text put before the message: nothing for an empty scope, else the scope and ": ". */
  function ScopePrefix(scope: string): string
  {
    if scope == [] then [] else scope + ": "
  }

  /** The text put after the message: nothing for an empty usage, else a blank line and the usage. */
  function UsageSuffix(usage: string): string
  {
    if usage == [] then [] else "\n\n" + usage
  }

  /**
    `ArgsError::new_with_usage`. The description is the scope prefix, then the message
    verbatim, then the usage suffix, and nothing else.
  */
  function NewWithUsage(scope: string, msg: string, usage: string): (e: ArgsError)
    ensures |e.desc| == |ScopePrefix(scope)| + |msg| + |UsageSuffix(usage)|
    ensures e.desc[..|ScopePrefix(scope)|] == ScopePrefix(scope)
    ensures e.desc[|ScopePrefix(scope)|..|ScopePrefix(scope)| + |msg|] == msg
    ensures e.desc[|ScopePrefix(scope)| + |msg|..] == UsageSuffix(usage)
    ensures scope == [] && usage == [] ==> e.desc == msg
  {
    var desc := ScopePrefix(scope) + msg;
    ArgsError(desc + UsageSuffix(usage))
  }

  /** `ArgsError::new`: an error with no usage text. */
  function New(scope: string, msg: string): (e: ArgsError)
    ensures e == NewWithUsage(scope, msg, "")
    ensures |e.desc| == |ScopePrefix(scope)| + |msg|
    ensures e.desc[|ScopePrefix(scope)|..] == msg
  {
    NewWithUsage(scope, msg, "")
  }

  /** Recovers the message from a description built with a known scope and usage. */
  function MessageOf(e: ArgsError, scope: string, usage: string): string
  {
    var start := |ScopePrefix(scope)|;
    var stop := |e.desc| - |UsageSuffix(usage)|;
    if start <= stop then e.desc[start..stop] else []
  }

  /** The message can be read back out of the description: nothing is lost or merged. */
  lemma MessageRoundTrip(scope: string, msg: string, usage: string)
    ensures MessageOf(NewWithUsage(scope, msg, usage), scope, usage) == msg
  {
    var e := NewWithUsage(scope, msg, usage);
    assert |e.desc| - |UsageSuffix(usage)| == |ScopePrefix(scope)| + |msg|;
  }

  /** Two errors with the same scope and usage are equal only when their messages are. */
  lemma NewWithUsageInjective(scope: string, msg1: string, msg2: string, usage: string)
    requires NewWithUsage(scope, msg1, usage) == NewWithUsage(scope, msg2, usage)
    ensures msg1 == msg2
  {
    MessageRoundTrip(scope, msg1, usage);
    MessageRoundTrip(scope, msg2, usage);
  }
}
