/**
  The option descriptor `Opt` of src/options.rs: an immutable description of one
  command-line option, and how it turns the tokenizer's matches into a string.
*/
module Options {
  import opened Wrappers
  import opened Getopts
  import Coercions

  datatype Opt = Opt(
    shortName: string,
    longName: string,
    desc: string,
    hint: string,
    hasArg: HasArg,
    occur: Occur,
    default: Option<string>)
  {
    /** `Opt::is_required`. */
    predicate IsRequired() {
      occur == Req
    }

    /** `Opt::name`: the long name, which keys the option everywhere. */
    function Name(): (n: string)
      ensures n == longName
    {
      longName
    }

    /**
      `Opt::parse`. A valueless option yields its presence as "true" or "false"; an
      option with a value yields the first matched string, else the default, else nothing.
    */
    function Parse(m: Matches): (r: Option<string>)
      ensures hasArg == No ==> r == Some(Coercions.BoolText(m.OptPresent(longName)))
      ensures hasArg != No && m.OptStr(longName).Some? ==> r == m.OptStr(longName)
      ensures hasArg != No && m.OptStr(longName).None? ==> r == default
      ensures r.None? <==> hasArg != No && m.OptStrs(longName) == [] && default.None?
    {
      if hasArg == No then Some(Coercions.BoolText(m.OptPresent(longName)))
      else
        match m.OptStr(longName)
        case Some(s) => Some(s)
        case None => if default.Some? then default else None
    }

    /** `Display` and `Debug`: "option '-<short> --<long>'". */
    function Display(): (s: string)
      ensures s == "option '-" + shortName + " --" + longName + "'"
    {
      "option '-" + shortName + " --" + longName + "'"
    }
  }

  /**
    `Opt::new`. Panics for `HasArg::Maybe` or `Occur::Multi`; otherwise stores every
    argument unchanged, except that a default makes the option optional.
  */
  function New(shortName: string, longName: string, desc: string, hint: string,
               hasArg: HasArg, occur: Occur, default: Option<string>): (r: Result<Opt, string>)
    ensures r.Err? <==> hasArg == Maybe || occur == Multi
    ensures hasArg == Maybe ==> r == Err("HasArg::Maybe is not supported yet")
    ensures hasArg != Maybe && occur == Multi ==> r == Err("Occur::Multi is not supported yet")
    ensures r.Ok? ==> r.value.shortName == shortName && r.value.longName == longName
                      && r.value.desc == desc && r.value.hint == hint
                      && r.value.hasArg == hasArg && r.value.default == default
    ensures r.Ok? ==> (r.value.IsRequired() <==> occur == Req && default.None?)
    ensures r.Ok? ==> r.value.occur != Multi && r.value.hasArg != Maybe
  {
    if hasArg == Maybe then Err("HasArg::Maybe is not supported yet")
    else if occur == Multi then Err("Occur::Multi is not supported yet")
    else
      var occur := if default.Some? then Optional else occur;
      Ok(Opt(shortName, longName, desc, hint, hasArg, occur, default))
  }

  /** A descriptor that `New` can build. */
  predicate Supported(o: Opt) {
    o.hasArg != Maybe && o.occur != Multi && (o.default.Some? ==> o.occur == Optional)
  }

  /** `New` builds exactly the supported descriptors, each from its own fields. */
  lemma NewBuildsSupported(o: Opt)
    ensures Supported(o) <==> New(o.shortName, o.longName, o.desc, o.hint, o.hasArg, o.occur, o.default) == Ok(o)
  {
  }

  /** A valueless option always resolves to something: "true" or "false". */
  lemma FlagAlwaysResolves(o: Opt, m: Matches)
    requires o.hasArg == No
    ensures o.Parse(m).Some?
    ensures o.Parse(m).value == "true" <==> m.OptPresent(o.longName)
    ensures o.Parse(m).value == "false" <==> !m.OptPresent(o.longName)
  {
  }
}
