/**
  The newer, multi-valued descriptors of src/options/mod.rs: a factory that builds a
  `Single` or a `Multi` option. A `Multi` option gathers every string given to it and
  joins them with a separator (the crate's `SEPARATOR`, taken here as a parameter).
*/
module MultiOptions {
  import opened Wrappers
  import opened Getopts
  import Coercions

  datatype Opt =
    | Single(shortName: string, longName: string, desc: string, hint: string,
             hasArg: HasArg, occur: Occur, default: Option<string>)
    | Multi(shortName: string, longName: string, desc: string, hint: string)
  {
    /** `Opt::flag`: the short name. */
    function Flag(): (f: string)
      ensures f == shortName
    {
      shortName
    }

    /** `Opt::name`: the long name. */
    function Name(): (n: string)
      ensures n == longName
    {
      longName
    }

    /** `Opt::is_multi`. */
    predicate IsMulti()
      ensures IsMulti() <==> Multi?
    {
      match this
      case Single(_, _, _, _, _, _, _) => false
      case Multi(_, _, _, _) => true
    }

    /** `Opt::is_required`: always for a `Multi`, and by `occur` for a `Single`. */
    predicate IsRequired()
      ensures Multi? ==> IsRequired()
      ensures Single? ==> (IsRequired() <==> occur == Req)
    {
      match this
      case Single(_, _, _, _, _, occur, _) => occur == Req
      case Multi(_, _, _, _) => true
    }

    /**
      `Opt::parse`. A `Multi` yields nothing when it did not occur, else all its strings
      joined in occurrence order; a `Single` behaves as the descriptor of src/options.rs.
    */
    function Parse(m: Matches, sep: char): (r: Option<string>)
      ensures Multi? ==> (r.None? <==> m.OptStrs(longName) == [])
      ensures Multi? && r.Some? ==> r.value == Join(m.OptStrs(longName), sep)
      ensures Single? && hasArg == No ==> r == Some(Coercions.BoolText(m.OptPresent(longName)))
      ensures Single? && hasArg != No ==>
                r == (if m.OptStr(longName).Some? then m.OptStr(longName) else default)
    {
      match this
      case Multi(_, name, _, _) =>
        var strs := m.OptStrs(name);
        if strs == [] then None else Some(Join(strs, sep))
      case Single(_, name, _, _, hasArg, _, default) =>
        if hasArg == No then Some(Coercions.BoolText(m.OptPresent(name)))
        else
          match m.OptStr(name)
          case Some(s) => Some(s)
          case None => if default.Some? then default else None
    }

    /** `Display` and `Debug`: "option '-<flag> --<name>'". */
    function Display(): (s: string)
      ensures s == "option '-" + Flag() + " --" + Name() + "'"
    {
      "option '-" + shortName + " --" + longName + "'"
    }
  }

  /**
    The factory `new`. Panics for `HasArg::Maybe`; `Occur::Multi` builds a `Multi`, which
    keeps only the names, description and hint; any other occurrence builds a `Single`,
    made optional when it has a default.
  */
  function New(shortName: string, longName: string, desc: string, hint: string,
               hasArg: HasArg, occur: Occur, default: Option<string>): (r: Result<Opt, string>)
    ensures r.Err? <==> hasArg == Maybe
    ensures r.Err? ==> r.error == "HasArg::Maybe is not supported yet"
    ensures r.Ok? ==> r.value.shortName == shortName && r.value.longName == longName
                      && r.value.desc == desc && r.value.hint == hint
    ensures r.Ok? ==> (r.value.IsMulti() <==> occur == Occur.Multi)
    ensures r.Ok? && occur == Occur.Multi ==> r.value == Opt.Multi(shortName, longName, desc, hint)
    ensures r.Ok? && occur != Occur.Multi ==>
              r.value.hasArg == hasArg && r.value.default == default
              && (r.value.IsRequired() <==> occur == Req && default.None?)
  {
    if hasArg == Maybe then Err("HasArg::Maybe is not supported yet")
    else if occur != Occur.Multi then
      var occur := if default.Some? then Optional else occur;
      Ok(Single(shortName, longName, desc, hint, hasArg, occur, default))
    else Ok(Opt.Multi(shortName, longName, desc, hint))
  }

  /** `join`: the strings with the separator between consecutive ones. */
  function Join(strs: seq<string>, sep: char): string
  {
    if strs == [] then ""
    else if |strs| == 1 then strs[0]
    else strs[0] + [sep] + Join(strs[1..], sep)
  }

  /** `split`: the pieces of a string between separators; the empty string is one empty piece. */
  function Split(s: string, sep: char): (pieces: seq<string>)
    ensures |pieces| > 0
  {
    if s == [] then [""]
    else
      var rest := Split(s[1..], sep);
      if s[0] == sep then [""] + rest else [[s[0]] + rest[0]] + rest[1..]
  }

  lemma {:induction false} SplitWithoutSeparator(x: string, sep: char)
    requires sep !in x
    ensures Split(x, sep) == [x]
  {
    if x != [] {
      SplitWithoutSeparator(x[1..], sep);
      assert [x[0]] + x[1..] == x;
    }
  }

  lemma {:induction false} SplitAfterPiece(x: string, sep: char, t: string)
    requires sep !in x
    ensures Split(x + [sep] + t, sep) == [x] + Split(t, sep)
  {
    var s := x + [sep] + t;
    if x == [] {
      assert s[1..] == t;
    } else {
      assert s[1..] == x[1..] + [sep] + t;
      SplitAfterPiece(x[1..], sep, t);
      assert [x[0]] + x[1..] == x;
    }
  }

  /** Splitting a join gives back the strings, provided none of them holds the separator. */
  lemma {:induction false} SplitJoin(strs: seq<string>, sep: char)
    requires strs != []
    requires forall i | 0 <= i < |strs| :: sep !in strs[i]
    ensures Split(Join(strs, sep), sep) == strs
  {
    if |strs| == 1 {
      SplitWithoutSeparator(strs[0], sep);
    } else {
      SplitJoin(strs[1..], sep);
      SplitAfterPiece(strs[0], sep, Join(strs[1..], sep));
    }
  }

  /**
    The strings a `Multi` option gathered can be recovered, in occurrence order, from the
    single stored string, as long as none of them holds the separator.
  */
  lemma MultiParseRoundTrip(o: Opt, m: Matches, sep: char)
    requires o.Multi?
    requires forall i | 0 <= i < |m.OptStrs(o.longName)| :: sep !in m.OptStrs(o.longName)[i]
    ensures o.Parse(m, sep).Some? ==> Split(o.Parse(m, sep).value, sep) == m.OptStrs(o.longName)
  {
    if m.OptStrs(o.longName) != [] {
      SplitJoin(m.OptStrs(o.longName), sep);
    }
  }

  /**
    A `Multi` option that did not occur resolves to nothing and still reports itself
    required, so a resolution loop that does not consult `is_multi` would reject it.
  */
  lemma AbsentMultiIsRequiredAndEmpty(o: Opt, m: Matches, sep: char)
    requires o.Multi? && m.OptStrs(o.longName) == []
    ensures o.Parse(m, sep).UnwrapOr("") == "" && o.IsRequired() && o.IsMulti()
  {
  }
}
