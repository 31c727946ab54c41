/** The command-line option registry: options are registered under a long
    name ("--cfg") with a short alias ("-c") and a number of arguments, and
    the arguments of an option are looked up in the token list. The parser
    is an immutable record; registering an option returns the new parser. */
module ArgParser {

  import opened Int
  import opened MiscTypes

  /** A registered option: its short name, how many arguments follow it,
      and its help text. */
  datatype CLIOption = CLIOption(name: string, numArgs: nat, desc: string)

  datatype ArgumentParser = ArgumentParser(
    knownArgs: map<string, CLIOption>,
    knownNameArgs: map<string, string>,
    knownKeys: seq<string>,
    usageSuffix: string)
  {
    /** The long names in `knownKeys` are distinct and are exactly the
        registered options, and every short name leads to a registered
        option. */
    predicate Valid()
    {
      && (forall i, j :: 0 <= i < j < |knownKeys| ==> knownKeys[i] != knownKeys[j])
      && (forall k :: k in knownArgs ==> k in knownKeys)
      && (forall i :: 0 <= i < |knownKeys| ==> knownKeys[i] in knownArgs)
      && (forall o :: o in knownNameArgs ==> knownNameArgs[o] in knownArgs)
    }

    /** Registers option `name` with short name `opname`; a name registered
        again is overwritten but keeps its place in `knownKeys`. */
    function AddOption(opname: string, name: string, numArgs: nat, help: string): (r: ArgumentParser)
      ensures name in r.knownArgs && r.knownArgs[name] == CLIOption(opname, numArgs, help)
      ensures forall k :: k != name ==>
                (k in r.knownArgs <==> k in knownArgs) && (k in knownArgs ==> r.knownArgs[k] == knownArgs[k])
      ensures r.Canonical(opname) == name
      ensures forall o :: o != opname ==> r.Canonical(o) == Canonical(o)
      ensures name in knownKeys ==> r.knownKeys == knownKeys
      ensures name !in knownKeys ==> r.knownKeys == knownKeys + [name]
      ensures r.usageSuffix == usageSuffix
      ensures Valid() ==> r.Valid()
    {
      var keys := if name !in knownKeys then knownKeys + [name] else knownKeys;
      ArgumentParser(
        knownArgs[name := CLIOption(opname, numArgs, help)],
        knownNameArgs[opname := name],
        keys,
        usageSuffix)
    }

    /** The long name for a short name, any other token unchanged. */
    function Canonical(s: string): (r: string)
      ensures s in knownNameArgs ==> r == knownNameArgs[s]
      ensures s !in knownNameArgs ==> r == s
      ensures Valid() ==> r in knownArgs || r == s
    {
      if s in knownNameArgs then knownNameArgs[s] else s
    }

    /** The position of the first token whose canonical form is `key`. */
    function FirstKey(key: string, s: seq<string>): (r: Option<nat>)
      ensures r.None? <==> forall i :: 0 <= i < |s| ==> Canonical(s[i]) != key
      ensures r.Some? ==> r.v < |s| && Canonical(s[r.v]) == key
                          && forall j :: 0 <= j < r.v ==> Canonical(s[j]) != key
    {
      if |s| == 0 then None
      else if Canonical(s[0]) == key then Some(0)
      else
        var r := FirstKey(key, s[1..]);
        assert forall i :: 1 <= i < |s| ==> s[i] == s[1..][i - 1];
        if r.None? then None else Some(r.v + 1)
    }

    /** The `numArgs` tokens after the first token that names option `key`
        (by its long or short name). */
    function GetArgs(key: string, s: seq<string>): (r: Try<seq<string>>)
      ensures |s| == 0 ==> r.Failure?
      ensures key !in knownArgs ==> r.Failure?
      ensures r.Success? ==> key in knownArgs && |r.v| == knownArgs[key].numArgs
    {
      if |s| == 0 then Failure("Not found")
      else if key !in knownArgs then Failure("Not a key")
      else if Canonical(s[0]) == key then
        var numArgs := knownArgs[key].numArgs;
        if |s[1..]| < numArgs then Failure("argument " + s[0] + " needs more arguments")
        else Success(s[1..][..numArgs])
      else GetArgs(key, s[1..])
    }

    /** The largest of `max` and the lengths of the strings of `s`. */
    function MaxValueFast(s: seq<string>, max: int): (r: int)
      ensures r >= max
      ensures forall i :: 0 <= i < |s| ==> r >= |s[i]|
      ensures r == max || exists i :: 0 <= i < |s| && r == |s[i]|
    {
      if |s| == 0 then max
      else
        var r := MaxValueFast(s[1..], Max(|s[0]|, max));
        assert forall i :: 1 <= i < |s| ==> s[i] == s[1..][i - 1];
        r
    }
  }

  /** A fresh parser knows only "--help", with short name "-h" and no
      arguments. */
  function New(usage: string): (r: ArgumentParser)
    ensures r.knownKeys == ["--help"]
    ensures r.knownArgs.Keys == {"--help"} && r.knownArgs["--help"].numArgs == 0
    ensures r.Canonical("-h") == "--help"
    ensures r.usageSuffix == usage
    ensures r.Valid()
  {
    ArgumentParser(
      map["--help" := CLIOption("-h", 0, "Display help and exit")],
      map["-h" := "--help"],
      ["--help"],
      usage)
  }

  /** GetArgs finds option `key` exactly at the first token whose canonical
      form is `key`, and succeeds exactly when that token is followed by
      enough arguments. */
  lemma {:induction false} GetArgsNotFound(p: ArgumentParser, key: string, s: seq<string>)
    requires key in p.knownArgs && p.FirstKey(key, s).None?
    ensures p.GetArgs(key, s).Failure?
  {
    if |s| > 0 {
      GetArgsSkip(p, key, s);
      GetArgsNotFound(p, key, s[1..]);
    }
  }

  lemma {:induction false} GetArgsFound(p: ArgumentParser, key: string, s: seq<string>)
    requires key in p.knownArgs && p.FirstKey(key, s).Some?
    requires p.FirstKey(key, s).v + 1 + p.knownArgs[key].numArgs <= |s|
    ensures var n, i := p.knownArgs[key].numArgs, p.FirstKey(key, s).v;
            p.GetArgs(key, s) == Success(s[i + 1..i + 1 + n])
  {
    if p.Canonical(s[0]) == key {
      GetArgsHere(p, key, s);
    } else {
      var n, i := p.knownArgs[key].numArgs, p.FirstKey(key, s[1..]).v;
      GetArgsSkip(p, key, s);
      GetArgsFound(p, key, s[1..]);
      SliceOfTail(s, i + 1, n);
    }
  }

  lemma {:induction false} GetArgsTooFew(p: ArgumentParser, key: string, s: seq<string>)
    requires key in p.knownArgs && p.FirstKey(key, s).Some?
    requires p.FirstKey(key, s).v + 1 + p.knownArgs[key].numArgs > |s|
    ensures p.GetArgs(key, s).Failure?
  {
    if p.Canonical(s[0]) == key {
      GetArgsHere(p, key, s);
    } else {
      GetArgsSkip(p, key, s);
      GetArgsTooFew(p, key, s[1..]);
    }
  }

  /** GetArgs acts exactly at the first token whose canonical form is
      `key`, and succeeds exactly when that token is followed by enough
      arguments. */
  lemma GetArgsExact(p: ArgumentParser, key: string, s: seq<string>)
    requires key in p.knownArgs
    ensures p.GetArgs(key, s).Success? <==>
              p.FirstKey(key, s).Some? && p.FirstKey(key, s).v + 1 + p.knownArgs[key].numArgs <= |s|
    ensures p.GetArgs(key, s).Success? ==>
              var n, i := p.knownArgs[key].numArgs, p.FirstKey(key, s).v;
              p.GetArgs(key, s).v == s[i + 1..i + 1 + n]
  {
    if p.FirstKey(key, s).None? {
      GetArgsNotFound(p, key, s);
    } else if p.FirstKey(key, s).v + 1 + p.knownArgs[key].numArgs <= |s| {
      GetArgsFound(p, key, s);
    } else {
      GetArgsTooFew(p, key, s);
    }
  }

  /** A first token naming `key` is where the lookup stops. */
  lemma GetArgsHere(p: ArgumentParser, key: string, s: seq<string>)
    requires key in p.knownArgs && |s| > 0 && p.Canonical(s[0]) == key
    ensures p.FirstKey(key, s) == Some(0)
    ensures var n := p.knownArgs[key].numArgs;
            if 1 + n <= |s| then p.GetArgs(key, s) == Success(s[1..1 + n]) else p.GetArgs(key, s).Failure?
  {
    var n := p.knownArgs[key].numArgs;
    if 1 + n <= |s| {
      SliceOfTail(s, 0, n);
    }
  }

  /** A first token not naming `key` is skipped. */
  lemma GetArgsSkip(p: ArgumentParser, key: string, s: seq<string>)
    requires key in p.knownArgs && |s| > 0 && p.Canonical(s[0]) != key
    ensures p.GetArgs(key, s) == p.GetArgs(key, s[1..])
    ensures var f := p.FirstKey(key, s[1..]);
            p.FirstKey(key, s) == if f.None? then None else Some(f.v + 1)
  {
  }

  lemma SliceOfTail<T>(s: seq<T>, i: nat, n: nat)
    requires 0 < |s| && i + n <= |s| - 1
    ensures s[1..][i..i + n] == s[i + 1..i + 1 + n]
  {
  }

  /** Registering an option and then passing its short name followed by
      enough tokens yields those tokens. */
  lemma AddThenGet(p: ArgumentParser, opname: string, name: string, n: nat, help: string, rest: seq<string>)
    requires n <= |rest|
    ensures p.AddOption(opname, name, n, help).GetArgs(name, [opname] + rest) == Success(rest[..n])
  {
    var q := p.AddOption(opname, name, n, help);
    assert ([opname] + rest)[0] == opname && ([opname] + rest)[1..] == rest;
  }
}
