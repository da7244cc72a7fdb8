/** The command-line parser of utils/CommandLine.kt: options registered under
    their names and aliases, then `parse` draining the arguments left to right. */
module CommandLine {
  import opened Numeric
  import opened Exceptions

  datatype Kind = FlagKind | IntParameterKind | StringParameterKind

  /** A parsed argument or default: a flag's Boolean, an `Int`, a `String`. */
  datatype Value = BoolValue(b: bool) | IntValue(i: int32) | StringValue(s: string)

  /** An `Option`: its name, every name it answers to (the name first, then
      the aliases in the order added), its kind and its default. */
  datatype Opt = Opt(name: string, names: seq<string>, kind: Kind, defaultValue: Option<Value>)

  /** `Flag(name)`: defaults to false. */
  function Flag(name: string): Opt
  {
    Opt(name, [name], FlagKind, Some(BoolValue(false)))
  }

  /** `IntParameter(name)` and `StringParameter(name)`: no default until one is given. */
  function IntParameter(name: string): Opt
  {
    Opt(name, [name], IntParameterKind, None)
  }

  function StringParameter(name: string): Opt
  {
    Opt(name, [name], StringParameterKind, None)
  }

  /** `option.alias(alias)`. */
  function Alias(option: Opt, alias: string): Opt
  {
    option.(names := option.names + [alias])
  }

  /** `parameter.default(value)`. */
  function WithDefault(parameter: Opt, value: Value): Opt
  {
    parameter.(defaultValue := Some(value))
  }

  // ---------------------------------------------------------------------------
  // String.toInt, for ASCII decimal text

  predicate IsDigit(c: char)
  {
    '0' <= c <= '9'
  }

  function DigitsValue(s: string): nat
    requires forall i :: 0 <= i < |s| ==> IsDigit(s[i])
  {
    if s == [] then 0
    else
      var init := s[..|s| - 1];
      assert forall i :: 0 <= i < |init| ==> init[i] == s[i];
      var last := s[|s| - 1];
      assert IsDigit(last);
      10 * DigitsValue(init) + (last as int - '0' as int)
  }

  /** `toInt()`: an optional sign, then at least one decimal digit, within `Int`. */
  function ParseInt(s: string): Option<int32>
  {
    if s == [] then None
    else
      var digits := if s[0] == '-' || s[0] == '+' then s[1..] else s;
      if digits == [] || exists i :: 0 <= i < |digits| && !IsDigit(digits[i]) then None
      else
        var magnitude: int := DigitsValue(digits);
        var v := if s[0] == '-' then -magnitude else magnitude;
        if -0x8000_0000 <= v < 0x8000_0000 then Some(v) else None
  }

  /** `Parameter.parse(arg)`. */
  function ParseValue(kind: Kind, arg: string): (r: Result<Value>)
    requires kind != FlagKind
    ensures kind == StringParameterKind ==> r == Ok(StringValue(arg))
    ensures kind == IntParameterKind ==> r.Ok? || r == Err(NumberFormat(arg))
  {
    if kind == StringParameterKind then Ok(StringValue(arg))
    else match ParseInt(arg)
      case Some(v) => Ok(IntValue(v))
      case None => Err(NumberFormat(arg))
  }

  // ---------------------------------------------------------------------------
  // Naming of one argument

  predicate IsFullyQualified(next: string)
  {
    |next| >= 2 && next[..2] == "--"
  }

  /** The argument without its `--`, or else without one leading `-`. */
  function StripDashes(next: string): string
  {
    if IsFullyQualified(next) then next[2..]
    else if |next| >= 1 && next[0] == '-' then next[1..]
    else next
  }

  /** Anything but a `--` argument naming more than one character is a group
      of single-character flags, whether or not it starts with a dash. */
  predicate IsMultiFlag(next: string)
  {
    !IsFullyQualified(next) && |StripDashes(next)| > 1
  }

  function Aliases(next: string): (aliases: seq<string>)
    ensures IsMultiFlag(next) ==>
      |aliases| == |StripDashes(next)| > 1 && forall i :: 0 <= i < |aliases| ==> aliases[i] == [StripDashes(next)[i]]
    ensures !IsMultiFlag(next) ==> aliases == [StripDashes(next)]
  {
    var name := StripDashes(next);
    if IsMultiFlag(next) then seq(|name|, i requires 0 <= i < |name| => [name[i]]) else [name]
  }

  /** `allAliases.map { options[alias] ?: throw … }`. */
  function LookupAll(options: map<string, Opt>, aliases: seq<string>, next: string): (r: Result<seq<Opt>>)
    ensures r.Ok? <==> forall i :: 0 <= i < |aliases| ==> aliases[i] in options
    ensures r.Ok? ==> |r.value| == |aliases| && forall i :: 0 <= i < |aliases| ==> r.value[i] == options[aliases[i]]
    ensures r.Err? ==> r.error == IllegalArgument("Got unexpected command line arg " + next)
  {
    if forall i :: 0 <= i < |aliases| ==> aliases[i] in options then
      Ok(seq(|aliases|, i requires 0 <= i < |aliases| => options[aliases[i]]))
    else Err(IllegalArgument("Got unexpected command line arg " + next))
  }

  /** `allOptions.forEach { seen.add(it) || throw … }`: each option may be
      supplied once, by whichever of its names. */
  function MarkSeen(seen: set<Opt>, opts: seq<Opt>): (r: Result<set<Opt>>)
    ensures r.Ok? <==>
      (forall i :: 0 <= i < |opts| ==> opts[i] !in seen)
      && (forall i, j :: 0 <= i < j < |opts| ==> opts[i] != opts[j])
    ensures r.Ok? ==> r.value == seen + set i | 0 <= i < |opts| :: opts[i]
    ensures r.Err? ==> exists i :: 0 <= i < |opts| && r.error == IllegalArgument("'" + opts[i].name + "' or an alias was provided more than once")
    decreases |opts|
  {
    if opts == [] then Ok(seen)
    else if opts[0] in seen then
      Err(IllegalArgument("'" + opts[0].name + "' or an alias was provided more than once"))
    else
      var r := MarkSeen(seen + {opts[0]}, opts[1..]);
      assert forall i :: 1 <= i < |opts| ==> opts[i] == opts[1..][i - 1];
      assert (set i | 0 <= i < |opts| :: opts[i]) == {opts[0]} + set i | 0 <= i < |opts| - 1 :: opts[1..][i];
      if r.Err? then
        var i :| 0 <= i < |opts[1..]|
          && r.error == IllegalArgument("'" + opts[1..][i].name + "' or an alias was provided more than once");
        assert opts[1..][i] == opts[i + 1];
        r
      else r
  }

  function NamesOf(opts: seq<Opt>): set<string>
  {
    set i | 0 <= i < |opts| :: opts[i].name
  }

  // ---------------------------------------------------------------------------
  // parse

  /** The results before any argument: every registered name whose option has
      a default, mapped to that default. */
  function Defaults(options: map<string, Opt>): map<string, Value>
  {
    map k | k in options && options[k].defaultValue.Some? :: options[k].defaultValue.value
  }

  /** The state of the loop after one argument (and a parameter's value). */
  datatype Progress = Progress(rest: seq<string>, results: map<string, Value>, seen: set<Opt>)

  /** One iteration of the loop in `parse`. */
  function Step(options: map<string, Opt>, args: seq<string>, results: map<string, Value>, seen: set<Opt>): (r: Result<Progress>)
    requires args != []
    ensures r.Ok? ==> |r.value.rest| < |args| && seen <= r.value.seen
  {
    var next := args[0];
    var isMultiFlag := IsMultiFlag(next);
    var allOptions :- LookupAll(options, Aliases(next), next);
    var seen' :- MarkSeen(seen, allOptions);
    var allAreFlags := forall i :: 0 <= i < |allOptions| ==> allOptions[i].kind == FlagKind;
    if !allAreFlags && isMultiFlag then
      Err(IllegalArgument("Multi-flag argument " + next + " contains an option which requires an argument"))
    else if allAreFlags then
      Ok(Progress(args[1..], results + map n | n in NamesOf(allOptions) :: BoolValue(true), seen'))
    else
      var option := allOptions[0];
      if |args| == 1 then Err(IllegalArgument("Missing parameter associated with option " + next))
      else
        var value :- ParseValue(option.kind, args[1]);
        Ok(Progress(args[2..], results[option.name := value], seen'))
  }

  /** `parse` from a given state of its loop to the end of the arguments. */
  function ParseArgs(options: map<string, Opt>, args: seq<string>, results: map<string, Value>, seen: set<Opt>): Result<map<string, Value>>
    decreases |args|
  {
    if args == [] then Ok(results)
    else match Step(options, args, results, seen)
      case Err(e) => Err(e)
      case Ok(p) => ParseArgs(options, p.rest, p.results, p.seen)
  }

  /** Without arguments `parse` returns the defaults: under every registered
      name and alias of an option with a default, flags false included. */
  lemma ParseNoArguments(options: map<string, Opt>)
    ensures ParseArgs(options, [], Defaults(options), {}).Ok?
    ensures var r := ParseArgs(options, [], Defaults(options), {}).value;
      (forall k :: k in r <==> k in options && options[k].defaultValue.Some?)
      && (forall k :: k in options && options[k] == Flag(options[k].name) ==> r[k] == BoolValue(false))
  {
  }

  /** A `--` argument names exactly one option. */
  lemma FullyQualified(alias: string)
    ensures IsFullyQualified("--" + alias) && !IsMultiFlag("--" + alias)
    ensures Aliases("--" + alias) == [alias]
  {
    var next := "--" + alias;
    assert next[..2] == "--" && next[2..] == alias;
  }

  lemma LookupAllIs(options: map<string, Opt>, aliases: seq<string>, next: string, opts: seq<Opt>)
    requires |opts| == |aliases|
    requires forall i :: 0 <= i < |aliases| ==> aliases[i] in options && opts[i] == options[aliases[i]]
    ensures LookupAll(options, aliases, next) == Ok(opts)
  {
    assert LookupAll(options, aliases, next).value == opts;
  }

  lemma MarkOne(seen: set<Opt>, o: Opt)
    requires o !in seen
    ensures MarkSeen(seen, [o]) == Ok(seen + {o})
  {
    assert [o][0] == o;
    assert (set i | 0 <= i < 1 :: [o][i]) == {o};
  }

  /** A flag given by any of its names stores true under its name. */
  lemma FlagProvided(options: map<string, Opt>, alias: string, rest: seq<string>, results: map<string, Value>, seen: set<Opt>)
    requires alias in options && options[alias].kind == FlagKind && options[alias] !in seen
    ensures var flag := options[alias];
      ParseArgs(options, ["--" + alias] + rest, results, seen)
      == ParseArgs(options, rest, results[flag.name := BoolValue(true)], seen + {flag})
  {
    var args := ["--" + alias] + rest;
    var flag := options[alias];
    FullyQualified(alias);
    assert args[0] == "--" + alias && args[1..] == rest;
    LookupAllIs(options, [alias], args[0], [flag]);
    MarkOne(seen, flag);
    assert [flag][0] == flag;
    assert NamesOf([flag]) == {flag.name};
    var flags := map n | n in NamesOf([flag]) :: BoolValue(true);
    assert flags == map[flag.name := BoolValue(true)];
    assert results + flags == results[flag.name := BoolValue(true)];
    assert Step(options, args, results, seen)
        == Ok(Progress(rest, results[flag.name := BoolValue(true)], seen + {flag}));
  }

  /** A parameter consumes exactly the next argument and stores its parsed
      value under its name; with no argument left it is an error. */
  lemma ParameterProvided(options: map<string, Opt>, alias: string, arg: string, rest: seq<string>,
                          results: map<string, Value>, seen: set<Opt>)
    requires alias in options && options[alias].kind == StringParameterKind && options[alias] !in seen
    ensures var parameter := options[alias];
      ParseArgs(options, ["--" + alias, arg] + rest, results, seen)
      == ParseArgs(options, rest, results[parameter.name := StringValue(arg)], seen + {parameter})
    ensures ParseArgs(options, ["--" + alias], results, seen)
         == Err(IllegalArgument("Missing parameter associated with option --" + alias))
  {
    var args := ["--" + alias, arg] + rest;
    var parameter := options[alias];
    FullyQualified(alias);
    assert args[0] == "--" + alias && args[1] == arg && args[2..] == rest;
    LookupAllIs(options, [alias], args[0], [parameter]);
    MarkOne(seen, parameter);
    assert [parameter][0] == parameter;
    assert Step(options, args, results, seen)
        == Ok(Progress(rest, results[parameter.name := StringValue(arg)], seen + {parameter}));
    var alone := ["--" + alias];
    assert alone[0] == "--" + alias;
    LookupAllIs(options, [alias], alone[0], [parameter]);
    assert "Missing parameter associated with option " + alone[0]
        == "Missing parameter associated with option --" + alias;
    assert Step(options, alone, results, seen)
        == Err(IllegalArgument("Missing parameter associated with option --" + alias));
  }

  /** The same option supplied twice, through any two of its names, is refused. */
  lemma DuplicateRejected(options: map<string, Opt>, a: string, b: string, rest: seq<string>, results: map<string, Value>)
    requires a in options && b in options && options[a] == options[b] && options[a].kind == FlagKind
    ensures ParseArgs(options, ["--" + a, "--" + b] + rest, results, {})
         == Err(IllegalArgument("'" + options[a].name + "' or an alias was provided more than once"))
  {
    var flag := options[a];
    var second := ["--" + b] + rest;
    FlagProvided(options, a, second, results, {});
    assert ["--" + a, "--" + b] + rest == ["--" + a] + second;
    FullyQualified(b);
    assert second[0] == "--" + b;
    LookupAllIs(options, [b], second[0], [flag]);
    assert [flag][0] == flag;
    assert MarkSeen({} + {flag}, [flag]).Err?;
  }

  /** A group of single-character names may hold only flags. */
  lemma MultiFlagWithParameterRejected(options: map<string, Opt>, c: char, d: char, rest: seq<string>, results: map<string, Value>)
    requires c != '-'
    requires [c] in options && [d] in options && options[[c]] != options[[d]]
    requires options[[c]].kind == FlagKind && options[[d]].kind == IntParameterKind
    ensures ParseArgs(options, [['-', c, d]] + rest, results, {})
         == Err(IllegalArgument("Multi-flag argument " + ['-', c, d] + " contains an option which requires an argument"))
  {
    var next := ['-', c, d];
    assert !IsFullyQualified(next) by {
      assert next[..2] == ['-', c];
    }
    assert StripDashes(next) == [c, d];
    assert IsMultiFlag(next);
    assert Aliases(next) == [[c], [d]];
    var both := [options[[c]], options[[d]]];
    LookupAllIs(options, [[c], [d]], next, both);
    assert MarkSeen({}, both).Ok?;
    assert both[1].kind != FlagKind;
    assert ([next] + rest)[0] == next;
    assert Step(options, [next] + rest, results, {})
        == Err(IllegalArgument("Multi-flag argument " + next + " contains an option which requires an argument"));
  }

  /** A group of two distinct single-character flags sets both of them, as if
      each had been given on its own. */
  lemma MultiFlagGroupSetsAll(options: map<string, Opt>, c: char, d: char, rest: seq<string>, results: map<string, Value>)
    requires c != '-'
    requires [c] in options && [d] in options && options[[c]] != options[[d]]
    requires options[[c]].kind == FlagKind && options[[d]].kind == FlagKind
    ensures var (a, b) := (options[[c]], options[[d]]);
      ParseArgs(options, [['-', c, d]] + rest, results, {})
      == ParseArgs(options, rest, results[a.name := BoolValue(true)][b.name := BoolValue(true)], {a, b})
  {
    var next := ['-', c, d];
    var args := [next] + rest;
    assert !IsFullyQualified(next) by {
      assert next[..2] == ['-', c];
    }
    assert StripDashes(next) == [c, d];
    assert Aliases(next) == [[c], [d]];
    var a, b := options[[c]], options[[d]];
    var both := [a, b];
    LookupAllIs(options, [[c], [d]], next, both);
    assert both[0] == a && both[1] == b;
    assert (set i | 0 <= i < |both| :: both[i]) == {a, b} by {
      assert a == both[0] && b == both[1];
    }
    assert both[1..] == [b];
    MarkOne({} + {a}, b);
    assert MarkSeen({}, both) == MarkSeen({} + {a}, [b]);
    assert {} + {a} + {b} == {a, b};
    assert NamesOf(both) == {a.name, b.name};
    var flags := map n | n in NamesOf(both) :: BoolValue(true);
    assert results + flags == results[a.name := BoolValue(true)][b.name := BoolValue(true)];
    assert args[0] == next && args[1..] == rest;
    assert Step(options, args, results, {})
        == Ok(Progress(rest, results[a.name := BoolValue(true)][b.name := BoolValue(true)], {a, b}));
  }

  /** One iteration of the loop as written: `name.toList()` gives `Char`s, and
      no `Char` is a key of the `String`-keyed option map, so a group fails on
      the lookup of its first character. Anything else is `Step`. */
  function StepAsWritten(options: map<string, Opt>, args: seq<string>, results: map<string, Value>, seen: set<Opt>): Result<Progress>
    requires args != []
  {
    if IsMultiFlag(args[0]) then Err(IllegalArgument("Got unexpected command line arg " + args[0]))
    else Step(options, args, results, seen)
  }

  /** `parse` as written, from a given state of its loop. */
  function ParseArgsAsWritten(options: map<string, Opt>, args: seq<string>, results: map<string, Value>, seen: set<Opt>): Result<map<string, Value>>
    decreases |args|
  {
    if args == [] then Ok(results)
    else match StepAsWritten(options, args, results, seen)
      case Err(e) => Err(e)
      case Ok(p) => ParseArgsAsWritten(options, p.rest, p.results, p.seen)
  }

  /** As written, every group of single-character names (and every bare word
      longer than one character) is an unexpected argument, whatever options
      are registered: the multi-flag check after the lookup is never reached. */
  lemma MultiFlagUnexpectedAsWritten(options: map<string, Opt>, next: string, rest: seq<string>,
                                     results: map<string, Value>, seen: set<Opt>)
    requires IsMultiFlag(next)
    ensures ParseArgsAsWritten(options, [next] + rest, results, seen)
         == Err(IllegalArgument("Got unexpected command line arg " + next))
  {
    assert ([next] + rest)[0] == next;
  }

  /** One step adds keys only under names of registered options. */
  lemma StepKeys(options: map<string, Opt>, args: seq<string>, results: map<string, Value>, seen: set<Opt>)
    requires args != []
    requires Step(options, args, results, seen).Ok?
    ensures forall k :: k in Step(options, args, results, seen).value.results ==>
      k in results || exists a :: a in options && options[a].name == k
  {
    var next := args[0];
    var aliases := Aliases(next);
    var allOptions := LookupAll(options, aliases, next).value;
    var p := Step(options, args, results, seen).value;
    forall k | k in p.results && k !in results
      ensures exists a :: a in options && options[a].name == k
    {
      if forall i :: 0 <= i < |allOptions| ==> allOptions[i].kind == FlagKind {
        var i :| 0 <= i < |allOptions| && allOptions[i].name == k;
        assert options[aliases[i]].name == k;
      } else {
        assert options[aliases[0]].name == k;
      }
    }
  }

  /** Every key of the results is a key it started with or the name of a
      registered option. */
  lemma {:induction false} ResultKeys(options: map<string, Opt>, args: seq<string>, results: map<string, Value>, seen: set<Opt>)
    ensures var r := ParseArgs(options, args, results, seen);
      r.Ok? ==> forall k :: k in r.value ==> k in results || exists a :: a in options && options[a].name == k
    decreases |args|
  {
    if args != [] {
      var s := Step(options, args, results, seen);
      if s.Ok? {
        ResultKeys(options, s.value.rest, s.value.results, s.value.seen);
        StepKeys(options, args, results, seen);
      }
    }
  }

  // ---------------------------------------------------------------------------
  // The registry and the parse result

  class CommandLineArgs {
    var options: map<string, Opt>

    constructor ()
      ensures options == map[]
    {
      options := map[];
    }

    /** `add(opt)`: every name and alias of the option now maps to it; a
        name registered before to another option is taken over. */
    method Add(opt: Opt)
      modifies this
      ensures forall n :: n in opt.names ==> n in options && options[n] == opt
      ensures forall n :: n !in opt.names ==> (n in options <==> n in old(options)) && (n in options ==> options[n] == old(options)[n])
    {
      options := options + map n | n in opt.names :: opt;
    }

    /** `parse(argv)`: the loop over a working copy of the arguments. */
    method Parse(argv: seq<string>) returns (r: Result<map<string, Value>>)
      ensures r == ParseArgs(options, argv, Defaults(options), {})
    {
      var results := Defaults(options);
      var workingArgs := argv;
      var seen: set<Opt> := {};
      while workingArgs != []
        invariant ParseArgs(options, workingArgs, results, seen) == ParseArgs(options, argv, Defaults(options), {})
        decreases |workingArgs|
      {
        ghost var before, results0, seen0 := workingArgs, results, seen;
        var next := workingArgs[0];
        workingArgs := workingArgs[1..];
        var isMultiFlag := IsMultiFlag(next);
        var allOptions :- LookupAll(options, Aliases(next), next);
        seen :- MarkSeen(seen, allOptions);
        var allAreFlags := forall i :: 0 <= i < |allOptions| ==> allOptions[i].kind == FlagKind;
        if !allAreFlags && isMultiFlag {
          return Err(IllegalArgument("Multi-flag argument " + next + " contains an option which requires an argument"));
        }
        if allAreFlags {
          results := results + map n | n in NamesOf(allOptions) :: BoolValue(true);
        } else {
          var option := allOptions[0];
          if workingArgs == [] {
            return Err(IllegalArgument("Missing parameter associated with option " + next));
          }
          var parameter := workingArgs[0];
          workingArgs := workingArgs[1..];
          var value :- ParseValue(option.kind, parameter);
          results := results[option.name := value];
        }
        assert Step(options, before, results0, seen0) == Ok(Progress(workingArgs, results, seen));
      }
      return Ok(results);
    }
  }

  /** The type a caller asks `get` for. */
  datatype ValueType = BooleanType | IntType | StringType

  function TypeName(t: ValueType): string
  {
    match t
    case BooleanType => "Boolean"
    case IntType => "Int"
    case StringType => "String"
  }

  function TypeOf(v: Value): ValueType
  {
    match v
    case BoolValue(_) => BooleanType
    case IntValue(_) => IntType
    case StringValue(_) => StringType
  }

  /** `CommandLineParseResult.get<T>(key)`: the value when it has the
      requested type; otherwise an error naming the type found, or "null". */
  function Get(results: map<string, Value>, key: string, expected: ValueType): (r: Result<Value>)
    ensures r.Ok? <==> key in results && TypeOf(results[key]) == expected
    ensures r.Ok? ==> r.value == results[key]
    ensures r.Err? ==> r.error == IllegalArgument("Expected command line argument " + key + " to be of type "
                                                  + TypeName(expected) + ", got "
                                                  + (if key in results then TypeName(TypeOf(results[key])) else "null"))
  {
    if key in results && TypeOf(results[key]) == expected then Ok(results[key])
    else
      var actual := if key in results then TypeName(TypeOf(results[key])) else "null";
      Err(IllegalArgument("Expected command line argument " + key + " to be of type " + TypeName(expected) + ", got " + actual))
  }
}
