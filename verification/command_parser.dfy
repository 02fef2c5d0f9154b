/** `CommandParser` of 02_python/utils/command_parser.py: split a command
    line on whitespace, take the first token as the command name and sort
    the rest into options (tokens starting with `-`) and positional
    arguments, each in input order. */
module Commands {
  import opened Outcomes
  import opened Text

  /** The dict `parse_command` returns, with its three keys `command_name`,
      `options` and `args`. */
  datatype Parsed = Parsed(commandName: string, options: seq<string>, args: seq<string>)

  /** `token.startswith('-')`. */
  predicate IsOption(token: string)
  {
    |token| > 0 && token[0] == '-'
  }

  /** The tokens of `ts` that are options (`opt`) or positional arguments
      (`!opt`), in order. */
  function Select(ts: seq<string>, opt: bool): seq<string>
  {
    if ts == [] then []
    else Select(ts[..|ts| - 1], opt) + (if IsOption(ts[|ts| - 1]) == opt then [ts[|ts| - 1]] else [])
  }

  /** What `parse_command(input_command)` returns or raises. */
  function ParseResult(inputCommand: string): Result<Parsed>
  {
    var tokens := Split(inputCommand);
    if tokens == [] then Err(EmptyCommand)
    else Ok(Parsed(tokens[0], Select(tokens[1..], true), Select(tokens[1..], false)))
  }

  class CommandParser {
    var verbose: bool

    /** `__init__`: only records `verbose`, which parsing never reads. */
    constructor (verbose: bool)
      ensures this.verbose == verbose
    {
      this.verbose := verbose;
    }

    /** `parse_command`, without its logging. */
    method ParseCommand(inputCommand: string) returns (r: Result<Parsed>)
      ensures r == ParseResult(inputCommand)
    {
      var tokens := Split(inputCommand);
      if tokens == [] {
        return Err(EmptyCommand);
      }
      var commandName := tokens[0];
      var options: seq<string> := [];
      var positionalArgs: seq<string> := [];
      var rest := tokens[1..];
      for i := 0 to |rest|
        invariant options == Select(rest[..i], true)
        invariant positionalArgs == Select(rest[..i], false)
      {
        var command := rest[i];
        assert rest[..i + 1][..i] == rest[..i];
        if IsOption(command) {
          options := options + [command];
        } else {
          positionalArgs := positionalArgs + [command];
        }
      }
      assert rest[..|rest|] == rest;
      r := Ok(Parsed(commandName, options, positionalArgs));
    }
  }

  /** The two selections split `ts`: every option starts with `-`, no
      positional argument does, and between them they hold each token
      exactly once. */
  lemma {:induction false} SelectPartition(ts: seq<string>)
    ensures forall t :: t in Select(ts, true) ==> IsOption(t)
    ensures forall t :: t in Select(ts, false) ==> !IsOption(t)
    ensures |Select(ts, true)| + |Select(ts, false)| == |ts|
    ensures multiset(Select(ts, true)) + multiset(Select(ts, false)) == multiset(ts)
  {
    if ts != [] {
      var p := ts[..|ts| - 1];
      var t := ts[|ts| - 1];
      SelectPartition(p);
      assert ts == p + [t];
      if IsOption(t) {
        assert Select(ts, true) == Select(p, true) + [t];
        assert Select(ts, false) == Select(p, false);
      } else {
        assert Select(ts, true) == Select(p, true);
        assert Select(ts, false) == Select(p, false) + [t];
      }
    }
  }

  /** Selecting keeps the input order: selecting from `a + b` selects from
      `a`, then from `b`; and a token list of one kind is kept whole. */
  lemma {:induction false} SelectAppend(a: seq<string>, b: seq<string>, opt: bool)
    ensures Select(a + b, opt) == Select(a, opt) + Select(b, opt)
    decreases |b|
  {
    if b == [] {
      assert a + b == a;
    } else {
      var b' := b[..|b| - 1];
      assert (a + b)[..|a + b| - 1] == a + b';
      SelectAppend(a, b', opt);
    }
  }

  lemma {:induction false} SelectAll(ts: seq<string>, opt: bool)
    requires forall i :: 0 <= i < |ts| ==> IsOption(ts[i]) == opt
    ensures Select(ts, opt) == ts
    ensures Select(ts, !opt) == []
  {
    if ts != [] {
      var p := ts[..|ts| - 1];
      SelectAll(p, opt);
      assert ts == p + [ts[|ts| - 1]];
    }
  }

  /** `parse_command` fails exactly on empty or all-whitespace input;
      otherwise the name is the first token, even one starting with `-`,
      and the options and arguments split the remaining tokens. */
  lemma ParseSpec(inputCommand: string)
    ensures ParseResult(inputCommand).Err? <==> AllSpace(inputCommand)
    ensures ParseResult(inputCommand).Err? ==> ParseResult(inputCommand).error == EmptyCommand
    ensures ParseResult(inputCommand).Ok? ==>
              var tokens := Split(inputCommand);
              var p := ParseResult(inputCommand).value;
              && p.commandName == tokens[0]
              && (forall t :: t in p.options ==> IsOption(t))
              && (forall t :: t in p.args ==> !IsOption(t))
              && |p.options| + |p.args| == |tokens| - 1
              && multiset(p.options) + multiset(p.args) == multiset(tokens[1..])
  {
    SplitEmptyIff(inputCommand);
    var tokens := Split(inputCommand);
    if tokens != [] {
      SelectPartition(tokens[1..]);
    }
  }

  /** A name starting with `-` is still the name: `-v x` names the command
      `-v` and has the one argument `x`. */
  lemma DashedName()
    ensures ParseResult("-v x") == Ok(Parsed("-v", [], ["x"]))
  {
    var s := "-v x";
    assert !IsSpace(s[0]) && !IsSpace(s[1]) && IsSpace(s[2]);
    assert WordLength(s) == 2;
    assert s[..2] == "-v" && s[2..] == " x" && " x"[1..] == "x";
    assert IsWord("x");
    SplitOfWord("x");
    assert Split(" x") == ["x"];
    assert Split(s) == ["-v", "x"];
    var rest := ["x"];
    assert Split(s)[1..] == rest && rest[..0] == [];
    assert Select(rest, true) == [] && Select(rest, false) == rest;
  }
}
