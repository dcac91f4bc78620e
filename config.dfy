/**
 The argument resolver `Config::new`, and the choice of search variant that
 `run` makes from the resolved configuration. The environment lookup of
 `CASE_INSENSITIVE` is an input: whether `env::var` returns a value, that is,
 whether the variable is set to valid Unicode.
 */
module Cli {
  import opened Text
  import opened Engine

  /** The resolved run parameters. */
  datatype Config = Config(query: string, filename: string, caseSensitive: bool)

  /** The three ways `Config::new` fails. */
  datatype ConfigError = MissingQuery | MissingFilename | IllegalArguments

  datatype Result<T> = Ok(value: T) | Err(error: ConfigError)

  /** The message `Config::new` returns for each failure. */
  function Message(e: ConfigError): string {
    match e
    case MissingQuery => "didn't get a query string"
    case MissingFilename => "didn't get a file name"
    case IllegalArguments => "illegal arugments"
  }

  /** The three failures are told apart by their messages. */
  lemma MessagesDistinct(a: ConfigError, b: ConfigError)
    ensures Message(a) == Message(b) <==> a == b
  {
  }

  /**
   `Config::new`: `args` is the whole argument vector, program name first. After
   skipping the program name it takes the query, then the file name, then an
   optional flag that must be "-i" or "-s"; later tokens are never looked at.
   Without a flag the search is case-sensitive exactly when the lookup of
   `CASE_INSENSITIVE` fails (`caseInsensitiveVar` is false): the variable is
   unset or its value is not valid Unicode.
   */
  function NewConfig(args: seq<string>, caseInsensitiveVar: bool): (r: Result<Config>)
    ensures r == Err(MissingQuery) <==> |args| <= 1
    ensures r == Err(MissingFilename) <==> |args| == 2
    ensures r == Err(IllegalArguments) <==> |args| >= 4 && args[3] != "-i" && args[3] != "-s"
    ensures r.Ok? ==> r.value.query == args[1] && r.value.filename == args[2]
    ensures r.Ok? && |args| == 3 ==> r.value.caseSensitive == !caseInsensitiveVar
    ensures r.Ok? && |args| >= 4 ==> r.value.caseSensitive == (args[3] == "-s")
  {
    var rest := if args == [] then [] else args[1..];
    if rest == [] then Err(MissingQuery)
    else
      var query, rest := rest[0], rest[1..];
      if rest == [] then Err(MissingFilename)
      else
        var filename, rest := rest[0], rest[1..];
        if rest == [] then Ok(Config(query, filename, !caseInsensitiveVar))
        else if rest[0] == "-i" then Ok(Config(query, filename, false))
        else if rest[0] == "-s" then Ok(Config(query, filename, true))
        else Err(IllegalArguments)
  }

  /** Tokens after the flag never change the outcome. */
  lemma TrailingTokensIgnored(args: seq<string>, extra: seq<string>, caseInsensitiveVar: bool)
    requires |args| >= 4
    ensures NewConfig(args + extra, caseInsensitiveVar) == NewConfig(args, caseInsensitiveVar)
  {
  }

  /** The environment is consulted only when no flag is given. */
  lemma EnvironmentOnlyWithoutFlag(args: seq<string>)
    requires |args| != 3
    ensures NewConfig(args, true) == NewConfig(args, false)
  {
  }

  /** An explicit flag overrides the environment in both directions. */
  lemma FlagOverridesEnvironment(program: string, query: string, filename: string, caseInsensitiveVar: bool)
    ensures NewConfig([program, query, filename, "-i"], caseInsensitiveVar) == Ok(Config(query, filename, false))
    ensures NewConfig([program, query, filename, "-s"], caseInsensitiveVar) == Ok(Config(query, filename, true))
  {
  }

  /** The arguments that request a configuration explicitly. */
  function Arguments(program: string, config: Config): seq<string> {
    [program, config.query, config.filename, if config.caseSensitive then "-s" else "-i"]
  }

  /** Every configuration is resolved back from its explicit arguments, whatever the environment. */
  lemma ArgumentsRoundTrip(program: string, config: Config, caseInsensitiveVar: bool)
    ensures NewConfig(Arguments(program, config), caseInsensitiveVar) == Ok(config)
  {
  }

  /** Every successful resolution is reproduced by the explicit arguments of its result. */
  lemma ResolvedConfigRoundTrip(args: seq<string>, caseInsensitiveVar: bool, program: string)
    requires NewConfig(args, caseInsensitiveVar).Ok?
    ensures NewConfig(Arguments(program, NewConfig(args, caseInsensitiveVar).value), !caseInsensitiveVar)
            == NewConfig(args, caseInsensitiveVar)
  {
  }

  /** The matches `run` reports: the variant that `caseSensitive` selects. */
  function RunMatches(config: Config, contents: string): (r: seq<Match>)
    ensures IsSubsequence(r, SearchIter(contents))
    ensures forall m :: m in r <==>
      && m in SearchIter(contents)
      && (if config.caseSensitive then Contains(m.text, config.query)
          else Contains(Lower(m.text), Lower(config.query)))
  {
    if config.caseSensitive then Search(config.query, contents)
    else SearchCaseInsensitive(config.query, contents)
  }

  /** Switching the case mode keeps the line numbering: each mode reports numbered lines of the same list. */
  lemma ModeKeepsNumbering(config: Config, contents: string)
    ensures forall m :: m in RunMatches(config, contents) ==>
      1 <= m.number <= |Lines(contents)| && m.text == Lines(contents)[m.number - 1]
    ensures IsSubsequence(RunMatches(config.(caseSensitive := true), contents),
                          RunMatches(config.(caseSensitive := false), contents))
  {
    forall m | m in RunMatches(config, contents)
      ensures 1 <= m.number <= |Lines(contents)| && m.text == Lines(contents)[m.number - 1]
    {
      InSearchIter(contents, m.number, m.text);
    }
    SensitiveWithinInsensitive(config.query, contents);
  }
}
