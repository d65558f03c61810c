/**
  The library of the `minigrep` command-line tool: the configuration built
  from the command-line arguments and the environment, the two line
  searches, and the choice between them made by `run`.

  Reading the file and printing the result are outside the model: the file
  contents come in as a parameter and the matching lines go out as the
  result. Lowercasing is a parameter `lower` as well, since the Unicode case
  tables behind Rust's `str::to_lowercase` are not part of this model.
 */
module Minigrep {
  import opened Wrappers
  import opened Strings
  import opened LineSplit
  import opened Seqs

  /** What one run searches for, where, and whether letter case matters. */
  datatype Config = Config(query: string, filename: string, caseSensitive: bool)

  /** A value held in the process environment, which need not be valid Unicode. */
  datatype OsValue = Unicode(text: string) | NonUnicode

  type Environment = map<string, OsValue>

  /** Why `std::env::var` returns no string. */
  datatype VarError = NotPresent | NotUnicode

  /** The variable whose presence switches the search to ignoring case. */
  const CaseInsensitiveVar: string := "CASE_INSENSITIVE"

  const ArgCountMessage: string := "need 2 arguments"

  /** `std::env::var`: the variable's text, or why there is none. */
  function Var(env: Environment, key: string): Result<string, VarError>
  {
    if key !in env then Failure(NotPresent)
    else match env[key]
      case Unicode(text) => Success(text)
      case NonUnicode => Failure(NotUnicode)
  }

  /**
    `Config::new`: exactly two arguments, the query and the file name. The
    search is case-sensitive when reading `CASE_INSENSITIVE` fails; the text
    of the variable is never looked at.
   */
  function NewConfig(args: seq<string>, env: Environment): (r: Result<Config, string>)
    ensures r.Failure? <==> |args| != 2
    ensures r.Failure? ==> r.error == ArgCountMessage
    ensures r.Success? ==> r.value.query == args[0] && r.value.filename == args[1]
    ensures r.Success? ==>
      (r.value.caseSensitive <==> CaseInsensitiveVar !in env || env[CaseInsensitiveVar].NonUnicode?)
  {
    if |args| != 2 then Failure(ArgCountMessage)
    else Success(Config(args[0], args[1], Var(env, CaseInsensitiveVar).Failure?))
  }

  /** Both directions: which arguments and environments produce a given configuration. */
  lemma NewConfigInverse(args: seq<string>, env: Environment, c: Config)
    ensures NewConfig(args, env) == Success(c) <==>
      args == [c.query, c.filename] && (c.caseSensitive <==> Var(env, CaseInsensitiveVar).Failure?)
  {
  }

  /** Only the presence of `CASE_INSENSITIVE` counts: any two texts, the empty one included, act alike. */
  lemma CaseInsensitiveValueIgnored(args: seq<string>, env: Environment, v1: string, v2: string)
    requires |args| == 2
    ensures NewConfig(args, env[CaseInsensitiveVar := Unicode(v1)])
         == NewConfig(args, env[CaseInsensitiveVar := Unicode(v2)])
    ensures !NewConfig(args, env[CaseInsensitiveVar := Unicode(v1)]).value.caseSensitive
  {
  }

  /** The test `search_lines` applies to each line. */
  function ContainsQuery(query: string): string -> bool
  {
    line => Contains(line, query)
  }

  /** The test `search_lines_case_insensitive` applies: the query is lowered once, each line as it is tested. */
  function ContainsQueryFolded(query: string, lower: string -> string): string -> bool
  {
    var q := lower(query);
    line => Contains(lower(line), q)
  }

  /**
    `search_lines`: the lines of `contents` that contain `query`, in their
    order and as often as they occur.
   */
  function SearchLines(query: string, contents: string): (r: seq<string>)
    ensures IsSubsequence(r, Lines(contents))
    ensures forall line :: line in r <==> line in Lines(contents) && Contains(line, query)
    ensures forall line ::
      multiset(r)[line] == if Contains(line, query) then multiset(Lines(contents))[line] else 0
  {
    Filter(Lines(contents), ContainsQuery(query))
  }

  /**
    `search_lines_case_insensitive`: the lines whose lowered text contains
    the lowered query. The lines are returned as they are in `contents`,
    not lowered.
   */
  function SearchLinesCaseInsensitive(query: string, contents: string, lower: string -> string): (r: seq<string>)
    ensures IsSubsequence(r, Lines(contents))
    ensures forall line :: line in r <==> line in Lines(contents) && Contains(lower(line), lower(query))
    ensures forall line ::
      multiset(r)[line] == if Contains(lower(line), lower(query)) then multiset(Lines(contents))[line] else 0
  {
    Filter(Lines(contents), ContainsQueryFolded(query, lower))
  }

  /** The empty query keeps every line, unchanged and in order. */
  lemma EmptyQueryKeepsAllLines(contents: string)
    ensures SearchLines([], contents) == Lines(contents)
  {
    FilterAll(Lines(contents), ContainsQuery([]));
  }

  /** Searching for a whole line of the text finds that line. */
  lemma WholeLineIsFound(line: string, contents: string)
    requires line in Lines(contents)
    ensures line in SearchLines(line, contents)
  {
  }

  /** With lowering left out, the case-insensitive search is the case-sensitive one. */
  lemma CaseInsensitiveWithoutLowering(query: string, contents: string)
    ensures SearchLinesCaseInsensitive(query, contents, s => s) == SearchLines(query, contents)
  {
    FilterExtensional(Lines(contents), ContainsQueryFolded(query, s => s), ContainsQuery(query));
  }

  /**
    For a lowering that works character by character (it distributes over
    concatenation), ignoring case keeps every line that the case-sensitive
    search keeps, and in the same order.
   */
  lemma CaseInsensitiveKeepsMore(query: string, contents: string, lower: string -> string)
    requires DistributesOverConcat(lower)
    ensures IsSubsequence(SearchLines(query, contents), SearchLinesCaseInsensitive(query, contents, lower))
  {
    forall line | ContainsQuery(query)(line)
      ensures ContainsQueryFolded(query, lower)(line)
    {
      ContainsPreserved(lower, line, query);
    }
    FilterMonotone(Lines(contents), ContainsQuery(query), ContainsQueryFolded(query, lower));
  }

  /** For a lowering that maps the empty string to itself, the empty query keeps every line. */
  lemma CaseInsensitiveEmptyQuery(contents: string, lower: string -> string)
    requires lower([]) == []
    ensures SearchLinesCaseInsensitive([], contents, lower) == Lines(contents)
  {
    FilterAll(Lines(contents), ContainsQueryFolded([], lower));
  }

  /** The matching lines `run` prints: the search the configuration selects. */
  function Matches(config: Config, contents: string, lower: string -> string): (r: seq<string>)
    ensures IsSubsequence(r, Lines(contents))
    ensures config.caseSensitive ==>
      forall line :: line in r <==> line in Lines(contents) && Contains(line, config.query)
    ensures !config.caseSensitive ==>
      forall line :: line in r <==> line in Lines(contents) && Contains(lower(line), lower(config.query))
    ensures forall line ::
      multiset(r)[line] == if (if config.caseSensitive then Contains(line, config.query)
                               else Contains(lower(line), lower(config.query)))
                           then multiset(Lines(contents))[line] else 0
  {
    if config.caseSensitive then SearchLines(config.query, contents)
    else SearchLinesCaseInsensitive(config.query, contents, lower)
  }

  /** An error with the context it was reported in, as `anyhow`'s `with_context` builds it. */
  datatype ContextError<E> = ContextError(context: string, cause: E)

  function ReadContext(filename: string): string
  {
    "reading file[" + filename + "]"
  }

  /**
    `run` with the outcome of reading the file given: a failed read is
    reported, wrapped in a context naming the file, and nothing is matched;
    a successful read yields the matching lines.
   */
  function Run<E>(config: Config, read: Result<string, E>, lower: string -> string)
    : (r: Result<seq<string>, ContextError<E>>)
    ensures r.Failure? <==> read.Failure?
    ensures r.Failure? ==> r.error.cause == read.error && Contains(r.error.context, config.filename)
    ensures r.Success? ==> r.value == Matches(config, read.value, lower)
  {
    match read
    case Failure(e) =>
      ContainsMiddle("reading file[", config.filename, "]");
      Failure(ContextError(ReadContext(config.filename), e))
    case Success(contents) => Success(Matches(config, contents, lower))
  }

  /**
    From the command line to the matches: with the query and file name as
    arguments, the case-sensitive search runs exactly when
    `CASE_INSENSITIVE` cannot be read as a string.
   */
  lemma EnvironmentSelectsSearch(query: string, filename: string, env: Environment,
                                 contents: string, lower: string -> string)
    ensures NewConfig([query, filename], env).Success?
    ensures Matches(NewConfig([query, filename], env).value, contents, lower) ==
      if CaseInsensitiveVar in env && env[CaseInsensitiveVar].Unicode?
      then SearchLinesCaseInsensitive(query, contents, lower)
      else SearchLines(query, contents)
  {
  }
}
