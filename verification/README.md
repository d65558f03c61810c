# minigrep in Dafny

A model of the library behind `minigrep`, a command-line tool that prints the
lines of a file that contain a query, optionally ignoring letter case. The
model covers what `src/lib.rs` computes:

- `Config::new`: exactly two arguments become the query and the file name;
  whether the search is case-sensitive depends on whether the environment
  variable `CASE_INSENSITIVE` can be read, never on its text.
- `search_lines`: the lines of the contents (split as Rust's `str::lines`
  splits) that contain the query as a contiguous substring, in order,
  unchanged, duplicates kept.
- `search_lines_case_insensitive`: the same with query and line lowered
  before the test; the lines returned are the original ones.
- `run`: the choice between the two searches (lines 32-36), with the outcome
  of reading the file given as a parameter.

Files and modules:

- `wrappers.dfy` (`Wrappers`): `Result`, for the fallible operations.
- `strings.dfy` (`Strings`): `Contains`, the model of `str::contains`, and its
  positional meaning.
- `lines.dfy` (`LineSplit`): `Lines`, the model of `str::lines`, with
  `Endings` and `Render`; splitting and writing back are proved inverse.
- `seqs.dfy` (`Seqs`): `Filter` and the subsequence relation, the shape of
  `lines().filter(..).collect()`.
- `minigrep.dfy` (`Minigrep`): `Config`, `NewConfig`, the two searches,
  `Matches` (the dispatch in `run`) and `Run`.
- `minigrep_tests.dfy` (`MinigrepTests`): the unit tests of `src/lib.rs` as
  lemmas, plus examples of the line split.

Inputs that are not pure become parameters: the environment is a
`map<string, OsValue>` (a value may be non-Unicode, as on a real OS), the
file's contents or read error is a `Result`, and lowercasing is a function
`lower: string -> string`. The tests instantiate `lower` with ASCII-only
lowering.

Two points where the code's behaviour is easy to misstate:

- `env::var(..).is_err()` (src/lib.rs:22) is also true when
  `CASE_INSENSITIVE` is present but not valid Unicode, so `NewConfig` is
  case-sensitive when the variable is absent or non-Unicode, not only when it
  is absent.
- Ignoring case keeps a superset of the lines the case-sensitive search keeps
  only for lowerings that work character by character
  (`CaseInsensitiveKeepsMore`). Rust's `to_lowercase` is not one, because of
  the final sigma: the line "AΣ" contains "Σ", yet its lowering "aς" does not
  contain "σ".

## Model

| member | source | states |
|---|---|---|
| `Strings.Contains` | src/lib.rs:46 | a found needle is no longer than the line; the empty query is found in every line |
| `Strings.ContainsIffOccurs` | src/lib.rs:46 | `Contains(line, q)` holds exactly when `q` occurs in `line` as a contiguous block at some index |
| `Strings.ContainsPreserved` | src/lib.rs:54-57 | a lowering that distributes over concatenation keeps every found query found after lowering both sides |
| `LineSplit.Lines` | src/lib.rs:45 | the empty text, and only it, has no lines; no line holds a `\n` |
| `LineSplit.SplitWellFormed` | src/lib.rs:45 | the lines and endings of any text are well formed: only the last line may be unterminated, and then it is not empty |
| `LineSplit.RenderSplit` | src/lib.rs:45 | the split drops only terminators: writing each line back with its `\n` or `\r\n` reproduces the text |
| `LineSplit.SplitRender` | src/lib.rs:45 | splitting well-formed lines written with `\n` or `\r\n` gives back exactly those lines and endings |
| `LineSplit.FinalEndingOptional` | src/lib.rs:45 | a `\n` or `\r\n` after the last line adds no empty line |
| `Seqs.Filter` | src/lib.rs:46-47 | the kept elements are a subsequence of the input, an element is kept iff it passes, each as often as it occurs |
| `Seqs.FilterUnique` | src/lib.rs:44-47 | any subsequence holding exactly the passing elements with their multiplicities is the filter's result |
| `Seqs.FilterMonotone` | src/lib.rs:44-47 | a weaker test keeps a supersequence of what a stronger test keeps |
| `Minigrep.NewConfig` | src/lib.rs:12-24 | fails with "need 2 arguments" iff the argument count is not 2; otherwise query and file name are the two arguments unchanged, and case-sensitive iff `CASE_INSENSITIVE` is absent or not Unicode |
| `Minigrep.NewConfigInverse` | src/lib.rs:15-22 | a configuration is produced exactly by the argument list `[query, filename]` and an environment whose variable read fails iff it is case-sensitive |
| `Minigrep.CaseInsensitiveValueIgnored` | src/lib.rs:22 | any two texts of `CASE_INSENSITIVE`, the empty one included, give the same configuration, and it ignores case |
| `Minigrep.SearchLines` | src/lib.rs:43-48 | result is a subsequence of the lines; a line is in it iff it is a line containing the query; each such line as often as in the text |
| `Minigrep.SearchLinesCaseInsensitive` | src/lib.rs:50-59 | result is a subsequence of the original, unlowered lines; a line is in it iff its lowering contains the lowered query; multiplicities kept |
| `Minigrep.EmptyQueryKeepsAllLines` | src/lib.rs:43-47 | the empty query returns every line, unchanged and in order |
| `Minigrep.WholeLineIsFound` | src/lib.rs:43-47 | searching for a whole line of the text returns that line |
| `Minigrep.CaseInsensitiveWithoutLowering` | src/lib.rs:50-59 | with the identity as lowering the case-insensitive search equals the case-sensitive one |
| `Minigrep.CaseInsensitiveKeepsMore` | src/lib.rs:50-59 | for a lowering that distributes over concatenation, the case-sensitive result is a subsequence of the case-insensitive result |
| `Minigrep.CaseInsensitiveEmptyQuery` | src/lib.rs:54-57 | for a lowering that maps the empty string to itself, as `to_lowercase` does, the empty query returns every line |
| `Minigrep.Matches` | src/lib.rs:32-36 | the printed lines are a subsequence of the lines; in case-sensitive mode exactly the lines containing the query, otherwise exactly those whose lowering contains the lowered query; each kept line as often as in the text |
| `Minigrep.Run` | src/lib.rs:27-36 | fails iff reading the file fails, keeping the cause and a context that mentions the file name; otherwise yields the matches |
| `Minigrep.EnvironmentSelectsSearch` | src/lib.rs:12-36 | with two arguments the configuration is built, and the ignore-case search runs exactly when `CASE_INSENSITIVE` holds a Unicode value |
| `MinigrepTests.AsciiLowerDistributes` | src/lib.rs:54-57 | the ASCII lowering used by the tests distributes over concatenation |
| `MinigrepTests.TestDocsLines` | src/lib.rs:65-67 | the test document splits into "Rust:", "safe, fast, productive." and "Pick three." |
| `MinigrepTests.TestSearchLines` | src/lib.rs:69-76 | searching the test document for "duct" returns just "safe, fast, productive." |
| `MinigrepTests.TestSearchLinesCaseInsensitive` | src/lib.rs:78-85 | searching it for "DUCT" ignoring case returns just "safe, fast, productive." |
| `MinigrepTests.TestSearchLinesUppercaseQuery` | src/lib.rs:43-48 | searching it for "DUCT" case-sensitively returns nothing |
| `MinigrepTests.LinesOfCrLfText` | src/lib.rs:45 | "a\r\nb\n" splits into "a" and "b" |
| `MinigrepTests.LinesOfEmptyLines` | src/lib.rs:45 | "a\n\nb" splits into "a", "" and "b"; "\n" is one empty line |
| `MinigrepTests.LinesKeepLoneCr` | src/lib.rs:45 | a `\r` not followed by `\n` stays in the line, at the end of the text too |

## Left out

- `src/main.rs`: reading `env::args()`, the messages on standard error and the exit codes are process plumbing.
- Reading the file (src/lib.rs:28-30) is not modelled; `Run` takes the contents or the read error as a parameter, and the asynchronous runtime that performs the read has no behaviour of its own to model.
- The `println!` loop (src/lib.rs:37-39) writes to standard output; `Run` returns the lines it would print.
- The formatting of the error chain by `anyhow` is left out; `Run` keeps the context text and the cause.
- `str::to_lowercase` uses Unicode case tables that are not part of this model; lowering is a parameter, and the properties that need it to act character by character say so in their requires.
- Minigrep.CaseInsensitiveKeepsMore: proved only for lowerings that distribute over concatenation, because Rust's `to_lowercase` treats a final capital sigma by context and the property fails for it.
- LineSplit.Lines: models `str::lines` of the current Rust standard library, where a `\r` ending an unterminated last line is kept; older releases removed it.
- `Contains` models the result of `str::contains`, not the string-search algorithm the standard library uses to compute it.
