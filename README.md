# minigrep, modelled in Dafny

A model of the core of `minigrep`, a tiny grep written in Rust (`src/lib.rs`):

- **the line search engine**: `search_iter` splits the file contents into lines the way
  `str::lines` does and numbers them from 1; `search` keeps the numbered lines that contain
  the query as a literal substring; `search_case_insensitive` keeps the numbered lines whose
  lowercase form contains the lowercase query, and still returns the original line text;
- **the argument resolver** `Config::new`: skip the program name, take a query and a file
  name, then an optional `-i` / `-s` flag; with no flag the search is case-sensitive exactly
  when looking up the `CASE_INSENSITIVE` environment variable fails (it is unset, or its
  value is not valid Unicode);
- the one decision `run` makes from a configuration: which search variant to call.

Files and modules:

| file | module | contents |
|---|---|---|
| `text.dfy` | `Text` | substring containment (`Contains`, with a reference scan `ScanContains`), ASCII lowercasing (`Lower`), `str::lines` (`Lines`) and their laws |
| `search.dfy` | `Engine` | `Match`, `SearchIter`, `Search`, `SearchCaseInsensitive`, and the properties of the results |
| `config.dfy` | `Cli` | `Config`, `ConfigError`, `NewConfig` (`Config::new`), `RunMatches` (the variant `run` selects) |
| `scenarios.dfy` | `Scenarios` | minigrep's two unit tests and the resolver's cases, as lemmas |

`str::lines` is modelled as current Rust standard libraries define it (older releases built it
from `split_terminator('\n')` and also removed a `'\r'` at the end of an unterminated last
line; the crate pins no toolchain): the text is split after each `'\n'`; a piece
loses its `'\n'` and then one `'\r'` just before it; a last piece without `'\n'` is kept as it
is (so a final unterminated `"\r"` stays); a final `'\n'` does not add an empty line.

`Config::new` receives the whole argument vector, program name first, as `env::Args` does.
Its three failures are the datatype `ConfigError`, and `Cli.Message` gives the source's exact
message for each (`"didn't get a query string"`, `"didn't get a file name"`,
`"illegal arugments"`, spelling included).

The code reports a missing query and a missing file name as two different errors; it
rejects an empty third token like any other token that is not `-i` or `-s`; and the `'\r'`
of a line ending is removed only in front of a `'\n'`.

Every function here is pure, so calling a search twice on the same inputs gives the same
result by construction; no lemma is needed for that.

## Model

| member | source | states |
|---|---|---|
| `Text.Contains` | src/lib.rs:62 | a contained query is no longer than the line; a query as long as the line is contained exactly when it equals the line |
| `Text.ScanContainsIff` | src/lib.rs:62 | a left-to-right scan of all start positions finds the query exactly when it occurs at some position of the line |
| `Text.ContainsEmpty` | src/lib.rs:62 | the empty query is contained in every line |
| `Text.CharsOfContained` | src/lib.rs:62 | every character of a contained query occurs in the line |
| `Text.PairOfContained` | src/lib.rs:62 | the first two characters of a contained query stand side by side in the line |
| `Text.Lower` | src/lib.rs:67-70 | lowercasing keeps the length; each ASCII letter `'A'..'Z'` becomes the letter at the same offset in `'a'..'z'`; every other character is unchanged; no ASCII upper-case letter is left |
| `Text.LowerCharEqualIff` | src/lib.rs:67-70 | two characters lowercase alike exactly when they are equal or the two cases of one ASCII letter |
| `Text.LowerEqualIff` | src/lib.rs:67-70 | two strings lowercase alike exactly when they have the same length and agree position by position up to ASCII case |
| `Text.LowerIdempotent` | src/lib.rs:67 | lowercasing an already lowercased string changes nothing |
| `Text.LowerOfLowercase` | src/lib.rs:70 | a line without upper-case letters is its own lowercase form |
| `Text.LowerPreservesContains` | src/lib.rs:62-70 | an exact-case occurrence of the query survives lowercasing line and query, under the modelled ASCII lowercasing (false for Rust's final-sigma rule, see Left out) |
| `Text.NewlineIndex` | src/lib.rs:77 | the position found is the first `'\n'`, or the end of the text when there is none |
| `Text.Lines` | src/lib.rs:77 | no line contains `'\n'`; the text is empty exactly when there are no lines |
| `Text.LinesCons` | src/lib.rs:77 | a text that starts with a `'\n'`-terminated line has that line (without a trailing `'\r'`) first, then the lines of the rest |
| `Text.LineCount` | src/lib.rs:77 | the number of lines is the number of `'\n'` plus one for an unterminated last line |
| `Text.CrLfTerminatorAddsNoLine` | src/lib.rs:77 | appending `"\r\n"` to a text whose last line is unterminated gives the same lines |
| `Text.LfTerminatorAddsNoLine` | src/lib.rs:77 | appending `'\n'` gives the same lines, unless the last line ends in `'\r'` |
| `Text.LinesOfTerminated` | src/lib.rs:77 | splitting lines written each with a `"\n"` or `"\r\n"` terminator gives those lines back |
| `Text.TerminatedOfLines` | src/lib.rs:77 | a text without `'\r'` is its lines each followed by `'\n'`, up to a missing final `'\n'` |
| `Engine.Enumerate` | src/lib.rs:78-79 | one pair per line, the k-th numbered `first + k`, carrying the k-th line |
| `Engine.SearchIter` | src/lib.rs:75-80 | one match per line, numbered 1, 2, ... L in document order, carrying the line text; numbers strictly increase |
| `Engine.InSearchIter` | src/lib.rs:75-80 | `(n, t)` is enumerated exactly when 1 <= n <= L and `t` is the n-th line |
| `Engine.Keep` | src/lib.rs:62-63 | the filter keeps exactly the matches whose text satisfies the predicate, as a subsequence of its input |
| `Engine.KeepMultiplicity` | src/lib.rs:62-63 | every accepted match is kept as many times as it occurs in the input, and every rejected one is dropped |
| `Engine.Search` | src/lib.rs:60-64 | a match is returned exactly when it is enumerated and its line contains the query; the result is a subsequence of the enumeration |
| `Engine.SearchCaseInsensitive` | src/lib.rs:66-72 | a match is returned exactly when it is enumerated and its lowercase line contains the lowercase query; the result is a subsequence of the enumeration |
| `Engine.SubsequenceKeepsOrder` | src/lib.rs:62-63 | filtering a strictly numbered list keeps it strictly numbered and adds no element |
| `Engine.SearchSpec` | src/lib.rs:60-64 | `(n, t)` is returned iff 1 <= n <= L, `t` is line n and `t` contains the query; numbers strictly increase and stay within 1..L |
| `Engine.SearchCaseInsensitiveSpec` | src/lib.rs:66-72 | `(n, t)` is returned iff 1 <= n <= L, `t` is the original line n and lowercase `t` contains the lowercase query; numbers strictly increase and stay within 1..L |
| `Engine.KeepAll` | src/lib.rs:62-63 | a filter that accepts every line returns the whole enumeration |
| `Engine.KeepCongruent` | src/lib.rs:62-70 | two filters that agree on every line return the same matches |
| `Engine.KeepMonotone` | src/lib.rs:62-70 | a filter that accepts more lines returns a supersequence |
| `Engine.EmptyQueryMatchesAll` | src/lib.rs:60-80 | with the empty query both variants return the full enumeration |
| `Engine.EmptyContents` | src/lib.rs:60-80 | empty contents give an empty result for both variants and every query |
| `Engine.SensitiveWithinInsensitive` | src/lib.rs:60-72 | the case-sensitive result is a subsequence of the case-insensitive result for the same query, under the modelled ASCII lowercasing (see Left out) |
| `Engine.QueryCaseIrrelevant` | src/lib.rs:66-72 | the case-insensitive search gives the same result for a query and its lowercase form |
| `Cli.Message` | src/lib.rs:15-26 | the source's exact message for each failure: `didn't get a query string`, `didn't get a file name`, `illegal arugments` |
| `Cli.MessagesDistinct` | src/lib.rs:15-26 | two failures have the same message exactly when they are the same failure |
| `Cli.NewConfig` | src/lib.rs:10-33 | no token after the program name (or no arguments at all): missing query; exactly one token: missing file name; a third token other than `-i`/`-s`: illegal arguments; otherwise query and file name are the 2nd and 3rd arguments, `-i` gives case-insensitive, `-s` case-sensitive, no flag gives case-sensitive iff the lookup of the variable fails |
| `Cli.TrailingTokensIgnored` | src/lib.rs:22-32 | tokens after the flag never change the outcome |
| `Cli.EnvironmentOnlyWithoutFlag` | src/lib.rs:22-30 | whether the lookup of the variable succeeds matters only when no flag is given |
| `Cli.FlagOverridesEnvironment` | src/lib.rs:23-25 | `-i` and `-s` decide the mode whatever the environment |
| `Cli.ArgumentsRoundTrip` | src/lib.rs:13-32 | every configuration is resolved back from the arguments that request it explicitly |
| `Cli.ResolvedConfigRoundTrip` | src/lib.rs:13-32 | every successful resolution is reproduced from the explicit arguments of its result, under the other environment |
| `Cli.RunMatches` | src/lib.rs:39-43 | the reported matches are the enumerated lines that pass the test of the selected mode, in order |
| `Cli.ModeKeepsNumbering` | src/lib.rs:39-43 | in either mode every reported match is a numbered line of the same list; case-sensitive matches are a subsequence of case-insensitive ones under the modelled ASCII lowercasing (see Left out) |
| `Scenarios.TestLines` | src/lib.rs:88-91 | the test contents have the three lines `Rust:`, `safe, fast, productive.`, `Pick three.` |
| `Scenarios.OneResult` | src/lib.rs:86-93 | `search("duct", …)` on the test contents is `[(2, "safe, fast, productive.")]`; `search("rUsT", …)` is empty |
| `Scenarios.CaseInsensitiveResult` | src/lib.rs:96-105 | `search_case_insensitive("rUsT", …)` on the test contents is `[(1, "Rust:")]`, with the original text |
| `Scenarios.ResolverScenarios` | src/lib.rs:10-33 | program name only: missing query; program name and query: missing file name; flag `-x` or an empty flag: illegal arguments; no flag: case-sensitive iff the lookup of the variable fails |

## Left out

- `run` (src/lib.rs:36-58) apart from its choice of variant: reading the file with `fs::read_to_string` and its I/O error, and the printed output (`the file is empty`, each match, the final count), are I/O and not modelled.
- The `env::var("CASE_INSENSITIVE")` call is replaced by a boolean input saying whether the lookup returns a value; a variable that is set to a value that is not valid Unicode makes the lookup fail, so it corresponds to `false` (case-sensitive), like an unset one. `env::Args` is a sequence of strings.
- Text.Lower: models `to_lowercase` on ASCII letters only; full Unicode lowercasing, which can change a string's length, is not modelled, and every case-insensitive property is stated relative to this ASCII lowercasing.
- Engine.SensitiveWithinInsensitive: holds for the modelled ASCII lowercasing only. Rust's `to_lowercase` maps a word-final `'Σ'` to `'ς'` and any other to `'σ'`, so for the line `"ΑΣ"` and the query `"Σ"` the program's `search` finds line 1 while `search_case_insensitive` finds nothing (`"ας"` does not contain `"σ"`); the program does not have this property.
- Text.LowerPreservesContains: true for the modelled character-wise lowercasing, false for Rust's `to_lowercase` on the same input: `"ΑΣ"` contains `"Σ"`, but `"ας"` does not contain `"σ"`.
- Cli.ModeKeepsNumbering: its second ensures (case-sensitive matches are among the case-insensitive ones) depends on `Text.LowerPreservesContains`, so it fails for the program on the same final-sigma input; the first ensures does not depend on lowercasing.
- Lines are returned as copies of the text, not as borrowed `&str` slices of the contents.
- Line numbers are unbounded naturals; `usize` cannot overflow here, since a line count never exceeds the length of an in-memory string.
- `str::contains` is modelled by what it decides (an occurrence at some position), not by Rust's substring-search algorithm.
