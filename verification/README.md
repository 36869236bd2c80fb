# `.env` override loader

A Dafny model of `DotEnv`, the environment-override loader of the go-stuff
bootstrap helpers (utils/utils.go). `DotEnv` reads the file `.env` from the
working directory. A missing file is not an error. Any other read failure is
returned wrapped as `failed to read .env: <cause>`. Otherwise the file is
split on `"\n"`. Lines that begin with `#` are skipped. Every other line is
split on its first `=`, and lines with no `=` are skipped. Each remaining
`KEY=VALUE` is written into the process environment in file order, so a later
line overwrites an earlier one and the file overwrites whatever the
environment already held.

The model has three modules:

- `Strings` (strings.dfy): the parts of Go's `strings` package the loader
  uses, for a one-character separator. These are `HasPrefix`, `SplitN(s, sep, 2)`
  as `SplitN2`, and `Split`. `Join` is added as the partner of `Split`, and
  `Pieces` is a character-by-character reference definition that `Split` is
  proved equal to.
- `EnvFile` (envfile.dfy): the loader itself. `ParseLine` handles one line.
  `Parse` handles a whole file and yields the accepted `(key, value)` pairs in
  order. `Apply` is the left fold that writes pairs into an environment. `DotEnv`
  maps a `ReadResult` and an environment to `(Outcome, Env)`. `LoadLines` is the
  same loader written as the source's `for` loop (`WriteLines`, whose body
  `WriteLine` has the source's two early `continue`s as early returns), and is
  proved to compute the same result as `DotEnv`.
- `EnvFileExamples` (examples_env.dfy): concrete files, with their results
  derived from the general lemmas.

The file read is not performed. Its three possible results are the datatype
`ReadResult = NotExist | ReadError(cause) | Content(text)`. The process
environment is an immutable `map<string, string>` that the loader returns
instead of mutating. Its keys are compared case-sensitively, as on Unix. Go strings are byte strings and the model uses `char`
sequences. The separators `'\n'`, `'='` and `'#'` are ASCII, and UTF-8 never
places an ASCII byte inside a multi-byte character, so splitting characters
cuts exactly where Go cuts bytes. A `char` may also stand for a single byte.
The loader compares only with `'\n'`, `'='` and `'#'`, so reading each byte as
one `char` covers every file exactly, whether it is valid UTF-8 or not.

The loader trims nothing. A line `  #x=1` is not a comment: it sets the key
`  #x`. A blank or whitespace-only line is skipped only because it has no `=`.
With CRLF line endings the `\r` stays at the end of the value. The test
`len(parts) != 2` (utils/utils.go:31) rejects exactly the lines without `=`,
because `SplitN(line, "=", 2)` gives one part or two.

## Model

| member | source | states |
|---|---|---|
| Strings.IndexOf | utils/utils.go:30 | the position found holds the separator and is the first one; no position is found exactly when the separator is absent |
| Strings.SplitN2 | utils/utils.go:30-31 | `SplitN(s, "=", 2)` gives two parts exactly when `=` occurs, and otherwise the whole string; with two parts, the first has no `=` and `first + "=" + second` rebuilds the line |
| Strings.SplitN2Unique | utils/utils.go:30 | the split is on the first `=`: for any `k` free of `=`, `k + "=" + v` splits into exactly `[k, v]`, and `v` keeps any further `=` |
| Strings.Split | utils/utils.go:26 | splitting on `"\n"` gives at least one line, and no line contains `"\n"` |
| Strings.SplitIsPieces | utils/utils.go:26 | Go's search-and-cut splitting agrees on every string with a reference definition that reads one character at a time, closing a piece at each newline |
| Strings.PiecesNoSeparator | utils/utils.go:26 | under the reference definition, text without a newline is a single line |
| Strings.PiecesAppend | utils/utils.go:26 | under the reference definition, the lines of `a + "\n" + b` are the lines of `a` followed by the lines of `b` |
| Strings.JoinSplit | utils/utils.go:26 | the lines, joined back with `"\n"`, give the file text exactly: nothing is trimmed or dropped |
| Strings.SplitJoin | utils/utils.go:26 | lines free of `"\n"`, joined and split again, come back unchanged |
| Strings.SplitAppend | utils/utils.go:26 | the lines of `a + "\n" + b` are the lines of `a` followed by the lines of `b` |
| Strings.TrailingSeparator | utils/utils.go:26 | a trailing newline adds exactly one empty last line |
| EnvFile.IsComment | utils/utils.go:27 | a comment is a line whose first character is `#`, tested with Go's `HasPrefix` definition: long enough, and its first character equal to `#`; nothing is trimmed first |
| EnvFile.ParseLine | utils/utils.go:27-33 | a line yields a pair exactly when it does not begin with `#` and contains `=`; the key has no `=`, and `key + "=" + value` is the line verbatim |
| EnvFile.ParseLineOfLine | utils/utils.go:30-34 | a line `k=v` with `k` free of `=`, not starting with `#`, yields exactly `(k, v)` |
| EnvFile.ParseLines | utils/utils.go:26-33 | there are at most as many pairs as lines, and every key is free of `=`; that every pair comes from one of the lines is `ParseLinesSoundComplete` |
| EnvFile.ParseLinesAppend | utils/utils.go:26-35 | the lines are handled one at a time and in order: parsing concatenated line lists concatenates their pairs |
| EnvFile.ParseLinesSoundComplete | utils/utils.go:26-35 | every pair comes from one of the lines, and every accepted line contributes its pair |
| EnvFile.ParseLinesAvoid | utils/utils.go:26-34 | a character that no line contains appears in no accepted key or value |
| EnvFile.Parse | utils/utils.go:26-34 | every key of the file has no `=`, and no key or value contains a newline |
| EnvFile.ParseSoundComplete | utils/utils.go:26-33 | the pairs of a file are exactly those of its non-comment lines that contain `=` |
| EnvFile.ParseOneLine | utils/utils.go:26-34 | a file without a newline is one line, and yields that line's pair if it has one |
| EnvFile.OneLinePair | utils/utils.go:27-34 | the one-line file `k=v`, with `k` free of `=` and not starting with `#`, yields exactly `(k, v)`, the value taken verbatim |
| EnvFile.OneLineSkipped | utils/utils.go:27-33 | a one-line file that is a comment, or has no `=`, yields nothing, even when the comment contains `=` |
| EnvFile.ParseAppend | utils/utils.go:26 | the pairs of `a + "\n" + b` are the pairs of `a` followed by the pairs of `b` |
| EnvFile.ParseEmptyAndTrailingNewline | utils/utils.go:26-33 | an empty file yields no pairs, and a trailing newline adds none |
| EnvFile.ParseRender | utils/utils.go:26-34 | writing well-formed pairs one per line and parsing the text gives the same pairs in the same order |
| EnvFile.Apply | utils/utils.go:26-34 | after writing the pairs, the environment holds exactly the variables it held before plus every key the pairs name |
| EnvFile.LastValueNone | utils/utils.go:26-34 | the reference lookup finds no value for a key exactly when no pair names it |
| EnvFile.ApplyAppend | utils/utils.go:26-35 | writing `a + b` is writing `a` and then `b` |
| EnvFile.ApplyLastWins | utils/utils.go:26-35 | a key named by some pair ends with the value of the last such pair, whatever it held before; any other key keeps its prior presence and value |
| EnvFile.ApplyLastWinsAll | utils/utils.go:26-35 | the last-write-wins statement for all keys at once |
| EnvFile.ApplyIdempotent | utils/utils.go:26-35 | writing the same pairs twice gives the same environment as writing them once |
| EnvFile.DotEnv | utils/utils.go:18-37 | the result is an error exactly for a read failure other than a missing file, and wraps its cause as `failed to read .env: <cause>`; without content the environment is unchanged; with content each key holds the value of the last accepted line naming it, and every other key keeps its prior value |
| EnvFile.DotEnvIdempotent | utils/utils.go:18-37 | loading the same file twice leaves the same outcome and environment as loading it once |
| EnvFile.ApplyNextLine | utils/utils.go:26-35 | one more line either leaves the environment as it was or writes that line's pair over it |
| EnvFile.WriteLine | utils/utils.go:27-34 | one pass of the loop body: a comment or a line without `=` leaves the environment as it was, and any other line overwrites the variable its key names with its value |
| EnvFile.WriteLines | utils/utils.go:26-35 | the source's loop over the lines writes exactly the pairs the lines yield, in order |
| EnvFile.LoadLines | utils/utils.go:18-37 | the source's function, which returns on a read failure and otherwise runs the line loop over the `"\n"`-separated text, gives the same outcome and environment as `DotEnv` |
| EnvFileExamples.AssignmentLines | utils/utils.go:30-34 | `A=1` yields `("A", "1")` and `B=2` yields `("B", "2")` |
| EnvFileExamples.BadLineSkipped | utils/utils.go:30-33 | `BADLINE` before `B=2` contributes nothing |
| EnvFileExamples.MiddleLinesSkipped | utils/utils.go:26-33 | a comment line and a line without `=` before `B=2` contribute nothing |
| EnvFileExamples.MixedFile | utils/utils.go:26-34 | the file `A=1`, `#comment`, `BADLINE`, `B=2` yields exactly `A=1` and `B=2`, in that order |
| EnvFileExamples.MixedPairsApplied | utils/utils.go:26-35 | writing `A=1` then `B=2` over `{A: 0, C: 3}` gives exactly `{A: 1, B: 2, C: 3}` |
| EnvFileExamples.MixedFileLoaded | utils/utils.go:18-37 | loading that file over `{A: 0, C: 3}` succeeds and gives exactly `{A: 1, B: 2, C: 3}` |
| EnvFileExamples.IndentedHashIsAKey | utils/utils.go:27-30 | `  #x=1` is not a comment, and sets the key `  #x` |
| EnvFileExamples.CommentWithEquals | utils/utils.go:27-29 | `#A=1` yields nothing |
| EnvFileExamples.ValueKeepsLaterEquals | utils/utils.go:30-34 | `K=a=b` yields `("K", "a=b")` |
| EnvFileExamples.CarriageReturnKept | utils/utils.go:26-34 | `A=1\r\n` yields `("A", "1\r")` |

## Left out

- Reading `.env` (utils/utils.go:19) is file I/O. It is replaced by the `ReadResult` parameter. The Go test `os.IsNotExist(err)` is the choice between `NotExist` and `ReadError`. The text of the underlying error is the opaque `cause` string.
- `os.Setenv` failures (utils/utils.go:34). The source ignores the returned error. Go's Setenv refuses an empty key (from a line `=value`) and keys or values holding a NUL byte, and the variable keeps its earlier value; the model writes them, so `DotEnv`'s last-wins contract overstates for empty keys and NUL bytes. That library code is not part of this model.
- `MakeLoggingInterceptor` (utils/utils.go:39-52) only emits log records, measures wall-clock time and calls the wrapped gRPC handler. It returns that handler's result unchanged, and it has no logic of its own to model.
- `StdSetup` (utils/utils.go:55-77) sequences flag parsing (go-flags), mutation of the global logger, `signal.NotifyContext` and a goroutine. These are external libraries and concurrency. Its first step re-wraps a `DotEnv` error with a second `failed to read .env: ` prefix; that is not modelled.
- logging/logging.go: `New` builds a `slog` text handler on standard error, and `NewContext` attaches a logger with `context.WithValue` (logging/logging.go:13-20). `FromContext` returns the attached logger or, when the type assertion fails, `slog.Default()` (logging/logging.go:22-28). All of it is logging glue around `slog` and `context`, with no bearing on the loader, and is left out.
- Case-insensitive keys. On Windows `os.Setenv` ignores the case of a key, so `A=1` followed by `a=2` writes a single variable. The model follows Unix semantics and keeps two keys.
