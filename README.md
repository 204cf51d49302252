# Chapel language server: diagnostic pipeline

This project models the diagnostic pipeline of a small language server for
Chapel. When a document is saved, the server does four things:

1. It finds the project root. Starting at the directory of the saved file, it
   walks upward. It stops at the first directory whose listing holds
   `.chapel_lsp`. It gives up at the first directory that holds `.git` but not
   `.chapel_lsp`, and also when it reaches `/`.
2. It reads the `.chapel_lsp` manifest at that root. Every trimmed, non-blank
   line is joined onto the root and becomes a `-M <dir>` flag.
3. It runs `chpl <file> --no-codegen --baseline <flags…>`. If the exit status
   is 0, there are no error lines. Otherwise the error lines are the trimmed
   standard error, cut at each newline.
4. It parses every error line into a `ChapelDiagnostic`. The line is split on
   `:` and every field is trimmed. Field 0 is the file, `parseInt` of field 1
   is the line, and field 2 is the kind. Fields 3 and later, rejoined with
   `:`, are the message.

The Dafny modules follow that structure:

- `Wrappers` (wrappers.dfy): `Option` stands for the values the source leaves
  `undefined` or `NaN`. `Result` stands for the I/O errors the source throws.
- `JsText` (js_text.dfy): the JavaScript built-ins the pipeline depends on.
  These are `trim` (with ECMAScript's white-space set), `split` on one
  character, `join`, and `parseInt` without a radix. `parseInt` skips leading
  white space, reads a sign, treats a `0x` prefix as hexadecimal, and keeps the
  longest run of digits.
- `Paths` (paths.dfy): an absolute path is a sequence of segments, and `/` is
  the empty sequence. This module models `path.dirname`, and `path.join` of a
  relative text onto an absolute root (including its normalisation of `.`,
  `..` and empty segments).
- `Chapel` (chapel.dfy): the pipeline itself. The file system is a value
  `FileSystem(listing, text)`: a set of child names for each directory, and
  the text of each file. The compiler is a parameter `chpl: string -> Exit`
  that maps the command line to an exit status and a standard-error text.
  `find_root` is the method `FindRoot`, with a loop. It is proved equal to the
  recursive `RootFrom`, which the lemmas characterise.

The record `ChapelDiagnostic` (src/chapel.ts:5-10) is the datatype of the
same name. Its `kind`, `file`, `line` and `message` fields are the source's
`type`, `file`, `line` and `message`. The source's `type` field is called
`kind` here, because `type` is a Dafny keyword. `line` is `None` where the
source holds `NaN`, and `kind` is `None` where it holds `undefined`.

The code does less than a fuller language server might. The model follows the code:

- No diagnostics are grouped by (file, line).
- No standard-library diagnostics are dropped.
- No line is discarded. Every stderr line becomes a record, even one with too
  few fields or a non-numeric line number.
- No `src/` directories are discovered automatically.
- Only `.chapel_lsp` and `.git` are markers. There is no package-manifest
  marker and no externally supplied root.
- A `.git` directory does not count as a root.
- Listing a directory that does not exist, or reading a missing manifest,
  throws in the code. The model returns that as the `Failure` (or
  `Unreadable`) path rather than treating it as "no root".

## Model

| member | source | states |
|---|---|---|
| `JsText.Trim` | src/chapel.ts:13 | the trimmed text has no white space at either end and is no longer than the input |
| `JsText.TrimPadded` | src/chapel.ts:13 | trimming removes exactly the white space around a core that has none at its ends |
| `JsText.Split` | src/chapel.ts:13 | splitting yields at least one piece, and no piece holds the separator |
| `JsText.SplitCount` | src/chapel.ts:13 | there is one more piece than there are separators |
| `JsText.JoinOfSplit` | src/chapel.ts:18 | joining the pieces with the separator gives back the original text |
| `JsText.SplitOfJoin` | src/chapel.ts:18 | splitting undoes joining when no part holds the separator |
| `JsText.JoinAppend` | src/chapel.ts:18 | joining one more part appends the separator and that part, so `Join` puts the separator between neighbours only |
| `JsText.TrimAll` | src/chapel.ts:13 | one trimmed piece per piece, in order (`.map(str => str.trim())`, as also at line 49) |
| `JsText.SplitHead` | src/chapel.ts:13-15 | the first piece is the text before the first separator, or all of it when there is none |
| `JsText.ParseInt` | src/chapel.ts:16 | parseInt is NaN when the text is empty or starts with neither white space, a sign nor a digit |
| `JsText.ParseIntDecimal` | src/chapel.ts:16 | a decimal numeral parses to its value |
| `JsText.ParseIntDecimalPrefix` | src/chapel.ts:16 | a numeral followed by a non-digit parses to the numeral's value (so "12abc" gives 12) |
| `JsText.ParseIntOfNatToString` | src/chapel.ts:16 | parseInt reads back the decimal rendering of every natural number |
| `Chapel.ParseErrorLine` | src/chapel.ts:12-21 | kind is present iff there are at least three fields; line is absent with fewer than two fields; message is empty with fewer than four |
| `Chapel.FileIsFirstField` | src/chapel.ts:13-15 | the file is the trimmed text before the first `:`, or the whole trimmed line when there is no `:` |
| `Chapel.ParseFields` | src/chapel.ts:13-18 | with three colon-free leading fields, the record holds them trimmed, and the message is the rest with each colon-separated piece trimmed and the colons kept |
| `Chapel.KindField` | src/chapel.ts:17 | the kind is the trimmed third field, both when the line ends after it and when a `:` and a message follow |
| `Chapel.LineField` | src/chapel.ts:16 | the line is parseInt of the trimmed second field: a decimal numeral gives its value, and a field not starting with a sign or digit gives NaN |
| `Chapel.ParseFormatRoundTrip` | src/chapel.ts:12-21 | parsing `file:line:kind:message` recovers all four exactly, colons in the message included, when file and kind are colon-free and trimmed and every colon-separated piece of the message is trimmed |
| `Chapel.ParseAll` | src/chapel.ts:81 | one record per line, same order, the i-th is the parse of the i-th line |
| `Paths.DirnameRender` | src/chapel.ts:24-34 | the text of a path is its parent's text, a `/` and its last segment (or `/` and the segment when the parent is `/`), and that segment holds no `/`, so the parent is what `path.dirname` (and `path.parse(..).dir`) keeps of the text: everything before the last `/` |
| `Paths.Render` | src/chapel.ts:52-53 | every rendered path is absolute: it starts with `/` |
| `Paths.JoinPath` | src/chapel.ts:52 | joining onto a normalised root gives a normalised path (no empty, `.` or `..` segment) |
| `Paths.JoinPathPlain` | src/chapel.ts:52 | joining a relative path of plain names appends its segments to the root |
| `Paths.JoinPathWithin` | src/chapel.ts:52 | a joined path with no `..` stays under the root |
| `Paths.RenderSplit` | src/chapel.ts:52-53 | a rendered path other than `/` splits on `/` into an empty first field followed by its segments |
| `Chapel.RootFrom` | src/chapel.ts:23-37 | a found root is a non-root ancestor of the start, inclusive, and holds `.chapel_lsp`; an unreadable directory is an ancestor missing from the listing |
| `Chapel.RootFoundIff` | src/chapel.ts:24-34 | the search finds `d` iff `d` is the nearest ancestor holding `.chapel_lsp` and every directory before it is listed and holds neither marker |
| `Chapel.RootNotFoundIff` | src/chapel.ts:25-36 | the search gives up iff it passes every directory up to `/`, or up to the first one holding `.git` without `.chapel_lsp` |
| `Chapel.RootUnreadableIff` | src/chapel.ts:26 | the search fails on `d` iff `d` is the first directory on the way that cannot be listed |
| `Chapel.RootIgnoresSlash` | src/chapel.ts:25 | the listing of `/` never affects the search |
| `Chapel.FindRoot` | src/chapel.ts:23-37 | the loop's result equals the upward search from the target's directory |
| `Chapel.DropBlank` | src/chapel.ts:50 | no kept line is blank |
| `Chapel.DropBlankKeeps` | src/chapel.ts:50 | a text is kept iff it is a non-blank line, and as often as it occurs |
| `Chapel.DropBlankCount` | src/chapel.ts:50 | filtering drops exactly one element per blank line |
| `Chapel.DropBlankAppend` | src/chapel.ts:48-50 | filtering a concatenation filters each part in turn, so order is kept |
| `Chapel.IncludeLines` | src/chapel.ts:48-50 | no manifest entry is empty |
| `Chapel.IncludeLinesShape` | src/chapel.ts:48-50 | every entry is trimmed, and there are as many entries as non-blank lines |
| `Chapel.IncludeLinesMember` | src/chapel.ts:48-50 | a text is an entry iff it is non-empty and is the trim of some manifest line |
| `Chapel.IncludeLinesAppend` | src/chapel.ts:48-50 | entries keep file order: the entries of `a\nb` are those of `a` followed by those of `b` |
| `Chapel.IncludeFlag` | src/chapel.ts:53 | a flag is `-M ` followed by an absolute directory |
| `Chapel.FlagsFor` | src/chapel.ts:52-53 | one flag per entry, in order, each `-M ` followed by the entry joined onto the root |
| `Chapel.IncludeFlagWords` | src/chapel.ts:53 | a flag is the two words `-M` and the directory, when the directory has no space |
| `Chapel.IncludesOf` | src/chapel.ts:39-55 | no root gives no flags; flags exist only when a root was found |
| `Chapel.IncludesCount` | src/chapel.ts:45-54 | with a root and its manifest, there is one flag per non-blank manifest line |
| `Chapel.ReadIncludes` | src/chapel.ts:39-55 | the method, which calls `FindRoot`, returns what `IncludesOf` specifies |
| `Chapel.CommandWords` | src/chapel.ts:62-65 | the words of `Command`, the command line, are `chpl`, the target's words, `--no-codegen`, `--baseline`, then each include flag's words in order |
| `Chapel.ErrorLines` | src/chapel.ts:69-75 | exit status 0 gives no lines whatever was on stderr; otherwise one line per newline of the trimmed stderr, plus one, none containing a newline |
| `Chapel.ErrorLinesJoin` | src/chapel.ts:74 | the error lines joined with newlines are the trimmed stderr |
| `Chapel.BlankFailureOneRecord` | src/chapel.ts:73-81 | a failing run with a blank stderr still yields exactly one record, with an empty file and no line or kind |
| `Chapel.RunChapel` | src/chapel.ts:58-77 | an include error propagates; otherwise the result is the error lines of the compiler run on the command built from the target and its flags |
| `Chapel.Diagnose` | src/chapel.ts:79-83 | one record per error line, in order, each the parse of its line; none when the compiler exits with status 0 |

## Left out

- The subprocess (`execSync`) is not modelled. The compiler is the parameter `chpl`, which maps the command text to an exit status and stderr. A failure to start the process, or a death by signal, is not modelled.
- Shell word splitting is not modelled. The command is one text that a shell interprets. `CommandWords` shows that a space in the target or in an include directory splits that argument into several words. Shell quoting and expansion are not modelled.
- `console.log(command)` is not modelled. It is only a side effect.
- `fs.readdirSync` and `fs.readFileSync` are replaced by the `FileSystem` maps. Error kinds other than a missing entry, such as permissions or a file in place of a directory, are not distinguished.
- The UTF-8 decoding of stderr and of the manifest is not modelled. Texts are already sequences of characters.
- Node's `path` handling is only partly modelled. A target is assumed to be an absolute, normalised path. Windows paths are not modelled. A relative target is not modelled either: the walk over a relative path ends at `""` rather than `/`, so it yields a root or nothing only when it meets a marker first, and otherwise it throws on listing `""`. `path.join` keeps a trailing `/` on an entry like `lib/`, and the model drops it.
- The only caller, src/main.ts:91, passes the document's `file:///…` URI as the target, not a file path. `fs.readdirSync` reads that string as a relative path, so the first listing at src/chapel.ts:26 throws unless such a directory exists relative to the working directory, and the modelled search is then never reached. The model takes the target as the absolute file path the pipeline evidently expects.
- `JsText.ParseInt`: JavaScript numbers are doubles. A line number with more than 15 digits loses precision or becomes `Infinity`, but the model keeps the exact integer.
- src/main.ts is not part of this model. It holds the session wiring, the completion stubs, and the save handler that copies record fields into protocol objects.
- src/logger.ts is not part of this model. It is logging configuration.
