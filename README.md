# fzf-bibtex: BibTeX clean-up and parsing, modelled in Dafny

`fzf-bibtex` turns BibTeX databases into one formatted line per record for a
fuzzy finder. Its package `bibtex` (bibtex/bibtex.go) has these parts:

- **`cleanup`** (`Latex` module) rewrites LaTeX escapes into Unicode. It uses a
  fixed table of 63 literal substitutions, applied by Go's
  `strings.NewReplacer`. That is one left-to-right scan:
  - at each position the earliest rule of the table whose pattern starts there
    wins;
  - its replacement is emitted and the scan resumes after the pattern;
  - where nothing matches, one character is copied;
  - replacement text is never scanned again.
- **`abbrevAuthors`** (`Authors` module) shortens a name list split on
  `" and "`.
- **`parseEntry`** (`Entries` module) reads one record into a map. The header
  line gives `type` and `key`. Each later line gives a `name = value` field.
  `author`/`editor` values are abbreviated, and later lines overwrite earlier
  ones.
- **`Parse`** (`Pipeline` module) cuts the cleaned text at every `"\n@"` and
  drops the text before the first cut. It trims each block, parses it and
  formats it. It hands each string to a sink and appends it, with a newline,
  to the caller's output.

Module `GoStrings` models the Go library functions the code relies on:
`strings.Index`, `Split`, `Join`, `Count`, `Fields`, `TrimSpace` and (ASCII)
`ToLower`. Module `Wrappers` holds `Option` and `Result`.

`parseEntry` and `Parse` are loops in the source, so they are methods.
- `Entries.ParseEntry` is proved equal to the fold `ParsedEntry`.
- `Pipeline.Parse` is proved equal to the fold `RunFrom`, and its output to the
  initial output followed by every sink string and a newline.
- The lemmas state what the folds mean: which inputs fail and where, which keys
  a record holds, which line a value comes from, and what the sink receives.

`cleanup` and `abbrevAuthors` are expressions in the source, so they are
functions. Their lemmas cover:
- the scan order;
- what the clean-up removes and what it leaves alone;
- its length bound;
- a proof that it is not idempotent;
- every case of the name abbreviation.

Where the source crashes (an index out of range at lines 28-29 and 33), the model
returns an `EntryError`. A failing record stops `Parse`, and the run reports
which block failed and why.

Behaviour the model keeps exactly as bibtex.go has it:
- Each field line is split on every `=`. The value is the second piece, so
  anything after a second `=` is lost.
- For three or more names, `abbrevAuthors` drops the next-to-last name:
  `a and b and c and d` becomes `a, b & d` (`Authors.AbbrevFourNames`).
- Input with no `"\n@"` yields no record and no error.
- The key loses its last character, whatever that character is.
- The clean-up is one scan of the replacer, not one pass per rule, so it is not
  idempotent: `` `' `` becomes `''`, which a second clean-up turns into `"`
  (`Latex.CleanupNotRescanned`).
- The backquote macros map to the combining acute accent (U+0301) and the
  apostrophe macros to the combining grave (U+0300). This is exactly as the
  source's table has them, although LaTeX means the opposite.
- A header written `ARTICLE{smith2020,` is a single field, so the record fails
  with `MalformedFirstLine`.

## Model

| member | source | states |
|---|---|---|
| `Latex.FirstMatch` | bibtex/bibtex.go:101-164 | the rule chosen at a position matches there and no earlier rule of the table does; no rule is chosen only when none matches |
| `Latex.ReplaceMatch` | bibtex/bibtex.go:165 | where rule k matches and no earlier rule does, the output is rule k's replacement followed by the scan of the text after the pattern, even when a later, longer pattern also matches |
| `Latex.ReplaceCopy` | bibtex/bibtex.go:165 | where no rule matches, the first character is copied and the scan goes on with the next one |
| `Latex.ReplaceShrinks` | bibtex/bibtex.go:165 | if no replacement is longer than its pattern, the output is no longer than the input |
| `Latex.ReplaceAvoids` | bibtex/bibtex.go:165 | if no replacement holds a character of a set, and each such character is a rule on its own, the output holds none of them |
| `Latex.ReplaceIdentity` | bibtex/bibtex.go:165 | text with no character that can start a pattern comes back unchanged |
| `Latex.TableFacts` | bibtex/bibtex.go:102-164 | the table has 63 rules; every pattern is non-empty and starts with one of `{ } \ ~ ` ' $`; no replacement is longer than its pattern or holds `{ } \ ~ ``; each of those five characters is a rule by itself |
| `Latex.TableTail` | bibtex/bibtex.go:149-164 | rules 47 to 62 of the table, by index, with their patterns and replacements |
| `Latex.AccentsNeedBrace` | bibtex/bibtex.go:102-148 | none of the 47 accent rules matches text that does not start with `{` |
| `Latex.Cleanup` | bibtex/bibtex.go:100-167 | the cleaned text holds none of `{`, `}`, `\`, `~` or backquote, and is never longer than the input |
| `Latex.CleanupIdentity` | bibtex/bibtex.go:100-167 | text free of `{ } \ ~ ` ' $` is returned unchanged |
| `Latex.CleanupCedilla` | bibtex/bibtex.go:106 | `{\c{c}}` becomes `c` with a combining cedilla: rule 4 wins over the `{` rule of line 161 |
| `Latex.CleanupLdotsBackslash` | bibtex/bibtex.go:150-151 | `\ldots\` becomes `...` as one match, ahead of `\ldots` |
| `Latex.CleanupDoubleBackquote` | bibtex/bibtex.go:155-157 | a doubled backquote becomes `"`, ahead of the single-backquote rule |
| `Latex.CleanupBraceNotRescanned` | bibtex/bibtex.go:156-161 | `` `{` ``, made of table patterns only, cleans to `''`, which cleans again to `"` |
| `Latex.CleanupNotRescanned` | bibtex/bibtex.go:155-157 | `` `' `` cleans to `''` and `''` cleans to `"`, so cleaning twice differs from cleaning once: replacement text is not rescanned |
| `GoStrings.IndexOfSpec` | bibtex/bibtex.go:14 | a non-negative result is a position where the separator occurs and no earlier position holds it; -1 means it occurs nowhere |
| `GoStrings.IndexOfUnique` | bibtex/bibtex.go:14 | conversely, the first position that holds the separator is the result |
| `GoStrings.SplitPieces` | bibtex/bibtex.go:14 | the pieces of a split hold the separator only where each non-last piece ends, the last holds none, and joining them with the separator gives the text back |
| `GoStrings.SplitJoin` | bibtex/bibtex.go:45 | splitting the join of such pieces gives the pieces back |
| `GoStrings.CountFrom` | bibtex/bibtex.go:14 | the count is 0 when the separator does not occur, and otherwise one more than the count in the text after its first occurrence |
| `GoStrings.SplitCount` | bibtex/bibtex.go:14 | a split has one piece more than there are non-overlapping occurrences of the separator |
| `GoStrings.SplitOnChar` | bibtex/bibtex.go:32 | splitting on one character cuts the text at the first occurrence of the character |
| `GoStrings.FieldsSpec` | bibtex/bibtex.go:27 | no field holds whitespace and the fields together are exactly the non-space characters of the line |
| `GoStrings.FieldsCons` | bibtex/bibtex.go:27 | leading whitespace is skipped and the first field ends at the next whitespace |
| `GoStrings.TrimSpaceSpec` | bibtex/bibtex.go:34-35 | the trimmed text is a slice of the input with only whitespace before and after it, and neither starts nor ends with whitespace |
| `GoStrings.TrimSpaceOf` | bibtex/bibtex.go:34-35 | trimming removes exactly the surrounding whitespace |
| `GoStrings.ToLower` | bibtex/bibtex.go:28 | the result has the input's length and maps A-Z to a-z position by position |
| `Authors.AbbrevAuthors` | bibtex/bibtex.go:44-48 | a list without `" and "`, the empty one included, is returned unchanged |
| `Authors.AbbrevNames` | bibtex/bibtex.go:44-54 | for names free of the separator: one name stays as is, two give `a & b`, k >= 3 give the first k-2 names joined by `", "`, then `" & "` and the last one; the next-to-last name is dropped |
| `Authors.NamePiece` | bibtex/bibtex.go:45 | a name without the letter `d` cannot hold `" and "`, and is a piece of a list on its own |
| `Authors.AbbrevOneName` | bibtex/bibtex.go:46-48 | a single such name is returned as is |
| `Authors.AbbrevTwoNames` | bibtex/bibtex.go:49-51 | `a and b` becomes `a & b` |
| `Authors.AbbrevFourNames` | bibtex/bibtex.go:52-53 | `a and b and c and d` becomes `a, b & d` |
| `Entries.EntryLines` | bibtex/bibtex.go:24 | a record always has a first line |
| `Entries.Header` | bibtex/bibtex.go:26-29 | the header fails exactly when the first line has fewer than two whitespace-separated fields |
| `Entries.FieldsTwo` | bibtex/bibtex.go:27 | a line of whitespace, word, whitespace, word and a rest that starts with whitespace has those two words as its first fields |
| `Entries.HeaderOf` | bibtex/bibtex.go:26-29 | for such a line, the type is the first word lower-cased and the key is the second word without its last character |
| `Entries.FieldName` | bibtex/bibtex.go:32-34 | a line whose first `=` is at position i parses, and its field is stored under the trimmed text before position i |
| `Entries.FieldLineNone` | bibtex/bibtex.go:32-33 | a line fails exactly when it holds no `=`, so an empty line fails |
| `Entries.FieldLineOf` | bibtex/bibtex.go:32-39 | for `a = b` followed by nothing or by a second `=`: the name is trimmed `a`, the value is trimmed `b`, abbreviated only when the name is exactly `author` or `editor`; what follows the second `=` is lost |
| `Entries.ParseEntry` | bibtex/bibtex.go:22-42 | the loop that fills the map returns exactly `ParsedEntry`: the header's type and key, then every field in line order, or the first error |
| `Entries.FillFromOk` | bibtex/bibtex.go:31-40 | the loop succeeds exactly when every remaining line parses |
| `Entries.FillFromError` | bibtex/bibtex.go:31-40 | the loop fails at line j exactly when j is the first remaining line that does not parse; it never reports a header error |
| `Entries.FillFromKeys` | bibtex/bibtex.go:31-40 | the final keys are the initial keys plus the names of the remaining lines |
| `Entries.FillFromKeeps` | bibtex/bibtex.go:31-40 | a key that no remaining line names keeps its value |
| `Entries.FillFromLastWins` | bibtex/bibtex.go:39 | the value of a key is the one from the last line that names it |
| `Entries.NamesOfLines` | bibtex/bibtex.go:34 | once every line parses, the stored names are the trimmed texts before each line's first `=` |
| `Entries.ParsedEntryOk` | bibtex/bibtex.go:22-42 | a record parses exactly when its first line has two fields and every later line holds `=` |
| `Entries.ParsedEntryError` | bibtex/bibtex.go:27-33 | the error is `MalformedFirstLine` exactly when the first line has fewer than two fields, and `MalformedFieldLine(j)` exactly when line j is the first later line without `=` |
| `Entries.ParsedEntryKeys` | bibtex/bibtex.go:26-39 | a parsed record holds exactly `type`, `key` and the names of its field lines |
| `Entries.ParsedEntryLastWins` | bibtex/bibtex.go:39 | the value under a name is the value of the last line with that name |
| `Entries.ParsedEntryHeader` | bibtex/bibtex.go:28-29 | `type` and `key` are present, and keep the header's values unless a field line has that name |
| `Pipeline.ParsedBlocks` | bibtex/bibtex.go:16 | each block is trimmed before it is parsed |
| `Pipeline.Parse` | bibtex/bibtex.go:11-20 | the sink trace and the failure are exactly `RunFrom` over the cleaned, split and parsed blocks; the output is the initial output followed by each sink string and a newline |
| `Pipeline.RunFromCalls` | bibtex/bibtex.go:15-19 | the run fails exactly when some block fails; with no failure the sink runs once per block; on failure it names the first failing block and its error, and the sink ran once for each block before it |
| `Pipeline.RunFromCall` | bibtex/bibtex.go:15-17 | the j-th sink string is the formatted record of the j-th block, which parsed |
| `Pipeline.NoRecords` | bibtex/bibtex.go:14 | cleaned text without `"\n@"` gives no block, no sink call and no failure, so the output stays as it was |
| `Pipeline.BlockCount` | bibtex/bibtex.go:14 | there is one block per occurrence of `"\n@"` in the cleaned text |
| `Pipeline.BlocksOf` | bibtex/bibtex.go:14 | for a preamble and records that hold no `"\n@"`, the blocks are exactly the records; the preamble is dropped |

## Left out

- `bibtool` (bibtex/bibtex.go:56-98) writes a temporary resource file and runs an external process. Its output is the `text` parameter of `Pipeline.Parse`. Field selection and the year rule happen inside that program.
- `check` (bibtex/bibtex.go:169-173) aborts the process. The two crashes of `parseEntry` are `EntryError` values instead, and a failing record ends `Parse` with a `Failure`.
- The formatter and the sink are supplied by the caller. The formatter is a function parameter; the sink is the returned sequence of the strings it was given. Their own effects are not modelled.
- The `*output` pointer is an input value (`output`) and a result (`out`). Aliasing through the pointer is not modelled.
- Go strings are bytes and the table holds multi-byte UTF-8. The model works on characters, and the replacer's trie is replaced by the first-match scan it implements.
- GoStrings.ToLower: lower-cases ASCII letters only, where Go's `strings.ToLower` follows Unicode.
- GoStrings.IsSpace: a fixed set of whitespace characters standing for Go's `unicode.IsSpace` (ASCII whitespace, U+0085, U+00A0 and the Unicode space separators).
