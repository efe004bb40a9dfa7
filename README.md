# cc-latest changelog core, in Dafny

`cc-latest` fetches the Claude Code changelog (a Markdown document) and prints
one release from it: the newest one, or the one named with `-version`. It can
print the release as plain text, as Markdown (`-md`) or as JSON (`-json`), or
list every version (`-list`). This project models what `main.go` does once the
changelog text is in hand, and proves properties of that model:

- **Text** (`text.dfy`): the parts of Go's `strings` package the program relies
  on. `Split` models `strings.Split(s, "\n")` and `TrimSpace` models
  `strings.TrimSpace`, using `unicode.IsSpace`'s set of spaces.
- **Header** (`header.dfy`): the header regular expression
  `(?m)^## (\d+\.\d+\.\d+)\s*$` under RE2's rules.
  - `^` holds at the start of the text or after a '\n'.
  - `$` holds at the end of the text or before a '\n'.
  - `\d` matches ASCII digits, and `\s` matches `[\t\n\f\r ]`.
  - The greedy `\s*` backtracks to the last position where `$` holds, so it
    may swallow blank lines.
  - `FindAllStringSubmatchIndex` scans leftmost-first for non-overlapping
    matches.
  - `HeaderAt` is the match starting at a position, and `FindHeaders` is the
    scan.
- **Parser** (`parser.dfy`): `parseChanges` and `parseChangelog`.
  - Each is an imperative method.
  - Each is proved equal to a specification function: `Bullets ∘ Split` for
    `parseChanges`, and `Changelog` for `parseChangelog`.
- **Render** (`render.dfy`): the exact text written to standard output by
  `outputMarkdown`, by `outputPlainText` and by list mode, each as a method
  proved equal to a string function.
- **Reparse** (`reparse.dfy`): how the rendered text relates to the parser.
  - Markdown output re-parses to exactly the printed entry.
  - Plain-text and list output split into the expected lines.
- **Cli** (`cli.dfy`): the rest of `main` after the fetch.
  - The no-entries error.
  - List mode.
  - Selecting the first entry, or the first entry with the requested version,
    and the not-found error.
  - Choosing among the three output forms.

## Model

| member | source | states |
|---|---|---|
| Text.Split | main.go:154 | `strings.Split(s, "\n")`, at least one piece; its meaning is fixed by `Text.JoinSplit`, `Text.SplitJoin` and `Text.SplitLines` |
| Text.SplitJoin | main.go:154 | splitting lines joined with "\n" gives those lines back, when no line holds a '\n' |
| Text.JoinSplit | main.go:154 | `strings.Split` on "\n" loses nothing: joining the pieces with "\n" gives the text back |
| Text.SplitLines | main.go:154 | no piece produced by the split holds a '\n' |
| Text.SplitAround | main.go:154 | splitting `a + "\n" + b` is splitting `a`, then splitting `b` |
| Text.TrimSpace | main.go:156 | `strings.TrimSpace`; its meaning is fixed by `Text.TrimSpaceShape` |
| Text.TrimSpaceShape | main.go:156 | trimming leaves a piece of the input that neither starts nor ends with a space, and only spaces are cut away on either side |
| Text.TrimSpaceKeeps | main.go:156 | trimming changes nothing when the text neither starts nor ends with a space |
| Text.TrimSpaceAllSpace | main.go:156 | trimming a text made only of spaces gives the empty text |
| Header.LastLineEnd | main.go:126 | the greedy `\s*$` tail stops at the last position in range where `$` holds, and fails when there is none |
| Header.HeaderAt | main.go:126 | the leftmost-first match of the header expression starting at a position; `Header.HeaderAtSound` and `Header.HeaderAtComplete` relate it to the independent predicate `IsMatchAt` |
| Header.HeaderAtSound | main.go:126 | a match found at `p` starts a line, reads "## ", then a version `D+.D+.D+` with no '\n', then only regex spaces up to a place where `$` holds |
| Header.HeaderAtVersion | main.go:126 | at a line start holding "## " and a version not followed by a digit, the match is determined by where the last `$` in the following run of spaces is |
| Header.HeaderAtComplete | main.go:126 | every match of the expression at `p` is found by `HeaderAt`, with the same capture and a greedy `\s*` reaching at least as far |
| Header.TextAfterVersionNoHeader | main.go:126 | a line holding "## " and a whole version, then a character other than `\s` before the line ends, is not a header; `## 1.2.3.4` and `## 1.2.3 foo` are instances |
| Header.FourPartsNoHeader | main.go:126 | `## 1.2.3.4` is not a version header |
| Header.TrailingTextNoHeader | main.go:126 | `## 1.2.3 foo` is not a version header |
| Header.TrailingSpacesHeader | main.go:126 | trailing spaces after the version belong to the header match, which ends before the '\n' |
| Header.MatchesFrom | main.go:127 | the matches of a scan lie at or after its start, within the text, in order and without overlap |
| Header.FindHeaders | main.go:127 | `FindAllStringSubmatchIndex(content, -1)`: the matches lie within the text, in order, without overlap; `Header.HeadersExactly` says which they are |
| Header.MatchesFromSound | main.go:127 | every match of the scan is the match at its own start position |
| Header.MatchesFromComplete | main.go:127 | every position holding a match is the start of some match of the scan, so no header is skipped |
| Header.NoHeaderInside | main.go:127 | no match starts strictly inside or at the end of another match |
| Header.HeadersExactly | main.go:127 | a position starts a match of the scan if and only if a match starts there; consecutive matches are strictly apart |
| Header.NoMatchesFrom | main.go:127 | a scan over positions that hold no match finds nothing |
| Header.HeaderStartsWithHash | main.go:126 | a match starts at a line start with '#' |
| Parser.ParseChanges | main.go:152-164 | the method's result is `Bullets(Split(content))`: for every line in order, the trimmed line behind "- ", if it has that prefix |
| Parser.Bullets | main.go:155-161 | the changes of a run of lines; its meaning is fixed by `Parser.BulletOfShape`, `Parser.BulletsShape`, `Parser.BulletsConcat` and `Parser.BulletsBound` |
| Parser.BulletsConcat | main.go:155-161 | the changes of two runs of lines are the changes of the first, then those of the second |
| Parser.BulletsBound | main.go:155-161 | at most one change per line |
| Parser.BulletOfShape | main.go:156-159 | a line yields a change `c` only when its trimmed form is exactly "- " + `c`, and `c` is a change text: non-empty, no '\n', no trailing space (it may start with a space, as `-  foo` yields ` foo`) |
| Parser.LeadingSpaceKept | main.go:156-158 | only the marker "- " is cut from a trimmed line: `-  foo` yields the change ` foo` |
| Parser.BulletsShape | main.go:155-161 | every change comes from a line whose trimmed form is "- " + that change |
| Parser.BulletsEmptyLine | main.go:155-161 | an empty line yields no change |
| Parser.BlankTextNoBullets | main.go:152-164 | a section of spaces only has no changes |
| Parser.EntriesOf | main.go:129-147 | entries are built one per header match, entry `k` from match `k` |
| Parser.Changelog | main.go:122-150 | the entries `parseChangelog` returns; its meaning is fixed by `Parser.EntriesAreHeaders`, `Parser.ChangesWellFormed` and `Parser.ChangesFromHeaderLine` |
| Parser.ParseChangelog | main.go:122-150 | the method's result is `Changelog(content)`, one entry per header match in document order |
| Parser.EntriesAreHeaders | main.go:126-147 | as many entries as header matches; a position holds a header if and only if it starts a match; matches are strictly ordered; each entry's version is the text captured after "## " and has the form D+.D+.D+ |
| Parser.EntryVersion | main.go:131 | the version of entry `k` is the capture group of match `k` |
| Parser.NoHeadersNoEntries | main.go:127-129 | the changelog is empty if and only if no position of the text holds a header |
| Parser.ChangesWellFormed | main.go:140-141 | entry `k` has at most as many changes as its section has lines; each is a change text that some line of the section carries behind "- " |
| Parser.ChangesFromHeaderLine | main.go:130-141 | the blank lines the header regex swallows hold no change, so the changes are those of the text from the end of the header line to the next header |
| Parser.SwallowedBlanks | main.go:140-141 | spaces in front of a newline at the start of a section add no change |
| Render.Prefixed | main.go:178 | prefixing keeps the number of lines |
| Render.PrefixedEmpty | main.go:73 | the empty prefix changes no line |
| Render.LinesOfSnoc | main.go:177-179 | printing one more line appends exactly that line to the block |
| Render.SplitLinesOf | main.go:177-179 | a block of printed lines splits into those lines, then the empty piece after the last '\n' |
| Render.Repeat | main.go:184 | `strings.Repeat` of one character `n` times has length `n` and holds only that character |
| Render.Versions | main.go:72-74 | one version per entry |
| Render.VersionsAt | main.go:72-74 | line `i` of list mode is the version of entry `i` |
| Render.Markdown | main.go:175-180 | the text `outputMarkdown` prints; `Reparse.MarkdownRoundTrip` proves it parses back to its entry |
| Render.PlainText | main.go:182-188 | the text `outputPlainText` prints; `Reparse.PlainTextLines` gives its lines |
| Render.VersionList | main.go:71-76 | the text list mode prints; `Reparse.VersionListLines` gives its lines |
| Render.RenderMarkdown | main.go:175-180 | the text printed is `## v`, a blank line, then "- c" for every change, in order |
| Render.RenderPlainText | main.go:182-188 | the text printed is `Claude Code v`, the 40-dash rule, then "  * c" for every change, in order |
| Render.RenderVersionList | main.go:71-76 | the text printed is every version on its own line, in order |
| Reparse.MarkdownHeader | main.go:126-127 | Markdown output holds exactly one header match, over its first line and the blank line below it |
| Reparse.MarkdownFirstHeader | main.go:176 | the first line of Markdown output is a header that captures the entry's version |
| Reparse.NoLaterHeader | main.go:177-179 | no line of the change block of Markdown output is a header |
| Reparse.BulletsOfPrefixed | main.go:155-161 | reading back "- c" lines gives the changes `c` |
| Reparse.BlockBullets | main.go:177-179 | parsing the change block of Markdown output gives back the changes |
| Reparse.MarkdownBody | main.go:175-180 | the section after the Markdown header holds exactly the entry's changes |
| Reparse.MarkdownRoundTrip | main.go:122-180 | for a valid version and change texts, parsing the Markdown of an entry gives exactly that one entry |
| Reparse.ParsedEntryRoundTrip | main.go:122-180 | every parsed entry, printed with `-md` and parsed again, comes back as the only entry |
| Reparse.PlainTextLines | main.go:182-188 | plain-text output splits into the title line, the rule, one "  * c" line per change and a final empty piece |
| Reparse.ParsedPlainTextLines | main.go:182-188 | the plain-text output of any parsed entry has that line structure |
| Reparse.RuleShape | main.go:184 | the rule is 40 dashes and holds no '\n' |
| Reparse.VersionListLines | main.go:71-76 | list output splits into one line per version, in order, and a final empty piece |
| Reparse.ParsedVersionListLines | main.go:71-76 | the list output of any parsed changelog has that line structure |
| Cli.MessageIdentifiesError | main.go:67-87 | the error lines written to standard error differ for different errors, so a not-found line determines the requested version |
| Cli.FirstWithVersion | main.go:80-85 | the index found is that of the first entry with the version; none is found only when no entry has it |
| Cli.Selection | main.go:78-92 | the selected index is within the entries |
| Cli.SelectEntry | main.go:78-92 | the loop selects entry 0 without `-version`, and otherwise the first entry with that version |
| Cli.Show | main.go:94-100 | the output of the selected entry: JSON first, then Markdown, then plain text |
| Cli.Response | main.go:59-100 | the outcome of `main` on the fetched text; `Cli.NoEntriesError`, `Cli.NotFoundError` and the output lemmas below say what it is in each case |
| Cli.Run | main.go:59-100 | the run's outcome is `Response(s, opts)`: the no-entries error, the version list, the not-found error or the selected entry in the chosen format |
| Cli.NoEntriesError | main.go:65-69 | the run fails with "no changelog entries" if and only if no position of the text holds a version header |
| Cli.NotFoundError | main.go:79-89 | outside list mode on a non-empty changelog, the run fails with "version not found" if and only if a version was requested and no entry has it |
| Cli.MarkdownOutputReparses | main.go:94-97 | `-md` prints the Markdown of the selected entry, and that text parses back to exactly that entry |
| Cli.PlainTextOutputLines | main.go:98-99 | the default output is the selected entry's title line, the rule and one "  * " line per change |
| Cli.ListOutputLines | main.go:71-76 | `-list` prints every version of the changelog on its own line, in document order |

## Left out

- `fetchChangelog` (main.go:103-120): the HTTP download is not modelled. `Cli.Run` takes the fetched text as a parameter, and the fetch error and its message are not modelled.
- Flags, `-h` and `-v` (main.go:24-57): flag parsing, the usage text and the version banner are left out. `Cli.Options` carries the parsed flag values.
- `outputJSON` (main.go:166-173): JSON encoding is not modelled. The outcome `PrintJson` carries the entry that would be encoded.
- The exit status and `os.Exit`: `Print` and `PrintJson` stand for status 0, and `Fail` stands for status 1. `Cli.Message` gives the line each error writes to standard error; the run ends in `Fail(err)` and does not carry that text itself.
- Output is modelled as one string per run, not as a series of separate writes.
- Strings are sequences of code points, not UTF-8 bytes. Like Go decoding valid UTF-8, the model handles every delimiter by code point, including the non-ASCII spaces that `strings.TrimSpace` removes (U+0085, U+00A0, U+1680, U+2000 to U+200A, U+2028, U+2029, U+202F, U+205F, U+3000). Invalid UTF-8 is not modelled.
- Only the one fixed header pattern is modelled, not RE2 in general.
