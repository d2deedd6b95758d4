# scil_search_keywords: keyword filter and report, modelled in Dafny

`scil_search_keywords.py` searches the scilpy scripts for a list of keywords.
A script is reported when every keyword occurs, ignoring case, in its file
name or in its docstring (or, with `--search_parser`, in its `--help` text).
Each reported script is printed as three lines: a header with the file name,
the text, and a footer. In the name and the text, the keywords are
highlighted one after another. Each keyword's leftmost non-overlapping
occurrences, in the string as the earlier keywords left it, are wrapped in
ECMA-48 SGR colour codes (red, bold, then reset; section 8.3.117 of ECMA-48). If nothing matches, the script prints the single line
`No results found!`.

The model has four modules:

- `Text` (`text.dfy`): ASCII lower-casing (`str.lower()`), the substring
  test `pat in s`, the case-insensitive test `key.lower() in text.lower()`,
  and the code-point order on strings that `sorted` uses for file names.
- `Highlighting` (`highlight.dfy`): one `re.sub` step for a literal
  `re.IGNORECASE` pattern. `Scan` finds the matches, leftmost first and
  without overlap, and cuts the string into kept characters and wrapped
  matches. `Render` writes each match between `RED + BOLD` and `END_COLOR`.
  `Highlight` is `Render` after `Scan`. `HighlightAll` folds `Highlight` over
  the keywords in their given order, as the loop over `kw_subs` does.
- `Matching` (`matching.dfy`): `_test_matching_keywords` as a method with the
  source's loops. It keeps a `key_match` flag, stops at the first text that
  contains the key, appends one flag per keyword, and ends with `np.all`.
- `Report` (`report.dfy`): the report pass of `main`. The scripts are sorted
  by file name. Each one is tested on its raw name and raw text. The
  placeholder is substituted, then each keyword is highlighted in turn, and
  the three lines are emitted. It ends with the no-results line when nothing
  matched. `Report.Report` is the loop. `Report.ReportLines` is the function
  it is proved equal to, and the lemmas are about that function.

The listing of the script directory and the text extraction are inputs to
the model. A script is a `Script(filename, text)` whose text has already been
extracted. The printed output is the returned sequence of lines, one element
per `print` call.

Notes on behaviour:

- Highlighting wraps the leftmost non-overlapping occurrences of a keyword,
  as `re.sub` does, so not every occurrence is wrapped. In `aaa`, the keyword
  `aa` is wrapped once. `Highlighting.SegmentsUnique` pins this down.
- When there are results, the line `No results found!` can still appear. It
  is printed as the text of a matching script whose docstring is exactly that
  sentence (`Report.NoResultsAsDocstring`). What does hold is that it is never
  a header or a footer line (`Report.NoResultsOnlyAsText`), and that it is the
  whole output exactly when nothing matched (`Report.NoResultsIff`).
- Highlighting depends on the order of the keywords. A later keyword can
  match inside the colour codes written for an earlier one
  (`Highlighting.HighlightAllOrderMatters`).
- An occurrence of a later keyword can go unwrapped because the markers of
  an earlier keyword split it. With the keywords `a` then `ab`, the name
  `ab` becomes `RED + BOLD + a + END_COLOR + b`, so `ab` is never wrapped
  (`Highlighting.LaterKeywordSplit`).

## Model

| member | source | states |
|---|---|---|
| `Text.Occurs` | scripts/scil_search_keywords.py:100 | `pat in s` holds exactly when `pat` occurs at some position of `s` |
| `Text.ContainsIgnoreCase` | scripts/scil_search_keywords.py:100 | `key.lower() in text.lower()` holds exactly when some slice of `text` equals `key` up to ASCII case |
| `Text.EmptyKeyAlwaysContained` | scripts/scil_search_keywords.py:100 | the empty keyword is contained in every text |
| `Text.Lower` | scripts/scil_search_keywords.py:100 | `c.lower()` on one ASCII character: an upper-case letter moves up 32 code points, anything else is unchanged, and the result is never upper-case |
| `Text.LowerStr` | scripts/scil_search_keywords.py:100 | `s.lower()` with ASCII case folding, character by character; the result has the length of `s` |
| `Text.LowerStrSlice` | scripts/scil_search_keywords.py:100 | lower-casing a slice equals slicing the lower-cased string, so `key.lower() in text.lower()` compares slices of the original text |
| `Text.NameLeTotal` | scripts/scil_search_keywords.py:48 | any two file names are comparable in the order `sorted` uses |
| `Text.NameLeTransitive` | scripts/scil_search_keywords.py:48 | that order is transitive |
| `Text.NameLeAntisymmetric` | scripts/scil_search_keywords.py:48 | names that are each at most the other are equal |
| `Matching.AllTrue` | scripts/scil_search_keywords.py:105 | `np.all(flags)` holds exactly when every flag holds, so it is true for no flags |
| `Matching.TestMatchingKeywords` | scripts/scil_search_keywords.py:80-105 | returns true exactly when every keyword is a case-insensitive substring of some text, and true for an empty keyword list |
| `Matching.ScriptTest` | scripts/scil_search_keywords.py:59-60 | with texts `[filename, text]`, the test means every keyword is in the name or in the text |
| `Highlighting.Scan` | scripts/scil_search_keywords.py:69-70 | the matches `re.sub` finds for the compiled keyword, left to right and without overlap; an empty keyword matches before every character and at the end |
| `Highlighting.Render` | scripts/scil_search_keywords.py:66 | the substituted string: each match becomes `RED + BOLD + match + END_COLOR`, every other character is copied |
| `Highlighting.Highlight` | scripts/scil_search_keywords.py:69-70 | `regex.sub(new_key, s)` for one keyword, `Render` of `Scan`; the result is never shorter than the input |
| `Highlighting.HighlightAll` | scripts/scil_search_keywords.py:68-70 | the loop over `kw_subs`: one substitution per keyword, in the given order, each applied to the previous result; the result is never shorter than the input |
| `Highlighting.ScanSegments` | scripts/scil_search_keywords.py:45-46 | for a non-empty keyword, every wrapped piece is a case-insensitive match, no match starts at a kept character, and the pieces cover the string in order |
| `Highlighting.SegmentsUnique` | scripts/scil_search_keywords.py:69-70 | only one cutting has those properties, so the scan is the leftmost non-overlapping one |
| `Highlighting.ScanSource` | scripts/scil_search_keywords.py:66-70 | joining the pieces without their markers gives back the input exactly, for every keyword |
| `Highlighting.ScanWrapsMatchKeyword` | scripts/scil_search_keywords.py:45-46 | every wrapped piece has the keyword's length and equals it up to ASCII case |
| `Highlighting.HighlightStrip` | scripts/scil_search_keywords.py:18-20 | deleting the inserted `RED+BOLD` and `END_COLOR` markers from one step's output gives back an input free of escape characters |
| `Highlighting.HighlightUnchangedIff` | scripts/scil_search_keywords.py:66-70 | one step leaves the string unchanged exactly when the keyword does not occur in it; the empty keyword always occurs and always adds markers |
| `Highlighting.HighlightGrows` | scripts/scil_search_keywords.py:69-70 | one step with a keyword that occurs makes the string strictly longer |
| `Highlighting.HighlightEmptyKeyword` | scripts/scil_search_keywords.py:45-46 | the empty keyword puts one empty marker pair before each character and one at the end, keeping every character in place between them; the output grows by `len(s) + 1` marker pairs |
| `Highlighting.RenderLength` | scripts/scil_search_keywords.py:66 | each wrapped match adds the length of the two markers and nothing else |
| `Highlighting.HighlightAllUnchanged` | scripts/scil_search_keywords.py:68-70 | keywords that are all absent leave the string unchanged after the whole loop |
| `Highlighting.LaterKeywordSplit` | scripts/scil_search_keywords.py:68-70 | with keywords `a` then `ab`, the name `ab` contains `ab`, but the loop outputs `RED + BOLD + a + END_COLOR + b`: the markers for `a` split `ab`, so it is not wrapped |
| `Highlighting.HighlightAllOrderMatters` | scripts/scil_search_keywords.py:68-70 | the result of the loop depends on keyword order, because `m` inside `RED` can be matched by a later keyword |
| `Report.SortByName` | scripts/scil_search_keywords.py:48 | `sorted` returns a permutation of the scripts in ascending file-name order |
| `Report.Shown` | scripts/scil_search_keywords.py:64 | `search_text or 'No docstring available!'`: the placeholder for an empty text, the text otherwise, so the shown text is never empty |
| `Report.Header` | scripts/scil_search_keywords.py:72 | `print(SPACING, filename, SPACING)`: the spacing, a blank, the name, a blank, the spacing, so the line is two spacings and two blanks longer than the name |
| `Report.Footer` | scripts/scil_search_keywords.py:74 | `print(SPACING, "End of " + filename, SPACING)` as one line, nine characters plus two spacings longer than the name |
| `Report.Block` | scripts/scil_search_keywords.py:68-74 | the three lines of one matching script: header and footer with the highlighted name, between them the highlighted shown text; always exactly three lines |
| `Report.Blocks` | scripts/scil_search_keywords.py:72-74 | the blocks of the matching scripts, one after another in visiting order, three lines per script |
| `Report.ReportLines` | scripts/scil_search_keywords.py:43-77 | everything `main` prints: the blocks of the matching sorted scripts, or the single no-results line when there are none |
| `Report.Matches` | scripts/scil_search_keywords.py:59-63 | a script is kept exactly when it is in the input and passes the test on its raw name and raw text |
| `Report.MatchesCount` | scripts/scil_search_keywords.py:59-63 | each passing script is kept as many times as it is visited, every other script never |
| `Report.MatchesSorted` | scripts/scil_search_keywords.py:48-63 | filtering a sorted list keeps it sorted |
| `Report.Report` | scripts/scil_search_keywords.py:43-77 | the loop of `main` emits exactly `ReportLines`, the sorted, filtered and highlighted report |
| `Report.HighlightKeywords` | scripts/scil_search_keywords.py:68-70 | the loop over `kw_subs` highlights the file name and the text with every keyword in turn, giving `HighlightAll` of each |
| `Report.BlocksLayout` | scripts/scil_search_keywords.py:72-74 | output line `i` is line `i % 3` of the block for match `i / 3`, with three lines per match |
| `Report.ReportSelection` | scripts/scil_search_keywords.py:48-63 | the reported scripts are exactly the passing ones, each as many times as it is listed, in ascending name order |
| `Report.ReportLayout` | scripts/scil_search_keywords.py:72-74 | block `j` is lines `3j` to `3j+2`: highlighted header, highlighted text or placeholder, highlighted footer |
| `Report.ReportContents` | scripts/scil_search_keywords.py:48-74 | matching scripts are exactly those passing the raw test, each as many times as it is listed, in ascending name order, each giving a highlighted header, the highlighted text or placeholder, and a highlighted footer |
| `Report.NoResultsIff` | scripts/scil_search_keywords.py:76-77 | the output is exactly `No results found!` when no script passes the test |
| `Report.NoResultsOnlyAsText` | scripts/scil_search_keywords.py:72-74 | when something matched, a `No results found!` line can only be the text line of a block |
| `Report.NoResultsAsDocstring` | scripts/scil_search_keywords.py:64-73 | a matching script whose docstring is `No results found!` prints that line among its results |
| `Report.PlaceholderHighlighted` | scripts/scil_search_keywords.py:64-70 | an empty text is shown as `No docstring available!`, and that placeholder is highlighted too |
| `Report.OneScript` | scripts/scil_search_keywords.py:63-74 | a single matching script produces exactly its three-line block |

## Left out

- Listing the script directory with `pathlib` and `glob('*.py')` is file-system I/O. The model takes the scripts as a sequence.
- `_get_docstring` reads the file and parses it with Python's `ast`. That is I/O plus a foreign parser, so the extracted text is an input string. The model assumes extraction always succeeds. In the script, a file that fails to decode or to parse stops `main` with an exception: the blocks of earlier matches are already printed, and `No results found!` is never printed.
- The `--search_parser` mode runs each script with `--help` through `os.popen`. That is a subprocess, so its output is also just the input text.
- Argument parsing is left out. `print` becomes a returned sequence of lines, one element per call, and a text containing newlines stays one element.
- Case folding is ASCII only. The model does not capture full Unicode `str.lower()`, or the small differences between it and `re.IGNORECASE`.
- `re.escape` with `re.compile` is modelled as matching the keyword literally, so no regular-expression syntax is modelled.
- `np.all` is modelled as a plain conjunction over booleans.
- `Report.SortByName`: Python compares `Path` objects part by part. On POSIX, within one directory, this is the code-point order of the file names, which is what the model sorts by. Windows paths compare case-folded names, which the model does not capture.
