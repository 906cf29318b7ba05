# NOTER note logic in Dafny

NOTER (`note.py`) is a command-line note taker for penetration-testing
work. It keeps one markdown note per target machine.

- `note switch` creates the note from a fixed six-section template.
- `note log` asks which section a piece of output belongs in, formats it as
  a captioned log block and inserts it at the end of that section.
- `note shot` saves a clipboard image and inserts a link to it at the end of
  the `DUMP` section.

This project models the line-oriented logic between the file reads and
writes. A note is the sequence of its lines as Python's `readlines` returns
them: each element keeps its trailing line feed, and carriage returns are
translated first, as a text-mode read does. Writing the lines back
(`writelines`) is their concatenation.

Modules:

- `Options`: the optional value used for absent files and for end of
  keyboard input.
- `PyStr`: Python `str` behaviour the code relies on. It covers
  `isspace`/`strip`, `startswith`, `replace(p, "")`, `splitlines` and
  `readlines` with universal newlines.
- `PyInt`: `int()` on a stripped string, and `str()` on integers, which
  number the menu entries.
- `Seqs`: a filter-and-map over a sequence, with its laws.
- `HeaderIndex`: `get_headers`, which lists the second-level section
  headers of a note.
- `SectionInserter`: `insert_content`, which finds a section (creating it
  when missing) and splices a payload in at the end of that section.
- `Template`: the note template and its filling by `note switch`.
- `LogFormat`: the log block built by `note log`.
- `Menu`: the section menu of `note log`.
- `Commands`: `note log` and `note shot` on the note's text, and the
  properties that join the modules.

`note log` is modelled twice, over one shared definition
(`Commands.LogWithMenu`). `Commands.Log` is the program as written: its
menu lists the header texts `get_headers` records. `Commands.FixedLog` is
the corrected program of the finding below: its menu lists each header with
only its leading `## ` removed. The two pick the same section for every
entry whose header line carries no second `## `
(`Commands.LogIntoListedSection`).

The menu presents `DUMP` as the default. The last entry reads
`[DUMP (Default)]` (note.py:163), the prompt reads `[Default: DUMP]`
(note.py:166), and a catch-all `except` sends every failure to `DUMP`
(note.py:175-176). The code nonetheless accepts more than the printed
numbers:

- Any spelling `int()` accepts, such as `02`, `+2` or `0_2`, selects the
  same entry as `2` (`Menu.ChooseListed`).
- `headers[int(choice)-1]` accepts `0` and negative numbers down to
  `1 - len(headers)`, which Python indexes from the end of the list, so `0`
  selects the last header (`Menu.NonPositiveChoice`).

The model follows the code.

Keyboard answers are optional values, with `None` for end of input. At
the menu prompt the `EOFError` is caught and the entry goes to `DUMP`. At
the caption prompt (note.py:179) it is not caught, and the program ends
before the note is written. Piped content leaves standard input at its
end, so a piped `note log` never writes (`Commands.PipedLogWritesNothing`),
although the branch for piped input (note.py:138-140) means piping to
work. `Commands.LogDefaultCaption` is the corrected command of the second
finding below: it reads end of input at the caption prompt as no caption.

Each command reads the file afresh, so a payload is seen by the next
command as the lines it splits into. The end-of-section scan stops at any
raw line starting with `## `, including one inside a logged entry. Logged
output holding such a line therefore ends its section early: the next
entry into that section lands in front of the line, inside the earlier
entry, and `get_headers` lists the line as a section. This is proved for
a payload `## x` inserted directly, without the log block around it
(`Commands.MarkerContentSplitsSection`, `Commands.MarkerContentIsListed`).
When no line of the first entry starts with `## `, successive entries stay
in order at the end of the section
(`SectionInserter.SuccessiveInsertsKeepOrder`).

## Model

| member | source | states |
|---|---|---|
| HeaderIndex.GetHeaders | note.py:56-66 | A missing file gives no headers; otherwise the loop yields exactly the header list of the file's lines. |
| HeaderIndex.HeadersFollowHeaderLines | note.py:63-65 | One entry per line whose stripped form starts with `## `, in file order, duplicates kept. Each entry is the stripped line with every `## ` removed. Every header line has its entry. |
| HeaderIndex.HeadersAppend | note.py:63-65 | The headers of two concatenated notes are the headers of the first followed by those of the second. |
| HeaderIndex.HeadersEmptyIff | note.py:63-66 | The list is empty exactly when no line is a header line. |
| HeaderIndex.FixedHeaders | note.py:64-65 | Corrected list: one entry per header line, whose stripped form is `## ` followed by the entry. |
| HeaderIndex.HeadersAgreeWithoutInnerMarker | note.py:65 | The recorded and corrected lists are equal when no header carries a second `## ` after its leading one. |
| HeaderIndex.HeaderLineText | note.py:64-65 | A header line written for a name with no inner marker and no trailing space lists as exactly that name. |
| SectionInserter.FirstTargetFrom | note.py:75-78 | The target search returns the first line from `i` whose stripped form is `## ` plus the name, or the end. No earlier line matches. |
| SectionInserter.NextSectionFrom | note.py:86-90 | The end-of-section scan returns the first raw line from `i` starting with `## `, or the end. No line in between starts with it. |
| SectionInserter.InsertContent | note.py:68-95 | The two index-scanning loops and the splice produce exactly `Inserted`, the specification of the inserter. |
| SectionInserter.InsertIntoExistingSection | note.py:74-95 | An existing section's first header line is the target; later duplicates are never chosen. The payload lands just before the next raw `## ` line after it, or at the end. No raw `## ` line lies between the target and the payload. All original lines keep their order, and the note grows by one element. |
| SectionInserter.InsertIntoMissingSection | note.py:80-95 | With no matching line, the header element `\n## name\n` and then the payload are appended, and the note grows by two elements. |
| SectionInserter.NewHeaderIsTarget | note.py:76-83 | The appended header element is found again by the stripped comparison when the name has no trailing whitespace. |
| SectionInserter.EmptyHeaderAlwaysAppends | note.py:76-83 | An empty section name never matches a line, since stripping `## ` leaves `##`. Every insert under it appends a new section. |
| SectionInserter.ReadBackInserted | note.py:70-98 | After an insert into an existing section of a note ending in a line feed, the file reads back as the note's lines with the payload's own lines spliced in at the insertion index. |
| SectionInserter.InsertAfterBlock | note.py:74-95 | When lines that start no section sit at the end of the section, a new payload goes after them. |
| SectionInserter.SuccessiveInsertsKeepOrder | note.py:70-98 | Two commands log into the same existing section, each reading the file afresh. If no line of the first payload starts with `## `, the second payload lands right after all of the first one's lines, in front of the same next section. |
| SectionInserter.CreatedSectionIsListed | note.py:80-83 | A section the inserter created is listed by `get_headers` under its own name once the written file is read back, when that name is non-empty, fits on one line, has no trailing whitespace and holds no `## `. |
| Template.TemplateWithHeaders | note.py:19-40 | The template's headers are `Information` followed by the placeholder titles, in order. |
| Template.RenderReadsBack | note.py:19-40 | A rendered template with single-line name, address and system reads back as the template's lines. |
| Template.RenderedHeaders | note.py:19-40 | `get_headers` on a fresh note gives exactly Information, Enumeration, Exploitation, Privilege Escalation, Loot, DUMP. |
| Template.NewNoteFields | note.py:114-118 | In the note `note switch` writes, the address line reads `- **IP:** X.X.X.X` when the address is missing or empty, and shows the given address otherwise. The system line reads `- **OS:** Unknown` or shows the given system, likewise. |
| Template.NewNoteHeaders | note.py:114-118 | The same holds for the note `note switch` writes, with the `X.X.X.X` and `Unknown` defaults. |
| LogFormat.ReadBodyRoundTrip | note.py:185-188 | The block body reads back as the content verbatim. It is a `<details>` element exactly when the content has more than 15 lines, and a `text` fence otherwise. |
| LogFormat.FormatBlockReadsBack | note.py:182-188 | The block opens with `### ` followed by the caption (or `Log Entry`) and the time. The rest reads back as the content, collapsed exactly when it has more than 15 lines. |
| LogFormat.LineCountOfLines | note.py:185 | Content made of `n` well-formed lines counts `n` lines under `splitlines`. |
| LogFormat.CollapsesOfLines | note.py:185 | Such content is collapsed exactly when `n > 15`. |
| Menu.ResolveChoice | note.py:165-176 | The selected section is always `DUMP`, a listed header, or the stripped new name. |
| Menu.MenuNumber | note.py:160-163 | The number printed before a menu entry strips and parses back to itself. |
| Menu.ChooseListed | note.py:174 | Any answer `int()` reads as `k`, for `1 <= k <= len`, selects `headers[k-1]`. |
| Menu.ChooseNew | note.py:169-170 | Any answer read as `len+1` selects the stripped new name, or `DUMP` at end of input. |
| Menu.ChooseDump | note.py:171-172 | Any answer read as `len+2` selects `DUMP`. |
| Menu.UnusableChoiceIsDump | note.py:166-176 | End of input, and anything `int()` rejects (including blank input), selects `DUMP`. |
| Menu.OutOfRangeIsDump | note.py:174-176 | Any answer read as a number above `len+2` or below `1-len` selects `DUMP`. |
| Menu.NonPositiveChoice | note.py:174 | Any answer read as `n` with `1-len <= n <= 0` selects `headers[len+n-1]`, Python's negative indexing. |
| Menu.ZeroIsLastHeader | note.py:174 | `0` selects the last listed header. |
| Menu.ChoosePrinted | note.py:160-176 | Typing the number printed in front of an entry selects that entry: a header, the stripped new name (or `DUMP` at end of input), or `DUMP`. |
| PyInt.ParseInt | note.py:169 | `int()` rejects the empty string. An accepted string holds only digits, underscores and one leading sign, and a negative value has a leading `-`. |
| PyInt.ParseShowInt | note.py:161 | `int(str(i)) == i` for every integer. |
| PyStr.StripLine | note.py:76 | Stripping a line removes its line feed and keeps text without surrounding whitespace. |
| PyStr.ReadLines | note.py:70-71 | The lines read concatenate back to the newline-translated text. |
| PyStr.ReadLinesOfLines | note.py:97-98 | Lines ending in a line feed, with no other break, read back unchanged after being written. |
| PyStr.ReadLinesAppend | note.py:70-71 | A text whose first part ends in a line feed reads back as the lines of the first part followed by those of the rest. |
| Commands.LogWithMenu | note.py:153-190 | `note log` leaves the note unchanged exactly when the content is blank once stripped, or the caption prompt meets end of input. |
| Commands.Log | note.py:153-179 | As written, with the menu built from `get_headers`: the note is left unchanged exactly in those two cases. |
| Commands.FixedLog | note.py:153-179 | The corrected command, with the menu built from the corrected header list: the note is left unchanged exactly in those two cases. |
| Commands.PipedLogWritesNothing | note.py:138-179 | With both prompts at end of input, as after piped content, `note log` leaves the note unchanged whatever the content. |
| Commands.LogDefaultCaption | note.py:179 | Corrected: with end of input at the caption prompt read as no caption, the note is left unchanged exactly when the content is blank. |
| Commands.PipedLogGoesToDump | note.py:138-179 | Corrected: piped non-blank content goes into `DUMP` as a `Log Entry` block. |
| Commands.FixedLogIntoListedSection | note.py:158-190 | Corrected: any answer read as the number of a listed header inserts the block into that existing section. No section is created, and the note grows by one element. |
| Commands.LogIntoListedSection | note.py:158-190 | As written: the same holds whenever the chosen entry's own header line carries no second `## `, whatever the other header lines hold. |
| Commands.InnerMarkerLogsElsewhere | note.py:65 | As written, in the note `## A ## B`, `## A B` both entries list as `A B`, and choosing entry `1` logs into the second section; nothing is appended. |
| Commands.LogInnerMarkerCreatesSection | note.py:65 | As written, logging into entry `1` of the note `## A ## B` creates a second section `A B`, and the note grows by two elements. |
| Commands.InnerMarkerHeaderIsLost | note.py:65 | As written, `## A ## B` lists as `A B`, and inserting under `A B` appends a second section. |
| Commands.FixedHeaderIsFound | note.py:74-78 | Every corrected header is found at or before its own header line, so inserting under it adds exactly one element. |
| Commands.MarkerContentSplitsSection | note.py:86-95 | A payload `## x` inserted into the only section `h` reads back as a line of its own. A second entry into `h` then lands in front of that line. |
| Commands.MarkerContentIsListed | note.py:63-65 | `get_headers` then lists `x` as a section after `h`. |
| Commands.InsertIntoLastSection | note.py:86-95 | On a fresh note, content for the last template section goes at the very end and moves nothing. |
| Commands.DumpTakesEnd | note.py:231 | On a fresh note, anything inserted into `DUMP` becomes the last element. |
| Commands.ShotOnFreshNote | note.py:226-231 | On a fresh note, `note shot` appends the framed `**Screenshot:**` caption and `![[name_stamp.png]]` link to the end of the file. |

## Left out

- The state file's JSON load and save (note.py:43-54) is left out. The note's text is a parameter, and the missing-context exits are not modelled.
- File existence checks, opening, reading, writing and directory creation are modelled only as operations on the note's text and lines. A missing file for `get_headers` is `None`.
- Launching the editor, temporary files and the `isatty` test are I/O and are left out (note.py:137-151). The logged content is a parameter.
- The `xclip` process, the PNG bytes and the cleanup of an empty image are left out (note.py:206-222). `Commands.Shot` is the step after the image is saved.
- The clock is left out. The `%H:%M` time and the `%Y%m%d_%H%M%S` stamp are string parameters.
- `argparse` dispatch, `print` and `sys.exit` are left out (note.py:234-260).
- `Commands.Log`: `KeyboardInterrupt` at either prompt is not modelled.
- `PyInt.ParseInt`: accepts only ASCII digits, while Python's `int()` also accepts other Unicode decimal digits.
- `PyStr.ReadLinesOfLines`: writing assumes `\n` as the line separator, as on Linux.
- `SectionInserter.SuccessiveInsertsKeepOrder`: stated for a section that already exists in a note whose text ends in a line feed. A note whose last line lacks its line feed, and a section the first insert creates, are not covered.
- Logged content holding a line that starts with `## ` is modelled only as written (`Commands.MarkerContentSplitsSection`, `Commands.MarkerContentIsListed`). No fence-aware end-of-section scan is modelled, because the code gives no sign of which lines it means the scan to skip.

## Findings

| source | as written | input that shows it | evidently intended | confidence | as-written member | corrected member |
|---|---|---|---|---|---|---|
| note.py:65 | `get_headers` records a header as the stripped line with every `## ` removed, not just the leading one. `insert_content` searches for the line that strips to `## ` plus that text, so it never finds the chosen section: the entry goes to the first other line that strips to it, or a new section is appended when there is none. | a note line `## A ## B`, chosen from the menu | drop only the leading `## `, so the listed name finds its section again | not executed | Commands.LogInnerMarkerCreatesSection | Commands.FixedLogIntoListedSection |
| note.py:179 | After piped content, the caption `input()` meets end of input, and its `EOFError` is raised outside the `try`, so the program ends before the note is written. | any non-blank content piped into `note log` | log piped content, reading end of input at the caption prompt as no caption, as the menu prompt reads it as `DUMP` | not executed | Commands.PipedLogWritesNothing | Commands.PipedLogGoesToDump |
