# Employee sentiment tool: string logic in Dafny

The tool (`sentiment.py`) asks a hosted text model to invent employee
feedback, parses the reply into `Type`/`Content` records, and later builds an
analysis prompt from an instruction and the `Content` column of an uploaded
file. Everything except three pieces of string handling is user interface or
calls into the hosted model. This project models those three pieces and
proves what they guarantee:

- **Reply parsing** (`generate_synthetic_data`, after the reply arrives). The
  reply text is split on line breaks. A line yields a record exactly when it
  contains both `Type:` and `Content:`.
  - The type is the text after the first `Type:`, cut at a second `Type:`,
    cut at the first comma, then stripped.
  - The content is the text after the first `Content:`, cut at a second
    `Content:`, then stripped.
- **Analysis prompt** (`analyze_feedback`). The prompt is the instruction, a
  blank line, and the reviews joined with blank lines.
- **Instruction choice**. The custom prompt is used when it has any
  non-whitespace character. Otherwise the menu selection is used unchanged,
  and that selection may be the placeholder `<Choose a prompt>`.

`pystr.dfy` (module `PyStr`) models the Python built-ins these pieces rely
on: `sub in s`, `str.find`, `str.split(sep)` with a non-empty separator,
`sep.join(parts)`, and `str.strip()` over the characters for which
`str.isspace()` is true. `sentiment.dfy` (module `Sentiment`) holds the tool's
own logic:
- `ParseResponse` is the specification of the parser, and `GenerateDataset`
  is the loop that appends one record per qualifying line.
- `FullPrompt` builds the analysis prompt, and `FinalPrompt` chooses the
  instruction.

The reply text is an ordinary parameter. The model call that produces it is
not modelled.

Edge cases of the code that the model keeps and proves:
- A record is kept even when a field is empty after stripping: a line opening
  with `Type:,` gives an empty type (`BlankTypeKept`).
- The content stops at a second `Content:` on the line
  (`ContentAfterMarker`), and the type stops at a second `Type:` that comes
  before any comma (`KindBeforeSecondMarker`), so it never holds one
  (`FieldShapes`).
- With no comma after `Type:`, the type takes the rest of the line,
  `Content: ...` included: `Type: Email Content: hi` gives the type
  `Email Content: hi` (`KindWithoutComma`).
- An empty review list and a blank instruction raise no error. With no
  reviews the prompt is the instruction followed by a blank line
  (`FullPrompt`). With a blank custom prompt and an untouched menu the
  placeholder is sent (`PlaceholderSent`).

## Model

| member | source | states |
|---|---|---|
| `PyStr.Contains` | sentiment.py:51 | `sub in s`: some index holds an occurrence; it is never true of a substring longer than the text, and always true of the empty substring. `Find` and `ContainsTrans` characterise it further |
| `PyStr.FindFrom` | sentiment.py:51 | the result is -1 or an index at or after the start where the substring occurs, and the substring occurs at no index between the start and the result (at no later index at all when the result is -1) |
| `PyStr.Find` | sentiment.py:51 | `s.find(sub)` is non-negative exactly when `sub in s`; when it is, `sub` occurs there and at no earlier index |
| `PyStr.Split` | sentiment.py:47 | `split` gives at least one piece, and a single piece is the whole text; it gives two or more exactly when the separator occurs, and then the first piece ends at an occurrence and its length is `s.find(sep)`, so no occurrence starts inside it (so `[1]` exists exactly when the marker is in the line). `SplitInverse` gives back the text from the pieces; for a separator whose last character occurs nowhere else in it, as with `"\n"`, `","`, `Type:` and `Content:`, `SplitAtFirst` fixes every piece |
| `PyStr.SplitInverse` | sentiment.py:47 | joining the pieces of `s.split(sep)` with `sep` gives back `s`, and no piece contains `sep` |
| `PyStr.SplitPieceInfix` | sentiment.py:52-53 | every piece of a split is a substring of the split text |
| `PyStr.SplitJoin` | sentiment.py:47 | splitting a join gives back the parts when no part, even with the start of a following separator, holds the separator |
| `PyStr.SplitJoinChar` | sentiment.py:47 | for a one-character separator, splitting a join gives back the parts when no part holds the separator |
| `PyStr.SplitAtFirst` | sentiment.py:52-53 | at a first occurrence of a marker whose last character is unique, `split` gives the text before it, then the pieces of the text after it |
| `PyStr.FirstPieceCovers` | sentiment.py:52 | when `a` holds no separator and `c` is not one of its characters, the first piece of `a + c + b` starts with `a + c` |
| `PyStr.FindAt` | sentiment.py:52-53 | if no occurrence of the separator starts inside `a`, the first occurrence in `a + sep + b` is at `|a|` |
| `PyStr.NoOverlap` | sentiment.py:52-53 | a separator whose last character is unique cannot start inside a text that lacks it and end inside a following separator |
| `PyStr.Join` | sentiment.py:80 | `sep.join(parts)` is the parts in order with `sep` between each two: empty for no parts, and with two or more at least as long as the first part and a separator. `JoinSnoc` gives its step from one part to the next, `JoinContainsPart` shows every part inside it, and `SplitJoin` inverts it |
| `PyStr.JoinSnoc` | sentiment.py:80 | joining one more part appends the separator and that part (only the part when there were none) |
| `PyStr.JoinContainsPart` | sentiment.py:80 | every part of a join is a substring of it |
| `PyStr.IsSpace` | sentiment.py:52-53 | the characters for which `str.isspace()` is true: U+0009 to U+000D, U+001C to U+0020, U+0085, U+00A0, U+1680, U+2000 to U+200A, U+2028, U+2029, U+202F, U+205F and U+3000 |
| `PyStr.LeadingSpaces` | sentiment.py:52-53 | the count of leading characters that are all whitespace, followed by a non-whitespace character or the end |
| `PyStr.TrailingSpaces` | sentiment.py:52-53 | the count of trailing characters that are all whitespace, preceded by a non-whitespace character or the start |
| `PyStr.Strip` | sentiment.py:52-53 | `s.strip()` is `s` without its leading whitespace run and its trailing whitespace run; it is no longer than `s` and has no surrounding whitespace. `StripSpec` and `StripOf` characterise it completely |
| `PyStr.StripSpec` | sentiment.py:135 | `strip()` leaves no leading or trailing whitespace, is empty exactly when the text is all whitespace, and is the text with its leading and trailing whitespace runs removed |
| `PyStr.StripOf` | sentiment.py:52-53 | stripping a stripped text wrapped in any whitespace gives back exactly that text |
| `PyStr.StripIdempotent` | sentiment.py:52-53 | stripping twice is stripping once |
| `PyStr.StripInfix` | sentiment.py:52-53 | the stripped text is a substring of the original |
| `PyStr.ContainsTrans` | sentiment.py:51 | a substring of a substring is a substring |
| `Sentiment.Qualifies` | sentiment.py:51 | a line qualifies when it holds both `Type:` and `Content:`; exactly then both `split` calls of lines 52-53 have a piece `[1]` |
| `Sentiment.TypeField` | sentiment.py:52 | the type is `line.split("Type:")[1].split(",")[0].strip()`; it is stripped and shorter than the line. `KindBeforeComma`, `KindWithoutComma` and `FieldShapes` characterise it |
| `Sentiment.ContentField` | sentiment.py:53 | the content is `line.split("Content:")[1].strip()`; it is stripped and shorter than the line. `ContentAfterMarker` and `FieldShapes` characterise it |
| `Sentiment.ParseLine` | sentiment.py:52-54 | the record of a qualifying line is its type and its content, both stripped |
| `Sentiment.LineRecords` | sentiment.py:51-54 | a line contributes at most one record, and one exactly when it holds both `Type:` and `Content:` |
| `Sentiment.GenerateDataset` | sentiment.py:47-54 | the loop over the reply's lines builds exactly the records of the parser's specification `ParseResponse` |
| `Sentiment.ParseLines` | sentiment.py:50-54 | the records of a run of lines are each line's contribution in line order, at most one per line. `ParseLinesConcat`, `RecordInPlace` and `RecordFromLine` characterise it |
| `Sentiment.ParseResponse` | sentiment.py:47-54 | the records of a reply are those of its `"\n"` pieces, at most one per piece; `GenerateDataset` computes it with the loop |
| `Sentiment.ParseLinesBound` | sentiment.py:50-54 | there are at most as many records as lines, and none exactly when no line holds both markers |
| `Sentiment.ParseLinesConcat` | sentiment.py:50-54 | the records of two consecutive runs of lines are the records of the first run followed by those of the second |
| `Sentiment.ParseLinesSnoc` | sentiment.py:50-54 | one more line appends that line's contribution and nothing else |
| `Sentiment.RecordInPlace` | sentiment.py:50-54 | a line contributes its record in its own position when it holds both markers, and nothing otherwise; records keep the order of their lines |
| `Sentiment.RecordFromLine` | sentiment.py:50-54 | the `i`-th record is the record of some qualifying line at index `i` or later |
| `Sentiment.FieldShapes` | sentiment.py:52-53 | the type has no comma, no `Type:` and no surrounding whitespace; the content has no `Content:` and no surrounding whitespace; both are substrings of their line |
| `Sentiment.CommaCut` | sentiment.py:52 | the text before any `Type:` in `a + "," + b`, cut at its first comma, is `a` when `a` holds neither |
| `Sentiment.KindBeforeComma` | sentiment.py:52 | when no second `Type:` comes before the first comma after the first `Type:`, the type is the stripped text between that `Type:` and that comma |
| `Sentiment.KindBeforeSecondMarker` | sentiment.py:52 | when a second `Type:` comes before any comma, the type is the stripped text between the first and the second `Type:`; with `KindBeforeComma` and `KindWithoutComma` this gives the type of every qualifying line |
| `Sentiment.KindWithoutComma` | sentiment.py:52 | with one `Type:` and no comma after it, the type is the stripped rest of the line |
| `Sentiment.ContentPiece` | sentiment.py:53 | the piece after the first `Content:` is the text up to a second `Content:`, or to the end of the line |
| `Sentiment.ContentAfterMarker` | sentiment.py:53 | the content is the stripped text after the first `Content:`, ending at a second `Content:` if there is one |
| `Sentiment.BlankTypeKept` | sentiment.py:51-54 | a line opening with `Type:,` still yields a record, with an empty type |
| `Sentiment.ResponseOfLines` | sentiment.py:47-54 | a reply made of lines without line breaks parses exactly as that sequence of lines |
| `Sentiment.ResponseBound` | sentiment.py:47-54 | a reply has at most one record per line; it has none exactly when no line qualifies, and none when the reply lacks either marker |
| `Sentiment.ResponseRecordShapes` | sentiment.py:47-54 | every record of a reply has the field shapes above, and neither field contains a line break |
| `Sentiment.FullPrompt` | sentiment.py:80 | the prompt is the instruction, a blank line, and the reviews joined by blank lines; the instruction and a blank line open every prompt, with no reviews they are the whole prompt, and otherwise the first review follows them. `FullPromptAppend` and `FullPromptPieces` characterise the rest |
| `Sentiment.FullPromptAppend` | sentiment.py:80 | one more review extends the prompt by a blank line and that review, in input order |
| `Sentiment.FullPromptPieces` | sentiment.py:80 | splitting the prompt at blank lines gives the instruction and then the reviews in order, when none of them holds a blank line or ends in a line break |
| `Sentiment.FullPromptExample` | sentiment.py:80 | the instruction "Summarize employee morale trends." with reviews "good job" and "feeling stressed" gives the text with the three joined by blank lines |
| `Sentiment.FinalPrompt` | sentiment.py:135 | the custom prompt is chosen when it has a non-whitespace character; otherwise the selection is chosen unchanged |
| `Sentiment.PlaceholderSent` | sentiment.py:126-135 | with a blank custom prompt and the menu on its first entry, the instruction is `<Choose a prompt>`, and the analysis prompt begins with it and a blank line |

## Left out

- The Streamlit page is user interface and is not modelled: title, buttons, spinner, file uploader, select box, text area, download button, result display, and the style-sheet loading (sentiment.py:7-8, 106-144).
- The hosted-model calls are foreign network calls and are not modelled: API configuration, model construction, chat sessions and `send_message` (sentiment.py:12-31, 45, 65-78, 82-84). The reply text is a parameter of the parser, and `analyze_feedback`'s result is not modelled.
- The generation settings (temperature, top-p, top-k, output length) are floating-point configuration handed to a library, so they are not modelled.
- Sentiment.FullPrompt: the reviews are modelled as strings. At sentiment.py:80, `"\n\n".join` raises `TypeError` when a cell of the `Content` column is not a string. pandas reads an empty cell, or text such as `NA`, `N/A`, `None` or `null`, as a floating-point NaN, and an all-numeric column as numbers. A record with empty content, which the parser keeps, is saved as an empty cell, so uploading that file again makes the analysis fail. pandas' value conversion is not part of this model.
- pandas is a library whose CSV quoting rules are not part of this model. That covers `pd.DataFrame(dataset)`, `save_dataset`/`to_csv`, `read_csv`, and the guard that the uploaded file has a `Content` column (sentiment.py:56-61, 130-133). The parser returns the records that would fill the data frame.
- The API key (sentiment.py:10) is data, not logic. The prompt menu is kept as a constant, but only the role of its first entry is reasoned about.
- `PyStr.Split` models `str.split` only for a non-empty separator, which is the only form the tool uses. Python strings of code points are modelled as Dafny strings of Unicode scalar values.
