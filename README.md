# Reply parser of the English writing assistant

This project models the parser that `EnglishWritingAssistant.get_feedback`
(`backend/core/ai_assistant.py`) applies to the language model's reply. The
parser turns the raw reply into the returned dictionary: a `corrected_text`
string and a `changes_list` of strings. It works in three steps:

1. It finds the first `---START_RESPONSE---` and the first
   `---END_RESPONSE---` and strips the text between them (`parsed_content`).
2. In that text it finds the first `CORRECTED_TEXT:` and the first
   `CHANGES_LIST:`. The corrected text is the stripped text between them.
3. It splits the stripped text after `CHANGES_LIST:` at `'\n'`. It keeps
   each line whose stripped form starts with `-` and is not empty after
   `line.strip().lstrip('- ').strip()`, cleaned in that way and in its
   original order.

Two fallbacks replace the result with a fixed error message and a
one-entry list that holds the raw text. The outer fallback applies when the
markers are missing or out of order. The inner fallback applies when the
labels are missing or out of order.

The parser is pure string manipulation, so the model is made of functions
and lemmas. It is in three modules:

- `Python` (`python.dfy`) holds the Python built-ins the parser calls, with
  Python's semantics:
  - `str.find` returns the lowest index of a match, or -1 (`Find`).
  - Slices with non-negative bounds are clamped to the length and are empty
    when the start is not before the end (`Slice`, `SliceFrom`).
  - `strip()` removes exactly the characters for which `str.isspace()`
    holds. They are listed in `Whitespace`, including `'\r'`.
  - `lstrip(chars)` removes a leading run of characters from a set, not a
    literal prefix (`LStrip`).
  - `startswith`, and `split(sep)` with its partner `sep.join`.
  - A list comprehension with a filter (`ListComp`).
- `Feedback` (`feedback.dfy`) holds the parser itself:
  - `ParseFeedback` parses the whole reply.
  - `ParseBlock` parses the text between the markers.
  - `CleanedChanges` is the comprehension that builds the changes list.
  - The module also holds the lemmas about the two fallbacks, the success
    path and overlapping markers.
- `ReplyFormat` (`reply_format.dfy`) holds the format the prompt asks for
  (`backend/core/ai_assistant.py:67-73`):
  - `RenderReply` writes a reply in that format.
  - `RoundTrip` proves that the parser reads back exactly what was written,
    under the stated conditions on the written strings.

One property one might expect does not hold as stated: that every cleaned
entry starts with neither `-` nor whitespace. `lstrip('- ')` stops at a tab,
and the final `strip()` then removes the tab. So the line `"-\t-x"` cleans to
`"-x"` (`Feedback.CleanLineCanStartWithDash`). The property does hold when
the line contains no whitespace other than the space character
(`Feedback.CleanLineFirstChar`). Every entry is still non-empty and has no
whitespace at either end (`Feedback.CleanedChanges`).

## Model

| member | source | states |
|---|---|---|
| Python.IsSpace | backend/core/ai_assistant.py:111 | the characters `strip()` removes are exactly the 29 for which `str.isspace()` holds, among them `'\r'`, `'\x1c'` to `'\x1f'`, `'\x85'` and `'\xa0'` |
| Python.Find | backend/core/ai_assistant.py:106-107 | `find` gives -1 exactly when the pattern does not occur; otherwise it gives an index where the pattern occurs, with no occurrence before it |
| Python.FindIsFirst | backend/core/ai_assistant.py:106-107 | an occurrence with no earlier occurrence is the index `find` returns |
| Python.FindAfterSeparator | backend/core/ai_assistant.py:107 | in `a + [c] + pat + rest`, where `c` is not in `pat` and `a` does not contain `pat`, `find` returns `\|a\| + 1` |
| Python.NotContainsAcross | backend/core/ai_assistant.py:106-107 | a pattern without `c` occurs in `a + [c] + b` only if it occurs in `a` or in `b` |
| Python.Slice | backend/core/ai_assistant.py:111 | a slice with non-negative bounds is the ordinary subsequence when the start is before the end and the end is within the string; it is empty when the start is not before the end; it is never longer than the string |
| Python.SliceFrom | backend/core/ai_assistant.py:121 | `s[a:]` is the suffix from `a`, or empty when `a` is past the end |
| Python.LeadingRun | backend/core/ai_assistant.py:125 | the count of leading characters from a set is maximal: all counted characters are in the set, and the next one is not |
| Python.TrailingRun | backend/core/ai_assistant.py:111 | the same for trailing characters |
| Python.LStrip | backend/core/ai_assistant.py:125 | after `lstrip(chars)` the first character, if any, is not in `chars` |
| Python.LStripIsSuffix | backend/core/ai_assistant.py:125 | `lstrip(chars)` returns a suffix of its input, and every character it drops is in `chars` |
| Python.LStripUnique | backend/core/ai_assistant.py:125 | any suffix whose dropped prefix is all in `chars` and whose first character is not in `chars` is the result of `lstrip(chars)` |
| Python.RStrip | backend/core/ai_assistant.py:111 | after `rstrip(chars)` the last character, if any, is not in `chars` |
| Python.RStripIsPrefix | backend/core/ai_assistant.py:111 | `rstrip(chars)` returns a prefix of its input, and every character it drops is in `chars` |
| Python.RStripUnique | backend/core/ai_assistant.py:111 | any prefix whose dropped suffix is all in `chars` and whose last character is not in `chars` is the result of `rstrip(chars)` |
| Python.Strip | backend/core/ai_assistant.py:111 | `strip()` never lengthens its input, and its result has no whitespace at either end |
| Python.StripIsInfix | backend/core/ai_assistant.py:111 | `strip()` returns a contiguous piece of its input, and everything it drops on either side is whitespace |
| Python.StripOfStripped | backend/core/ai_assistant.py:125 | `strip()` leaves a string with no whitespace at either end unchanged |
| Python.StripIdempotent | backend/core/ai_assistant.py:125 | `strip()` applied twice is `strip()` applied once |
| Python.StripEmptyIffBlank | backend/core/ai_assistant.py:127 | `strip()` gives the empty string exactly when every character is whitespace |
| Python.StripPadded | backend/core/ai_assistant.py:111 | stripping whitespace padding around a stripped string gives that string |
| Python.StartsWith | backend/core/ai_assistant.py:127 | `s.startswith(p)` holds exactly when `p` is a prefix of `s`; the empty prefix is a prefix of every string |
| Python.StartsWithFind | backend/core/ai_assistant.py:127 | `s.startswith(p)` holds exactly when `s.find(p)` returns 0 |
| Python.Split | backend/core/ai_assistant.py:126 | `split(sep)` gives at least one piece, and no piece contains the separator or is longer than the input |
| Python.JoinSplit | backend/core/ai_assistant.py:126 | joining the pieces of a split with the separator gives back the string |
| Python.SplitJoin | backend/core/ai_assistant.py:126 | splitting a join of separator-free pieces gives back the pieces |
| Python.SplitCount | backend/core/ai_assistant.py:126 | `split(sep)` gives one piece more than the number of separators |
| Python.ListComp | backend/core/ai_assistant.py:124-128 | a filtered comprehension is never longer than its input |
| Python.ListCompKeeps | backend/core/ai_assistant.py:124-128 | a property that holds of the mapped value of every kept element holds of every element of the result |
| Python.ListCompAppend | backend/core/ai_assistant.py:124-128 | the comprehension of a concatenation is the concatenation of the comprehensions |
| Python.ListCompMembership | backend/core/ai_assistant.py:124-128 | a value is in the result exactly when it is the mapped value of some kept element |
| Python.ListCompSkips | backend/core/ai_assistant.py:127 | an element the filter rejects contributes nothing, and the rest keep their order |
| Python.ListCompAllKept | backend/core/ai_assistant.py:124-128 | when every element is kept, the result is the mapped value of each element, in order |
| Feedback.CleanLine | backend/core/ai_assistant.py:125 | a cleaned line is never longer than the line and has no whitespace at either end |
| Feedback.IsBulletLine | backend/core/ai_assistant.py:127 | the filter of the comprehension: the stripped line starts with '-' and the cleaned line is not empty |
| Feedback.CleanedChanges | backend/core/ai_assistant.py:124-128 | the changes list has at most one entry per line, and every entry is non-empty with no whitespace at either end |
| Feedback.CleanedChangesAppend | backend/core/ai_assistant.py:124-128 | lines are handled one by one and their order is kept |
| Feedback.CleanedChangesMembership | backend/core/ai_assistant.py:124-128 | an entry is in the list exactly when some line passes the filter and cleans to it |
| Feedback.DropsNonDashLines | backend/core/ai_assistant.py:127 | a line whose stripped form does not start with '-' (a '*' bullet, a numbered item, plain text, a blank line) adds nothing |
| Feedback.CleanLineFirstChar | backend/core/ai_assistant.py:125 | when the line's only whitespace is ' ', the cleaned entry does not start with '-' |
| Feedback.CleanLineCanStartWithDash | backend/core/ai_assistant.py:125 | the line "-\t-x" cleans to "-x", so the condition above is needed |
| Feedback.LabelsInOrder | backend/core/ai_assistant.py:119 | the success condition of the inner parse: both labels are found and the first `CHANGES_LIST:` is found after the first `CORRECTED_TEXT:` |
| Feedback.ParseBlock | backend/core/ai_assistant.py:113-132 | the inner parse either takes the inner fallback (an error message and one entry) or gives a stripped corrected text and well-formed entries |
| Feedback.MarkersInOrder | backend/core/ai_assistant.py:109 | the success condition of the outer parse: both markers are found and the first end marker is found after the first start marker |
| Feedback.ParseFeedback | backend/core/ai_assistant.py:99-142 | parsing is total: it gives a fallback result with exactly one entry, or a stripped corrected text whose entries are all non-empty with no whitespace at either end |
| Feedback.Block | backend/core/ai_assistant.py:111 | `parsed_content` is empty, or at least the two markers' lengths shorter than the reply |
| Feedback.LabelsFallback | backend/core/ai_assistant.py:116-132 | the inner fallback result is returned exactly when a label is missing or the first `CHANGES_LIST:` is not after the first `CORRECTED_TEXT:`; its one entry is the prefix followed by `parsed_content` |
| Feedback.MarkersFallback | backend/core/ai_assistant.py:106-137 | the outer fallback result is returned exactly when a marker is missing or the first end marker is not after the first start marker; its one entry is the prefix followed by the whole reply |
| Feedback.SuccessEntryBound | backend/core/ai_assistant.py:119-128 | on the success path no entry is longer than `parsed_content` |
| Feedback.CleanedChangesBound | backend/core/ai_assistant.py:124-128 | a length bound on the lines carries over to the entries |
| Feedback.ChangesSection | backend/core/ai_assistant.py:121 | `changes_raw` is never longer than `parsed_content` |
| Feedback.ChangesAtMostLines | backend/core/ai_assistant.py:121-128 | the changes list has at most one entry more than `changes_raw` has newlines |
| Feedback.OverlappingMarkers | backend/core/ai_assistant.py:109-111 | when the first end marker starts inside the start marker, `parsed_content` is empty and the inner fallback is returned with the bare prefix as its entry |
| Feedback.OverlappingMarkersExample | backend/core/ai_assistant.py:106-111 | the reply `---START_RESPONSE---END_RESPONSE---` gives exactly that result |
| Feedback.OverlapReplyMarkers | backend/core/ai_assistant.py:106-107 | in that reply the markers are found at indices 0 and 17 |
| Feedback.FramedMarkers | backend/core/ai_assistant.py:106-107 | in a reply made of a start-marker line, a body and an end-marker line, with no end marker before the last line, the markers are found at its two ends |
| Feedback.FramedBlock | backend/core/ai_assistant.py:109-111 | the `parsed_content` of such a reply is its stripped body |
| Feedback.WrappedBlock | backend/core/ai_assistant.py:106-111 | such a reply parses as its body does |
| ReplyFormat.CleanBullet | backend/core/ai_assistant.py:125-127 | a bullet line `- c` of a change `c` passes the filter and cleans back to `c` |
| ReplyFormat.CleanBulletCrlf | backend/core/ai_assistant.py:125-127 | the same line with the `'\r'` that `split('\n')` leaves behind after a Windows line ending also cleans back to `c` |
| ReplyFormat.CleanedBullets | backend/core/ai_assistant.py:124-128 | the bullet lines of changes the format can carry clean back to those changes |
| ReplyFormat.EmptySectionReadsBack | backend/core/ai_assistant.py:121-128 | an empty changes section gives an empty list |
| ReplyFormat.SectionReadsBack | backend/core/ai_assistant.py:121-128 | a non-empty changes section as rendered gives back its changes |
| ReplyFormat.BodyStripped | backend/core/ai_assistant.py:111 | the rendered text between the markers has no whitespace at either end |
| ReplyFormat.LabelsInBody | backend/core/ai_assistant.py:116-117 | in the rendered body both labels are found where they were written |
| ReplyFormat.CorrectedReadsBack | backend/core/ai_assistant.py:120 | the corrected text is read back from between the labels |
| ReplyFormat.ChangesReadBack | backend/core/ai_assistant.py:121-128 | the changes are read back from after `CHANGES_LIST:` |
| ReplyFormat.RenderReply | backend/core/ai_assistant.py:67-73 | a reply in the requested format: the start marker, the `CORRECTED_TEXT:` line, the `CHANGES_LIST:` line, one `- ` bullet per change and the end marker, joined by newlines; `ReplyForm` and `RoundTrip` state what it means |
| ReplyFormat.ReplyForm | backend/core/ai_assistant.py:67-73 | a rendered reply is its body between a start-marker line and an end-marker line |
| ReplyFormat.EndMarkerOnlyLast | backend/core/ai_assistant.py:107 | the rendered reply has no end marker before its last line |
| ReplyFormat.RoundTrip | backend/core/ai_assistant.py:99-128 | parsing a reply written in the requested format gives back the corrected text and the changes that were written |
| ReplyFormat.OneChangeReply | backend/core/ai_assistant.py:67-73 | a reply with one change is the five lines of the format |
| ReplyFormat.ExampleReadsBack | backend/core/ai_assistant.py:99-128 | the reply with the sentence "I am happy." and the change "Fixed tense." parses to exactly that sentence and that one-entry list |

## Left out

- `EnglishWritingAssistant.__init__` (`backend/core/ai_assistant.py:9-42`) is left out. It reads environment variables, builds the provider's client and prints.
- The prompt f-string (`backend/core/ai_assistant.py:62-77`) is left out apart from the reply format it requests, which `ReplyFormat.RenderReply` writes. The instructions and the interpolated user text are not modelled.
- The chat-completion call, the `openai.APIError` to `RuntimeError` translation and the `RuntimeError` for a missing client (`backend/core/ai_assistant.py:57-58, 81-96, 144-151`) are left out. They are network I/O through a provider library that is not part of this model. The model takes the reply text as its input.
- The SDK can return `None` as the message content. The model's input is always a string, so that case is not modelled.
- The `print` calls in the two fallback branches (`backend/core/ai_assistant.py:130, 135`) are left out. They write the raw reply to standard output. When standard output cannot encode a character of the reply (a lone surrogate on UTF-8 output with strict errors, or non-Latin text on an ASCII or cp1252 output), `print` raises `UnicodeEncodeError`. The `except openai.APIError` clause does not catch it, so on those fallback paths `get_feedback` raises instead of returning the fallback dictionary. The model does not capture this: `ParseFeedback` always returns the fallback result. The success path has no `print`.
- The `__main__` demo block and all of `backend/app/main.py` (HTTP routing, startup and status-code mapping) are not part of this model.
- Feedback.CleanLineFirstChar: the expected property that no entry starts with '-' is proved only for lines whose only whitespace is the space character, because it is false for other lines (see `Feedback.CleanLineCanStartWithDash`).
- ReplyFormat.RoundTrip: the round trip is proved only for a corrected text and changes that the format can carry. The corrected text must have no whitespace at either end and must not contain `CHANGES_LIST:` or the end marker. Each change must be non-empty, have no whitespace at either end, not start with '-', fit on one line and not contain the end marker. Other inputs do not survive the format.
- Strings are sequences of Dafny `char`, which are Unicode scalar values. A Python `str` can also hold lone surrogate code points (U+D800 to U+DFFF), and such characters cannot be represented in the model. They are neither whitespace nor part of any marker or label, so `find`, `strip()`, `lstrip` and `split` would pass over them as over any other non-space character. Printing them on a fallback path can raise, as the line about `print` says.
