# Chinese subtitle correction and translation: codec and batch reconciliation

The application reads a subtitle file in the shape of SubRip (SRT). Each cue
is an index line, a timing line and one or more text lines, and cues are
separated by a blank line. It runs up to two passes over the file. The first
pass corrects the Chinese text (`correct_chinese`). The second translates the
corrected file into Vietnamese (`translate_to_vietnamese`). Both passes use the
same algorithm:

1. parse the file into cues (`parse_srt`);
2. join all cue texts into one batch, with the marker `===PHÂN_CÁCH===` on a
   line of its own between two texts;
3. send the batch to a text-generation service;
4. split the answer on the marker;
5. strip every piece and drop the blank ones;
6. pad the list with the original texts of the cues that got no piece, then
   cut it to one text per cue;
7. write text `i` into cue `i`, in place;
8. render the cues back to a file (`format_srt`).

Four modules model this:

- `Strings` models the parts of Python's `str` that the code relies on:
  - `strip`, with Python's white-space set;
  - `split` on a non-empty separator, as a left-to-right scan that never
    overlaps a cut;
  - `join`.
- `Srt` is the codec. `Parse` and `Format` are the two directions, and
  `ParseSrt` is the loop that `parse_srt` runs. The lemmas cover which entries
  are kept, what a kept entry becomes, the order of the cues, both round trips
  and a fixpoint.
- `Batch` is one pass, with the service's answer given as a parameter:
  - `Pieces` turns the answer into clean pieces (steps 4 and 5);
  - `PadTexts` is the padding loop (step 6);
  - `AssignTexts` is the in-place assignment over an array of cues (step 7);
  - `Transform` runs the whole pass, and its result is stated through the
    specification function `Reconciled`;
  - the lemmas cover the batch round trip for a service that echoes its input,
    and what the next pass reads back.
- `Scenarios` works through concrete documents and answers.

`correct_chinese` and `translate_to_vietnamese` differ only in the wording of
their prompt, so `Batch.Transform` models both.

Notes on behaviour the model makes explicit:

- Format-then-parse returns the cues unchanged exactly when no index or
  timestamp contains a line break and each rendered entry contains no blank
  line and neither starts nor ends with white space
  (`Srt.RoundTripExactly`). It is not enough that no field contains a blank
  line: a text that begins with a line break puts a blank line into its
  entry, and that entry then falls apart on re-parse.
- Parse-then-format gives a document back unchanged exactly when it is empty
  or well-formed: stripped, with every entry stripped and of at least three
  lines (`Srt.FormatParseExactly`). The empty document is the exception: its
  one entry is empty and is dropped, and formatting no cues gives the empty
  document again.
- A file with Windows line ends (`"\r\n"`) contains no `"\n\n"`. It is read
  as a single entry, so it gives at most one cue (`Srt.ParseWithoutBlankLine`).
- A piece of the answer that contains a blank line splits its cue when the
  output is parsed again. This matters because the translation pass parses
  the output of the correction pass. The text after the blank line becomes
  new cues when it has at least three lines
  (`Scenarios.BlankLineInPieceAddsCue`). Otherwise it is an entry of fewer
  than three lines and is dropped without a word, so the cue keeps only the
  text before the blank line (`Scenarios.BlankLineInPieceLosesTail`). Without
  such pieces, the output parses back to exactly the reconciled cues
  (`Batch.ReparseOutput`).
- A cue text that contains the marker is cut in two when an answer that
  keeps it, such as one repeating the batch, is split. Every later cue then
  receives the piece meant for the one before it, and the last piece is
  ignored (`Scenarios.MarkerInTextShiftsPieces`).
  The batch round trip (`Batch.EchoRoundTrip`) therefore needs texts free of
  the marker. It also needs them stripped: a parsed text may start with
  white space, and its piece comes back stripped.
- The marker `===PHÂN_CÁCH===` is taken in composed form: `Â` is U+00C2 and
  `Á` is U+00C1.

## Model

| member | source | states |
|---|---|---|
| Strings.Split | streamlit_app.py:58 | `split` on a non-empty separator always yields at least one piece |
| Strings.StripSpec | streamlit_app.py:58 | `strip` never lengthens a string; the result is empty exactly when the string is all white space, and otherwise starts and ends with a non-space character |
| Strings.StripSlice | streamlit_app.py:58 | `strip` removes only a white-space prefix and a white-space suffix: the result is the part of the string between them |
| Strings.StripFixed | streamlit_app.py:61 | `strip` leaves a string unchanged exactly when the string is empty or starts and ends with a non-space character |
| Strings.StripIdempotent | streamlit_app.py:132 | stripping a second time changes nothing |
| Strings.JoinSplit | streamlit_app.py:58 | joining the pieces of a split with the same separator gives the original string back |
| Strings.SplitJoin | streamlit_app.py:72-75 | splitting a join gives the parts back when the separator cannot be found across a part boundary or inside the last part |
| Strings.SplitChar | streamlit_app.py:61-62 | splitting on one character gives one more piece than there are occurrences of it, and no piece contains it |
| Strings.SplitPiecesFree | streamlit_app.py:131 | no piece of a split contains the separator |
| Srt.ParseSrt | streamlit_app.py:55-68 | the entry loop of `parse_srt` returns exactly `Parse(content)`: one block per entry of at least three lines, in order |
| Srt.ParseEntryKept | streamlit_app.py:61-62 | an entry gives a block exactly when its stripped form has at least two line breaks |
| Srt.ParsedBlock | streamlit_app.py:61-66 | a parsed block's index and timestamp have no line break; the block renders back to the stripped entry; its text is the entry's lines from the third on |
| Srt.ParseEntriesAppend | streamlit_app.py:60-67 | the blocks of two consecutive runs of entries are the blocks of the first run followed by those of the second |
| Srt.ParseDropsMalformed | streamlit_app.py:62 | an entry of fewer than three lines is dropped silently, and the blocks before and after it are unaffected |
| Srt.ParseEntriesAllKept | streamlit_app.py:60-67 | when every entry has at least three lines, there is one block per entry, block `j` coming from entry `j` |
| Srt.ParseWithoutBlankLine | streamlit_app.py:58 | a document without a blank line yields at most one block |
| Srt.ParseEntryRender | streamlit_app.py:61-73 | a well-formed block, rendered, parses back to itself |
| Srt.FormatStripped | streamlit_app.py:58-75 | a formatted list of well-formed blocks, the empty list included, is left unchanged by `strip` |
| Srt.FormatEntries | streamlit_app.py:58-75 | splitting a non-empty formatted list of well-formed blocks on the blank line gives exactly the rendered blocks (the empty list formats to `""`, which splits to `[""]`) |
| Srt.ParseFormat | streamlit_app.py:55-75 | `parse_srt(format_srt(bs)) == bs` for well-formed blocks: no line break in index or timestamp, no blank line in a rendered entry, no white space at entry edges |
| Srt.RoundTripExactly | streamlit_app.py:55-75 | `parse_srt(format_srt(bs)) == bs` holds exactly when every block is well-formed: the condition is necessary as well as sufficient |
| Srt.ShortTailDropped | streamlit_app.py:58-67 | a well-formed block followed by a blank line and a single stripped line parses to that block alone: the short entry is dropped |
| Srt.FormatParse | streamlit_app.py:55-75 | `format_srt(parse_srt(c)) == c` for a stripped document whose entries are stripped and have at least three lines each |
| Srt.FormatParseOnlyIf | streamlit_app.py:55-75 | a non-empty document that `format_srt(parse_srt(c))` gives back unchanged is stripped, and its entries are stripped and have at least three lines each |
| Srt.FormatParseExactly | streamlit_app.py:55-75 | `format_srt(parse_srt(c)) == c` if and only if `c` is empty or stripped with every entry stripped and of at least three lines |
| Srt.WellFormedParts | streamlit_app.py:73 | a well-formed block has a non-empty index starting with a non-space, a non-empty timestamp, and a non-empty text ending with a non-space |
| Srt.SingleLineWellFormed | streamlit_app.py:73 | a block whose fields are single lines, with a non-empty index and timestamp and non-space entry edges, is well-formed |
| Srt.WithTextWellFormed | streamlit_app.py:139 | replacing a well-formed block's text with a stripped, non-blank text without a blank line keeps the block well-formed |
| Srt.ParseWellFormed | streamlit_app.py:55-68 | every block `parse_srt` returns is well-formed |
| Srt.ParseFormatParse | streamlit_app.py:55-75 | parsing a formatted parse gives the same blocks: format-then-parse is a fixpoint on parser output |
| Batch.CleanPieces | streamlit_app.py:132 | cleaning never yields more pieces than the split gave |
| Batch.CleanPiecesClean | streamlit_app.py:132 | every piece left after cleaning is stripped and not blank |
| Batch.CleanPiecesKeepsClean | streamlit_app.py:132 | pieces that are already stripped and not blank pass through unchanged |
| Batch.CleanPiecesAppend | streamlit_app.py:132 | cleaning works piece by piece, so a blank piece is dropped wherever it stands |
| Batch.CleanPiecesNoneBlank | streamlit_app.py:132 | when no piece strips to blank, every piece is kept and piece `k` is the stripped piece `k` |
| Batch.PadTexts | streamlit_app.py:134-136 | the padding loop gives exactly one text per block: piece `i` where there is one, otherwise the block's original text |
| Batch.AssignTexts | streamlit_app.py:138-139 | block `i` of the array gets text `i`, and its index and timestamp stay as they were |
| Batch.Transform | streamlit_app.py:106-141 | the pass returns the formatted reconciliation of the parsed blocks with the cleaned pieces of the answer |
| Batch.ReconciledSpec | streamlit_app.py:134-139 | the reconciled texts are the pieces padded with the original texts and cut to the block count; the block count and every index and timestamp are kept; pieces past the last block are ignored; an answer without pieces changes nothing |
| Batch.NoMarkerEndsBefore | streamlit_app.py:131 | a piece without `=` is cut right where the marker follows it, and contains no marker |
| Batch.SplitBatch | streamlit_app.py:109-131 | when there is at least one text and every text is stripped, not blank and free of the marker, splitting the batch on the marker gives one piece per text, and each piece strips to its text |
| Batch.EchoRoundTrip | streamlit_app.py:109-139 | an answer that repeats the batch it was sent gives back exactly the texts, and the pass leaves the blocks unchanged, when the texts are stripped, not blank and free of the marker |
| Batch.ReparseOutput | streamlit_app.py:138-141 | when no piece contains a blank line, the pass's output parses back to exactly the reconciled blocks, as many as were parsed |
| Scenarios.OnePiece | streamlit_app.py:131-132 | a clean answer in which the marker does not occur is a single piece |
| Scenarios.TwoPieces | streamlit_app.py:131-132 | two clean pieces around the marker give exactly those two pieces, when the marker occurs first right after the first piece and nowhere in the second |
| Scenarios.TwoCues | streamlit_app.py:55-75 | two well-formed cues separated by a blank line parse to those two cues |
| Scenarios.DocumentParses | streamlit_app.py:55-68 | the two-cue example document parses to its two cues |
| Scenarios.TwoPiecesCorrectBoth | streamlit_app.py:106-141 | an answer with two pieces corrects both cues of the example, keeping their indices and timestamps |
| Scenarios.OnePieceKeepsSecond | streamlit_app.py:134-136 | an answer with one piece corrects the first cue, and the second keeps its original text |
| Scenarios.BlankLineInPieceAddsCue | streamlit_app.py:138-141 | a one-cue document whose piece contains a blank line followed by three lines comes out as a document that parses to two cues |
| Scenarios.BlankLineInPieceLosesTail | streamlit_app.py:138-141 | a one-cue document whose piece contains a blank line followed by one line comes out as a document that parses to one cue, holding only the text before the blank line |
| Scenarios.MarkerInTextShiftsPieces | streamlit_app.py:109-139 | a cue text containing the marker makes an echoed batch yield one piece more than there are cues, so the second cue receives the tail of the first cue's text |

## Left out

- The Streamlit interface is not modelled because it is UI plumbing, not logic (streamlit_app.py:7-53 and 183-346). This covers page set-up, styling, session state, tabs, buttons, the upload and its UTF-8 decoding, and the text areas and downloads.
- `configure_api` is not modelled (streamlit_app.py:77-104). It probes a remote service's models over the network, one by one, through a foreign library.
- The calls to the text-generation service are not modelled (streamlit_app.py:128, 168). The service's answer is the `response` parameter of `Batch.Transform`, and nothing is assumed about it.
- The prompt wording and the optional style line are free text for the service (streamlit_app.py:111-126, 148-166). The model keeps only the batch embedded in the prompt, `Batch.BatchPayload`; the prompt also states the block count.
- The search-and-replace on the translated text is not modelled (streamlit_app.py:281-282). It is a single library `str.replace` driven by the interface.
- `translate_to_vietnamese` (streamlit_app.py:143-181) has no member of its own. Its code is that of `correct_chinese` line for line, apart from the prompt, so `Batch.Transform` and its lemmas stand for it too.
- Blocks mutated in place: the source updates each block dictionary through references held in a list. The model updates an array of block values in place (`Batch.AssignTexts`). Aliasing of a dictionary from elsewhere is not modelled, because no other reference to the dictionaries exists once `parse_srt` returns.
- Batch.CleanPieces: the function's own contract gives only the length bound. That the pieces are stripped and not blank is stated by `Batch.CleanPiecesClean`, which keeps the function cheap to reason about.
