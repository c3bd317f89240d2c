# condense-info: the text rules of main.py in Dafny

condense-info is a small Streamlit application. It summarises a document with a
Gemini model, or analyses it for bias. The summary is shown, read aloud with
gTTS, and exported as a PDF with FPDF. This project models the deterministic
string logic of `main.py` and proves properties of it.

Modules:

- `PyStr` models the Python `str` built-ins that the code relies on:
  - `replace`: left to right, without overlaps;
  - `isspace`, `strip`;
  - `splitlines`, with all of its line boundaries; `\r\n` counts as one boundary, and there is no trailing empty piece;
  - `split("\n")`, `"\n".join`;
  - `in`, `lower`.
- `Latin1` models `encode("latin-1", "replace")` and `decode("latin-1")`.
- `PdfExport` models `create_pdf`:
  - the replacement chain (delete `**`, delete `#`, map the bullet, em dash and curly quotes to ASCII);
  - the per-line strip over `splitlines`;
  - the Latin-1 round trip;
  - the layout loop. The loop is an imperative method that emits one abstract drawing operation per line: `Advance(8)` for a blank line (`pdf.ln(8)`), otherwise `Cell(15, w - 30, 8, line)` (`set_x` followed by `multi_cell`).
- `Speech` models the text sent to the speech synthesiser and the voice requested.
- `Generation` covers the model requests:
  - the bias prompt and the summary prompt, with each secret passed in as an `Option<string>`;
  - the retry on `gemini-2.5-flash-lite` after a quota-type error;
  - the empty-response check.

Normalising the PDF text is **not idempotent**, and the model proves it.
- `"*#*"` becomes `"**"`, which normalises to `""`: deleting `#` brings two `*` together.
- `"a\n\n"` becomes `"a\n"` and then `"a"`: `splitlines` drops the final terminator.

The PDF lines are counted over `Pieces`: the `splitlines` pieces of the text
after the replacement chain, which is the text main.py:52 splits. They are not
the pieces of the input. The chain can empty a piece: `"#"` is one non-blank
input line, but it lays out as a single advance. The chain can also merge two
boundaries: `"\r**\n"` has two input pieces, but deleting `**` leaves one
`\r\n` boundary, so it lays out as one operation. `ChainEmptiesLine` and
`ChainMergesBoundaries` prove both examples.

## Model

| member | source | states |
|---|---|---|
| PyStr.ReplaceAll | main.py:41-50 | `str.replace` scans left to right without overlap; every character of the result comes from the text or the replacement |
| PyStr.ReplaceAllAbsent | main.py:41-50 | a replace whose pattern does not occur leaves the text unchanged |
| PyStr.ReplaceCharPointwise | main.py:44-49 | replacing one character by one character keeps the length and changes exactly the occurrences of that character |
| PyStr.ReplaceAllRemoves | main.py:43 | after replacing a character by a text that does not contain it, the character no longer occurs |
| PyStr.DeleteDoubleStarLeavesNone | main.py:42 | deleting `**` leaves no `**` in the text |
| PyStr.DeleteDoubleStarOnRun | main.py:42 | a run of n stars becomes n mod 2 stars, so `***` keeps one star |
| PyStr.IsSpace | main.py:52 | the characters `str.isspace` accepts; `StripEmptyIffAllSpace` and `Strip` state what strip does with them |
| PyStr.Strip | main.py:52 | `strip()` gives the infix of the text that starts after its leading whitespace; everything after the infix is whitespace, and the infix has no whitespace at either end |
| PyStr.StripEmptyIffAllSpace | main.py:58 | a line strips to `""` exactly when every character is whitespace |
| PyStr.StripTrimmed | main.py:52 | stripping a text that has no whitespace at either end changes nothing |
| PyStr.IsLineBoundary | main.py:52 | the ten characters `str.splitlines` breaks at (`\r\n`, the eleventh boundary, is two characters and is handled by `SplitLinesAtCrLf`); `SplitLinesAtBoundary` states how it cuts at each of them |
| PyStr.SplitLines | main.py:52 | `splitlines()` gives no pieces exactly for the empty text, and no piece contains a line boundary |
| PyStr.SplitLinesAtBoundary | main.py:52 | a line followed by any line boundary is split off as the first piece and the boundary is dropped; the exception is `\r` followed by `\n` |
| PyStr.SplitLinesAtCrLf | main.py:52 | `\r\n` is dropped as one boundary, so it opens no empty piece |
| PyStr.SplitLinesAtNewlineOf | main.py:52 | a line followed by `\n` is split off as the first piece |
| PyStr.BoundaryThenLine | main.py:52 | a boundary followed by a line ended by `\n` splits into an empty piece and that line |
| PyStr.JoinSplitLines | main.py:52 | for a text whose only boundary is `\n`, joining its `splitlines` pieces with `\n` restores it, apart from one final `\n` |
| PyStr.Join | main.py:52 | `"\n".join` uses only the separator and the pieces' characters; `SplitJoin` and `JoinSplit` tie it to `split` |
| PyStr.Split | main.py:56 | `split("\n")` gives at least one piece, and no piece contains `\n` |
| PyStr.SplitJoin | main.py:52-56 | splitting a `\n`-join of a non-empty list of lines without `\n` at `\n` gives those lines back (the empty list joins to `""`, which splits to `[""]`) |
| PyStr.JoinSplit | main.py:56 | joining the `split("\n")` pieces with `\n` restores the text |
| PyStr.Contains | main.py:174 | Python's `in` on strings: the pattern occurs at some position; `QuotaErrorWithin` and `NotQuotaErrorWithoutQR` use it |
| PyStr.Lower | main.py:174 | `lower()` keeps the length and lower-cases each character |
| Latin1.Encode | main.py:53 | one byte per character: the code point itself when it is below 256, otherwise `?` |
| Latin1.Decode | main.py:53 | Latin-1 decoding never fails and gives one character per byte, with the same value |
| Latin1.DecodeEncode | main.py:53 | the encode/decode round trip returns the text exactly when every character is below 256 |
| Latin1.EncodeDecode | main.py:53 | encoding after decoding returns the bytes |
| Latin1.Replace | main.py:53 | the round trip keeps the length; every character of the result is below 256; characters below 256 are kept and each other character becomes one `?` |
| Latin1.ReplaceIdempotent | main.py:53 | a second round trip changes nothing |
| PdfExport.StripMarkdown | main.py:42-43 | after deleting `**` and then `#`, no `#` remains and no new character appears; a `**` can reappear, as `NormaliseNotIdempotentOnMarkers` shows |
| PdfExport.AsciiPunctuation | main.py:44-49 | the six replaces; `AsciiPunctuationPointwise` states their effect character by character |
| PdfExport.ReplaceChain | main.py:41-50 | the eight replaces in source order; `ReplaceChainRemovesMarkers`, `TripleStarKeepsOne` and `CleanTextUnchanged` state their effect |
| PdfExport.StripLines | main.py:52 | each `splitlines` piece is stripped and the pieces are joined with `\n`; `StripLinesChars` and `NormalisedLines` state the result |
| PdfExport.StripLinesChars | main.py:52 | the per-line strip adds no character other than `\n` |
| PdfExport.Normalise | main.py:41-53 | the whole clean-up; `NormalisedLines`, `NormalisedLineCount`, `NormalisedLinesTrimmed` and `NormalisedCharacters` state its lines and characters |
| PdfExport.ReplaceChainRemovesMarkers | main.py:41-50 | after the replacement chain, no `#`, bullet, em dash or curly quote remains |
| PdfExport.TripleStarKeepsOne | main.py:42 | the chain turns `***` into `*` |
| PdfExport.AsciiPunctuationPointwise | main.py:44-49 | the six punctuation replaces keep the length and map each character independently to its ASCII stand-in |
| PdfExport.CleanTextUnchanged | main.py:41-50 | a text without `**`, `#` or the six punctuation characters passes the chain unchanged |
| PdfExport.ChainDeletesBold | main.py:41-50 | one `**` between two texts without stars or markers is deleted, and the chain leaves the two texts joined |
| PdfExport.SafeLine | main.py:52-53 | the line for one piece is the stripped piece with every character from 256 up turned into `?`; it has no whitespace at either end, uses only characters below 256, and is empty exactly when the piece is blank |
| PdfExport.NormaliseIsJoinOfSafeLines | main.py:41-53 | the normalised text is the `\n`-join of the cleaned `splitlines` pieces |
| PdfExport.NormalisedLines | main.py:52-56 | splitting the normalised text at `\n` gives exactly the cleaned `Pieces` (the `splitlines` pieces of the text after the replacement chain), or one empty line when there are none |
| PdfExport.NormalisedLineCount | main.py:52-56 | the line count equals the number of `splitlines` pieces of the text after the replacement chain (`Pieces`), except that a text without pieces gives one line |
| PdfExport.NormalisedLinesTrimmed | main.py:52-56 | no line of the normalised text starts or ends with whitespace |
| PdfExport.NormalisedCharacters | main.py:41-53 | every character of the normalised text is below 256 and is not a removed marker, and the only line boundary left is `\n` |
| PdfExport.NormaliseLatin1Text | main.py:41-53 | for Latin-1 text with no `**` and no `#`, normalising only strips each line and rejoins with `\n` |
| PdfExport.NormaliseNotIdempotentOnMarkers | main.py:41-53 | `"*#*"` normalises to `"**"`, which normalises to `""` |
| PdfExport.NormaliseNotIdempotentOnBlankLines | main.py:52 | `"a\n\n"` normalises to `"a\n"`, which normalises to `"a"` |
| PdfExport.ChainEmptiesLine | main.py:41-52 | `"#"` is one non-blank `splitlines` piece, but the text after the chain has no piece, so `LayoutOfPieces` gives it a single advance |
| PdfExport.ChainMergesBoundaries | main.py:41-52 | `"\r**\n"` has the two pieces `""` and `"**"`, but the text after the chain has the one piece `""`, since deleting `**` joins `\r` and `\n` into one boundary |
| PdfExport.BoldHeadingThenParagraph | main.py:41-56 | a bold heading, a blank line and a paragraph give three lines: the heading without markers, an empty line, and the paragraph, each with ASCII punctuation and stripped |
| PdfExport.SummarySample | main.py:41-56 | `"**Summary**\n\nThis is a test — with a “quote”."` gives the lines `"Summary"`, `""` and `This is a test - with a "quote".` |
| PdfExport.DashAndQuotes | main.py:45-47 | an em dash and a pair of double curly quotes become `-` and `"`, and the characters around them are kept |
| PdfExport.LineOp | main.py:57-61 | the operation for one line: an advance of 8 for a blank line, otherwise a cell at the left margin holding the line; `Layout` and `LayoutOfPieces` state it per line |
| PdfExport.Layout | main.py:56-61 | one operation per line, in order |
| PdfExport.LayoutOfPieces | main.py:36-61 | per `splitlines` piece of the text after the replacement chain (`Pieces`): an advance of 8 when the piece is blank, otherwise a cell at x 15 of width w - 15 - 15 and height 8 holding the cleaned piece; a text without pieces gives a single advance |
| PdfExport.LayoutLines | main.py:56-61 | the loop emits exactly the layout of its lines |
| PdfExport.EmitLine | main.py:57-61 | one turn of the loop emits the operation for its line, and it is an advance exactly when the line is all whitespace |
| PdfExport.CreatePdf | main.py:34-61 | create_pdf lays out the `\n`-lines of the normalised text, one operation per `splitlines` piece of the text after the replacement chain (`Pieces`), or a single advance for a text without pieces |
| Speech.CleanForSpeech | main.py:193 | the spoken text contains no `*`, `#` or `\n` |
| Speech.CleanForSpeechIsSpoken | main.py:193 | the three replaces equal a character-by-character rule: `*` and `#` are dropped, `\n` becomes a space, every other character is kept |
| Speech.CleanForSpeechConcat | main.py:193 | the clean-up distributes over concatenation |
| Speech.CleanForSpeechPlain | main.py:193 | a summary without `*`, `#` or `\n` is spoken as written |
| Speech.SpeechText | main.py:193 | the text sent for speech has no `*`, `#` or `\n`, is a prefix of the cleaned summary, and is as long as the cleaned summary or 4500 characters, whichever is shorter |
| Speech.SpeechTextWhole | main.py:193 | a cleaned summary of at most 4500 characters is sent whole |
| Speech.TtsLang | main.py:194 | the voice is `"pt-br"` exactly for the codes `"pt"` and `"pt-br"`; every code other than `"pt"` is passed on unchanged |
| Speech.TtsLangOnMenu | main.py:123-194 | over the six-language menu, the Brazilian voice is chosen exactly for Portuguese, the other codes pass unchanged, and no two entries share a voice |
| Generation.BuildBiasPrompt | main.py:67-73 | the prompt is the configured instructions, `\n\n` and the text, or the default instruction followed by the text; either way it ends with the text |
| Generation.BiasPromptInjective | main.py:67-73 | different texts give different bias prompts |
| Generation.RequestBias | main.py:219-228 | a blank input is refused; otherwise the bias prompt is built from the stripped input |
| Generation.SummaryPrompt | main.py:162-166 | the summary prompt is the configured prompt and a line feed, then `IMPORTANT: Provide the entire response in <language>.`, a blank line and `TEXT:` on its own line, then the text |
| Generation.RequestSummary | main.py:149-166 | a blank input gives the warning, a missing summary prompt gives the error, and otherwise a prompt ending with the stripped input is sent |
| Generation.SummaryPromptEndsWithText | main.py:149-166 | the text closing a sent prompt is non-empty and has no whitespace at either end |
| Generation.SummaryPromptInjective | main.py:162-166 | with the same instructions and language, different texts give different prompts |
| Generation.IsQuotaError | main.py:174 | the lower-cased message contains `quota` or `resource`; `QuotaErrorWithin`, `QuotaErrorIgnoresCase` and `NotQuotaErrorWithoutQR` state its properties |
| Generation.ModelsCalled | main.py:168-180 | the second model is called exactly when the first raised an error whose lower-cased message contains `quota` or `resource` |
| Generation.GenerateWithFallback | main.py:168-180 | a reply from the first model is used; a non-quota error is raised again; after a quota error, the second model's outcome is used |
| Generation.FallbackOnlyAfterQuotaError | main.py:173-180 | the outcome differs from the first model's only after a quota error, and is then the second model's |
| Generation.Summarise | main.py:168-217 | the summary is shown exactly when the chosen reply has non-empty text, and it is that text; an empty reply gives the empty-response error; a raised error is reported with its message |
| Generation.QuotaErrorWithin | main.py:174 | a message that reports a quota error still does so inside a longer message |
| Generation.QuotaErrorIgnoresCase | main.py:174 | messages that differ only in letter case are classified alike |
| Generation.NotQuotaErrorWithoutQR | main.py:174 | a message with no `q` or `r` in either case is not a quota error |
| Generation.ResourceExhaustedIsQuotaError | main.py:174 | any message containing `RESOURCE` triggers the fallback |
| Generation.NotFoundIsNotQuotaError | main.py:174 | the message `404 NOT_FOUND` is raised again |

## Left out

- Streamlit UI: page layout, CSS, session state, `clear_text`, reruns, the file uploader, and text extraction with `pypdf` (main.py:10-31, 76-145). This is framework state and I/O.
- The Gemini client and `st.secrets`. Each secret is an `Option<string>`, and each model call is an already-known `Reply`.
  - A secret that is not a string, such as a TOML number formatted by the f-string, is not modelled.
  - A `response.text` of `None` is treated as the empty text.
- gTTS synthesis, `BytesIO` and the audio widget (main.py:195-201). Only the text and the voice code passed to gTTS are modelled.
- FPDF internals (main.py:35-39, 63-64): fonts, wrapping inside `multi_cell`, automatic page breaks, and serialisation to bytes. They appear only as the abstract operation sequence. The page width `pdf.w` is a `real` parameter rather than FPDF's floating-point A4 width.
- The download button and its file name (main.py:205-214).
- PyStr.Lower: lower-cases only ASCII letters. Python's full Unicode `lower()` is not modelled.
  - The quota test is unaffected. Apart from ASCII capitals, no character lower-cases into letters of `quota` or `resource`.
  - Only KELVIN SIGN (to `k`) and capital I with dot above (to `i` plus a combining dot) lower-case into ASCII at all.
- Lone surrogate code points are not modelled: Dafny characters are Unicode scalar values.
