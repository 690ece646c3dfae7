# InvoiceNet text utilities, modelled in Dafny

InvoiceNet finds invoice fields by turning each page into candidate phrases and labelling
those that look like dates or amounts. This project models the text utilities in
`invoicenet/common/util.py` that do that work and proves what they promise. The modelled
steps are:

- splitting a PDF text line into words, character by character;
- grouping OCR words into lines by their bounding boxes;
- enumerating every run of one to `length` consecutive words of each line (an n-gram);
- classifying each n-gram as a date or an amount;
- the `TextParser` behind that classification (`parse`, `find` and `replace` over a
  template of regular expressions);
- normalising a matched amount or date to its canonical string.

Each step is modelled in the form the code has:

- A loop that updates variables is a `method` with a loop and invariants, proved against a
  specification function. These are `ExtractWords`, `DivideIntoLines`, `CreateNGrams`,
  `Find` and `Replace`.
- Expression-only code is a `function`, with lemmas about it. This covers the n-gram
  comprehension, `parse` and `normalize`.

Modules, one file each:

- `Wrappers`: `Option` and `Result`.
- `Seqs`: the Python built-ins the code relies on:
  - list concatenation;
  - `str.split` and `str.replace` of one character;
  - slicing with `[:n]`;
  - `list(set(...))`.
- `Dates`: naive `datetime` values and `strftime('%m-%d-%Y')`. The date discovery routine
  and the clock are the injected `DateEngine`.
- `Patterns`: the three regular expressions of the template, written as greedy scanners, and
  `re.findall` / `re.sub` over them. No pattern has an empty match, and at each position the
  greedy scan finds the match Python's backtracking matcher finds:
  - In the amount pattern, `\d+[,\d]*` is a digit followed by any run of digits and
    commas, and a dot must follow it. A dot is neither a digit nor a comma, so the dot can
    only come right after the longest such run. The final `\d+` takes every digit it can.
  - In the date patterns, every bounded digit run except the last is followed by a
    separator, which is not a digit. A run shorter than the greedy one would leave a digit
    where the separator must be. The last run takes as many digits as it can.
- `TextParser`: `parse`, `find` and `replace`. The parser's only field is a template it
  never changes, so the template is the constant `TEMPLATE`.
- `PdfWords`: the character loop of `pdfminer_extract_words`.
- `LineSegmenter`: `divide_into_lines`.
  - The code compares `gap / height > 0.005` and `gap / width > 0.05` in floating point.
  - For positive page dimensions these comparisons agree with `200 * gap > height` and
    `20 * gap > width`, and the model uses those. Division rounding could only make them
    differ for pages more than about 10^15 pixels across.
- `NGrams`: the token comprehension and the classification loop of `create_ngrams`.
- `Normalizer`: `normalize`.

Collaborators outside the code are parameters of the model:

- `datefinder.find_dates` is the function `DateEngine.findDates`. It returns the discovered
  dates in order, or `Failed` when the routine, or comparing its dates with the clock, raises.
- `datetime.datetime.today()` is the value `DateEngine.now`.

Two behaviours of the code worth stating plainly, since a reader might expect otherwise:

- Amounts are not padded. `normalize` cuts the fraction with `splits[1][:2]` and never pads
  it, so `"1,234.5"` becomes `"1234.5"`, not `"1234.50"`. In the model this is
  `Normalizer.NormalizeOneDot` with `a = "1234"` and `b = "5"`.
- Date failures in `normalize` are not caught. Only `parse` and `find` wrap the date
  discovery in a `try`; the date branch of `normalize` has none. So `Normalizer.Normalize`
  returns `Err(DiscoveryFailed)` when discovery fails.

## Model

| member | source | states |
|---|---|---|
| Seqs.Dedup | invoicenet/common/util.py:72 | `list(set(values))`: no value occurs twice, every value of the input occurs, and nothing else does |
| Seqs.Remove | invoicenet/common/util.py:222 | `text.replace(",", "")`: no comma is left, every other character stays, and a text without commas is unchanged |
| Seqs.RemoveAppend | invoicenet/common/util.py:222 | removing from a concatenation removes from each part, so order and multiplicity of the other characters are kept |
| Seqs.RemoveOne | invoicenet/common/util.py:222 | one character is removed exactly when it is the comma |
| Seqs.Take | invoicenet/common/util.py:227 | `s[:2]`: the prefix of length two, or the whole sequence when it is shorter |
| Seqs.SplitJoin | invoicenet/common/util.py:223 | `str.split`: one more piece than separators, and the pieces joined back with the separators give the input |
| Seqs.SplitHead | invoicenet/common/util.py:223-227 | `splits[0]` is everything before the first separator; without a separator the split is the input alone; otherwise the remaining pieces split what follows the first separator |
| Seqs.SplitPieces | invoicenet/common/util.py:223 | no piece of a split holds a separator |
| Seqs.SplitSeparatorFree | invoicenet/common/util.py:206 | a sequence without separators splits into itself alone |
| Seqs.SplitAfterSeparator | invoicenet/common/util.py:206 | what follows a last separator, holding none itself, is the last piece of the split |
| Seqs.SplitSnoc | invoicenet/common/util.py:93-100 | reading one more item: a separator opens a new empty piece, any other item extends the last piece |
| Dates.NotAfter | invoicenet/common/util.py:43 | `date <= today()` on naive datetimes: compare year, month, day, hour, minute, second, microsecond in turn; its order properties are `Dates.NotAfterTotalOrder` |
| Dates.NotAfterTotalOrder | invoicenet/common/util.py:43 | the comparison is reflexive, total, antisymmetric and transitive |
| Dates.NotFuture | invoicenet/common/util.py:43 | the filter `date <= today()`: keeps exactly the dates not after now; empty exactly when every date is in the future |
| Dates.NotFutureAppend | invoicenet/common/util.py:43 | the filter keeps discovery order: filtering a concatenation filters each part |
| Dates.NotFutureFirst | invoicenet/common/util.py:229-231 | when some date is not in the future, the filter is non-empty and its first date, the one `matches[0]` reads, is the first such date in discovery order |
| Dates.NotFutureAt | invoicenet/common/util.py:43 | when every date before position i is in the future and the one at i is not, the filter starts with the date at i |
| Dates.FutureFrontDropped | invoicenet/common/util.py:43 | future dates at the front are all dropped |
| Dates.Format | invoicenet/common/util.py:62 | `strftime('%m-%d-%Y')`: ten characters, dashes at positions 2 and 5, digits elsewhere |
| Dates.FormatRoundTrip | invoicenet/common/util.py:62 | the formatted string reads back as the date's month, day and year |
| Dates.FormatSameDay | invoicenet/common/util.py:62 | two dates format alike exactly when they fall on the same calendar day |
| Dates.DateStrings | invoicenet/common/util.py:58-66 | the date strings `find` returns are non-empty exactly when a date is detected, each in the 10-character form |
| Dates.DateDetected | invoicenet/common/util.py:41-49 | `parse(text, 'date')`: discovery succeeds and some discovered date is not after now; `Dates.DateStrings` is non-empty exactly then |
| Dates.ClockExample | invoicenet/common/util.py:43 | a date of 2021-09-01 is not detected when now is 2021-08-01, and is detected when now is 2021-09-02 |
| Patterns.AmountAt | invoicenet/common/util.py:36 | a match of the amount pattern is non-empty, stays inside the text, and has the amount shape |
| Patterns.AmountFound | invoicenet/common/util.py:36 | conversely, wherever a text of the amount shape begins, the scanner finds a match there |
| Patterns.DayFirstAt | invoicenet/common/util.py:37 | a match of the day-first date pattern is non-empty and stays inside the text |
| Patterns.YearFirstAt | invoicenet/common/util.py:38 | a match of the year-first date pattern is non-empty and stays inside the text |
| Patterns.MatchAt | invoicenet/common/util.py:36-38 | the end of the match of a template pattern that starts exactly at a position: non-empty and inside the text |
| Patterns.FindAll | invoicenet/common/util.py:53 | `re.findall`: the leftmost match, then the scan resumes at its end; it reports at most as many matches as there are characters left |
| Patterns.Sub | invoicenet/common/util.py:79 | `re.sub`: each match `findall` would report replaced, every other character kept; its length is stated by `Patterns.SubCountsMatches` |
| Patterns.FindAllAmounts | invoicenet/common/util.py:71 | every string `re.findall` returns for the amount pattern is a substring of the text of the shape digit, digits or commas, dot, one or more digits |
| Patterns.FindAllNonEmptyIffSearch | invoicenet/common/util.py:53 | `re.findall` finds something exactly when the pattern matches at some position |
| Patterns.SubWithoutMatch | invoicenet/common/util.py:79 | where `re.findall` finds nothing, `re.sub` leaves the text unchanged |
| Patterns.SubCountsMatches | invoicenet/common/util.py:79 | `re.sub` with an empty replacement removes exactly as many characters as the matches `re.findall` reports hold |
| TextParser.AllMatchesNonEmpty | invoicenet/common/util.py:52-55 | the matches of all patterns of a key are non-empty exactly when some pattern has a match |
| TextParser.AmountMatches | invoicenet/common/util.py:36 | the amount key has one pattern, so its matches are those of the amount pattern |
| TextParser.Parse | invoicenet/common/util.py:40-55 | date key: some date strings are found, so a discovery failure reads as false. Template key: the matches of its patterns are not all empty. Unknown key: false |
| TextParser.ParseAmountIffAmountInText | invoicenet/common/util.py:50-55 | `parse(text, 'amount')` holds exactly when some part of the text has the amount shape |
| TextParser.ParseAmountIffSearch | invoicenet/common/util.py:50-55 | `parse(text, 'amount')` holds exactly when the amount pattern matches at some position |
| TextParser.Find | invoicenet/common/util.py:57-73 | date key: the non-future discovered dates as `MM-DD-YYYY`, in discovery order, none on failure. Unknown key: nothing. Template key: every match of its patterns, each once. Amount values have the amount shape and occur in the text. The result is non-empty exactly when `parse` holds |
| TextParser.Replace | invoicenet/common/util.py:75-82 | unknown key: the text unchanged. Template key: every match of each pattern substituted, then every run of spaces squeezed to one, so the result holds no double space |
| TextParser.SubAll | invoicenet/common/util.py:78-79 | the text after `re.sub` with each pattern of the key in turn; with an empty replacement it is never longer than the input |
| TextParser.CollapseOnce | invoicenet/common/util.py:81 | `text.replace('  ', ' ')`: each non-overlapping pair of spaces, left to right, becomes one; its partners are `TextParser.CollapseShrinks` and `TextParser.CollapseKeepsSqueeze` |
| TextParser.CollapseKeepsSqueeze | invoicenet/common/util.py:81 | one round of `replace('  ', ' ')` keeps the squeezed form of the text |
| TextParser.CollapseShrinks | invoicenet/common/util.py:80-81 | a round of `replace('  ', ' ')` never lengthens the text and shortens a text holding a double space, so the collapse loop ends |
| TextParser.SqueezeHasNoDoubleSpace | invoicenet/common/util.py:80 | a squeezed text holds no two spaces in a row |
| TextParser.SqueezeWithoutDoubleSpace | invoicenet/common/util.py:80-82 | a text without a double space is its own squeezed form, so the loop returns the squeezed text |
| PdfWords.NonEmptyPieces | invoicenet/common/util.py:95-96 | every kept piece has non-empty text; `PdfWords.NonEmptyKeeps` and `PdfWords.NonEmptyAppend` give completeness and order |
| PdfWords.NonEmptyKeeps | invoicenet/common/util.py:95-96 | no piece with non-empty text is dropped |
| PdfWords.NonEmptyAppend | invoicenet/common/util.py:95-96 | the kept pieces keep their order: filtering a concatenation filters each part |
| PdfWords.NonEmptyPiecesFree | invoicenet/common/util.py:95-96 | keeping only the text-carrying pieces keeps every piece free of separators |
| PdfWords.LineWords | invoicenet/common/util.py:93-100 | each emitted word is non-empty, has non-empty text, and holds no separator |
| PdfWords.ExtractWords | invoicenet/common/util.py:91-101 | the loop succeeds exactly when nothing is pending at the end. It then returns the text-carrying pieces between separators, in order, which together hold all the letter text of the line. Otherwise it fails with the pending characters |
| PdfWords.FinalState | invoicenet/common/util.py:101 | after the last item, the collected word is what is pending, and the collected words are the line's words |
| PdfWords.SeparatorStep | invoicenet/common/util.py:94-97 | a separator flushes the current word when its text is non-empty and starts an empty one, keeping the loop state |
| PdfWords.LetterStep | invoicenet/common/util.py:98-100 | any other character joins the current word, keeping the loop state |
| PdfWords.SeparatorKeepsText | invoicenet/common/util.py:94-97 | a separator adds no letter text, and flushing the word moves its text into the words, so the words and the current word still hold all letter text read so far |
| PdfWords.LetterKeepsText | invoicenet/common/util.py:98-100 | a letter adds its text to the current word and to the letter text alike |
| PdfWords.PendingIffNoFinalSeparator | invoicenet/common/util.py:101 | the final assert holds exactly when the line is empty or ends with a separator |
| LineSegmenter.StartsNewLine | invoicenet/common/util.py:178-187 | a word starts a new line after the previous one when its top is more than 0.5 % of the height lower or its left edge more than 5 % of the width right of the previous right edge |
| LineSegmenter.StartsNewLineIsRatioTest | invoicenet/common/util.py:178-187 | on a page of positive size, that integer test is exactly the code's two ratio comparisons read in exact arithmetic |
| LineSegmenter.DivideIntoLines | invoicenet/common/util.py:173-192 | the lines, concatenated in order, are the words. Only the first line may be empty, and it is empty exactly when the first word breaks against itself, never when its box has left at most right. No line holds a break between neighbours. Each later line starts with a word that breaks after the one before it |
| LineSegmenter.StartWithEmptyLine | invoicenet/common/util.py:174-182 | the first word breaking against itself leaves an empty first line |
| LineSegmenter.StartWithWord | invoicenet/common/util.py:174-189 | otherwise the first word opens the first line |
| LineSegmenter.NewLine | invoicenet/common/util.py:178-187 | a word that breaks after the previous word starts a new line |
| LineSegmenter.SameLine | invoicenet/common/util.py:188-189 | a word that does not break joins the current line |
| LineSegmenter.NewLineExactlyAtBreaks | invoicenet/common/util.py:177-190 | word k > 0 begins a later line exactly when its vertical gap from word k-1 exceeds 0.5 % of the height or its horizontal gap exceeds 5 % of the width |
| LineSegmenter.FirstBreak | invoicenet/common/util.py:177-187 | when the first line holds words and a second line follows, the word opening the second line breaks after the last word of the first |
| LineSegmenter.NoBreakOneLine | invoicenet/common/util.py:177-191 | with no break anywhere, the words form a single line |
| LineSegmenter.NoVerticalBreakUpwards | invoicenet/common/util.py:178 | a vertical gap that is zero or negative never breaks a line by itself |
| LineSegmenter.PageExample | invoicenet/common/util.py:183 | on a 1000 × 100 page, a horizontal gap of exactly 50 pixels stays on the line; 51 pixels starts a new one |
| NGrams.Slices | invoicenet/common/util.py:201 | `[line[i:i + N] for i in range(len(line) - N + 1)]`; count and contents in `NGrams.SlicesAt` |
| NGrams.LineTokens | invoicenet/common/util.py:201 | the spans of one line, lengths 1 to `length`, shortest first; count and positions in `NGrams.LineTokensCount` and `NGrams.LineTokenAt` |
| NGrams.Tokens | invoicenet/common/util.py:201 | the token comprehension over all lines; count, positions and shape in `NGrams.TokensCount`, `NGrams.TokenAt` and `NGrams.TokenIsSpan` |
| NGrams.SlicesAt | invoicenet/common/util.py:201 | for one length N, the slices number `max(0, L - N + 1)`, and slice i is `line[i:i+N]` |
| NGrams.LineTokensCount | invoicenet/common/util.py:201 | a line of L words gives the sum over N = 1..length of `max(0, L - N + 1)` tokens |
| NGrams.LineTokenAt | invoicenet/common/util.py:201 | in a line's tokens, the span of N words at offset i comes after all shorter spans, at offset i among spans of its own length |
| NGrams.LineTokenIsSpan | invoicenet/common/util.py:201 | every token of a line is `line[i:i+N]` for some 1 ≤ N ≤ length that fits |
| NGrams.TokensCount | invoicenet/common/util.py:201 | the token list is as long as the per-line counts added up |
| NGrams.TokenAt | invoicenet/common/util.py:201 | every span of every line is a token, at the position fixed by ordering on line, then length, then offset |
| NGrams.TokenIsSpan | invoicenet/common/util.py:201 | every token is `lines[j][i:i+N]` for some line j and 1 ≤ N ≤ length |
| NGrams.WordsText | invoicenet/common/util.py:206 | `' '.join` of the words' texts; its inverse is `NGrams.WordsTextSplit` |
| NGrams.WordsTextSplit | invoicenet/common/util.py:206 | when no word text holds a space, splitting the joined text at spaces gives back the words' texts in order |
| NGrams.AtMostOneParse | invoicenet/common/util.py:211-214 | a classified n-gram carries at most one parse |
| NGrams.Classify | invoicenet/common/util.py:206-215 | one token's n-gram: its words are the token. It has `date` exactly when a date is detected, holding the first date found. It has `amount` exactly when no date but an amount is detected, holding one of the amounts found. It has no other key |
| NGrams.CreateNGrams | invoicenet/common/util.py:205-217 | one n-gram per token, in token order, each with that token as its words, classified as above, with at most one parse |
| Normalizer.NormalizeAmount | invoicenet/common/util.py:221-227 | the amount branch of `normalize`; its cases, shape and idempotence are the lemmas below |
| Normalizer.NormalizeAmountCases | invoicenet/common/util.py:222-227 | read off the first dot of the comma-free text: without one the result is that text followed by `.00`; with one it is the text before it, a dot, and at most two characters of what follows, up to the next dot |
| Normalizer.NormalizeAmountWithoutDot | invoicenet/common/util.py:222-225 | an amount without a dot becomes the comma-free text followed by `.00` |
| Normalizer.NormalizeAmountWithDot | invoicenet/common/util.py:222-227 | an amount with a dot becomes: the comma-free text before its first dot, a dot, then at most two characters of what follows, up to the next dot. Nothing is padded |
| Normalizer.NormalizeOneDot | invoicenet/common/util.py:222-227 | with one dot and no commas left, the result is the part before the dot, the dot, and the first two characters after it |
| Normalizer.AmountParts | invoicenet/common/util.py:222-227 | a normalised amount is a part without dot or comma, a dot, and at most two characters without dot or comma |
| Normalizer.NormalizeAmountShape | invoicenet/common/util.py:221-227 | a normalised amount has no comma, exactly one dot, and at most two characters after it |
| Normalizer.NormalizeAmountIdempotent | invoicenet/common/util.py:221-227 | normalising an amount twice gives the same as normalising it once |
| Normalizer.Normalize | invoicenet/common/util.py:220-232 | amount key: the normalised amount. Any other key is read as a date: the first date `find` returns when a date is detected, the text unchanged when discovery finds no non-future date, and an error when discovery fails |

## Left out

- `pdfminer_extract_lines` (`invoicenet/common/util.py:115-123`) is not modelled. It reads PDF files through pdfminer's `extract_pages`.
- `extract_words_using_ocr` (`invoicenet/common/util.py:125-170`) is not modelled. It calls pytesseract or the AWS Textract service and does floating-point `floor`/`ceil` on normalised coordinates.
- The engine dispatch at the top of `create_ngrams` (`invoicenet/common/util.py:196-200`) is not modelled. It reads files and images; `NGrams.CreateNGrams` starts from the lines.
- `dpi_scaling` is not modelled, nor the box the loop of `pdfminer_extract_words` builds for each word. The box is calculated in floating point from pdfminer's character boxes. `PdfWords` models which characters form which word and their text.
- `PdfWords.LayoutItem` has only characters and `LTAnno` items. The code's `assert isinstance(char, LTChar)` for any other kind of item is therefore not modelled.
- The internals of `datefinder.find_dates`, and the ambient clock, are parameters of the model: `DateEngine.findDates` and `DateEngine.now`. The code reads `today()` again for each date compared; the model uses one `now` per call to `parse`, `find` or `normalize`, and across the two calls of `NGrams.Classify`, as the next line says.
- `Dates.Day` allows 1 to 31 in every month, because the model never builds dates itself and `datefinder` only yields valid ones.
- `Dates.Format` pads the year to four digits. Python's `%Y` on years below 1000 depends on the platform.
- `Patterns.IsDigit` accepts the ASCII digits only. Python's `\d` also matches other Unicode decimal digits.
- `Patterns.Sub` inserts the replacement literally. Backslash escapes and group references in the replacement string are not interpreted.
- `Patterns.DayFirstAt` and `Patterns.YearFirstAt` only promise a non-empty match inside the text. They do not state the date shape, because `replace` is the only user of the two date patterns and its properties do not depend on it.
- `NGrams.Classify` passes one `DateEngine` to both its `parse` and its `find` call, so both see the same discovery result and the same clock reading. The code runs `datefinder.find_dates` and reads `today()` again in each call, and the two calls could disagree if the clock moved past a discovered date in between.
- `TextParser.Find`, for a template key, promises the values without duplicates and with the same members as the matches, but not their order, because Python's set order is unspecified.
- `NGrams.Classify`, for an amount, only promises that the stored value is one of the amount matches with the amount shape, not which one, for the same reason.
- `LineSegmenter.DivideIntoLines` requires a first word and a page of positive height and width. On an empty word list the code raises `IndexError`, and on a zero dimension it raises `ZeroDivisionError`; the model covers neither. Page dimensions come from image sizes, so they are positive.
- `invoicenet/__init__.py` holds constant tables with no behaviour to model.
