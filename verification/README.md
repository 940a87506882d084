# AI Resume Analyzer: score parser, report layout and length guard

This project models the three pieces of deterministic logic in the resume
analyzer page (`app.py`) and proves properties of them in Dafny 4.11.

- **Score parser** (`extract_ats_score`). It searches a completion text for
  `ATS SCORE\s*:\s*(\d{1,3})`, reads the captured digits as a number, caps the
  number at 100, and returns 0 when nothing matches. Module `AtsScore` models
  this. `MatchAt` runs the pattern at one position, the way a backtracking
  matcher settles it. `RegexMatch` reads the pattern declaratively, with an
  existential over the two whitespace runs. `Search` is the leftmost-match
  scan of `re.search`. Module `ScoreExamples` works through concrete answers.
- **Report layout** (the drawing loop of `generate_pdf`). The answer is split
  on `"\n"`. Each segment is cut to 110 characters. The segments are placed
  from `y = height - 40` downwards in steps of 14 points. A new page starts
  when `y` falls below 40. Module `Lines` models `str.split("\n")` and its
  inverse join. Module `ReportLayout` models the loop as a recursive function
  over the cursor. Its output is a list of `Placed(page, y, text)` records
  instead of canvas calls. The page height is a parameter, and US Letter
  (792 points) is the case the page uses.
- **Length guard** (the processing loop). A document whose extracted text
  has fewer than 100 characters is reported as not analysable and skipped.
  Every other document is sent to the completion service, scored and laid
  out. Module `Pipeline` models the loop. An analysed outcome keeps the
  service's answer. `Score` derives from that answer the score the page
  shows, and `Report` the lines of the downloadable PDF report. The page
  itself shows the answer whole. The completion service samples its
  answers, so it is modelled as the parameter `service`. That parameter is an
  arbitrary function of the call's number in this pass over the uploaded
  files and of the text sent. Each run of the page starts the count at 0
  again. Two calls with the same text may therefore get different answers.

All arithmetic is exact integer arithmetic. ReportLab gives the Letter
height as the float 792.0. Every value the loop computes from it is a whole
number, so integers lose nothing.

The search is not tied to lines. `re.search` scans the whole answer, so
the whitespace on either side of the colon may include newlines. This is
how the prompt template at `app.py:122-123` lays the field out, and the
model follows the code here.

## Model

| member | source | states |
|---|---|---|
| AtsScore.ExtractAtsScore | app.py:144-149 | The parsed score is always between 0 and 100. |
| AtsScore.Search | app.py:145 | `re.search` picks the leftmost match. A found position matches, with the digits reported, and no earlier position matches. When nothing is found, the pattern matches at no position. |
| AtsScore.MatchAtIffRegex | app.py:145 | The fixed-start matcher captures `d` at `p` exactly when the text at `p` reads `ATS SCORE`, whitespace, `:`, whitespace, then a greedy 1-3 digit run `d`. Both directions are proved. |
| AtsScore.IsSpace | app.py:145 | No character `\s` accepts is a colon, a digit or a capital `A`, so the pattern's whitespace runs never have to give characters back. The set itself is the code points Python's `str.isspace()` accepts. |
| AtsScore.IsDigit | app.py:145 | `\d`, limited to the ASCII digits. No digit is a colon or a capital `A`. |
| AtsScore.MatchAt | app.py:145 | Trying the pattern at one start position: a capture means the label is at that position and the capture is 1 to 3 digits. Its agreement with the pattern is `MatchAtIffRegex`. |
| AtsScore.SkipSpaces | app.py:145 | `\s*` takes the maximal whitespace run: every skipped character is whitespace and the next one is not. |
| AtsScore.DigitRun | app.py:145 | `\d{1,3}` is greedy: at most three characters, all digits, and it stops early only at a non-digit or at the end of the text. |
| AtsScore.DigitsValue | app.py:147 | `int()` of a k-digit run is below 10^k. |
| AtsScore.DecimalRoundTrip | app.py:147 | Reading the decimal rendering of `n` gives back `n`. |
| AtsScore.CanonicalRoundTrip | app.py:147 | Rendering `int(d)` gives back `d` for any digit run without a leading zero, the single digit `0` included. With DecimalRoundTrip, reading and rendering are inverse on canonical decimal strings. |
| AtsScore.LeadingZerosIgnored | app.py:147 | Leading zeros do not change the value `int()` reads. |
| AtsScore.NoMatchScoresZero | app.py:146-149 | If the pattern matches at no position, the score is 0. |
| AtsScore.LeftmostMatchDecides | app.py:145-148 | When the leftmost match captures `d`, the score is `min(int(d), 100)`. Later labelled scores are ignored. |
| AtsScore.CapturedPrefix | app.py:145-148 | Capping the first three digits of `str(n)` at 100 gives the same result as capping `n`. |
| AtsScore.LabelledScore | app.py:145-148 | A text whose first match is `ATS SCORE`, any whitespace, `:`, any whitespace, then `n` in decimal (not followed by a digit) scores `min(n, 100)`. This holds for numbers longer than three digits too. |
| AtsScore.NoMatchWithoutLabelStart | app.py:145 | The label is case-sensitive: no match starts where the text does not read a capital `A`. |
| ScoreExamples.ReportScenario | app.py:144-149 | `"STRENGTHS:\n- Good formatting\nATS SCORE: 87\nWEAKNESSES:\n- Too long"` scores 87. |
| ScoreExamples.PromptLayoutScenario | app.py:122-123 | The layout the prompt asks for, with the number on the line after `ATS SCORE:`, is read: `"ATS SCORE:\n92\n"` scores 92. |
| ScoreExamples.OverMaxScenario | app.py:148 | `"ATS SCORE: 150"` scores 100. |
| ScoreExamples.FourDigitScenario | app.py:145-148 | The search on `"ATS SCORE: 1500"` finds its match at position 0, capturing `150`, and the text scores 100. |
| ScoreExamples.LeadingZeroScenario | app.py:145-147 | The search on `"ATS SCORE: 0087"` finds its match at position 0, capturing `008`, and the text scores 8. |
| ScoreExamples.LowerCaseScenario | app.py:145-149 | The label is case-sensitive: `"ats score: 80"` has no match at any position, the search finds nothing, and the default score 0 is returned. |
| ScoreExamples.SkippedLabelScenario | app.py:145 | An earlier `ATS SCORE` without a colon is passed over: `"ATS SCORE pending\nATS SCORE: 64"` scores 64. |
| ScoreExamples.LaterLabelScenario | app.py:145 | The first labelled score wins: `"ATS SCORE: 40\nATS SCORE: 90"` scores 40. |
| Lines.Split | app.py:160 | `split("\n")` gives at least one segment, and no segment contains a newline. |
| Lines.SplitCount | app.py:160 | There is one segment more than there are newlines, so the empty text gives one empty segment. |
| Lines.JoinSplit | app.py:160 | Joining the segments with newlines restores the text. |
| Lines.SplitJoin | app.py:160 | Splitting joined newline-free segments gives the segments back. |
| ReportLayout.Truncate | app.py:161 | `line[:110]` is a prefix of the line, at most 110 characters long. It is the whole line when the line is no longer than that. |
| ReportLayout.Layout | app.py:159-165 | The loop started at `y = height - 40` on the first page draws one line per segment. Each line shows its segment cut to 110 characters, and the first line goes on page 0 at `height - 40`. |
| ReportLayout.LayoutFrom | app.py:160-165 | The loop draws one line per segment, in order, each showing its segment cut to 110 characters. |
| ReportLayout.RenderReport | app.py:159-165 | A report gets `count("\n") + 1` drawn lines. Line `i` shows segment `i` cut to 110 characters. |
| ReportLayout.LayoutFromWalk | app.py:159-165 | Line `i` is drawn where `i` turns of the cursor update have moved the cursor (step down 14 points, or back to the top of the next page). |
| ReportLayout.WalkFromOrigin | app.py:162-165 | After `n` lines from the top of the first page, the cursor is on page `n / K`, row `n % K`, where K is the number of lines per page. |
| ReportLayout.LayoutSlots | app.py:159-165 | Line `i` lands on page `i / K` at `y = height - 40 - 14 * (i % K)`. |
| ReportLayout.LayoutWithinMargins | app.py:159-165 | On a page at least 80 points tall, every line is drawn at a height between the 40-point margin and `height - 40`. |
| ReportLayout.LetterLayout | app.py:156-165 | On US Letter a page holds 51 lines. Line `i` goes on page `i / 51` at `y = 752 - 14 * (i % 51)`, so always between 52 and 752. |
| ReportLayout.LayoutPages | app.py:162-165 | Pages fill in order: the first line is on page 0, each line is on its predecessor's page or the next one, and `n` lines use `ceil(n / K)` pages. |
| ReportLayout.NarrowReportRoundTrip | app.py:160-161 | When no line of a report is longer than 110 characters, the drawn texts joined with newlines are the report itself. |
| Pipeline.ProcessOne | app.py:178-182 | A document is skipped exactly when its text is shorter than 100 characters, and it keeps its name. |
| Pipeline.Score | app.py:183 | The score shown for an analysed file is at most 100. |
| Pipeline.Report | app.py:205 | The report for an analysed file draws one line per newline-separated segment of the service's answer, which is `count("\n") + 1` lines. |
| Pipeline.ProcessAll | app.py:173-183 | There is one outcome per uploaded file, in upload order. Each file keeps its name and is skipped exactly when its text is too short. File `i` is answered by the call numbered by how many earlier files were sent. |
| Pipeline.CallsIncrease | app.py:178-182 | Every analysed file makes its own call. More calls are made before any later file than before file `i`. Taking the end of the list as `j`, file `i`'s call number is below the total number of calls. |
| Pipeline.ServiceSeesOnlyLongTexts | app.py:178-182 | Only long texts reach the service, and only as calls 0 up to the number of files sent. Two services that give the same answers to those calls produce the same outcomes for the whole upload. |
| Pipeline.ShortTextNeverAnalysed | app.py:178-180 | A text under 100 characters is skipped without a score. Its outcome does not depend on what the completion service would answer. |
| Pipeline.LongTextAnalysed | app.py:182-183 | A text of 100 characters or more gets the answer to its own call. Its score comes from the leftmost match of the score pattern in that answer, and is 0 when the answer has no match. |
| Pipeline.ProcessAppend | app.py:174-183 | Running the loop over two lists one after the other gives the outcomes of the first list. Then come those of the second, with the second list's call numbers continuing after the first's. |
| Pipeline.SkipTakesNoCall | app.py:178-180 | Inserting a short document changes nothing in the number of calls. |
| Pipeline.SkipInserted | app.py:174-180 | The loop from the first file over a list with a short document inserted gives the outcomes before it, then `Skipped` for it, then the outcomes after it. The files after it continue from the call count of the files before. |
| Pipeline.SkipKeepsOthers | app.py:174-180 | Inserting or removing a short document leaves every other outcome and their order unchanged, given the same answers to the same calls. |

## Left out

- The page itself: configuration, styling, header, upload control, spinner, score bar, result panel, download button and footer (`app.py:20-95`, `app.py:185-224`). This is presentation only. The score bar's `ats_score / 100` is a float.
- `analyze_resume` (`app.py:110-139`). It is a network call to a hosted completion API that samples its answer (temperature 0.2). `Pipeline` takes the service as the parameter `service`. That parameter is an arbitrary answer for each call number and text, so the prompt, the sampling and the model behind the service are not modelled. The model does not cover failures of that call, which are unhandled in the source.
- `extract_text` (`app.py:100-105`). It wraps a PDF library whose behaviour is not visible here. `Pipeline.Document` holds the text after extraction. The model assumes extraction and the report's temporary file succeed. In the source an exception from either (a corrupt or encrypted PDF, a failed file write) is not handled, so it ends the loop and the files after that one get no outcome. The rows for `Pipeline.ProcessAll` and `Pipeline.SkipKeepsOthers` hold for uploads where both succeed.
- Canvas calls, the temporary file and the read-back of the PDF (`app.py:155-156`, `app.py:161`, `app.py:164`, `app.py:167-168`, `app.py:206`). These are library I/O. The model lists where each line is drawn. It does not cover the PDF bytes, the fixed x-coordinate 40 of every line, or how many pages the library finally writes when the last page ends exactly on a page break.
- The error message text shown for a skipped file (`app.py:179`). `Pipeline.Outcome` records only that the file was skipped.
- Loading the credential from the environment (`app.py:14-15`). This is process-level I/O.
- AtsScore.ExtractAtsScore: treats only the ASCII digits `0`-`9` as digits. Python's `\d` and `int()` also accept other Unicode decimal digits, and the model scores text that uses those as if no digit were there. Whitespace follows Python's `str.isspace()` exactly.
- ReportLayout.LayoutWithinMargins: requires a page at least 80 points tall. On a shorter page the source draws every line on its own page, below the margin. `Layout` models that case, and only the bound needs the height.
