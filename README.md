# Exam simulator: grading, countdown and start-up logic

A model of the logic inside the browser exam simulator's page script
(`script.js`). The page loads a question bank, shows a timed multiple-choice
form, and then grades it. The model covers:

- **Grading** (`Grader`). It takes the selected questions and the form's radio
  selections. It counts the answers that equal the stored answer exactly. It
  builds a per-topic `{correct, total}` breakdown, keyed in the order topics are
  first met, and an ordered list of per-question results. `GradeExam` is the
  source's loop with its accumulators. `Grade` describes the same report
  independently, using counting functions over the results. The lemmas prove
  what the counts mean: cardinalities, conservation of totals and correct
  counts, and the keys and their order.
- **Countdown** (`Countdown`, `Session`). `BandOf` gives the colour band for a
  number of seconds. `TimerText` gives the `Time Left: m:ss` text, using
  JavaScript's truncating `%`. `TimerStyle` gives each band's colour and
  animation. The session class keeps the remaining seconds, the `timer`
  handle and the set of scheduled intervals. `Tick` stands for one firing of
  the interval callback.
- **Exam start** (`Session`). A bank missing its `exam` or `questions` section
  is refused and nothing changes. Otherwise the first `num_questions`
  questions are selected, with `slice` semantics, and a fresh clock starts.
- **String filters** (`Filters`). `SanitizeId` keeps only `[A-Za-z0-9_-]`.
  `StripControl` removes the control characters `\x00-\x08`, `\x0B`, `\x0C`
  and `\x0E-\x1F`, and keeps tab, line feed and carriage return.
- **Radio ids** (`OptionIds`). This is a finding: ids built with `sanitizeId`
  can collide.

The page's global variables and its one mutable result
(`window.__latestResults__`) are the fields of the class
`Session.ExamSession`, except `userAnswers` (script.js:3, 230): grading
recomputes it from the form as `AnswersFrom(form)` rather than keeping it. Its invariant `Valid()` says four things:

- exactly one interval is scheduled while an exam is in progress, the one the
  page's `timer` variable holds, and none otherwise;
- once graded, the kept report is the grade of the current questions and form;
- every form selection is one of its question's options;
- the countdown grades at most once per exam.

In these edge cases the model follows what the code does:

- An empty `questions` array is accepted, because `![]` is false in
  JavaScript.
- A negative `num_questions` drops questions from the end of the bank, as
  `slice(0, n)` does.
- A selected option whose text is the empty string reads as "no answer",
  because of `fd.get(...) || null`.
- With a time limit of zero or less, grading fires on the first tick. At that
  point the remaining time is negative and the text shows negative fields,
  e.g. `-1:-1`.

## Model

| member | source | states |
|---|---|---|
| Filters.SanitizeId | script.js:182-184 | the result uses only `[A-Za-z0-9_-]`, is a subsequence of the input, and keeps every occurrence of each id character and none of any other |
| Filters.SanitizeIdIdempotent | script.js:182-184 | sanitizing twice equals sanitizing once |
| Filters.SanitizeIdFixedPoint | script.js:182-184 | a text is left unchanged exactly when all its characters are id characters |
| Filters.FilterConcat | script.js:183 | the global replace works character by character: filtering a concatenation is the concatenation of the filtered parts |
| Filters.StripControl | script.js:124 | the result holds none of `\x00-\x08`, `\x0B`, `\x0C`, `\x0E-\x1F`, is a subsequence of the input, and keeps every occurrence of every other character |
| Filters.StripControlTable | script.js:124 | boundary table: tab, LF, CR, space and DEL are kept; NUL, `\x08`, `\x0B`, `\x0C`, `\x0E`, `\x1F` are removed |
| Filters.StripControlIdempotent | script.js:124 | stripping twice equals stripping once |
| Decimal.NatToStringRoundTrip | script.js:205 | reading back the decimal text of a number gives the number |
| Countdown.BandOf | script.js:208-220 | green exactly above 600 s, yellow on 301..600, orange on 121..300, red at 120 or less |
| Countdown.TimerStyle | script.js:208-220 | above 600 s green `#2ecc71`, on 301..600 yellow `#f1c40f`, on 121..300 orange `#e67e22`, no animation in these three; at 120 or less red `#e74c3c` with `flashRed 1s infinite`; the four colours differ |
| Countdown.BandEdges | script.js:208-220 | 601 green, 600 yellow, 301 yellow, 300 orange, 121 orange, 120 red |
| Countdown.FlashesIffCritical | script.js:208-220 | the flashing animation is on exactly when at most 120 s remain |
| Countdown.BandMonotone | script.js:208-220 | less remaining time never gives a calmer band |
| Countdown.Minutes | script.js:203 | `Math.floor(t / 60)`: the largest `m` with `m * 60 <= t` |
| Countdown.Seconds | script.js:204 | JavaScript `t % 60`: for `t >= 0`, `0 <= s < 60` and `m * 60 + s == t`; for `t < 0`, `-60 < s <= 0` and `t - s` is a multiple of 60 |
| Countdown.PadStart2 | script.js:205 | `padStart(2, "0")`: the result has length two (or the input's, if longer), ends with the input and is zeros before it |
| Countdown.TimerText | script.js:203-205 | the text starts with `Time Left: `, has at least 15 characters, and has a colon just before the padded seconds |
| Countdown.TimerTextRoundTrip | script.js:203-205 | for `t >= 0` the text is `Time Left: m:ss` with exactly two seconds digits, and `value(m) * 60 + value(ss) == t` |
| Countdown.NegativeTimerText | script.js:203-205 | one second past zero shows `Time Left: -1:-1` |
| Grader.AnswerFrom | script.js:230 | an answer reads as absent exactly when nothing is selected or the selected option is the empty string; otherwise it is the selection |
| Grader.GradeExam | script.js:224-254 | the loop's correct count, breakdown and per-question list equal `Grade` of the questions and read answers; one result per question, in order, numbered from 1, copying topic, text and answer, with `is_correct` the exact comparison |
| Grader.Tally | script.js:242-244 | a new topic gets a zero entry at the end of the key order; then its total, and on a correct answer its correct count, rise by one |
| Grader.CountCorrect | script.js:239-240 | the correct count never exceeds the number of results |
| Grader.TopicCorrect | script.js:244 | a topic's correct count never exceeds its total |
| Grader.FirstEncounter | script.js:242 | the key order holds exactly the topics that occur, each once |
| Grader.FirstEncounterOrder | script.js:242-244 | an earlier key first occurs before any occurrence of a later key (first-encounter order) |
| Grader.BreakdownConservation | script.js:242-244 | over the key order, the topic totals add up to the number of results and the topic correct counts to the overall correct count |
| Grader.CountCorrectIsCardinality | script.js:239-240 | the correct count is the number of positions whose result is correct |
| Grader.TopicTotalIsCardinality | script.js:242-243 | a topic's total is the number of positions with that topic |
| Grader.TopicCorrectIsCardinality | script.js:242-244 | a topic's correct count is the number of positions with that topic and a correct result |
| Grader.CountCorrectExtremes | script.js:239-240 | the count is full exactly when every result is correct, and zero exactly when none is |
| Grader.GradeCorrectCount | script.js:230-240 | the correct count is the number of questions whose read answer equals the stored answer, so it lies between 0 and the number of questions |
| Grader.AbsentNeverCorrect | script.js:238-239 | an unanswered question is never marked correct |
| Grader.GradeEntries | script.js:246-253 | one result per question, in order, with index `k + 1`, the question's topic, text and answer, the read answer, and `is_correct` the comparison |
| Grader.GradeBreakdownKeys | script.js:242-244 | the breakdown's keys are exactly the questions' topics, each once, in first-encounter order, and the key order and the entries agree |
| Grader.GradeBreakdownCounts | script.js:242-244 | every entry has a positive total equal to the number of questions of that topic, and a correct count equal to the number of those questions whose read answer equals the stored answer, never more than the total |
| Grader.GradeBreakdownConservation | script.js:242-244 | the topic totals sum to the number of questions and the topic correct counts to the overall correct count |
| Grader.ScorePercent | script.js:256 | the exact score `correct / total * 100` lies in 0..100 and is 100 exactly when every question is correct |
| Session.SelectQuestions | script.js:84 | `slice(0, n)` is a prefix of the bank, of length `min(n, length)` for `n >= 0`, and of length `max(length + n, 0)` for negative `n` |
| Session.SelectQuestionsClamps | script.js:84 | a bank shorter than the count is used whole, never padded; a longer one is cut to the count |
| Session.ExamSession.constructor | script.js:1-5 | the page starts in setup with no questions, no answers, no clock and no results (a restart reloads into this state) |
| Session.ExamSession.StartExam | script.js:78-85 | a bank missing `questions` or `exam` is refused and changes nothing; otherwise the selected questions are `slice(0, num_questions)` and the exam starts |
| Session.ExamSession.StartWithParams | script.js:84-100 | the selection assigned just before the call becomes the exam's questions; every previously scheduled interval is cleared and exactly one new one is scheduled, held by `timer`, with `time_limit * 60` seconds; the form is empty; grading count reset |
| Session.ExamSession.StartTimer | script.js:187-199 | sets the remaining time, clears the interval `timer` holds, and schedules one under a handle never given out before, which `timer` then holds |
| Session.ExamSession.Select | script.js:162-170 | picking an option of a question sets that question's single selection and nothing else (radio group `q<idx>`) |
| Session.ExamSession.Submit | script.js:224-291 | grading clears the interval `timer` holds, leaving none scheduled, keeps `Grade` of the current questions and form with the given timestamp, and re-grading a graded session gives the same report |
| Session.ExamSession.Tick | script.js:191-198 | a firing takes exactly one second off; at `<= 0` it clears the interval and grades (automatic grading count becomes 1), otherwise the interval stays scheduled; with no interval scheduled nothing happens |
| Session.ExamSession.DownloadResults | script.js:364-366 | the download is refused with "No results to download yet." until some grading has run, and otherwise offers the latest results |
| Session.RunUntilExpiry | script.js:187-199 | from `t` seconds the interval fires `max(t, 1)` times, then grading has run exactly once on the unchanged form and the clock is stopped |
| Session.ScenarioGrade | script.js:237-254 | answers A, B and none against stored A, B, C give 2 of 3, topics in order LP (2 of 2) then WE (0 of 1) |
| Session.ExpiryScenario | script.js:187-199 | that bank with a one-minute limit and two answers: the clock fires 60 times and is then no longer scheduled, and the results offered are 2 of 3 with that breakdown (that grading ran exactly once is `Session.RunUntilExpiry`'s ensures) |
| OptionIds.RadioId | script.js:163 | the id `q<idx>_` plus the sanitized option uses only id characters |
| OptionIds.RadioIdsCollide | script.js:163 | two different options, "A." and "A)", of one question get the same radio id |
| OptionIds.PositionalRadioId | script.js:163 | an id made of the question and option positions uses only id characters |
| OptionIds.PositionalRadioIdInjective | script.js:163-165 | positional ids determine question and option, so no two radios share one |

## Left out

- DOM rendering is user interface and is not modelled. This covers the topic checkboxes (script.js:9-44), the exam form markup (script.js:155-179, apart from the radio ids), the results table (script.js:258-278) and the review list (script.js:294-361).
- Reading the form through `FormData` (script.js:229) is a browser API. The form is the field `form`, one selection per question. Radio exclusivity is the single `Option` per entry.
- The `toFixed(1)` rounding of the overall score and the per-topic accuracy (script.js:256, 273, 285) is floating-point formatting and is not modelled.
- Grader.ScorePercent: defined only for a non-empty exam. With no questions the page divides by zero and shows `NaN`.
- The timing of `setInterval` is left out: each firing is a call to `Tick`, made while some interval is scheduled. Browser handles are modelled as naturals that are never reused.
- Remaining time is an exact integer. The page's `timeRemaining` is an IEEE double, so the model agrees with the page only below 2^53 seconds. Above that, `timeRemaining--` leaves the value unchanged. From 1e21 up, the minutes print in exponent form. A `time_limit` that parses to `Infinity` never expires.
- The timestamp (`new Date()`, script.js:290) is the parameter `now`.
- File input and parsing are I/O: `FileReader`, `JSON.parse` and its error alert (script.js:69-90). The model starts from an already parsed `Bank`, and a missing or falsy section is `None`. It does not model the fields inside `exam` being missing or not integers.
- The bank is assumed well-formed: `questions` is an array of records with string `topic`, `question` and `answer` and an array of string `options`. Two consequences are not modelled. First, a string `questions` section, or a record without `options`, is not refused at script.js:78: the page clears the clock and switches to the exam view (script.js:94-96), then `loadExam` throws (script.js:158, 162), and the catch at script.js:86 alerts. This leaves an exam view with no clock, a state `Valid()` excludes. Second, a record with `"answer": null` makes an unanswered question count as correct, because `null === null` at script.js:239. `Question.answer` is a string, so this case cannot arise in the model.
- The config download, the results file download and the download in the decode helper are I/O (script.js:55-65, 126-131, 367-372). The download itself is reduced to `DownloadResults` returning the payload or the error.
- The decode helper calls foreign APIs and callers' code: `trim`, the armor-stripping regular expressions, whitespace removal, `atob`, `TextDecoder` and the JSON check (script.js:114-123, 125). Only the control-character strip (script.js:124) is modelled.
- The time scaling `Math.round(num * 1.2)` (script.js:48-52) is floating-point rounding and is not modelled.
- `startExam` (script.js:140-153) is never called and uses an undefined variable, so it is not modelled.
- Restart is `location.reload()` (script.js:107). It is modelled as a freshly constructed session.
- JavaScript objects list integer-like keys (such as a topic "42") in numeric order before the other keys. Topics named like inherited properties (such as "constructor") would find an inherited value in the breakdown object. The model keys every topic in insertion order and does not model these two cases.
- Characters are Unicode scalar values. The source's regular expressions run on UTF-16 code units. `sanitizeId` removes such a character whole, since both of its code units are in the negated class. The strip keeps it whole, since neither code unit is in its class. So the filters agree.

## Findings

| source | as written | input that shows it | evidently intended | confidence | as-written member | corrected member |
|---|---|---|---|---|---|---|
| script.js:163-165 | a radio's id is `q<idx>_` plus `sanitizeId(option)`, and its label points at that id through `htmlFor` | options "A." and "A)" of one question both get id `q0_A`, so the second label targets the first radio | one id per option, as the comment "Avoid id collisions on options" says | medium; not executed | OptionIds.RadioIdsCollide | OptionIds.PositionalRadioIdInjective |

The session model identifies a radio by its question and option positions (`ExamSession.Select(idx, choice)`). `OptionIds.PositionalRadioId` encodes exactly that pair.
