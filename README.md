# ICAI course slot monitor — a Dafny model

The monitor opens the ICAI online registration page once per configured
course. It selects the Southern region, the HYDERABAD POU and the course,
clicks "Get List", and then decides from the result page whether a batch is
open. For each course with an open batch it sends one Telegram alert and
adds the course to the run summary.

This project models the two parts of `icai_slot_alert.py` that hold logic:

- **The availability classifier** (`classifier.dfy`, with the string
  operations it uses in `text.dfy`). The result page is abstracted as three
  observations: the page source, the number of `table tr` elements and the
  text of the first `table`. Each observation is either the value the browser
  returned, Selenium's `NoSuchElementException`, or some other exception
  (`Probe`). With this, the nested `try`/`except` blocks are modelled exactly.
  A missing row or table falls through to the next rule. Any other exception
  turns into "no slots". The rules run in the source's first-match order: an
  indicator phrase in the lower-cased source, then more than one row, then
  more than 50 characters of stripped table text, and otherwise "no slots".
  `Check` adds the cascade: if any step of the Region/POU/Course selection or
  the click raised (`CascadeFailed`), the answer is `false`.
- **The run loop** (`monitor.dfy`). `RunChecks` walks the course list in
  order. For each course it takes a `Visit`: either the page load raised, or
  the check ran to a `CheckOutcome`. It builds the run summary and the list
  of alerts sent, and it is proved to produce exactly the order-preserving
  filter of the courses whose check returned true, with one alert per entry.
- **The alert text** (`notify.dfy`): the fixed prefix, the course name and
  the fixed suffix, with a parser that recovers the course name from it.

The browser and Telegram are outside the model. The browser's effect on each
course is a parameter of `RunChecks` (the `visits` sequence), and so is
whether Telegram accepts a message (`delivered`, whose answer the loop
ignores, as the source does).

Facts about the code that the model keeps:

- Cascade steps are separated by fixed `time.sleep` dwells
  (`icai_slot_alert.py:142`, `151`, `160`, `170`).
- A failed course check returns `False` (`icai_slot_alert.py:216-225`) and
  cannot be told apart from "checked, no slot". Only an exception while
  loading the page (`icai_slot_alert.py:258-261`) skips the check. Both leave
  the summary unchanged (`SkippedCourseChangesNothing`).
- Rows are counted with the selector `table tr` over the whole page
  (`icai_slot_alert.py:193`).

## Model

| member | source | states |
|---|---|---|
| `Classifier.AvailableIffEvidence` | icai_slot_alert.py:172-214 | a page is classified available exactly when its source was read, holds no indicator phrase, and it either has more than one `table tr` row or (with the row lookup not having raised) a first table whose stripped text exceeds 50 characters |
| `Classifier.ContainsAny` | icai_slot_alert.py:185-188 | the indicator loop finds a phrase exactly when some phrase of the list occurs in the text |
| `Classifier.IndicatorsAreLowerCase` | icai_slot_alert.py:178-183 | none of the four indicator phrases has an upper-case letter |
| `Classifier.ShowsNoBatchIgnoresCase` | icai_slot_alert.py:175-188 | the lower-cased source contains an indicator exactly when some indicator occurs in the original source in some mix of upper and lower case |
| `Classifier.NoBatchPhraseWins` | icai_slot_alert.py:175-188 | an indicator phrase, in any case, anywhere in the source makes the verdict false, whatever the rows and table text are |
| `Classifier.ManyRowsMeanAvailable` | icai_slot_alert.py:193-196 | with no indicator, more than one `table tr` row makes the verdict true |
| `Classifier.FewRowsDecidedByTableText` | icai_slot_alert.py:191-210 | with no indicator and at most one row (or no rows found), the verdict is true exactly when a first table exists and its stripped text is longer than 50 characters |
| `Classifier.FiftyCharactersAreNotEnough` | icai_slot_alert.py:206 | stripped table text of exactly 50 characters, with at most one row, gives false |
| `Classifier.PaddingDoesNotChangeVerdict` | icai_slot_alert.py:205-208 | white space around the table text never changes the verdict |
| `Classifier.FailuresMeanNoSlots` | icai_slot_alert.py:212-225 | a failed cascade, an unreadable page source, a row lookup that raised, or a table read that raised (when rows did not already decide) all give false |
| `Classifier.FirstIndicatorIsRedundant` | icai_slot_alert.py:178-183 | "no batch available" contains "no batch", so the phrase list without its first entry finds a phrase in exactly the same texts |
| `Text.ContainsIff` | icai_slot_alert.py:186 | Python's `indicator in page_text` holds exactly when the phrase occurs at some index |
| `Text.ContainsLowerIgnoresCase` | icai_slot_alert.py:175-186 | searching the lower-cased source for a phrase without capitals is a case-insensitive search of the original source |
| `Text.LowerIsLower` | icai_slot_alert.py:175 | the lower-cased source has no capitals, and lower-casing it again changes nothing |
| `Text.StripShape` | icai_slot_alert.py:205 | `strip()` returns a slice of its input with only white space before and after it, and it neither starts nor ends with white space |
| `Text.StripIgnoresPadding` | icai_slot_alert.py:205 | white space added before and after a string does not change what `strip()` returns |
| `Notify.CourseOfAlert` | icai_slot_alert.py:67 | the course name sits verbatim between the fixed prefix and suffix of the alert and can be read back out |
| `Notify.AlertOfCourseOf` | icai_slot_alert.py:67 | any message from which a course name is read back is exactly that course's alert |
| `Notify.AlertMessageInjective` | icai_slot_alert.py:67 | different courses get different alerts |
| `Monitor.RunChecks` | icai_slot_alert.py:237-261 | the summary is the in-order filter of the configured courses whose check returned true, and the alerts sent are one per summary entry, in the same order, whatever the delivery results |
| `Monitor.AvailableAppend` | icai_slot_alert.py:245-256 | the summary of a run over two consecutive course lists is the two summaries joined |
| `Monitor.AvailableMembership` | icai_slot_alert.py:245-256 | a course is in the summary exactly when some visit to it found a slot |
| `Monitor.AvailableIsSubsequence` | icai_slot_alert.py:245-256 | the summary lists courses in configured order (an order-preserving subsequence) |
| `Monitor.AvailableWithinConfigured` | icai_slot_alert.py:245-256 | no course appears in the summary more often than it is configured |
| `Monitor.SkippedCourseChangesNothing` | icai_slot_alert.py:247-261 | a course whose page load raised, whose check failed or whose page said no leaves the summary as if it had not been configured, so the loop carries on with the rest |
| `Monitor.AvailableDistinct` | icai_slot_alert.py:245-256 | distinct configured courses give a summary without repeats |
| `Monitor.ConfiguredRunAlertsOnce` | icai_slot_alert.py:41-45 | for the three configured courses, each is reported and alerted at most once, and no two alerts are the same |
| `MonitorScenarios.TwoCourseRun` | icai_slot_alert.py:245-256 | a first course whose page has three rows and a second whose page says "No Batch Available" give a summary of just the first course and one alert for it |

## Left out

- The Selenium cascade (`icai_slot_alert.py:133-170`): waits, dropdown selections by visible text and the "Get List" click are browser calls. Their combined result is the `CheckOutcome` given to the model. The region and POU constants are used only there; the URL is used only by the page load at `icai_slot_alert.py:250` (see below).
- All `time.sleep` dwells (`icai_slot_alert.py:142`, `151`, `160`, `170`, `251`, `257`): timing only.
- Driver set-up and teardown (`setup_chrome_driver`, `driver.get`, `driver.quit`, `icai_slot_alert.py:86-117`, `250`, `276-283`): browser process management. Page-load failure is the `NavigationFailed` visit.
- The Telegram HTTP POST and its error handling (`icai_slot_alert.py:69-83`): network I/O. Its true/false result is the `delivered` parameter, which the loop ignores. The `parse_mode: HTML` rendering of the text is not modelled.
- The credential check and `sys.exit` at start-up and on driver errors (`icai_slot_alert.py:48-54`, `270-275`), the summary log lines (`icai_slot_alert.py:263-268`) and all logging: process plumbing and output only.
- Text.LowerChar: maps only the ASCII letters A-Z and leaves every other character unchanged, while Python's `str.lower()` also lower-cases capitals outside ASCII.
- Monitor.RunChecks: what the browser produces on each course's turn is a given `Visit`; how it depends on the earlier turns in the shared browser session is not modelled.
