# Course seat monitor — verified model

The monitor watches one course section (CRN `31322`, COSC 031) on a college
timetable page. Each poll posts the search form, reads the table cells of the
reply, and finds the section's row. It reads the section's limit and enrolment
count from that row and notifies when a seat is open. On failure it backs off
exponentially. This project models the three pieces of logic in `monitor.py`
and proves properties about them:

- **Extractor** (`extractor.dfy`, with the integer parser in `int_parse.dfy`).
  This is the search half of `fetch_enrollment`. It finds the first cell whose
  stripped text is the CRN, reads the limit 15 cells later and the enrolment
  count 16 cells later, parses both, and returns `(enrolled, limit)`. It
  returns `None` when the CRN is missing, the row is cut short, or a cell is
  not an integer.
- **Backoff** (`backoff.dfy`): the wait `min(300 * 2^n, 1800)` seconds after
  the n-th consecutive failure.
- **Poll loop** (`poll_loop.dfy`): the body of `run`.
  - The state is the pair `(consecutive_failures, notified)`.
  - A poll either raises a request error or yields a page, which the step
    passes through the extractor.
  - Each poll produces one action: the sleep that follows it, the
    notification it sends (if any), and whether it logs "Class is full again.".
  - `Step` is the specification of one iteration. `HandlePoll` is the
    imperative iteration on the two locals. `Run` is the `while` loop over a
    finite sequence of polls; the end of that sequence stands for the keyboard
    interrupt.

Where the code disagrees with its own comment, or where it is easy to misread,
the model follows the code:

- **Notification is level-triggered.** The comment at `monitor.py:179` says
  "notify only on transitions", but `notify` runs on every poll that finds a
  seat open. `notified` only decides when "full again" is logged.
  `NotifiesOnEveryOpenPoll` and `OpenTwiceNotifiesTwice` state this behaviour.
- **Negative counts are accepted.** `int()` also accepts a signed cell such
  as `-3`, so the parser does too.
- **Over-long cells are rejected.** Python's `int()` raises `ValueError` on a
  string of more than 4300 digits (the default of
  `sys.get_int_max_str_digits()`), and `fetch_enrollment` then returns
  `None`. The parser rejects such cells too.
- **The first wait after a success is 600 seconds.** The failure counter is
  incremented before the wait is computed. So after a success the base
  interval of 300 seconds is slept once (`SleepSchedule`), and the first
  failure after it backs off for `2 * 300` seconds.

## Model

| member | source | states |
|---|---|---|
| `IntParse.ParseInt` | monitor.py:140 | `int(text)` on a cell: success needs a non-empty cell; a leading `-` gives a value of at most 0, anything else a value of at least 0; `ParseIntDefined`, `ParseIntRoundTrip`, `LeadingZeroParse`, `SignedParse` and `TooManyDigitsRejected` carry the rest |
| `IntParse.ParseIntDefined` | monitor.py:140 | the cell parser succeeds exactly on a string of 1 to 4300 digits with an optional leading `+` or `-`, stated character by character |
| `IntParse.ParseIntRoundTrip` | monitor.py:140 | parsing the decimal rendering of any integer of at most 4300 digits gives that integer back |
| `IntParse.LeadingZeroParse` | monitor.py:140 | a leading zero does not change the parsed value, as with `int("007") == 7`, as long as the cell stays within 4300 digits |
| `IntParse.SignedParse` | monitor.py:140 | a sign only sets the sign of the value: `"+d"` parses as `d` and `"-d"` as its negation, so `"+8"`, `"-07"` and `"-0"` give 8, -7 and 0 together with `LeadingZeroParse` |
| `IntParse.TooManyDigitsRejected` | monitor.py:140-143 | more than 4300 digits, signed or not, fail to parse, as `int()` raises `ValueError` on them |
| `Extractor.FindFrom` | monitor.py:131-132 | the scan returns the first index at or after its start whose cell equals the target, and returns `None` only when no such cell exists |
| `Extractor.RowAt` | monitor.py:137-143 | the `try` block at a CRN cell `i`: `Some` exactly when cell `i+16` exists and both offset cells parse, and then `(int(cells[i+16]), int(cells[i+15]))` |
| `Extractor.ExtractEnrollment` | monitor.py:129-146 | a result `(e, l)` comes from the first cell matching the CRN: `e` parses from offset 16 and `l` from offset 15 |
| `Extractor.ExtractAtFirstMatch` | monitor.py:131-143 | given the first match `i`, the result is `Some((int(cells[i+16]), int(cells[i+15])))` exactly when cell `i+16` exists and both cells parse; otherwise it is `None` |
| `Extractor.ExtractNoMatch` | monitor.py:145-146 | when no cell equals the CRN the result is `None` |
| `Extractor.ExtractFirstMatchOnly` | monitor.py:131-143 | when the first match's row is short or does not parse, the result is `None` even though a later cell also matches |
| `Extractor.ExtractIgnoresLaterCells` | monitor.py:131-140 | changing any cell past the first matching row leaves the result unchanged |
| `Extractor.ExtractWellFormedRow` | monitor.py:133-140 | a row made of the CRN, 14 cells of any text, the rendered limit and the rendered count yields `(count, limit)` when no earlier cell is the CRN and both numbers have at most 4300 digits |
| `Backoff.BackoffWait` | monitor.py:162 | `min(base * 2 ** n, cap)`: never longer than the cap; `BackoffBounded`, `BackoffMonotone`, `BackoffDoubles` and `BackoffReachesCap` carry the rest |
| `Backoff.BackoffBounded` | monitor.py:162 | the wait never exceeds the cap and never exceeds `base * 2^n`; below the cap it equals `base * 2^n` |
| `Backoff.BackoffMonotone` | monitor.py:162 | more consecutive failures never give a shorter wait |
| `Backoff.BackoffDoubles` | monitor.py:162 | each further failure doubles the wait until the cap is reached |
| `Backoff.BackoffReachesCap` | monitor.py:162 | with a positive base, the wait equals the cap once the failure count is at least the cap |
| `Backoff.ConfiguredSchedule` | monitor.py:26-27 | with 300 and 1800 seconds the waits after 1, 2 and 3 or more failures are 600, 1200 and 1800; every wait lies between 600 and 1800 |
| `PollLoop.PollResult` | monitor.py:158 | the `(enrl, lim)` a poll yields; a request exception never yields one |
| `PollLoop.Step` | monitor.py:156-195 | one loop iteration. The sleep never exceeds the cap. A notice quotes a positive spot count and leaves `notified` set. "Full again" is logged only when `notified` was set and is cleared. The failure count is 0 exactly after a successful poll. `StepOnFailure`, `StepOnSuccess` and `FailurePathsAgree` carry the rest |
| `PollLoop.FailurePathsAgree` | monitor.py:160-190 | a page from which nothing can be extracted has the same effect on state and action as a request exception |
| `PollLoop.StepOnFailure` | monitor.py:160-190 | a failed poll increments the failure count, leaves `notified` unchanged, sends nothing, logs no "full again", and sleeps only the capped backoff |
| `PollLoop.StepOnSuccess` | monitor.py:167-195 | a successful poll sets the failure count to 0 and `notified` to `enrl < lim`. It sleeps the base interval. It notifies exactly when `enrl < lim`, with `lim - enrl > 0` spots. It logs "full again" exactly when `notified` was set and the class is full |
| `PollLoop.StateAfterSummary` | monitor.py:153-183 | after any run of polls, the failure count is the number of failures since the last success, and `notified` says whether that success found a seat open (false if there was none) |
| `PollLoop.NotifiesOnEveryOpenPoll` | monitor.py:171-179 | poll k notifies exactly when it finds a seat open, whatever happened earlier, and the notice quotes `lim - enrl > 0` spots and both counts |
| `PollLoop.FullAgainOnOpenToFull` | monitor.py:180-183 | poll k logs "full again" exactly when it finds the class full and the last earlier success found it open |
| `PollLoop.SleepSchedule` | monitor.py:160-195 | each poll is followed by exactly one sleep: the base interval after a success, otherwise the backoff for the failures since the last success; it never exceeds the cap |
| `PollLoop.FullThenOpen` | monitor.py:167-179 | polls reading 10/10 and then 8/10 notify once, on the second poll, with 2 spots |
| `PollLoop.OpenThenFull` | monitor.py:171-183 | polls reading 8/10 and then 10/10 notify on the first poll, then clear `notified` and log "full again" without notifying |
| `PollLoop.OpenTwiceNotifiesTwice` | monitor.py:175-179 | two open polls in a row both notify; the flag does not suppress repeats |
| `PollLoop.ThreeFailures` | monitor.py:160-165 | three request errors from the start sleep 600, 1200 and 1800 seconds and leave the failure count at 3 |
| `PollLoop.FailuresThenSuccess` | monitor.py:160-195 | a success after three failures resets the count to 0 and sleeps the base interval |
| `PollLoop.HandlePoll` | monitor.py:157-190 | one iteration of the imperative loop body produces the new locals and the action that `Step` specifies |
| `PollLoop.Run` | monitor.py:153-195 | the loop over a finite sequence of polls, starting from `(0, False)`, ends in the state and action trace of the step fold; its failure count is the number of failures since the last success, and its `notified` is whether that success was open |

## Left out

- HTTP form post, payload, headers, timeout and `raise_for_status` (`monitor.py:119-125`): network I/O. Their effect is the `RequestError` poll outcome.
- BeautifulSoup parsing and `get_text(strip=True)` (`monitor.py:127-132`): a foreign library. The page is given as its already-stripped cell texts.
- `notify`, `send_email`, the `osascript` alert and the delayed friend-email thread (`monitor.py:77-111`): SMTP, a subprocess and a background thread. A notification is an abstract `Notice` carrying the spot count and both counts quoted in the message.
- `time.sleep`: an environment effect. It is modelled as the `sleepSeconds` of each action.
- Logging: beyond "Class is full again.", the log lines are not modelled.
- The `config` import, the title and email text: configuration and presentation.
- `KeyboardInterrupt`: the end of the poll sequence plays its part.
- Exceptions other than `requests.RequestException` are not modelled. Neither handler of `run` (`monitor.py:185`, `monitor.py:191`) catches them, so any of them ends the loop. They include errors raised while fetching or parsing, and errors raised inside `notify`: `subprocess.run` raises `FileNotFoundError` where `osascript` is missing, and `Thread.start` can fail. Such an error stops `run` after the "spot available" log line (`monitor.py:174`), before `notified` is set (`monitor.py:178`) and before the sleep (`monitor.py:195`). In the model, `notify` always returns, so an open poll always completes its step.
- `IntParse.ParseIntDefined`: rejects three forms that Python's `int()` accepts: underscores between digits, non-ASCII Unicode digits and surrounding whitespace. The cells are stripped and the timetable uses ASCII digits. The 4300-digit limit is modelled; it assumes the 4300-digit default of `sys.get_int_max_str_digits()` in CPython 3.10.7 and later. On 3.10.0 to 3.10.6 there is no limit, and a longer cell would parse.
