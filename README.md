# Datong sports centre badminton booker: the decision layer

`datong-sportcenter-badminton/main.go` books badminton courts on the Datong
sports centre portal by driving a browser. One worker runs per requested hour.
Each worker logs in, retrying a bounded number of times. It then opens the
booking table for the date and the time-of-day bucket and clicks the slot of
its hour. A dialog listener turns the portal's "are you sure you want to book"
dialog into a signal that the click loop waits for. Finally the worker reads
the confirmation page for the daily-limit and network-busy texts.

This project models that decision layer in Dafny and proves what it does. The
browser, the channel and the clock become oracle inputs.

- `golib.dfy` (module `GoLib`): the Go library behaviour the code relies on.
  This covers truncating `%`, `strings.Split`/`Join`/`Trim`/`Contains`,
  `strconv.Atoi`/`Itoa` on a 64-bit platform, and `%02d`.
- `slots.dfy` (module `Slots`): `getCellIndex`, the bucket code chosen in
  `reserve`, the cells selected by the XPath union in `ensure` (in document
  order), the first-match click target, and the booking URL.
- `hours.dfy` (module `Hours`): `parseHoursToReserve` as a method of class
  `HourArgs`, whose field `hoursToReserve` is the package-level slice it
  appends to. It also holds `joinIntSlice`, which fills a fresh array and
  joins it, and the round trip between the two.
- `dialog.dfy` (module `Dialog`): what the alert-dialog listener does with a
  dialog (signal or not, accept or not), and the post-confirmation outcome
  check.
- `login.dfy` (module `Login`): the `login` retry loop as a method. It is
  proved equal to a recursive specification function, and the loop's
  properties are proved as lemmas about that function.
- `reservation.dfy` (module `Reservation`): the `ensure` click loop, treated
  the same way.

Oracles are total functions from the attempt number to what the browser gave
on that attempt.
- Login rounds: whether the login button lookup-and-click was `Missing`,
  `Clicked` or `ProbeFailed`; the location read, or `None` for an error; and
  the verification-failed button.
- Click rounds: the set of table cells that show a `PlaceBtn` image, or
  `None` when the node search failed; whether the click went through; and
  whether the confirmation signal arrived before the timeout.

`attempts` counts the loop iterations begun, including the one that returned.

In these places the model follows what the code does:
- A dry run returns `nil` from `reserve`, the same value as a booking. Only
  the console message printed by `start` differs, so `CheckOutcome` gives
  `NoError` for a dry run.
- "All booked" is reported from the attempt that found no button, and that
  attempt is counted.
- Errors are the code's own: a browser error is returned as it is, next to
  "search failed", "all booked", "failed after n tries", the daily limit and
  the network-busy text.

## Model

| member | source | states |
|---|---|---|
| GoLib.GoRem | datong-sportcenter-badminton/main.go:384-385 | Go's `%`: `a == q * b + r` with the quotient `q` truncated toward zero (`GoQuo`), and the remainder strictly inside (-b, b). It is the mathematical remainder for a non-negative dividend and never positive for a negative one. |
| GoLib.TrimLeft | datong-sportcenter-badminton/main.go:96 | The result is a suffix of the input. Only spaces were removed, and it does not start with a space. |
| GoLib.TrimRight | datong-sportcenter-badminton/main.go:96 | The result is a prefix of the input. Only spaces were removed, and it does not end with a space. |
| GoLib.SplitJoin | datong-sportcenter-badminton/main.go:94 | Every piece of `strings.Split(s, ",")` is comma-free, and joining the pieces with "," gives `s` back. |
| GoLib.JoinSplit | datong-sportcenter-badminton/main.go:211 | Splitting the join of a non-empty list of comma-free pieces gives back exactly those pieces. |
| GoLib.AtoiItoa | datong-sportcenter-badminton/main.go:208 | `strconv.Atoi` reads back every int64 that `strconv.Itoa` writes. |
| GoLib.Pad2Digits | datong-sportcenter-badminton/main.go:518-519 | `%02d` of 0..99 is exactly two decimal digits whose value is the number. |
| GoLib.Contains | datong-sportcenter-badminton/main.go:276 | `strings.Contains` is true exactly when the phrase occurs at some index, as a slice of the text. |
| Slots.CellIndexShape | datong-sportcenter-badminton/main.go:383-390 | Every block spans 13 rows. A non-negative hour starts at `(v mod 6)*13 + 2`, inside rows 2..79. |
| Slots.CellIndexPeriodic | datong-sportcenter-badminton/main.go:383-390 | For `v >= 0`, `v` and `v+6` get identical rows. |
| Slots.CellIndexNotPeriodicBelowZero | datong-sportcenter-badminton/main.go:385 | Go's truncating `%` breaks that periodicity below zero: -1 gives rows (-11, 1), unlike 5. |
| Slots.CellIndexExamples | datong-sportcenter-badminton/main.go:383-390 | 14 gives (28, 40); 6, 12 and 18 all give (2, 14). |
| Slots.BucketIsSixth | datong-sportcenter-badminton/main.go:509-514 | For bookable hours, two hours share the bucket code iff they share `hour / 6`. So the tables are 6..11, 12..17 and 18..21. |
| Slots.SameBucketOrdered | datong-sportcenter-badminton/main.go:509-514 | Within one bucket, a later bookable hour's rows lie strictly below an earlier hour's rows. |
| Slots.SlotIdentifiesHour | datong-sportcenter-badminton/main.go:509-514 | The bucket code and the rows together determine the bookable hour. |
| Slots.ColumnThree | datong-sportcenter-badminton/main.go:402 | The column-3 cells of rows `lo..hi`, one per row, top to bottom. |
| Slots.CandidatesExact | datong-sportcenter-badminton/main.go:402 | The lookup selects exactly column 4 of row `start` and column 3 of rows `start+1..end`, in strictly increasing row order. For a real range that is `end-start+1` cells. |
| Slots.FirstFrom | datong-sportcenter-badminton/main.go:408-413 | The index found holds a button and no earlier candidate does. `None` means no candidate holds one. |
| Slots.FindSlotFirst | datong-sportcenter-badminton/main.go:402-413 | The clicked cell is a candidate holding a button, with no candidate above it holding one. Nothing is clicked iff no candidate holds a button. |
| Slots.BookingUrlFields | datong-sportcenter-badminton/main.go:516-520 | The URL is the base, the year and "/", then two-digit month, "/", two-digit day and `&D2=` with the bucket code. For any month and day in 0..99, month 13 included, they read back from those fixed offsets. |
| Hours.CheckHourMeaning | datong-sportcenter-badminton/main.go:96-114 | A token is accepted iff the space-trimmed token parses as a number in 6..21, and then yields that number. Each refusal names its reason: an unparsable token is unreadable, a negative number is negative, 22 is "closed", and 0..5 or above 22 is out of hours. |
| Hours.ParseAllAccepted | datong-sportcenter-badminton/main.go:95-119 | If every token is accepted, the run succeeds and appends one hour per token, in order. |
| Hours.ParseSucceededAccepted | datong-sportcenter-badminton/main.go:95-119 | A successful run has accepted every token. |
| Hours.ParseErrorSticks | datong-sportcenter-badminton/main.go:98-113 | After the first failure, later tokens change neither the appended hours nor the error. |
| Hours.ParseStep | datong-sportcenter-badminton/main.go:95-116 | One more token either extends the appended hours by its value or ends the whole run with its error. |
| Hours.ParseStopsAtFirstBad | datong-sportcenter-badminton/main.go:98-116 | The first refused token decides the error, and the hours before it remain appended. |
| Hours.ParseHoursMeaning | datong-sportcenter-badminton/main.go:88-120 | The empty string fails with nothing appended. Success holds iff every token is a bookable hour, and then exactly those hours are appended, one per token, in order. A failure stops at the first bad token with the earlier hours appended. |
| Hours.HourArgs.constructor | datong-sportcenter-badminton/main.go:37 | `hoursToReserve` starts empty. |
| Hours.HourArgs.ParseHoursToReserve | datong-sportcenter-badminton/main.go:88-120 | The new `hoursToReserve` is the old one plus the hours parsed before success or failure. The error is the parser's, and `ok` holds iff there is none. |
| Hours.ReadHour | datong-sportcenter-badminton/main.go:96-114 | A bookable hour written in decimal contains no comma, and the token check accepts it as that same hour. |
| Hours.JoinParseRoundTrip | datong-sportcenter-badminton/main.go:201-212 | The parser reads a non-empty joined list of bookable hours back into the same list. The empty list joins to "", which the parser refuses. |
| Hours.JoinIntSlice | datong-sportcenter-badminton/main.go:201-212 | Its result is the hours in decimal joined with ",". For bookable hours, parsing it appends exactly those hours, and succeeds iff the list is non-empty. |
| Dialog.OnDialog | datong-sportcenter-badminton/main.go:276-296 | The listener signals iff the message contains the confirmation phrase. It accepts the dialog unless it signalled during a dry run. |
| Dialog.StrayDialogAccepted | datong-sportcenter-badminton/main.go:276-296 | A dialog without the phrase never signals and is always accepted, in either mode. |
| Dialog.DryRunLeavesConfirmationOpen | datong-sportcenter-badminton/main.go:276-287 | A dialog whose message contains the confirmation phrase anywhere signals in both modes. It is left open in a dry run and accepted otherwise. |
| Dialog.CheckOutcome | datong-sportcenter-badminton/main.go:538-557 | A dry run gives success without reading anything, and a failed read is an error. Otherwise the daily-limit text gives the limit error; else the busy text gives the busy error; any other text gives success. |
| Dialog.DailyLimitCheckedFirst | datong-sportcenter-badminton/main.go:549-555 | A page containing both texts, anywhere, is reported as the daily limit. |
| Login.Login | datong-sportcenter-badminton/main.go:304-381 | The loop returns exactly the error and attempt count of the specification run `LoginSpec`. |
| Login.LoginFromMeaning | datong-sportcenter-badminton/main.go:304-381 | From any attempt on, the run succeeds iff the last location read is the portal. It begins at most `retry` attempts, and on success the last attempt read the portal. |
| Login.NoRetryFails | datong-sportcenter-badminton/main.go:305-306 | `retry <= 0` makes no attempt and fails with the "failed after retry" error. |
| Login.LoginMeaning | datong-sportcenter-badminton/main.go:345-380 | Success iff the last URL read is the portal. A positive `retry` begins between 1 and `retry` attempts. |
| Login.LoginStopsAtPortal | datong-sportcenter-badminton/main.go:345-348 | After rejected attempts, the first attempt that reads the portal ends the loop with success at attempt k+1. |
| Login.LoginStopsAtError | datong-sportcenter-badminton/main.go:328-373 | A browser error is returned at once, from the attempt it occurs in. |
| Login.LoginExhausts | datong-sportcenter-badminton/main.go:374-378 | If every attempt is rejected, `retry` attempts are made and the result is the "failed after retry" error. |
| Login.MissingButtonIsNoError | datong-sportcenter-badminton/main.go:320-367 | A missing login or verification button behaves exactly like a clicked one. Only browser errors and locations matter. |
| Reservation.Ensure | datong-sportcenter-badminton/main.go:392-433 | The loop returns exactly the error, attempt count and clicked cells of the specification run `EnsureSpec`. |
| Reservation.EnsureFromMeaning | datong-sportcenter-badminton/main.go:396-432 | From any attempt on: at most `retry` attempts, at most one click per attempt, and each click on the first candidate holding a button. Success iff the final attempt clicked and was signalled. Exhaustion means one click per attempt. |
| Reservation.EnsureFromCounts | datong-sportcenter-badminton/main.go:396-432 | The counting half of the above: attempt bounds, clicks per attempt, the success criterion and the exhaustion count. |
| Reservation.EnsureFromClicks | datong-sportcenter-badminton/main.go:403-420 | The clicking half: every click goes to that attempt's first candidate cell holding a button. |
| Reservation.EnsureMeaning | datong-sportcenter-badminton/main.go:395-433 | For a whole call of `ensure` on the rows of `getCellIndex(reserveTime)`: at most `retry` attempts and at least one when `retry` is positive, at most one click per attempt, and each click on the first candidate holding a button. Success iff the last attempt clicked and was signalled. Exhaustion means one click per attempt, `retry` of them. |
| Reservation.AllBookedAtOnce | datong-sportcenter-badminton/main.go:408-410 | A lookup with no candidate button yields "all booked" on that attempt without a click, whatever the signal. |
| Reservation.SignalSucceeds | datong-sportcenter-badminton/main.go:422-425 | A signal after a click ends the loop with success on that attempt. |
| Reservation.NoSignalExhausts | datong-sportcenter-badminton/main.go:426-432 | If no signal ever arrives, the loop fails with "failed after retry" after exactly `retry` attempts and `retry` clicks. |

## Left out

- All chromedp browser calls (node lookup, clicks, navigation, location, text, waits, key entry) are foreign I/O. They are replaced by the per-attempt oracles above.
- The `time.Sleep` waits and the `time.After` timeout: timing is replaced by the per-attempt "signal arrived" boolean.
- The unbuffered channel and its goroutine senders. A late signal from one attempt being received in a later one is covered only because the oracle is arbitrary. A send after `close(ch)` is not modelled, since it concerns concurrency.
- `start`'s goroutines and `sync.WaitGroup`: the workers share no mutable state (they only read the same package-level settings), so each worker is modelled alone.
- `parseDate` and `isValidDate` depend on the wall clock, and on Go's `time` arithmetic and `regexp`. Month, day and year enter `BookingUrl` as parameters.
- Cron parsing and scheduling (robfig/cron), and flag parsing in `init`.
- Console output (`printf` colouring, `usage`), the stdin wait in `main`, and the `[Error][n]` prefixes `reserve` wraps around errors.
- `reserve`'s session set-up, navigation to the login page, title check and credential entry are browser I/O. Only its bucket-code choice, booking URL and outcome check are modelled.
- The `log.Fatal` exit when accepting a dialog fails, because it is a process exit.
- `checkArgsAndShow` is argument handling and display; `joinIntSlice`, which it calls, is modelled.
- Strings are sequences of Unicode scalar values, not UTF-8 bytes. On valid UTF-8 a substring test gives the same answer either way.
- `strconv.Atoi` is modelled for a 64-bit `int`.
