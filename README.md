# HiveFest game logic in Dafny

This project models the logic of the HiveFest server and three of its browser pages.

- **The Express server** (`api/server.js`):
  - the honey reward of `POST /api/add-honey`, with its wheel for the first answer of the day and shrinking bands after that;
  - the daily bookkeeping: the lazy per-user correction, the midnight reset of every user, the start-up migration, and the timer that waits for the next midnight in Europe/Madrid;
  - the arithmetic questions of `/api/change-question`, and the copy inside `/api/signup`;
  - the signup admission rules and the account records;
  - the leaderboard of `GET /api/leaderboard`.
- **The questions page** (`api/public/questions.js`): the Enter-key latch, the counters, and the submit button that alternates between "Submit" and "Next".
- **The signup page** (`api/public/signup.js`): the length check of the form, the message box, and the button.
- **The leaderboard page** (`api/public/leaderboard.js`): ordinals, rows, icons and the button marking.

How the pieces are modelled:

- The JSON stores `users.json` and `auth.json` are values handed to each handler and returned from it.
- A JavaScript object is its key sequence in enumeration order (array-index keys first, ascending) plus a map from keys to values.
- Every `Math.random()` draw is a parameter of type `Unit` (a real in [0, 1)), in the order the code makes the draws.
- The Madrid clock is a parameter: a function from an instant to the wall-clock parts that `Intl.DateTimeFormat` reports for it. `Date.UTC` is ECMAScript's day arithmetic on whole numbers.
- A page script is a class whose fields are the page state the script reads and writes. Each listener is a method whose postcondition gives the new state as a function of the old one. Separate lemmas about those functions state what the page guarantees.
- The outcome of each network round trip is a parameter.

Modules:

| module | contents |
|---|---|
| `Wrappers` | `Option` |
| `JsMath` | how the code uses `Math.random()`, `Math.floor`, `Math.trunc` and `%`, and numbers that can be NaN or infinite |
| `Text` | `String(n)`, `Number` of digit strings, `trim`, ASCII `toLowerCase`, `split(sep)[0]`, `join` |
| `JsObjects` | objects used as dictionaries |
| `Calendar` | `Date.UTC` |
| `MadridTime` | `madridParts`, `madridDateString`, `timeZoneOffsetMs`, `nextMadridMidnightUTCms` |
| `Honey` | the reward rule |
| `Questions` | the generators and the client's answer check |
| `Users` | the user record and the daily passes |
| `Accounts` | the validators, `getClientIP`, `toLower`, auth lookups, `generateUniqueId`, admission |
| `Leaderboard` | `compute`, the item loop, the stable sort, the top ten |
| `Server` | the handlers and one timer step |
| `QuestionsPage`, `SignupPage`, `LeaderboardPage` | the browser scripts |

Where the code and its description disagree, the model follows the code:

- `/api/signup` stores a user without `todayHoney` and `lastDailyReset`. Only add-honey, the midnight reset or the start-up migration stores a count. Until one of them has, the "Today" counter of the questions page reads NaN on every load, because `checkSession` adds the missing count. On a page already open it stays NaN even after a count is stored. That page never reloads the count (`QuestionsPage.TodayCounter`).
- A later reward below 501 is `floor(r * 26) + 25`, so the band is 25..50 inclusive.
- The start-up migration reaches the same state as the lazy correction of every user (`Users.MigrateIsEnsure`).

## Model

| member | source | states |
|---|---|---|
| JsMath.FloorTimes | api/server.js:536 | `Math.floor(r * n)` for a draw `r` lies in 0..n-1 and is the floor of `r * n` |
| JsMath.FloorTimesOnto | api/server.js:536 | every value 0..n-1 is reached by some draw |
| JsMath.Add | api/public/questions.js:70-71 | `+` on numbers: finite operands add exactly, NaN absorbs |
| JsMath.TruncDiv | api/public/questions.js:126 | `Math.trunc(a / b)`: magnitude is the floor quotient of the magnitudes, sign is the product's |
| JsMath.TruncRem | api/public/leaderboard.js:22-23 | `%` on whole numbers: magnitude is the remainder of the magnitudes, sign follows the dividend |
| JsMath.TruncQuotient | api/public/questions.js:126 | `Math.trunc(n1 / n2)` including division by zero: NaN for 0/0, an infinity of the dividend's sign otherwise |
| JsMath.TruncDivExact | api/server.js:608-610 | an exact multiple `k * n2` truncates to `k` |
| Text.DecimalValue | api/server.js:307 | `Number` of a digit string: the digits read in base ten |
| Text.LowerChar | api/server.js:168 | `toLowerCase` of one character: 'A'..'Z' to 'a'..'z', every other character kept |
| Text.DigitValue | api/server.js:307 | a digit's value is below 10 |
| Text.DigitChar | api/server.js:327 | the digit character of a value reads back as that value |
| Text.NatToString | api/server.js:318 | `String(n)` is a non-empty digit string without leading zero |
| Text.DecimalRoundTrip | api/server.js:307 | `Number(String(n)) == n` |
| Text.NatToStringInjective | api/server.js:327 | different numbers have different numerals |
| Text.CanonicalRoundTrip | api/server.js:307 | a canonical numeral is `String` of its value |
| Text.CanonicalNumeralInjective | api/server.js:307 | two canonical numerals of one value are the same key |
| Text.IntToString | api/public/questions.js:85 | `String(i)` is non-empty and starts with '-' exactly for negatives |
| Text.IntToStringInjective | api/public/questions.js:85 | different integers print differently |
| Text.LeadingSpace | api/server.js:291 | the whitespace run that opens a string |
| Text.TrailingSpace | api/server.js:291 | the whitespace run that closes a string |
| Text.Trim | api/server.js:168 | `trim()` is the infix between the two whitespace runs, without whitespace at either end |
| Text.TrimKeepsOut | api/server.js:291 | trimming brings in no new character |
| Text.TrimOfPrefix | api/server.js:291 | the trim of a prefix is what the whole string starts with after its leading whitespace |
| Text.TrimNoSpace | api/server.js:168 | a string without whitespace is its own trim |
| Text.TrimIdempotent | api/server.js:168 | trimming twice is trimming once |
| Text.AsciiLower | api/server.js:168 | `toLowerCase()` keeps the length and lower-cases each ASCII letter |
| Text.AsciiLowerIdempotent | api/server.js:625 | lower-casing is idempotent and maps letters to 'a'..'z' |
| Text.BeforeFirst | api/server.js:291 | `split(sep)[0]` is the prefix before the first `sep` |
| Text.Join | api/public/signup.js:83 | `join` of no lines is empty and of one line is that line |
| Text.JoinTwo | api/public/signup.js:83 | two lines are joined by one separator |
| JsObjects.EmptyObject | api/server.js:409 | `{}` is a well-formed object with no keys |
| JsObjects.Values | api/server.js:651 | `Object.values` lists the values in key order |
| JsObjects.IndexSlot | api/server.js:406 | a new index key goes after the index keys below it |
| JsObjects.InsertIndexKey | api/server.js:406 | inserting a new index key at its slot keeps the keys distinct and in enumeration order |
| JsObjects.InsertDistinct | api/server.js:406 | inserting a key not yet present keeps the keys distinct |
| JsObjects.InsertOrdered | api/server.js:406 | inserting an index key between the keys below and above it keeps enumeration order |
| JsObjects.AboveSlot | api/server.js:406 | every index key from the slot on is above the new key |
| JsObjects.Put | api/server.js:406 | `o[k] = v`: the map is updated at `k`; an existing key keeps its place; a new key is inserted once (index keys by value, others at the end) |
| Calendar.DaysInMonth | api/server.js:238 | the length of month m of year y, with February 29 days in leap years |
| Calendar.DayFromYear | api/server.js:238 | days from 1970 to January 1st of year y, counted year by year |
| Calendar.MakeDay | api/server.js:238 | ECMAScript's MakeDay: a month index outside 0..11 moves the year, and a day past the month's end counts on |
| Calendar.MakeTime | api/server.js:229 | ECMAScript's MakeTime: hours, minutes, seconds and milliseconds in milliseconds |
| Calendar.DateUTC | api/server.js:229-238 | `Date.UTC(y, m, d, h, min, s, ms)`: MakeDate of MakeDay and MakeTime, with years 0..99 read as 1900..1999 |
| Calendar.DayNumber | api/server.js:238 | days from 1970-01-01 to a calendar date |
| Calendar.DaysBeforeNextMonth | api/server.js:238 | the month table adds up month by month |
| Calendar.NextDay | api/server.js:238 | the day after a valid date is a valid date |
| Calendar.EcmaDayFromYearStep | api/server.js:238 | ECMAScript's DayFromYear advances by the year's length |
| Calendar.DayFromYearStep | api/server.js:238 | the year-by-year count advances by the year's length |
| Calendar.DayFromYearIsEcmaFormula | api/server.js:238 | the year-by-year count is ECMAScript's closed formula |
| Calendar.DaysBeforeDecember | api/server.js:238 | the first twelve months make the year |
| Calendar.MakeDayInYear | api/server.js:238 | MakeDay of a month inside the year counts from January 1st |
| Calendar.NextDayNumber | api/server.js:238 | the next day's count is one higher |
| Calendar.DateUTCNextDay | api/server.js:238 | `Date.UTC(y, m - 1, d + 1)` is UTC midnight of the next day, with month and year rollover |
| Calendar.DateUTCMidnight | api/server.js:238 | `Date.UTC` at 00:00:00 is MakeDate of MakeDay with time 0 |
| Calendar.DateUTCUnfold | api/server.js:229 | `Date.UTC` is MakeDate of MakeDay and MakeTime |
| Calendar.DayFromYearIncreasing | api/server.js:238 | later years start after earlier years end |
| Calendar.DaysBeforeMonthIncreasing | api/server.js:238 | the month offsets never decrease |
| Calendar.DayNumberWithinYear | api/server.js:238 | a date's day count lies inside its year |
| Calendar.DayNumberInjective | api/server.js:238 | distinct valid dates have distinct day counts |
| MadridTime.Pad2 | api/server.js:180-181 | a two-digit field: a leading zero below 10 |
| MadridTime.DateString | api/server.js:193-196 | `madridDateString`: `YYYY-MM-DD` of the wall-clock parts |
| MadridTime.WallClockMs | api/server.js:216-229 | the wall clock that `Intl.DateTimeFormat` shows, read as a UTC instant |
| MadridTime.TimeZoneOffsetMs | api/server.js:216-230 | `timeZoneOffsetMs`: the wall clock read as UTC minus the instant |
| MadridTime.MidnightGuess | api/server.js:233-240 | `Date.UTC` of the day after today's Madrid date at 00:00:00 |
| MadridTime.NextMidnightUTCms | api/server.js:233-245 | `nextMadridMidnightUTCms`: the guess minus the Madrid offset at the guess |
| MadridTime.Pad2Value | api/server.js:180-181 | a field 0..99 prints as two digits that read back as the field |
| MadridTime.DatePieces | api/server.js:195 | where year, month and day sit in `YYYY-MM-DD` |
| MadridTime.DateStringInjective | api/server.js:193-196 | two date strings are equal exactly when the dates are |
| MadridTime.ScheduleDelay | api/server.js:276 | the delay is never negative, and when positive it is the time until the next midnight |
| MadridTime.NextMidnightIsTomorrowMinusOffset | api/server.js:233-245 | the result is `Date.UTC` of tomorrow's Madrid date, rolled over, minus the offset at that guess |
| MadridTime.WallClockSplit | api/server.js:216-230 | the wall clock read as UTC is the day count plus the time of day, which is under a day |
| MadridTime.NextMidnightIsLocalMidnight | api/server.js:233-245 | with no clock change in between, Madrid reads 00:00:00 of tomorrow at the result, and its date string changes |
| MadridTime.DelayWithinOneDay | api/server.js:273-283 | on a day without a clock change the delay is positive and at most one day |
| Honey.Wheel | api/server.js:536-549 | the prize on wheel position w of 0..999: 25 below 600, 50 below 800, 100 below 900, 200 below 950, 500 below 995, else 1000 |
| Honey.Reward | api/server.js:533-562 | the amount added: the wheel at a count of 0, otherwise `floor(r * k) + low` over the band of the count (25..50, 10..20, 5..10, 1..5, 0..2, 0..1) |
| Honey.BandLow | api/server.js:550-562 | the least later reward for a count |
| Honey.BandHigh | api/server.js:550-562 | the greatest later reward for a count |
| Honey.WheelCount | api/server.js:536-549 | how many wheel positions in a range carry a prize |
| Honey.FirstRewardOdds | api/server.js:535-549 | the first reward is 25, 50, 100, 200, 500 or 1000 exactly on the draw ranges below 0.6, 0.8, 0.9, 0.95, 0.995 and above |
| Honey.WheelBlock | api/server.js:536-549 | a prize filling one block of wheel positions has that many positions |
| Honey.WheelCounts | api/server.js:536-549 | the wheel has 600, 200, 100, 50, 45 and 5 positions for the six prizes |
| Honey.LaterRewardInBand | api/server.js:550-562 | a later reward lies in 25..50, 10..20, 5..10, 1..5, 0..2 or 0..1 by count |
| Honey.LaterRewardOnto | api/server.js:550-562 | every amount of the band can be drawn |
| Honey.RewardZeroOnlyLate | api/server.js:533-562 | a reward is never negative and is 0 only from a count of 5001 on |
| Honey.BandsShrink | api/server.js:550-562 | a higher count never raises either end of the band |
| Questions.ChangeQuestion | api/server.js:592-613 | `/api/change-question`: one of four types by `floor(r * 4)`; sums and subtractions from 1..100 with the subtraction's operands swapped into order; products from 1..11; a division `(k * n2) / n2` with k and n2 in 1..11 |
| Questions.SignupQuestion | api/server.js:376-403 | `/api/signup`'s generator as written: as change-question except that a subtraction whose first operand is smaller gets that operand twice |
| Questions.Solution | api/public/questions.js:115-127 | the client's solution: n1 + n2, n1 - n2, n1 * n2, or `Math.trunc(n1 / n2)` for every other type |
| Questions.OperatorSymbol | api/public/questions.js:75-85 | the operator shown: "+", "-", "x", and "/" for every other type |
| Questions.AnswerValue | api/public/questions.js:128 | `answer.value || 0`: an empty field is 0 |
| Questions.IsCorrect | api/public/questions.js:129 | `answer == solution` |
| Questions.ChangeQuestionWellFormed | api/server.js:592-613 | change-question makes sums 1..100, ordered subtractions 1..100, products 1..11, exact divisions `k * n2` with k and n2 in 1..11 |
| Questions.ChangeQuestionOnto | api/server.js:592-613 | every such question can be produced |
| Questions.OntoBy | api/server.js:592-613 | draws exist for each type's operands |
| Questions.SignupQuestionCollapses | api/server.js:387-391 | the signup copy differs only on a subtraction whose first operand is smaller, where both become that operand |
| Questions.SignupSwapCounterexample | api/server.js:387-391 | draws 1/4, 0, 1/2 give change-question `51 - 1` and signup `1 - 1` |
| Questions.SolutionFollowsSymbol | api/public/questions.js:119-127 | the solution performs the operation the symbol shows |
| Questions.WellFormedSolution | api/public/questions.js:119-127 | every well-formed question has a whole non-negative solution; a division's is its exact quotient |
| Questions.GeneratedDivisionExact | api/server.js:608-610 | a generated division's solution is its factor k in 1..11 |
| Questions.EmptyAnswer | api/public/questions.js:128 | an empty field is right exactly when the solution is 0, as for every collapsed signup subtraction |
| Users.EnsureDaily | api/server.js:248-257 | `ensureDailyFieldsAndResetIfNeeded`: a missing count becomes 0; a missing stamp becomes today; a stamp of another day zeroes the count and becomes today |
| Users.ResetDaily | api/server.js:264-266 | one user at midnight: count 0, stamp today |
| Users.MigrateUser | api/server.js:202-211 | one migration step: fills a missing count and stamp, resets a user stamped another day, and flags any change |
| Users.Credit | api/server.js:564-566 | `honey`, `todayHoney` and `stats.totalHoney` each grow by n |
| Users.ResetAll | api/server.js:260-268 | `resetAllDailyHoney`: ResetDaily on every non-null user |
| Users.EnsureAll | api/server.js:199-213 | the migration's users: EnsureDaily on every non-null user |
| Users.EnsureDailyEffect | api/server.js:248-257 | after the correction: count is a number, stamp is today, count kept if the stamp was today or missing, zeroed otherwise, nothing else changed |
| Users.EnsureDailyIdempotent | api/server.js:248-257 | correcting twice is correcting once |
| Users.EnsureDailyCurrent | api/server.js:248-257 | a user stamped today with a count is left alone |
| Users.ResetIsEnsured | api/server.js:260-268 | after the reset the correction changes nothing; only the daily fields changed |
| Users.MigrateIsEnsure | api/server.js:199-213 | the migration ends where the correction does and flags a user exactly when that changes them |
| Users.CreditEffect | api/server.js:564-566 | honey, todayHoney and totalHoney grow by exactly n; nothing else changes |
| Users.MapUsers | api/server.js:262-266 | a pass over every non-null user keeps ids, order and null entries |
| Users.StaleBeforeAll | api/server.js:199-212 | some user among all the keys is stale exactly when some user is |
| Users.PassedOverAll | api/server.js:262-266 | a pass over all keys is MapUsers |
| Users.PassOneMore | api/server.js:262-266 | one more loop step extends the pass |
| Users.PassedOverStep | api/server.js:262-266 | treating one more key extends the keys passed over |
| Users.StaleBeforeStep | api/server.js:207-210 | the `touched` flag, step by step |
| Users.ResetAllDailyHoney | api/server.js:260-270 | the loop computes ResetAll |
| Users.Migrate | api/server.js:199-213 | the loop computes EnsureAll, and `touched` holds exactly when some user was stale |
| Users.ResetAllEffect | api/server.js:260-268 | the reset keeps the store valid and its nulls, zeroes every count, stamps every user today, and leaves nothing for the correction |
| Accounts.ValidUsername | api/server.js:142-144 | `usernameSchema`: 2..20 characters, ASCII letters only |
| Accounts.ValidPassword | api/server.js:145-146 | `passwordSchema`: 3..28 characters |
| Accounts.GetClientIP | api/server.js:287-293 | `getClientIP`: the trimmed first comma field of a non-empty forwarded-for header, else the socket's address, else "unknown" |
| Accounts.ToLower | api/server.js:168 | `toLower`: trimmed, then lower-cased |
| Accounts.KeyNumber | api/server.js:307 | `Number(k)` of a key: trimmed digits read in base ten, "" as 0, anything else NaN |
| Accounts.GenerateUniqueId | api/server.js:306-328 | `generateUniqueId`: "1" for an empty store, "NaN" when some id is not a number, else `String` of the largest id plus `floor(r * maxIncrement) + 1` |
| Accounts.AdmissionOf | api/server.js:345-370 | the order of the signup checks: schema failure, then an address outside the whitelist that owns an account, then a taken normalised name, else admitted |
| Accounts.ParseSignup | api/server.js:142-150 | the body parses exactly when both fields are strings meeting their rules |
| Accounts.ClientIPFromHeader | api/server.js:287-291 | with a header the address is its trimmed first field: no comma, no surrounding space, a prefix after leading space |
| Accounts.FirstFieldTrimmed | api/server.js:291 | the trimmed first comma field of a string |
| Accounts.ClientIPFallback | api/server.js:292 | without a header the address is the socket's, or "unknown" |
| Accounts.ToLowerOfValid | api/server.js:168 | a valid username's normal form is its lower case; two clash exactly when equal ignoring case |
| Accounts.LettersTrimmed | api/server.js:168 | a valid username has nothing to trim |
| Accounts.AsciiLowerEqual | api/server.js:168 | two strings lower-case alike exactly when they match ignoring case |
| Accounts.FindAuthByUsernameLower | api/server.js:296-303 | finds the first record in enumeration order with the name, or none exactly when no record has it |
| Accounts.FindAccountFromAddress | api/server.js:359-363 | the loop finds a record from the address exactly when one exists |
| Accounts.MaxId | api/server.js:313 | `Math.max` of the ids is one of them and bounds them all |
| Accounts.GenerateUniqueIdFresh | api/server.js:306-328 | with numeric ids the new id is a canonical numeral above every id, within the increment bound, not yet used |
| Accounts.GenerateUniqueIdNaN | api/server.js:307-327 | a non-numeric id makes every new id "NaN" |
| Accounts.Admit | api/server.js:345-370 | the two searches reach the admission outcome |
| Accounts.AdmittedSound | api/server.js:345-370 | malformed exactly when the body fails its schema; an admitted signup has a valid body, a free normalised name, and an address that is whitelisted or unused |
| Accounts.AdmittedKeepsInvariants | api/server.js:428-434 | the new record keeps names unique and one account per address outside the whitelist |
| Leaderboard.MetricValue | api/server.js:634-649 | `compute(user)`: honey, totalHoney, unique hivees, or total hivees for every other metric |
| Leaderboard.ItemsOf | api/server.js:651-658 | one item per non-null user, in order, with its username, avatar and value |
| Leaderboard.Insert | api/server.js:660 | inserts an item after every item worth at least as much |
| Leaderboard.SortDesc | api/server.js:660 | `items.sort((a, b) => b.value - a.value)` as an insertion sort |
| Leaderboard.Top | api/server.js:660-661 | `items.slice(0, 10)` of the sorted items |
| Leaderboard.ParseMetric | api/server.js:625-629 | a metric is accepted exactly when its lower case is one of the four names |
| Leaderboard.CountPositive | api/server.js:638-644 | the unique count never exceeds the entries |
| Leaderboard.CountPositiveAtMostSum | api/server.js:638-648 | with no negative counts, unique hivees never outnumber hivees |
| Leaderboard.CountUnique | api/server.js:639-643 | the loop counts positive entries |
| Leaderboard.SumHivees | api/server.js:646-648 | the loop sums the entries |
| Leaderboard.Compute | api/server.js:634-649 | `compute(user)` is the metric value |
| Leaderboard.BuildItems | api/server.js:651-658 | one item per non-null user in enumeration order |
| Leaderboard.WorthOfAppend | api/server.js:660 | the items of one value in a concatenation |
| Leaderboard.InsertMultiset | api/server.js:660 | insertion adds exactly the item |
| Leaderboard.InsertSorted | api/server.js:660 | insertion keeps descending order |
| Leaderboard.NoneWorth | api/server.js:660 | no item worth `v` among items below `v` |
| Leaderboard.WorthOfOne | api/server.js:660 | the one-item case |
| Leaderboard.InsertWorth | api/server.js:660 | insertion places the item after those of equal value |
| Leaderboard.SortDescSorted | api/server.js:660 | the sort orders by descending value and is a permutation |
| Leaderboard.SortDescStable | api/server.js:660 | items of equal value keep their order |
| Leaderboard.TopLaw | api/server.js:660-661 | the top ten: min(n, 10) items, sorted, from the users, and none left out beats one shown |
| Leaderboard.PrefixLaw | api/server.js:661 | a prefix of a sorted list is sorted and dominates the rest |
| Server.ReplaceUser | api/server.js:526-568 | writing back an existing user keeps the store valid and its order |
| Server.AddHoney | api/server.js:520-577 | 401 without session, 404 without user; otherwise the reward is drawn from the corrected count, the user's three counters grow by it, the stamp is today, and the reply reports them |
| Server.AddHoneyGain | api/server.js:531-562 | a logged-in user gains a wheel prize on a zero count, else an amount of the band; 0 only from 5001 |
| Server.ChangeQuestionHandler | api/server.js:580-617 | 401, 404, or the user's question replaced by change-question's and returned |
| Server.NewUser | api/server.js:406-424 | the new record has an empty collection and no daily fields |
| Server.PutKeepsNumeric | api/server.js:406 | a numeric id keeps every id numeric |
| Server.Signup | api/server.js:343-442 | each admission outcome's reply and stores; an admitted signup's stores are the old ones with both records put under the generated id, key order included; the store invariant is kept and the id is fresh |
| Server.CreateAccount | api/server.js:405-435 | the two writes of an admitted signup |
| Server.AddUserValid | api/server.js:406 | a new user with a valid collection keeps the store valid |
| Server.AdmittedInvariant | api/server.js:405-435 | the new id is fresh in both stores and the invariant survives |
| Server.PutKeepsSameIds | api/server.js:406-434 | writing one id into both stores keeps their ids equal |
| Server.LeaderboardHandler | api/server.js:620-668 | 401, 400 for an unknown metric, or the top ten of the users' items: sorted, from the users, none left out better |
| Server.DailyResetStep | api/server.js:273-283 | one timer round: the delay and the reset at the firing instant |
| Server.TimerFiresTomorrow | api/server.js:273-283 | on time, the timer fires at Madrid's next 00:00:00, on a new date |
| Server.TimerStampsTomorrow | api/server.js:273-283 | the reset then stamps everyone with tomorrow, zeroes them, and leaves nothing for the correction |
| Server.ResetStampsEveryone | api/server.js:260-268 | the reset stamps and zeroes every user |
| QuestionsPage.LatchStep | api/public/questions.js:37-48 | one key event of the Enter latch: a key-down of Enter clicks when not held and sets the latch; a key-up of Enter clears it |
| QuestionsPage.Clicks | api/public/questions.js:37-48 | the clicks a run of key events makes |
| QuestionsPage.OperationText | api/public/questions.js:85 | `${n1} ${symbol} ${n2}` |
| QuestionsPage.CorrectLines | api/public/questions.js:148-157 | "Correct!", followed by "+added Honey" when added is not 0 |
| QuestionsPage.WrongLines | api/public/questions.js:167-171 | "Incorrect", the answer given and the correct solution |
| QuestionsPage.AddListener | api/public/questions.js:216-220 | `addEventListener`: a listener already there is not added again |
| QuestionsPage.CheckSessionSpec | api/public/questions.js:54-97 | `checkSession`: the login on failure; on the first check the profile's counts are added and its question shown |
| QuestionsPage.SubmitSpec | api/public/questions.js:103-228 | `submitClicking`: the login when the profile or the reward fails; else the right or wrong answer shown and the button switched to continue |
| QuestionsPage.ContinueSpec | api/public/questions.js:177-217 | `continueClicking`: the mark goes; with a profile its question shows; on any reply the button switches back to submit |
| QuestionsPage.ClickSpec | api/public/questions.js:230 | a click runs the one listener on the button |
| QuestionsPage.Accumulate | api/public/questions.js:133-134 | `+=` of each gain onto a counter |
| QuestionsPage.ClicksPerRelease | api/public/questions.js:37-48 | Enter clicks at most once per release, plus once at the start if not held |
| QuestionsPage.HoldingEnterClicksOnce | api/public/questions.js:37-42 | holding Enter clicks at most once, and never while already held |
| QuestionsPage.NoReleases | api/public/questions.js:44-48 | no key-up of Enter means no release |
| QuestionsPage.OperationTextInjective | api/public/questions.js:85 | the line tells the operator and both operands |
| QuestionsPage.IntToStringNoSpace | api/public/questions.js:85 | a printed integer has no space |
| QuestionsPage.CorrectLinesTell | api/public/questions.js:148-157 | "Correct!" always; a honey line exactly when some was added; different rewards read differently |
| QuestionsPage.RemoveListener | api/public/questions.js:215-220 | removal drops exactly that listener |
| QuestionsPage.SubmitSwaps | api/public/questions.js:219-220 | a completed submit wires the button only to a new continue closure |
| QuestionsPage.SubmitStays | api/public/questions.js:222-227 | any other submit goes to the login with the listeners unchanged |
| QuestionsPage.SubmitCounts | api/public/questions.js:129-172 | a right answer grows both counters by `added` and shows its lines; a wrong one keeps them and shows the solution |
| QuestionsPage.ContinueSwaps | api/public/questions.js:185-216 | a continue with a reply wires the button only to submit; a failed one leaves it |
| QuestionsPage.ClickAlternates | api/public/questions.js:175-230 | the button always has one listener and alternates between submit and continue |
| QuestionsPage.TodayCounter | api/public/questions.js:70-134 | the counter is the load value plus every gain, or NaN for ever if the profile had no count |
| QuestionsPage.FirstCheckLoads | api/public/questions.js:63-90 | the first check adds the profile's counts and shows its question; a second check changes nothing |
| QuestionsPage.Page.constructor | api/public/questions.js:34-51 | the loaded page: zero counters, first time, one submit listener |
| QuestionsPage.Page.OnKeyDown | api/public/questions.js:37-42 | the key-down latch step |
| QuestionsPage.Page.OnKeyUp | api/public/questions.js:44-48 | the key-up latch step |
| QuestionsPage.Page.Type | api/public/questions.js:128 | the typed answer |
| QuestionsPage.Page.CheckSession | api/public/questions.js:54-97 | `checkSession` |
| QuestionsPage.Page.SwapToContinue | api/public/questions.js:219-220 | the swap to continue |
| QuestionsPage.Page.AddGain | api/public/questions.js:133-134 | both counters grow |
| QuestionsPage.Page.ShowAnswer | api/public/questions.js:141-171 | the answer is revealed |
| QuestionsPage.Page.Submit | api/public/questions.js:103-228 | `submitClicking` |
| QuestionsPage.Page.RemoveMark | api/public/questions.js:178-182 | the mark goes |
| QuestionsPage.Page.LoadQuestion | api/public/questions.js:192-212 | the new question shows |
| QuestionsPage.Page.SwapToSubmit | api/public/questions.js:215-216 | the swap back to submit |
| QuestionsPage.Page.Continue | api/public/questions.js:177-217 | `continueClicking` |
| QuestionsPage.Page.Click | api/public/questions.js:175-230 | a click runs the one listener and keeps one listener |
| SignupPage.SetMsg | api/public/signup.js:43-57 | `setMsg`: hides the box for no text or type "none", else shows the text in red or green |
| SignupPage.ShowErrors | api/public/signup.js:79-84 | the errors joined by newlines as an error, or the box hidden |
| SignupPage.UpdateButton | api/public/signup.js:69-72 | `disabled = !checked` |
| SignupPage.ErrorsOf | api/public/signup.js:77-78 | the length errors of the trimmed username and the password as typed |
| SignupPage.LiveSpec | api/public/signup.js:74-85 | `maybeUpdateErrorsLive`: nothing before the first attempt, else the errors |
| SignupPage.InputSpec | api/public/signup.js:88-93 | an input event updates the field and then the live errors |
| SignupPage.TermsSpec | api/public/signup.js:94 | the terms box changes and the button follows |
| SignupPage.Outcome | api/public/signup.js:116-136 | the reply's message: success in green on an ok reply with ok data, else the server's message or "Unable to sign up." in red, or the network error text |
| SignupPage.DoSignupSpec | api/public/signup.js:99-141 | `doSignup` to its end: a recorded attempt; the errors in red, or the request sent with the trimmed name and the reply's message shown |
| SignupPage.ClickSpec | api/public/signup.js:143-148 | a click runs doSignup unless the button is disabled |
| SignupPage.KeyDownSpec | api/public/signup.js:151-158 | Enter runs doSignup unless the button is disabled |
| SignupPage.CollectLengthErrors | api/public/signup.js:59-67 | one message per field out of bounds, the exact texts, the username's first, empty exactly when both are in range |
| SignupPage.ClientMatchesServer | api/public/signup.js:59-67 | no message exactly when the username length is allowed and the server takes the password; a server-valid username passes unchanged |
| SignupPage.SetMsgLaw | api/public/signup.js:43-57 | the box shows exactly for a text and a type other than "none": red for errors; hidden means empty |
| SignupPage.ShowErrorsLines | api/public/signup.js:79-84 | the errors show one per line in red, or the box hides |
| SignupPage.LiveWaitsForSubmit | api/public/signup.js:74-76 | before the first attempt typing changes only the fields |
| SignupPage.LiveAfterSubmit | api/public/signup.js:74-85 | after it, the box shows exactly when the trimmed fields have errors |
| SignupPage.DoSignupSends | api/public/signup.js:99-121 | an attempt is recorded; it sends exactly when there are no errors, with the trimmed username and the password as typed; otherwise it shows the errors in red |
| SignupPage.SentPassesLengths | api/public/signup.js:102-120 | what goes out is trimmed, of allowed length, and a password the server takes |
| SignupPage.DoSignupAnswers | api/public/signup.js:116-140 | a sent attempt shows a message, green exactly on an ok reply with ok data |
| SignupPage.HandlersKeepSettled | api/public/signup.js:69-72 | every handler leaves the button disabled exactly when the terms are unchecked |
| SignupPage.OnlyAcceptedTermsSubmit | api/public/signup.js:143-158 | a click or Enter attempts a signup exactly when the terms are accepted |
| SignupPage.Page.constructor | api/public/signup.js:41-97 | the loaded form with the button settled |
| SignupPage.Page.UpdateButtonDisabled | api/public/signup.js:69-72 | `updateButtonDisabled` |
| SignupPage.Page.SetMessage | api/public/signup.js:43-57 | `setMsg` |
| SignupPage.Page.MaybeUpdateErrorsLive | api/public/signup.js:74-85 | `maybeUpdateErrorsLive` |
| SignupPage.Page.OnInput | api/public/signup.js:88-93 | the input listeners |
| SignupPage.Page.OnTermsChange | api/public/signup.js:94 | the change listener settles the button |
| SignupPage.Page.ShowOutcome | api/public/signup.js:116-136 | the reply's message |
| SignupPage.Page.DoSignup | api/public/signup.js:99-141 | `doSignup` |
| SignupPage.Page.OnClick | api/public/signup.js:143-148 | the click listener |
| SignupPage.Page.OnKeyDown | api/public/signup.js:151-158 | the Enter listeners |
| LeaderboardPage.LookupSuffix | api/public/leaderboard.js:22-23 | `s[(v - 20) % 10]`, else `s[v]`, else `s[0]`, with `v = n % 100` and JavaScript's `%` |
| LeaderboardPage.Ordinal | api/public/leaderboard.js:21-24 | `ordinal(n)`: `String(n)` followed by the looked-up suffix |
| LeaderboardPage.IconFor | api/public/leaderboard.js:95-98 | the row icon of a metric, honey for every metric but the three named |
| LeaderboardPage.MakeRow | api/public/leaderboard.js:34-48 | `makeRow`: the ordinal, the name or "Unknown", the value and the icon |
| LeaderboardPage.RankedRows | api/public/leaderboard.js:100-102 | item i as row i + 1 |
| LeaderboardPage.RowsFor | api/public/leaderboard.js:76-116 | the rows of a load: the error row on failure, the "No data yet" row for an empty list, else the ranked rows |
| LeaderboardPage.ButtonBoard | api/public/leaderboard.js:118-130 | the metric and title a button loads, by the first of its four classes |
| LeaderboardPage.MarkSpec | api/public/leaderboard.js:70-74 | `markSelected`: the first marked button loses its mark and the clicked one gains it |
| LeaderboardPage.LoadSpec | api/public/leaderboard.js:76-116 | `loadLeaderboard`: selector mode, the mark, the title and the rows of the reply |
| LeaderboardPage.ClickSpec | api/public/leaderboard.js:118-130 | a click loads the button's board, or does nothing for a button without one |
| LeaderboardPage.EnglishSuffix | api/public/leaderboard.js:21-24 | the suffix has two letters |
| LeaderboardPage.LowRemainder | api/public/leaderboard.js:22-23 | below 20 the first lookup misses except at 0 and 10 |
| LeaderboardPage.HighRemainder | api/public/leaderboard.js:22-23 | from 20 on the first lookup reads the last digit |
| LeaderboardPage.LookupLow | api/public/leaderboard.js:22-23 | the lookup is the English suffix below 20 |
| LeaderboardPage.LookupHigh | api/public/leaderboard.js:22-23 | the lookup is the English suffix from 20 on |
| LeaderboardPage.LookupNegative | api/public/leaderboard.js:22-23 | negative ranks get "th" |
| LeaderboardPage.OrdinalSuffix | api/public/leaderboard.js:21-24 | `ordinal(n)` is the decimal form plus st/nd/rd after 1/2/3 outside the teens, th otherwise |
| LeaderboardPage.OrdinalShape | api/public/leaderboard.js:23 | the ordinal is the decimal form followed by two letters |
| LeaderboardPage.OrdinalInjective | api/public/leaderboard.js:21-24 | different ranks read differently |
| LeaderboardPage.OrdinalExamples | api/public/leaderboard.js:21-24 | 1st, 2nd, 3rd, 11th-13th, 21st, 112th, 10th |
| LeaderboardPage.IconsDiffer | api/public/leaderboard.js:95-98 | each of three metrics has its own icon; every other metric shows honey |
| LeaderboardPage.RanksInOrder | api/public/leaderboard.js:91-103 | one row per item in order, ranked 1st, 2nd, ..., with the icon, the name or "Unknown", and the value |
| LeaderboardPage.RanksDistinct | api/public/leaderboard.js:100-102 | no rank shows twice |
| LeaderboardPage.OrdinalsDiffer | api/public/leaderboard.js:21-24 | different numbers give different ordinals |
| LeaderboardPage.EmptyBoard | api/public/leaderboard.js:91-93 | an empty or non-array list shows only "1st" "No data yet" |
| LeaderboardPage.FailedBoard | api/public/leaderboard.js:106-115 | a failed load shows only the error row |
| LeaderboardPage.ButtonsAskKnownMetrics | api/public/leaderboard.js:118-130 | every board a button loads is a metric the server accepts |
| LeaderboardPage.ButtonIcons | api/public/leaderboard.js:95-98 | every button but honey's shows its own icon |
| LeaderboardPage.MetricsLower | api/public/leaderboard.js:121-127 | the four metric names are lower case |
| LeaderboardPage.KnownMetric | api/server.js:625-629 | a lower-case allowed name passes the server's check unchanged |
| LeaderboardPage.FirstMarked | api/public/leaderboard.js:71 | `querySelector(".selectedNew")` finds the first marked button |
| LeaderboardPage.MarkOnlyClicked | api/public/leaderboard.js:70-74 | with at most one mark before, only the clicked button is marked after |
| LeaderboardPage.LoadKeepsOneMark | api/public/leaderboard.js:76-116 | loading keeps a single mark on the clicked button, and always leaves a row |
| LeaderboardPage.Page.constructor | api/public/leaderboard.js:17-19 | the loaded page with no mark |
| LeaderboardPage.Page.SwitchToSelectorMode | api/public/leaderboard.js:50-68 | the selector layout switches on |
| LeaderboardPage.Page.MarkSelected | api/public/leaderboard.js:70-74 | `markSelected` |
| LeaderboardPage.Page.ClearRows | api/public/leaderboard.js:30-32 | `clearEl` empties the rows |
| LeaderboardPage.Page.AppendRanked | api/public/leaderboard.js:100-102 | the `forEach` appends the ranked rows |
| LeaderboardPage.Page.LoadLeaderboard | api/public/leaderboard.js:76-116 | `loadLeaderboard` |
| LeaderboardPage.Page.OnClick | api/public/leaderboard.js:118-130 | the button listener |

## Findings

| source | as written | input that shows it | evidently intended | confidence | as-written member | corrected member |
|---|---|---|---|---|---|---|
| api/server.js:387-391 | the subtraction "swap" of `/api/signup` sets `n2 = n1` and then `n1 = n2`, so both operands become the smaller one | draws 0.25, 0.0, 0.5 give operands 1 and 51; the stored question is `1 - 1` | swap the operands as `/api/change-question` does (api/server.js:602), giving `51 - 1` | not executed | Questions.SignupQuestion, Questions.SignupSwapCounterexample | Questions.ChangeQuestion, Questions.ChangeQuestionWellFormed |

The signup handler keeps the question as written (`Server.Signup`), since that is what the server stores. `Questions.EmptyAnswer` shows the consequence: every collapsed signup question has solution 0, so an empty answer field counts as correct.

## Left out

- Express plumbing is not modelled: routing, static pages, helmet, CORS, sessions and their store, the catch-all redirect and `app.listen`. A session is only `req.session.userId`, a parameter.
- File I/O is not modelled. `readUsersDB`, `writeUsersDB` and the other readers and writers become stores passed in and returned. The whitelist is a parameter.
- Argon2 is a foreign call. It becomes the parameter `hash`, applied to `password + pepper`. `DUMMY_HASH` and the unused `failMap` constants are left out.
- The time-zone database is not modelled. `Intl.DateTimeFormat` becomes the `Zone` parameter. Zone-dependent guarantees are conditioned on no clock change between the guess and the target.
- `Math.pow(length * 5, 1.25)` and `Math.round` are floating point. They become the parameter `maxIncrementFor`.
- Timers are not modelled. Only one round of `scheduleDailyReset` is (`Server.DailyResetStep`). The `setTimeout` self-rescheduling and every `setInterval` session poll are left out.
- `/api/login`, `/api/me` and `/api/logout` are not modelled. The pages only see `/api/me` as a reply parameter.
- The leaderboard page's session check and its polling only navigate, so they are not modelled.
- The DOM, `fetch`, `toLocaleString`, `Intl.NumberFormat` (`formatNumber`), colours, focus and `scrollTop` are not modelled.
- The initial texts of the markup are constructor parameters.
- Loose equality is not modelled. The typed answer is modelled as a whole number or an empty field, compared with `answer == solution`.
- Accounts.KeyNumber: `Number()` is modelled only on unsigned decimal keys. The model reads every other key as NaN: a sign ("-5", "+5"), "Infinity", hex, an exponent or a fraction. For a store with such a key, `Accounts.GenerateUniqueIdNaN` therefore gives "NaN" where `generateUniqueId` computes a number. The server only ever creates unsigned decimal ids.
- String lengths count characters, not UTF-16 code units.
- `toLowerCase` is ASCII only.
- Numbers above 2^53 lose no precision, and the time value is not clipped.
- The `usersDB.users` and `authDB.auth` objects are assumed present. The `|| {}` fallbacks are not modelled.
- Keys on the prototype chain are not modelled.
- Accounts.GenerateUniqueIdFresh: stated only when every id is numeric. With a non-numeric id the code yields "NaN", which can collide; `Accounts.GenerateUniqueIdNaN` states that case.
- Server.Signup: each handler is modelled as one atomic step from the stores it reads to the stores it writes. `/api/signup` reads both stores (api/server.js:353-354) and then awaits `argon2.hash` (api/server.js:373) before it writes its copies back (api/server.js:425, 435). The model leaves out this await. Any update that runs in the meantime is overwritten: an add-honey, a change-question, the midnight reset, or a second signup, whose user and auth records are then lost although it was answered `ok`. So `Server.AdmittedInvariant`, `Server.AddHoneyGain` and the other store properties hold for requests served one after another. Every other modelled handler runs without an await between its read and its write.
- Async interleaving is not modelled: a second click or key press while a request is in flight. `SignupPage.Page.DoSignup` does set `disabled = true` before the request, but its step ends only after the `finally` block has settled the button again, so the disabled state during the request is never visible in the model.
- The in-place `items.sort` is modelled as a stable sort function on a sequence, so aliasing of the array is not modelled.
- A `continueClicking` closure is a numbered value rather than a function object.
- LeaderboardPage.Page.SwitchToSelectorMode: the class swaps it makes on five kinds of elements become one flag.
- A leaderboard button is modelled by the first of the four classes its listener tests. Buttons with several of those classes are not modelled separately.
- `formatNumber(value)` is not modelled. A row holds the value itself.
- stats.js, login.js, pageSelector.js and market.js only navigate and render, so they are not modelled.
