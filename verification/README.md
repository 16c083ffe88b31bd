# Verified model of the backend's core logic

This project models the parts of an Express/TypeORM backend whose correctness is not visible in
any one function, and proves what they promise. Run `dafny verify dfyconfig.toml` to check it.

* **Time series** (`Calendar`, `CalendarDates`, `DateSort`, `TimeSeries`, `TimeSeriesLaws`, `TimeSeriesTotals`, `TimeSeriesExamples`). `formatResponse` picks a
  calendar unit from the span of the dates, groups the dates by it, sorts every bucket in place by the
  number YYYYMMDD and adds up the values. The model builds the Gregorian calendar and ISO 8601 week dates
  from day numbers, and the enumeration order of object properties. Dates are keys with the instant they
  are read as, in milliseconds.
* **Connection URLs** (`Regex`, `ConnectionString`, `ConnectionUrl`, `ConnectionUrlExamples`). The parser is one backtracking regular
  expression. The model has an ordered-choice matcher for such expressions, the expression itself as data,
  a greedy scanner, and the two printers.
* **Sessions** (`Session`, `SessionLaws`, `SessionOutcomes`, `AuthService`). Sign-up, login, refresh, account creation and the
  access check as steps on accounts, token rows, a clock in whole seconds and the set of signed tokens;
  and the same handlers as methods of a class that updates its tables.
* **Mail templates** (`MailTemplate`, `MailTemplateLaws`, `MailValues`, `MailMessage`). A chain of 26 global
  replaces against one pass over the template and against one simultaneous substitution.
* **Cache keys** (`CacheKeys`). A bit-mask enumeration against the fold that creates single keys.
* **Report** (`Rounding`, `ReportPages`, `DefectChart`). Largest-remainder rounding, the paging loops and
  the chart series.
* **Permissions** (`Permissions`). The sub-admin module search and decision.

## Where the code falls short of what one might expect

These are results of the proofs. The lemmas named give the exact condition under which the code does what one
expects, for all inputs, and inputs on which it does not.

* Dates of one negative year are sorted backwards (`DateSort.SortKeyIsChronological`), so a group's interval
  can miss its own dates (`TimeSeriesLaws.IntervalHoldsDatesExactly`). Two successive days of year -1 make a group
  that ends before it starts, under the label MONTHS (`TimeSeriesExamples.YearMinusOneIsMissed`) and, with a later
  date, under the label YEARS that is then chosen (`TimeSeriesExamples.YearMinusOneIsMissedByDefault`).
* For the same reason the label can be chosen from the wrong ends (`TimeSeriesLaws.SortFindsEnds`,
  `TimeSeriesLaws.LabelOfData`) and need not fit the dates. A label that does not fit can mix units
  (`TimeSeriesLaws.FitsExactly`): three Wednesdays of year -3 are added up as one day
  (`TimeSeriesExamples.YearMinusThreeIsMixed`).
* A negative ISO week-year is not an array index, so its group is enumerated in order of appearance and after the
  others (`TimeSeriesLaws.ChronologyExactly`). January 1st of year 0 lies in week-year -1, so even years from 0 on
  do not guarantee groups in time order (`TimeSeriesExamples.YearZeroIsOutOfOrder`).
* The response starts with the instant of one key, not with the start of its day
  (`TimeSeriesLaws.ResponseSpan`, `TimeSeriesExamples.ResponseStartsLate`).
* A password with a colon, or a host with an inner `@` and no credentials, does not survive printing and
  parsing (`ConnectionUrl.RoundTripExactly`, `ConnectionUrlExamples.ColonEndsPassword`,
  `ConnectionUrlExamples.AtEndsCredentials`); a URL without port or password is rebased onto the word
  `undefined` (`ConnectionUrl.RebaseExactly`, `ConnectionUrlExamples.PortIsInvented`).
* Two tokens for one user and audience in one second are the same text, so a refresh within the second of
  issue hands back the presented token (`SessionLaws.RefreshRotates`, `SessionLaws.SameSecondRefresh`).
* A login by e-mail is ambiguous when an admin and a sub-admin share the address
  (`SessionLaws.EmailLoginIsAmbiguousExactly`), as two account creations bring about (`SessionLaws.SharedAddress`).
* The test `userType === (USER || VENDOR || DRIVER)` holds for users only, so vendors and drivers have no
  stored tokens; the stored-token results are about users.
* A group of nested braces can become a placeholder once the ones inside it are filled in. The chain of replaces
  is one simultaneous substitution exactly when no such placeholder is listed after all that it is built from
  (`MailTemplateLaws.ChainIsFillExactly`). `{{name}}` with the name `password` shows the password, and so for any
  two placeholders (`MailMessage.NestedBracesDiffer`).
* A value can bring up a placeholder that is listed later, which is then replaced (`MailValues.NothingNewExactly`,
  `MailMessage.BracedHtmlArrivesExactly`). The sign-up accepts the name `A{password}`, which shows the password
  (`MailMessage.NameShowsPassword`).
* A value with `$$`, `$&`, `` $` `` or `$'` does not arrive as it is (`MailMessage.PlainValueArrivesExactly`).
* From 31 relations on, the 32-bit shift wraps, and without relations the formats differ: the enumerated keys are
  the created ones exactly for 1 to 30 relations (`CacheKeys.EnumerationIsComplete`,
  `CacheKeys.NothingForThirtyOne`, `CacheKeys.NoRelationsNoMatch`).
* Rounding keeps the order of different shares, but of two equal ones the first may get the larger number
  (`Rounding.TiesExactly`, `Rounding.ThirdsAreUneven`).
* A week without some defect type shifts the later bars of that type (`DefectChart.SeriesIsAligned`,
  `DefectChart.MissingWeekShifts`).

## Model

| member | source | states |
|---|---|---|
| Calendar.DayRoundTrip | src/utils/response.ts:86-91 | year, month and day of every valid date are read back from its day number |
| Calendar.DateRoundTrip | src/utils/response.ts:86-91 | every day number has a valid date, which leads back to it |
| CalendarDates.DayIsCivilDate | src/utils/response.ts:86-91 | year, month and day of every day count to its day number by the usual formula, with the month lengths of a table |
| CalendarDates.DatesExactly | src/utils/response.ts:86-91 | the valid dates are those up to the lengths of that table, one more in a leap February |
| CalendarDates.InstantsOfDay | src/utils/response.ts:40-45 | a day has the 86400000 milliseconds from its start to its end |
| CalendarDates.WeekdaysRepeat | src/utils/response.ts:103 | weekdays from 1 to 7 count on from Monday, January 5th of 1970 |
| CalendarDates.FirstOf2000 | src/utils/response.ts:86-91 | January 1st of 2000 was a Saturday of week 52 of 1999 |
| CalendarDates.LeapDayOf2024 | src/utils/response.ts:86-91 | February 29th of 2024 was a Thursday of week 9 |
| Calendar.WeekDatesCountFromWeekOne | src/utils/response.ts:89-91 | week number, weekday and week-year locate every day by counting from the week of January 4th, as ISO 8601 defines them |
| Calendar.SameIsoWeek | src/utils/response.ts:103-105 | equal week-year and week number mean the same Monday-to-Sunday week, and conversely |
| Calendar.IsoWeekYearMonotone | src/utils/response.ts:91-99 | week-years never decrease with time |
| Calendar.WeekYearIsNear | src/utils/response.ts:89-109 | a date leaves its ISO week-year only in December or January, and by one year at most |
| DateSort.SortKeyIsChronological | src/utils/response.ts:25-29 | YYYYMMDD orders two days as time does exactly when they are not in one negative year |
| DateSort.StableSortMeets | src/utils/response.ts:25-29 | the sort is ordered by day, a permutation, and keeps dates of one day in their old order |
| DateSort.StableSortUnique | src/utils/response.ts:25-29 | any ordered, stable result is this one, whatever algorithm the engine uses |
| DateSort.SortDates | src/utils/response.ts:25-29 | the array is left stably sorted in place |
| TimeSeries.ObjectKeysAreOrdered | src/utils/response.ts:37-39 | object keys are enumerated once each, indices ascending and before negative names |
| TimeSeries.GroupByIsGrouping | src/utils/response.ts:97-129 | there is one non-empty bucket for every unit that occurs, holding exactly its dates |
| TimeSeries.AddUp | src/utils/response.ts:47-63 | the accumulation loop computes the sum of a group's values, starting from nothing |
| TimeSeries.PrepareResponseGroups | src/utils/response.ts:31-73 | the loop over the buckets yields the groups in key order, each from its sorted dates |
| TimeSeries.FormatResponse | src/utils/response.ts:75-140 | the method with its branches returns the specified response, for every input and label, and the empty response for no data |
| TimeSeriesLaws.SortFindsEnds | src/utils/response.ts:80-87 | the first and last sorted date are the earliest and latest day if and only if the first and last year are not negative ones with dates on several days |
| TimeSeriesLaws.LabelOfData | src/utils/response.ts:80-109 | for all data the label is that of the days which the sort puts first and last: the earliest and latest, or, in a negative year, the latest and earliest of that year |
| TimeSeriesLaws.SortedEndsExist | src/utils/response.ts:80-87 | the first and last sorted date lie on such days |
| TimeSeriesLaws.ChosenLabelMeans | src/utils/response.ts:86-109 | for all data: within one negative year, days when the ends share a week number, and weeks otherwise; else, by the days that the sort puts first and last, years exactly when they leave an ISO week-year, days exactly when they share an ISO week, months exactly when they share both years and lie two months apart |
| TimeSeriesLaws.ChosenLabelFits | src/utils/response.ts:86-109 | a chosen label fits the dates whenever the sort finds both ends |
| TimeSeriesLaws.BucketsDoNotMix | src/utils/response.ts:96-129 | under a label that fits, chosen or requested, two dates share a bucket if and only if they share the day, ISO week, month of one year, or week-year; units grow with time |
| TimeSeriesLaws.FitsExactly | src/utils/response.ts:96-129 | a label does so for all data between two days if and only if these lie in one ISO week for days, one ISO week-year for weeks, one year for months |
| TimeSeriesLaws.GroupHoldsItsDates | src/utils/response.ts:40-45 | from year 0 on each group runs from the day of its earliest to the day of its latest date and contains every instant of its bucket |
| TimeSeriesLaws.IntervalHoldsDatesExactly | src/utils/response.ts:40-45 | for all years, exactly when a group's interval contains its dates |
| TimeSeriesLaws.ChronologyExactly | src/utils/response.ts:37-70 | under a label that fits, chosen or requested, the groups come in time order without overlap if and only if they are not years, or the dates lie in one ISO week-year, in none that is negative, or in negative ones only that appear in ascending order |
| TimeSeriesLaws.DateFallsInItsGroupOnly | src/utils/response.ts:37-70 | under a label that fits, a group's interval holds exactly the group's dates if and only if its first and last year are not negative ones with several days; dates of other groups never fall into it |
| TimeSeriesLaws.ResponseSpan | src/utils/response.ts:80-87 | for all years, where the response starts and ends, and exactly when that covers all dates |
| TimeSeriesTotals.GroupsPartitionDates | src/utils/response.ts:96-132 | for every label the sorted buckets together are a permutation of the input |
| TimeSeriesTotals.TotalsAreConserved | src/utils/response.ts:49-69 | for every label the group sums add up to the sum of all values, number by number or field by field |
| TimeSeriesTotals.ResponseParts | src/utils/response.ts:96-140 | the response has the requested label or else the chosen one, and one group for each bucket, whose sum is over its dates and has exactly their fields |
| TimeSeriesExamples.YearZeroOpensInWeekYearMinusOne | src/utils/response.ts:96-99 | January 1st of year 0 lies in week-year -1 and January 3rd in week-year 0 |
| TimeSeriesExamples.YearZeroIsOutOfOrder | src/utils/response.ts:37-70 | data on these two days, whose groups are not in time order |
| TimeSeriesExamples.YearMinusOneIsMissed | src/utils/response.ts:25-73 | a response with one group, for two days of year -1 under the label MONTHS, which ends before it starts |
| TimeSeriesExamples.YearMinusOneIsMissedByDefault | src/utils/response.ts:25-140 | the same for a chosen label, with a later date |
| TimeSeriesExamples.YearMinusThreeIsMixed | src/utils/response.ts:86-103 | three dates of year -3 in different weeks that the chosen label DAYS puts into one bucket |
| TimeSeriesExamples.ResponseStartsLate | src/utils/response.ts:86-87 | two keys of one day, with a response that starts after one of them |
| Regex.RunIsGreedy | src/utils/parseConnectionString.ts:11 | a greedy run matches at full length whenever the rest then matches or never does before |
| Regex.RunTakesLongest | src/utils/parseConnectionString.ts:11 | a run ends at the last place from which the rest matches, and the match fails only if there is none |
| Regex.SpacesAre | src/utils/parseConnectionString.ts:11 | the code points that `\s` stands for |
| Regex.MatchTakesNoSpace | src/utils/parseConnectionString.ts:11-15 | no backtracking path of an anchored pattern without white space accepts input with white space |
| ConnectionString.MatchIsScan | src/utils/parseConnectionString.ts:11-15 | the backtracking match succeeds exactly without white space and then equals one greedy left-to-right scan |
| ConnectionString.Parse | src/utils/parseConnectionString.ts:10-27 | parsing fails exactly on input with white space, with one message |
| ConnectionString.HostSplitsOnce | src/utils/parseConnectionString.ts:23-24 | host and port come in at most two pieces, and which |
| ConnectionUrl.DecimalReadsBack | src/utils/buildConnectionUrl.ts:11 | the digits of a printed port read back as the number |
| ConnectionUrl.DecimalIsShortest | src/utils/buildConnectionUrl.ts:11 | they have no leading zero |
| ConnectionUrl.LowerMeans | src/utils/buildConnectionUrl.ts:8 | capital letters are lowered one by one and nothing else changes |
| ConnectionUrl.GivenUrlIsReturned | src/utils/buildConnectionUrl.ts:4-6 | a URL that is given is returned as it is, and an empty one counts as none |
| ConnectionUrl.ParsedIsClean | src/utils/parseConnectionString.ts:19-26 | what the parser returns is free of the delimiters, ports are digits, and a host without port does not end like one |
| ConnectionUrl.RoundTripExactly | src/utils/buildConnectionUrl.ts:3-16 | printing and parsing gives the options back with defaults if and only if no field holds a delimiter that would end it early |
| ConnectionUrl.RebaseExactly | jest/helper.mjs:33-37 | rebasing a URL and parsing keeps dialect, password, host and port if and only if all four were there and the new name is clean |
| ConnectionUrl.MissingIsPrinted | jest/helper.mjs:33-37 | what is missing in the URL is printed as the word `undefined` |
| ConnectionUrlExamples.ColonEndsPassword | src/utils/buildConnectionUrl.ts:3-16 | options with the password `a:b` do not come back |
| ConnectionUrlExamples.AtEndsCredentials | src/utils/buildConnectionUrl.ts:3-16 | options with the host `x@y` and no credentials do not come back |
| ConnectionUrlExamples.PortIsInvented | jest/helper.mjs:33-37 | a URL without a port is not kept by rebasing, whatever the new name |
| SessionLaws.RunKeepsInv | src/controller/auth.ts:45-338 | in every state of every run: unique identities, at most one row per account, rows hold the latest tokens, the login count and the last login, all tokens sound |
| SessionLaws.StepKeepsInv | src/controller/auth.ts:45-338 | every single step keeps that invariant |
| SessionLaws.SignUpExactly | src/controller/auth.ts:53-64 | sign-up succeeds if and only if the new account leaves identities unique, and otherwise changes nothing |
| SessionLaws.CreateUserExactly | src/controller/users.ts:106-122 | so does account creation by an administrator, which changes nothing when refused |
| SessionLaws.PhoneLoginHasOneAnswer | src/controller/auth.ts:183-190 | a login by phone number has one possible account |
| SessionLaws.EmailLoginIsAmbiguousExactly | src/controller/auth.ts:183-190 | a login by e-mail has several possible accounts if and only if an admin and a sub-admin share the address |
| SessionLaws.SharedAddress | src/controller/users.ts:106-122 | a run of two account creations after which it has two |
| SessionLaws.VerifiesExactly | src/service/token.ts:26-58 | in any run, a text verifies for an audience if and only if an earlier step signed it for that audience and fewer than the configured minutes have passed |
| SessionLaws.AcceptsLatestOnly | src/middleware/authenticate.ts:24-50 | for a user, a token is accepted if and only if it is the access token of the latest response and the access minutes from then are not over |
| SessionLaws.StaleAccessIsRejected | src/middleware/authenticate.ts:41-50 | in any run, a user's access token issued in an earlier second than a later response is rejected in all states from then on |
| SessionLaws.RefreshesLatestOnly | src/controller/auth.ts:280-320 | a user's refresh is granted if and only if the token is the refresh token of the latest response and the refresh minutes from then are not over |
| SessionLaws.RefreshRotates | src/controller/auth.ts:302-320 | a refresh stores the new token, which differs from the presented one unless both are of the same second |
| SessionLaws.SameSecondRefresh | src/controller/auth.ts:302-320 | a run of a sign-up and two refreshes in one second, in which one refresh token is accepted twice |
| SessionLaws.RefreshTokenIsSpent | src/controller/auth.ts:311-319 | in any run, a user's refresh token accepted in a later second than its issue is never accepted again |
| SessionLaws.AcceptedWasSigned | src/service/token.ts:26-47 | every accepted token was signed at an earlier step of the run, as an access token, for that user and in the second it names |
| SessionOutcomes.RefreshWindow | src/service/token.ts:41-43 | the same in every state of every run, with 60 seconds for each minute of the configuration |
| SessionOutcomes.AccessWindow | src/service/token.ts:37-39 | so for access tokens |
| SessionOutcomes.ForgetPasswordWindow | src/service/token.ts:45-47 | a forget-password token verifies for the access minutes from its signing |
| SessionOutcomes.SignUpAnswers | src/controller/auth.ts:53-128 | which sign-ups are refused with which code, and which tokens the others get |
| SessionOutcomes.LoginLooksFor | src/controller/auth.ts:161-190 | which account a login looks for, by kind, phone number and e-mail |
| SessionOutcomes.LoginAnswers | src/controller/auth.ts:192-261 | which logins are refused with which code, in order, and which tokens the others get |
| SessionOutcomes.RefreshAnswersToTexts | src/controller/auth.ts:275-291 | which texts are answered as expired and which as invalid |
| SessionOutcomes.RefreshAnswers | src/controller/auth.ts:293-338 | which valid tokens are refused with which code, and what the others get |
| SessionOutcomes.CreateUserAnswers | src/controller/users.ts:106-122 | a creation is refused exactly if the address is taken for that kind |
| SessionOutcomes.AuthenticateAnswers | src/middleware/authenticate.ts:23-58 | every verdict with its message, and that only sub-admins go on to the permission check |
| SessionOutcomes.LoginAfterSignUp | src/controller/auth.ts:66-243 | a new account can log in with its data and password, unless it is a super admin |
| SessionOutcomes.LoginAfterCreation | src/controller/users.ts:106-122 | a created account can log in by its address exactly if it is an admin or a sub-admin |
| SessionOutcomes.BlockingStopsLogin | src/controller/auth.ts:196-198 | an account can log in exactly while it is not blocked, and blocking changes nothing else |
| AuthService.Service.SignUp | src/controller/auth.ts:45-128 | takes the specified sign-up step and keeps the invariant |
| AuthService.Service.Login | src/controller/auth.ts:157-261 | takes the specified login step for some matching account and keeps the invariant |
| AuthService.Service.RefreshToken | src/controller/auth.ts:271-338 | takes the specified refresh step and keeps the invariant |
| AuthService.Service.CreateUser | src/controller/users.ts:101-126 | takes the specified creation step and keeps the invariant |
| AuthService.Service.Authenticate | src/middleware/authenticate.ts:23-58 | returns the specified verdict and changes nothing |
| MailTemplateLaws.ResolveStep | src/service/Mail.ts:143-168 | one replace leaves a template that the rest of the chain resolves to the same text |
| MailTemplateLaws.ChainResolves | src/service/Mail.ts:142-168 | for values without braces and codes and every template, the chain equals one pass that replaces each brace group whose filled name is listed after all that went into it |
| MailTemplateLaws.ChainIsFillExactly | src/service/Mail.ts:142-168 | for such values the chain equals one simultaneous substitution if and only if no brace group of the template fills in to a listed placeholder that comes after all those it holds |
| MailTemplateLaws.SurvivesExactly | src/service/Mail.ts:142-168 | for such values a placeholder of the list occurs in the result of the chain if and only if some brace group becomes one too late |
| MailTemplateLaws.OrderIsFreeExactly | src/service/Mail.ts:142-168 | for such values the replaces may come in any order if and only if no brace group fills in to a listed placeholder other than those it holds |
| MailValues.NothingNewExactly | src/service/Mail.ts:142-168 | for values with any braces the chain equals the simultaneous substitution if no replace brings up a placeholder that is listed later, and only if so when just the first value has braces |
| MailValues.ValueArrivesExactly | src/service/Mail.ts:143-168 | a value without braces replaces its placeholder unchanged if and only if no `$` in it stands before `$`, `&`, a backquote or an apostrophe, whatever the other values |
| MailValues.ExpandCode | src/service/Mail.ts:143-168 | a code in a value stands for its text, and what stands before and after it is read on its own |
| MailValues.CodesMean | src/service/Mail.ts:143-168 | what the four codes bring in, in the middle of a value: a dollar sign, the placeholder, the text before it and the text after it |
| MailValues.BracedValueArrivesExactly | src/service/Mail.ts:143-168 | a value with braces does so if and only if it holds no placeholder that is listed later |
| MailValues.ReplacesUndoEachOther | src/service/Mail.ts:142-168 | three values with braces under which the chain brings up placeholders and still ends with the simultaneous substitution |
| MailMessage.HtmlIsOnePass | src/service/Mail.ts:142-168 | the message as one pass, as the simultaneous substitution, and its surviving placeholders, for the 26 placeholders |
| MailMessage.HtmlWithBraces | src/service/Mail.ts:142-168 | for values with braces, the message is the filled template when no value brings up a later placeholder |
| MailMessage.EarlyFieldsAreShown | src/service/Mail.ts:143-151 | on a template with one placeholder the message shows its own field, written out for the first 9 of the 26 |
| MailMessage.MiddleFieldsAreShown | src/service/Mail.ts:152-159 | so for the next 8 |
| MailMessage.LateFieldsAreShown | src/service/Mail.ts:160-168 | so for the last 9 |
| MailMessage.PlaceholderMeans | src/service/Mail.ts:143-168 | each of the 26 placeholders stands for the value in its place, whatever comes before it in the chain |
| MailMessage.NoTemplateNoMessage | src/service/Mail.ts:142 | without a template the message is empty |
| MailMessage.PlainValueArrivesExactly | src/service/Mail.ts:143-168 | on the template of one of the 26 placeholders a value without braces arrives unchanged if and only if it holds no code |
| MailMessage.BracedHtmlArrivesExactly | src/service/Mail.ts:143-168 | there a value with braces arrives unchanged if and only if it holds no later one of the 26 placeholders |
| MailMessage.NestedBracesDiffer | src/service/Mail.ts:142-168 | for any two of the 26 placeholders, a nested template and a value on which the message is not the filled template |
| MailMessage.ValueBringsAnother | src/service/Mail.ts:142-168 | for any two of the 26 placeholders, a value that brings the other one's value into the message |
| MailMessage.NameShowsPassword | src/controller/auth.ts:28-32 | the name `A{password}` on the template `{name}` shows the password |
| CacheKeys.Combinations | src/utils/binaryCombination.ts:2-12 | the nested loops yield the joined flags of every mask below the shifted bound |
| CacheKeys.CountExactly | src/utils/binaryCombination.ts:4 | there are 2^n combinations if and only if n is at most 30 |
| CacheKeys.EnumerationIsComplete | src/utils/cache.ts:16-31 | for different relations, the enumerated keys are exactly those that some query creates if and only if there are 1 to 30 relations |
| CacheKeys.AllFlagsAreMissed | src/utils/binaryCombination.ts:4-7 | from 31 names on, the key with all flags set is never enumerated |
| CacheKeys.NothingForThirtyOne | src/utils/binaryCombination.ts:4 | for 31 relations there is no enumerated key at all |
| CacheKeys.FlagsRepeat | src/utils/binaryCombination.ts:7 | flags repeat after 32 names |
| CacheKeys.UserKeysAreComplete | src/utils/cache.ts:8-31 | the three relations of a user have 8 enumerated keys, which are those that some query creates |
| CacheKeys.KeyOfQuery | src/utils/cache.ts:16-31 | the key of a query is the enumerated key of the mask whose bits are the flags that the query sets |
| CacheKeys.MaskOfQuery | src/utils/binaryCombination.ts:7 | every query has such a mask |
| CacheKeys.EmptyQueryIsFirst | src/utils/cache.ts:20-31 | the empty query has the key of mask 0 |
| CacheKeys.UserKey | src/utils/cache.ts:20-31 | the key of a user, written out with the three flags of the query |
| CacheKeys.DetailKeyIsInjective | src/utils/cache.ts:20-31 | equal keys mean equal id and flags, for arbitrary ids |
| CacheKeys.KeysAreDistinct | src/utils/cache.ts:16-18 | no key is enumerated twice, and different ids share no key |
| CacheKeys.NoRelationsNoMatch | src/utils/cache.ts:16-31 | without relations the created and the one enumerated key, written out, differ by a colon |
| Rounding.RoundedPercentages | views/english/savings.ejs:16-48 | the loops find the two largest fractions and raise as many floors as are missing to 100 |
| Rounding.RoundingIsFair | views/english/savings.ejs:16-48 | shares of 100 become integers with sum 100, each off by less than 1, order kept |
| Rounding.RoundingIsClosest | views/english/savings.ejs:16-48 | no other integers with sum 100 have a smaller total absolute error |
| Rounding.TiesExactly | views/english/savings.ejs:25-47 | two equal shares get equal numbers if and only if nothing is missing to 100, or 1 that goes to the third share, or 2 of which the third gets none |
| Rounding.ThirdsAreUneven | views/english/savings.ejs:16-48 | three equal shares become 34, 33 and 33 |
| Rounding.ShownPercentages | views/english/savings.ejs:680-684 | for any total, the numbers shown add up to 100 if and only if the floors miss at most 2, as they do when the total is that of the parts; without a total they are all 0 |
| Rounding.NumbersAreInOrder | views/english/savings.ejs:681-684 | the three numbers are within 1 of the shares of time off, stops and running time, in this order |
| Rounding.BarIsRoundedAtItsEnds | views/english/savings.ejs:72-100 | a visible segment is rounded exactly on the sides where no visible segment lies |
| ReportPages.MachinePages | views/english/savings.ejs:585-805 | the machine loop writes the specified pages of three |
| ReportPages.StopPages | views/english/savings.ejs:807-875 | the stop loop writes the specified pages of 33 |
| ReportPages.ReportIsComplete | views/english/savings.ejs:577-875 | pages open and close in turn, every machine and stop is printed once and in order, page numbers are 1 to 1 + ceil(machines/3) + ceil(stops/33) |
| ReportPages.PagesFit | views/english/savings.ejs:586-590 | no page is empty or holds more than fit, and pages start at multiples of the page size |
| ReportPages.CounterIsPlace | views/english/savings.ejs:585-603 | every machine is printed with the counter i mod 3 + 1, its place on the page |
| ReportPages.ReportNumbersAreLast | views/english/savings.ejs:577-875 | every page ends with its number |
| DefectChart.MonthTotals | views/english/partial/stopsPerDefectTypeGraphsForFactory.ejs:15-37 | each month total is the sum of that type's series |
| DefectChart.BarChart | views/english/partial/stopsPerDefectTypeGraphsForFactory.ejs:105-161 | one series for each type in order of appearance, in week order; week labels, tallest week and smallest count that is not 0 |
| DefectChart.TypesGrow | views/english/partial/stopsPerDefectTypeGraphsForFactory.ejs:117-133 | each property adds its type at the end unless it is the week number or known |
| DefectChart.StepIsUnique | views/english/partial/stopsPerDefectTypeGraphsForFactory.ejs:120-121 | the smallest count is determined by the weeks |
| DefectChart.StepOfOneWeek | views/english/partial/stopsPerDefectTypeGraphsForFactory.ejs:117-122 | neither week numbers nor zeros count for it, in one week written out |
| DefectChart.SeriesConserveCounts | views/english/partial/stopsPerDefectTypeGraphsForFactory.ejs:113-145 | the series add up to all counts of all weeks |
| DefectChart.SeriesIsAligned | views/english/partial/stopsPerDefectTypeGraphsForFactory.ejs:113-145 | bar n of a series belongs to week n for all n if and only if every week has the type |
| DefectChart.MissingWeekShifts | views/english/partial/stopsPerDefectTypeGraphsForFactory.ejs:113-145 | a first week without the type, where the second week's count is drawn at the first |
| DefectChart.LimitIsTallest | views/english/partial/stopsPerDefectTypeGraphsForFactory.ejs:136 | the limit bounds every week and is reached |
| Permissions.FindModule | src/middleware/handle-permissions.ts:30-36 | the search loop finds the least module that lists the route |
| Permissions.HandlePermission | src/middleware/handle-permissions.ts:20-74 | the handler's branches decide as specified |
| Permissions.EachVerbHasItsFlag | src/middleware/handle-permissions.ts:37-69 | without `all`, the first entry for the module decides by the one flag of the verb; with it everything is allowed |
| Permissions.WithoutEntry | src/middleware/handle-permissions.ts:20-40 | the answers for an unknown route, no entries, no module and no entry for the module |
| Permissions.DecisionIsMonotone | src/middleware/handle-permissions.ts:37-74 | setting flags or appending entries never turns an allow into a deny |
| Permissions.OtherModulesHaveNoSay | src/middleware/handle-permissions.ts:38 | an entry for another module has no influence |

## Left out

- SessionLaws.VerifiesExactly: does not model JWT encoding; a token is its claims, only signed claims verify, and lifetimes are whole minutes.
- TimeSeries.FormatResponse: does not model strings, nested or mixed values, or keys that are no dates; values are all numbers or all flat records of numbers, as exact reals.
- TimeSeries.PrepareResponseGroups: the buckets arrive as sequences and are copied to arrays to be sorted in place.
- TimeSeriesLaws.ChronologyExactly: is about labels that fit; under others, such as a requested week label for several years, groups merge equal numbers of several units, and what their intervals do depends on the single dates.
- moment and lodash are not part of this model; the calendar, the format YYYYMMDD, `groupBy` and `mergeWith` follow their documented meaning.
- Regex.MatchTakesNoSpace: is stated for patterns of the constructors in this model, which have no look-behind, alternation or back-references.
- ConnectionUrl.RoundTripExactly: lower-casing is modelled for ASCII letters, and a port is a natural number that prints in plain digits.
- AuthService.Service.SignUp: one call is one step; handlers that interleave at their awaits are not modelled, nor mail, cookies, device fields and full names.
- AuthService.Service.Login: the password check is an input, lookups are exact matches with all fields present, and relations are the token row only.
- AuthService.Service.Authenticate: does not model header and cookie parsing.
- Password changes and the one-time-password branch do not touch tokens and are left out; forget-password tokens are signed by a step of `Session`.
- No handler blocks or deletes an account (`updateProfile` does not save what it sets). Blocking is a step of `Session` that stands for such a change from outside; a blocked account keeps its identity reserved and its tokens, because lookups do not test for it. Deletion is no step: `login` tests for it, but the mapper hides deleted rows, which the lookups here do not model.
- MailTemplateLaws.ChainResolves: is about values without braces and `$` codes; `MailValues` says what becomes of values that have them. With braces in several values, what one replace brings up another may undo (`MailValues.ReplacesUndoEachOther`), so the condition there is sufficient only. Transport and addressing are left out.
- CacheKeys.Combinations: bits are modelled by division for masks that are not negative.
- Rounding.RoundedPercentages: floating-point error is not modelled; percentages are exact reals, and three of them.
- DefectChart.BarChart: the two updates of its inner loop are two methods, properties whose names are array indices are not reordered, and chart options are left out.
- Permissions.HandlePermission: the role's permissions are given; loading them and logging are left out.
- Validation schemas, rate limiting, uploads, PDF, cron, push and the Italian view, which repeats the same logic.
