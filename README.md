# Pipelines profile widgets — a Dafny model

Pipelines is a job-search web application. This project models the logic of
three of its React widgets:

- **The experience-entry editor** (`ExperienceForm.js`). It holds a company, a
  title, a start and an end month, and an "ongoing" flag. It converts months
  between the machine form `"YYYY-MM"` of an `<input type="month">` (a valid
  month string, section 2.3.5.1 of the HTML Standard) and the display form
  `"MonthName YYYY"`. It rebuilds the entry's date range
  `"<start> - <end | Present>"` after every edit and reports it to the parent
  by index. It reads a range back into two months when the parent passes an
  entry in. It derives two validity flags.
- **The debounced school search** (`SchoolQuerySearch.js`). It keeps one timer
  slot: each non-empty keystroke cancels the pending timer and arms a new one
  for that query. An empty keystroke clears the box at once. When a timer
  fires, its query is fetched, and the answer is de-duplicated by school name.
- **The company prefix search** (`QuerySearchInput.js`). It filters a fixed
  company list by a case-insensitive prefix of the name.

The JavaScript built-ins this code relies on are modelled in `JsString`:
`split`, `trim`, `parseInt`, `indexOf`, string `<`, ASCII `toLowerCase`, and
the `"undefined"` that a template literal prints for `undefined`. The pure
parts are functions with lemmas. The components are classes whose methods
overwrite their fields, as the handlers overwrite React state. Calls to the
parent (`updateExperience`, `handleSearch`) and the requests sent are
recorded as sequences in the class.

## Model

| member | source | states |
|---|---|---|
| `JsString.Split` | client/src/components/ExperienceForm.js:63 | `split` with one separator gives at least one piece, no piece holds the separator, and joining the pieces gives back the input |
| `JsString.OrUndefined` | client/src/components/ExperienceForm.js:83 | definition of how a template literal prints a value that may be `undefined`, with no contract of its own; `FlipNoHyphen`, `FlipEmpty`, `ConvertSingleWord` and `ConvertYearPart` give its meaning |
| `JsString.Trim` | client/src/components/ExperienceForm.js:32-33 | definition of `trim`, with no contract of its own; `TrimPadded` gives its meaning |
| `JsString.SplitFirst` | client/src/components/ExperienceForm.js:63 | splitting `a + sep + b`, where `a` holds no separator, gives `a` followed by the split of `b` |
| `JsString.TrimPadded` | client/src/components/ExperienceForm.js:32-33 | `trim` removes exactly the white space around a word that does not start or end with white space |
| `JsString.ParseIntDigits` | client/src/components/ExperienceForm.js:80 | `parseInt` of a string of decimal digits is its value |
| `JsString.ParseIntNoDigit` | client/src/components/ExperienceForm.js:80 | `parseInt` of a string starting with a letter is NaN |
| `JsString.ParseInt` | client/src/components/ExperienceForm.js:80 | definition of `parseInt(s, 10)`, with no contract of its own; `ParseIntDigits` and `ParseIntNoDigit` give its meaning |
| `JsString.IndexOf` | client/src/components/ExperienceForm.js:112 | `indexOf` is -1 exactly when the element is absent; otherwise it is the position of the first occurrence |
| `JsString.NatToString` | client/src/components/ExperienceForm.js:115-116 | `${n}` for a non-negative integer is a non-empty string of decimal digits that denotes `n`, with no leading zero unless `n` is 0 |
| `JsString.LexLess` | client/src/components/ExperienceForm.js:54 | definition of string `<`, with no contract of its own; `LexLessTotal`, `LexLessTransitive`, `DigitsCompare` and `IsoOrderIsChronological` give its meaning |
| `JsString.LexLessTotal` | client/src/components/ExperienceForm.js:54 | string `<` orders any two different strings one way or the other |
| `JsString.LexLessAsymmetric` | client/src/components/ExperienceForm.js:54 | string `<` is asymmetric: `a < b` and `b < a` never both hold |
| `JsString.LexLessTransitive` | client/src/components/ExperienceForm.js:54 | string `<` is transitive |
| `JsString.DigitsCompare` | client/src/components/ExperienceForm.js:54 | for digit strings of equal length, `<` agrees with numeric order |
| `JsString.ToLowerCase` | client/src/components/QuerySearchInput.js:16 | lower-casing keeps the length, turns each ASCII capital into its own small letter (same position in the alphabet), leaves every other character alone, and so leaves no ASCII capital in the result |
| `DateCodec.MonthNameFacts` | client/src/components/ExperienceForm.js:66-79 | each of the twelve month names is a single word without space or hyphen, and `indexOf` finds it at its own position |
| `DateCodec.MonthNamesDistinct` | client/src/components/ExperienceForm.js:66-79 | the twelve month names are pairwise different |
| `DateCodec.FlipDateFormat` | client/src/components/ExperienceForm.js:61-86 | definition of `flipDateFormat`, with no contract of its own; `FlipMonth`, `FlipNoHyphen`, `FlipEmpty`, `FlipShape`, `MachineRoundTrip` and `DisplayRoundTrip` give its meaning |
| `DateCodec.FlipMonth` | client/src/components/ExperienceForm.js:61-86 | `flipDateFormat("Y-MM")` with MM in 01..12 is `monthNames[MM-1] + " " + Y` |
| `DateCodec.FlipNoHyphen` | client/src/components/ExperienceForm.js:61-86 | a string without a hyphen has no month part, so it is shown as `"undefined " + s` |
| `DateCodec.FlipEmpty` | client/src/components/ExperienceForm.js:61-86 | `flipDateFormat("")` is `"undefined "` |
| `DateCodec.FlipShape` | client/src/components/ExperienceForm.js:61-86 | a valid month string is shown as a month name, a space and its year, with no hyphen and no white space at either end |
| `DateCodec.ConvertDateFormat` | client/src/components/ExperienceForm.js:88-91 | the result is `""` exactly when the input is `""` |
| `DateCodec.ConvertMonthPart` | client/src/components/ExperienceForm.js:95-121 | a non-empty input converts to a string ending in `-MM`, where MM is two digits whose value is the first word's `indexOf` in the month table plus one |
| `DateCodec.ConvertYearPart` | client/src/components/ExperienceForm.js:95-119 | before that `-MM` stands the second space-separated piece of the input, or `"undefined"` when there is none |
| `DateCodec.ConvertMonthNames` | client/src/components/ExperienceForm.js:95-121 | so MM is at most 12; it is `00` exactly when the first word is not a month name, and otherwise that name's 1-based table position |
| `DateCodec.PaddedMonth` | client/src/components/ExperienceForm.js:115-116 | definition of the zero padding, with no contract of its own; `PaddedMonthDigits` gives its meaning |
| `DateCodec.PaddedMonthDigits` | client/src/components/ExperienceForm.js:114-116 | the zero-padded month number is exactly two digits and reads back as the number |
| `DateCodec.ConvertMonth` | client/src/components/ExperienceForm.js:95-121 | `convertDateFormat("Name Y")` is `Y + "-" + MM`, MM the name's table position zero-padded, always in 01..12 |
| `DateCodec.ConvertUnknownMonth` | client/src/components/ExperienceForm.js:95-121 | a first word that is no month name gives month `"00"` |
| `DateCodec.ConvertSingleWord` | client/src/components/ExperienceForm.js:95-121 | a single word without a year gives the year `"undefined"` |
| `DateCodec.ConvertLoneNonMonth` | client/src/components/ExperienceForm.js:95-121 | a single word that is no month name converts to `"undefined-00"` |
| `DateCodec.NotAMonthInitial` | client/src/components/ExperienceForm.js:98-112 | a word whose first letter starts no month name is not in the table |
| `DateCodec.MachineRoundTrip` | client/src/components/ExperienceForm.js:61-122 | `convertDateFormat(flipDateFormat("Y-MM")) == "Y-MM"` for MM in 01..12 and Y without hyphen or space |
| `DateCodec.DisplayRoundTrip` | client/src/components/ExperienceForm.js:61-122 | `flipDateFormat(convertDateFormat("Name Y")) == "Name Y"` for a table name and Y without hyphen or space |
| `DateCodec.MonthStringRoundTrip` | client/src/components/ExperienceForm.js:61-122 | every valid month string survives display and conversion back |
| `DateCodec.IsoOrderIsChronological` | client/src/components/ExperienceForm.js:54 | for four-digit-year month strings, string `<` is calendar order |
| `DateCodec.FiveDigitYearsMisorder` | client/src/components/ExperienceForm.js:54 | with a five-digit year, string `<` puts `"10000-01"` before `"9999-12"` |
| `Experience.SplitDateRange` | client/src/components/ExperienceForm.js:26-40 | reading a range fails (`end.trim()` throws) exactly when the date is non-empty and has no hyphen |
| `Experience.DateRange` | client/src/components/ExperienceForm.js:133 | definition of the date template, with no contract of its own; `RangeRoundTrip`, `PresentRangeReadsBack` and the handlers' contracts give its meaning |
| `Experience.SplitRangeAt` | client/src/components/ExperienceForm.js:29-40 | a range `a + " - " + b` without other hyphens reads back as the conversions of the two trimmed sides |
| `Experience.RangeRoundTrip` | client/src/components/ExperienceForm.js:21-42 | the range the handlers report for two valid months reads back as those two months |
| `Experience.StartSideReadsBack` | client/src/components/ExperienceForm.js:32-39 | the left side of a reported range converts back to the start month |
| `Experience.EndSideReadsBack` | client/src/components/ExperienceForm.js:33-40 | the right side of a reported range converts back to the end month |
| `Experience.PresentRangeReadsBack` | client/src/components/ExperienceForm.js:21-42 | an ongoing range reads back with its start month and end `"undefined-00"`, not as ongoing |
| `Experience.UnsetEndReadsBack` | client/src/components/ExperienceForm.js:21-42 | a range whose end was never set reads back with end `"undefined-00"`, not `""` |
| `Experience.Validity` | client/src/components/ExperienceForm.js:44-59 | `isValid` is false exactly when `endDate < startDate` as strings, so an empty start is valid and an empty end after a start is not; `isValidPresent` is false exactly when the entry is ongoing and starts after now, so it holds for every finished entry |
| `Experience.StartsAfter` | client/src/components/ExperienceForm.js:47 | definition of `new Date(startDate) > new Date()` on months, with no contract of its own; `Validity` uses it |
| `Experience.ValidMeansChronological` | client/src/components/ExperienceForm.js:54-58 | for four-digit-year months, `isValid` holds exactly when the end is not before the start on the calendar |
| `Experience.ValidityAntisymmetric` | client/src/components/ExperienceForm.js:54-58 | a range and its reverse are never both invalid |
| `Experience.ExperienceForm.constructor` | client/src/components/ExperienceForm.js:14-18 | a new form has empty company, title and months, is not ongoing, and has reported nothing |
| `Experience.ExperienceForm.Initialize` | client/src/components/ExperienceForm.js:21-42 | no entry changes nothing; an entry sets company and title, and sets the months to the read-back range, or fails without touching them when the date cannot be read |
| `Experience.ExperienceForm.ValidationEffect` | client/src/components/ExperienceForm.js:44-59 | the pushed flags are `Validity` of the current state |
| `Experience.ExperienceForm.HandleExperienceChange` | client/src/components/ExperienceForm.js:124-148 | a new start reports the form's own range; a new end reports start and end, which is the form's range unless it is ongoing; company, title and every other field stay as they were |
| `Experience.ExperienceForm.HandleCompanyChange` | client/src/components/ExperienceForm.js:150-160 | as written: sets the company and reports `flip(company) + " - " + flip(endDate)` |
| `Experience.ExperienceForm.HandleCompanyChangeCorrected` | client/src/components/ExperienceForm.js:150-160 | sets the company and reports the form's own range |
| `Experience.ExperienceForm.HandleTitleChange` | client/src/components/ExperienceForm.js:162-172 | as written: sets the title and reports `flip(startDate) + " - " + flip(endDate)`, the form's own range only when it is not ongoing |
| `Experience.ExperienceForm.HandleTitleChangeCorrected` | client/src/components/ExperienceForm.js:162-172 | sets the title and reports the form's own range |
| `Experience.ExperienceForm.HandlePresentCheckboxChange` | client/src/components/ExperienceForm.js:174-184 | stores the checked state and reports the range built from the old flag's negation, which is the form's own range whenever the box really toggled |
| `Experience.CompanyChangeCounterexample` | client/src/components/ExperienceForm.js:156 | for any settled entry and any company name without a hyphen, the report reads `"undefined <name> - <end>"` and differs from the form's range |
| `Experience.FlippedNameIsNoMonth` | client/src/components/ExperienceForm.js:156 | `flipDateFormat` of a company name without a hyphen is `"undefined <name>"`, which never equals the display of a valid start month |
| `Experience.TitleChangeCounterexample` | client/src/components/ExperienceForm.js:168 | for any ongoing entry, the report ends in the flipped end month (`"undefined "` when none was picked) and differs from the form's `"... - Present"` range |
| `Experience.FlipHasSpace` | client/src/components/ExperienceForm.js:83 | a flipped date always holds a space, so it is never `"Present"` |
| `SchoolSearch.DedupKeepsEveryName` | client/src/components/SchoolQuerySearch.js:56-62 | the de-duplicated list holds exactly the names of the answer |
| `SchoolSearch.DedupByName` | client/src/components/SchoolQuerySearch.js:57-62 | definition of the `reduce`, with no contract of its own; `DedupKeepsEveryName`, `DedupDistinct`, `DedupKeepsFirstOccurrences`, `DedupOfDistinct` and `DedupIdempotent` give its meaning |
| `SchoolSearch.DedupDistinct` | client/src/components/SchoolQuerySearch.js:56-62 | no two schools of the de-duplicated list share a name |
| `SchoolSearch.FirstIndicesExact` | client/src/components/SchoolQuerySearch.js:57-62 | the kept positions are exactly those whose name does not occur earlier |
| `SchoolSearch.DedupKeepsFirstOccurrences` | client/src/components/SchoolQuerySearch.js:57-62 | the de-duplicated list is the answer's subsequence at those positions, in the same order |
| `SchoolSearch.DedupOfDistinct` | client/src/components/SchoolQuerySearch.js:57-62 | a list whose names are distinct is left unchanged |
| `SchoolSearch.DedupIdempotent` | client/src/components/SchoolQuerySearch.js:56-62 | de-duplicating twice is de-duplicating once |
| `SchoolSearch.FindByName` | client/src/components/SchoolQuerySearch.js:58 | `find` returns nothing exactly when no school has the name, and otherwise the first school with it |
| `SchoolSearch.UniqueByName` | client/src/components/SchoolQuerySearch.js:57-62 | the accumulating loop builds exactly the de-duplicated list |
| `SchoolSearch.SchoolQuerySearch.constructor` | client/src/components/SchoolQuerySearch.js:4-8 | a new box has an empty query and results, no timer, and has sent and reported nothing |
| `SchoolSearch.SchoolQuerySearch.HandleInputChange` | client/src/components/SchoolQuerySearch.js:70-96 | a non-empty value cancels the pending timer, arms exactly one new timer carrying it and becomes the query; an empty value leaves no timer live, empties query and results and reports `""`; at most one timer is ever live |
| `SchoolSearch.SchoolQuerySearch.FetchSchools` | client/src/components/SchoolQuerySearch.js:25-31 | `""` sends no request; any other query sends one |
| `SchoolSearch.SchoolQuerySearch.Fire` | client/src/components/SchoolQuerySearch.js:89-91 | the live timer goes off, leaves no timer live, and requests its own query |
| `SchoolSearch.SchoolQuerySearch.Receive` | client/src/components/SchoolQuerySearch.js:54-67 | a successful answer replaces the results with its de-duplication, which has distinct names; a failure leaves the results |
| `SchoolSearch.SchoolQuerySearch.HandleSchoolButtonClick` | client/src/components/SchoolQuerySearch.js:98-105 | the name becomes the query, results are emptied, and the name is reported once |
| `SchoolSearch.SchoolQuerySearch.SyncValue` | client/src/components/SchoolQuerySearch.js:21-23 | a non-empty value becomes the query; a missing or empty value gives `""` |
| `SchoolSearch.SchoolQuerySearch.Unmount` | client/src/components/SchoolQuerySearch.js:11-18 | the cleanup clears the remembered timer, so none stays live |
| `SchoolSearch.TypingSendsOneRequest` | client/src/components/SchoolQuerySearch.js:70-96 | typing "a", "ab", "abc" before the delay, then the timer firing, sends exactly one request, for "abc" |
| `SchoolSearch.ClearingCancelsTheSearch` | client/src/components/SchoolQuerySearch.js:73-86 | typing "a" then clearing before the delay sends nothing and reports `""` once |
| `CompanySearch.MatchIndicesExact` | client/src/components/QuerySearchInput.js:15-17 | the listed positions are exactly those of companies whose lower-cased name starts with the lower-cased input |
| `CompanySearch.FilterByPrefix` | client/src/components/QuerySearchInput.js:15-17 | definition of the `filter`, with no contract of its own; `MatchIndicesExact`, `FilterIsOrderedSubsequence`, `FilterMembership` and `CaseInsensitive` give its meaning |
| `CompanySearch.SearchResults` | client/src/components/QuerySearchInput.js:14-21 | definition of the length guard around the filter, with no contract of its own; `QuerySearchInput.HandleInputChange` states the results it gives |
| `CompanySearch.FilterIsOrderedSubsequence` | client/src/components/QuerySearchInput.js:15-17 | the filter is the company list's subsequence at those positions, in list order |
| `CompanySearch.FilterMembership` | client/src/components/QuerySearchInput.js:15-17 | a company is in the filter exactly when it is listed and matches |
| `CompanySearch.CaseInsensitive` | client/src/components/QuerySearchInput.js:16 | inputs that differ only in ASCII case give the same results |
| `CompanySearch.EmptyInputMatchesAll` | client/src/components/QuerySearchInput.js:13-14 | every name starts with `""`, so without the length guard an empty input would list every company |
| `CompanySearch.QuerySearchInput.constructor` | client/src/components/QuerySearchInput.js:5-6 | a new box has an empty query and results |
| `CompanySearch.QuerySearchInput.HandleInputChange` | client/src/components/QuerySearchInput.js:9-22 | the raw value becomes the query; the results are exactly the listed companies that match a non-empty value, in list order, and none for `""` |
| `CompanySearch.QuerySearchInput.HandleCompanyButtonClick` | client/src/components/QuerySearchInput.js:24-30 | query and results are reset and the company's name is reported |

## Left out

- `client/src/pages/Discover.js` and `client/src/util/apiRoutes.js` are not part of this model. One is a network call with rendering; the other picks a host from the environment.
- The HTTP part of `fetchSchools` is left out: the URL, the headers, the status and content-type checks, and `console.error`. A request is recorded by its query. The answer is a `Result` handed to `Receive`.
- Real timing is left out. Timers are browser timer ids with 0 for `null`, and `Fire` is an explicit step. Nothing bounds when a timer fires or when an answer arrives.
- `SchoolSearch.SchoolQuerySearch.Receive`: an answer to an old request still replaces the results, as in the source. The model states this and does not order answers.
- `Experience.StartsAfter`: `new Date(startDate) > new Date()` is abstracted. The current time is its month, a "YYYY-MM" parameter. Only a four-digit-year month string parses as a date. Time zones are ignored, and so are the hours between midnight UTC and local midnight on the first day of a month. JavaScript's other date formats are not parsed.
- `Experience.ExperienceForm.Initialize`: the `TypeError` that `end.trim()` throws is modelled as `ok == false`, with company and title already set. React's handling of the error is left out. An undefined `experience.date` is not distinguished from `""`.
- `JsString.ToLowerCase` lowers ASCII capitals only. Unicode case mapping is left out.
- `JsString.LexLess` compares characters by code point. JavaScript compares UTF-16 code units, which differs only outside the Basic Multilingual Plane.
- Rendering, styling and the imported widgets are left out: the JSX, `ExperienceQuerySearchInput` and `TitleQuerySearchInput`. `removeExperience` only forwards to the parent.
- `companyData` is left out; the company list is a constructor parameter.
- The parent components that own the `updateExperience`, `handleSearch`, `setIsValid` and `setIsValidPresent` callbacks are left out. Their calls are recorded in sequences, or stored as the form's flags.
- `Experience.CompanyChangeCounterexample` and `Experience.TitleChangeCounterexample` start from a form already in the state described, not from a freshly mounted one.

## Findings

| source | as written | input that shows it | evidently intended | confidence | as-written member | corrected member |
|---|---|---|---|---|---|---|
| client/src/components/ExperienceForm.js:156 | `handleCompanyChange` reports the date `${flipDateFormat(value)} - ${flipDateFormat(endDate)}`: the company name is flipped where the start month belongs, and the ongoing flag is ignored | start "2020-05", end "2021-06", company "Google": reported date "undefined Google - June 2021" instead of "May 2020 - June 2021" | report the entry's own range, `flip(startDate) - (isPresent ? Present : flip(endDate))` | not executed | `Experience.ExperienceForm.HandleCompanyChange`, `Experience.CompanyChangeCounterexample` | `Experience.ExperienceForm.HandleCompanyChangeCorrected` |
| client/src/components/ExperienceForm.js:168 | `handleTitleChange` reports `${flipDateFormat(startDate)} - ${flipDateFormat(endDate)}` even when the entry is ongoing | start "2020-05", ongoing, no end, any title: reported date "May 2020 - undefined " instead of "May 2020 - Present" | report the entry's own range, with "Present" for an ongoing entry | not executed | `Experience.ExperienceForm.HandleTitleChange`, `Experience.TitleChangeCounterexample` | `Experience.ExperienceForm.HandleTitleChangeCorrected` |
