# Cultural heritage page engine, modelled in Dafny

`engine.js` drives a single page with three parts:

- a month calendar, stepped with previous/next buttons, that shows the events of each day;
- a "phrase of the day" card, stepped with previous/next buttons;
- a sign-in/registration dialog that guards the contribution form.

This project models the state those handlers update and what they compute, and proves properties of it:

- the month view (`initCalendar`) as a list of cells;
- the arithmetic the host `Date` object does for it, replaced by the day count of ECMA-262 section 21.4.1;
- the `year-MM-DD` date label;
- the per-day event filter.

Modules, one concern each:

- `Gregorian` (gregorian.dfy): proleptic Gregorian day numbers in the ECMA-262 form:
  - DayFromYear, the cumulative month table, MakeDay with its month carry, and WeekDay;
  - the two-digit-year rule of `new Date(y, m, d)`;
  - Zeller's congruence, an independent reference for the weekday.
- `DateStrings` (datestrings.dfy): `String(n)`, `padStart(2, '0')` and the date label built from them.
- `Options`, `Events` (events.dfy): the event record and `events.filter(e => e.date === dateStr)`.
- `CalendarGrid` (calendar.dfy):
  - the month heading;
  - the cell list, as a specification function `Grid`;
  - the two render loops, as the method `LayOutCells` proved against it.
- `MonthCursor`, `Phrases` (cursors.dfy): the (month, year) cursor steps and the wrapping phrase index.
- `Auth` (auth.dfy): the user record `{ email, name: email.split('@')[0] }`.
- `Engine` (engine.dfy):
  - the class `Page`, whose fields are the page's `config` and `state` and whose methods are the handlers;
  - the sample data the two loaders install.

Years 0..99: `new Date(year, month, d)` reads a year argument 0..99 as 1900 + year (section 21.4.2.1 of ECMA-262). The model keeps that behaviour.
- For those years the first weekday and the month length are those of 1900..1999.
- The cells' date labels still carry the short year.
- So year 0, a Gregorian leap year, gets a 28-day February (`CalendarGrid.TwoDigitYearsUseThe1900s`).

From the present day the calendar reaches these years only after more than 20,000 presses of the previous-month button.

## Model

| member | source | states |
|---|---|---|
| Gregorian.DaysInMonth | engine.js:111 | a month has 28..31 days; February has 29 exactly in leap years, every other month at least 30 |
| Gregorian.MonthLengthsSumToYear | engine.js:111 | the twelve month lengths add up to the year's length |
| Gregorian.DayFromYearStep | engine.js:110-111 | the day number of January 1 advances by exactly one year's length from one year to the next |
| Gregorian.NextMonthStart | engine.js:110-111 | consecutive firsts of the month are one month length apart, across the December/January carry too |
| Gregorian.DayZeroIsLastDay | engine.js:111 | day 0 of month m + 1 is the last day of month m, which is why `getDate()` of it is the month length |
| Gregorian.MakeDayInjective | engine.js:110-111 | different dates of one month are different days |
| Gregorian.NextFirstWeekday | engine.js:110 | the next month starts on this month's first weekday plus its length, modulo 7 |
| Gregorian.NextFirstWeekdayOfYear | engine.js:110 | January of the next year starts 31 days, modulo 7, after December's first |
| Gregorian.FirstWeekdayIsZeller | engine.js:110 | the weekday of the first of a month from the day count equals Zeller's congruence |
| Gregorian.HostYear | engine.js:110-111 | a year argument 0..99 becomes a year of 1900..1999 with the same last two digits; every other year is kept |
| Gregorian.NewDateDay | engine.js:110-111 | for a month 0..11, `new Date(year, month, date)` is the day number of January 1 of the host year, plus the days of the months before, plus date - 1 |
| DateStrings.NatToString | engine.js:128 | `String(n)` of a natural number is never empty (its digits and value are stated by the next two rows) |
| DateStrings.NatToStringDigits | engine.js:128 | `String(n)` is all digits, has a single digit exactly when n < 10, and starts with '0' only for 0 |
| DateStrings.NatToStringRoundTrip | engine.js:128 | reading back the digits of `String(n)` gives n |
| DateStrings.IntToString | engine.js:128 | `String(i)` is never empty and starts with '-' exactly when i is negative |
| DateStrings.IntToStringInjective | engine.js:128 | different integers are written differently |
| DateStrings.PadStart2 | engine.js:128 | `padStart(2, '0')` gives length max(2, len), keeps the string as its suffix and fills the front with '0' |
| DateStrings.PaddedTwoDigits | engine.js:128 | a padded number below 100 is its tens digit and then its units digit |
| DateStrings.DateString | engine.js:128 | for days below 100 the label is the written year followed by six characters: '-', two month digits, '-' and two day digits |
| DateStrings.DateStringInjective | engine.js:128 | two labels are equal exactly when year, month and day are equal |
| DateStrings.SameLabelSameDay | engine.js:128 | two days of one month with the same label are the same day |
| DateStrings.DateStringIsIsoForFourDigitYears | engine.js:128 | for years 1000..9999 the label has the YYYY-MM-DD shape, and its fields read back as year, month + 1 and day |
| DateStrings.ShortYearsAreNotPadded | engine.js:128 | for years below 1000 the label is shorter than YYYY-MM-DD, because the year is not padded |
| DateStrings.NegativeYearsHaveASign | engine.js:128 | a negative year's label starts with '-' |
| Events.EventsOn | engine.js:129 | the filter keeps a subsequence of the list, in list order: every kept event has the label as its date, and every event with that date is kept |
| Events.EventsOnMultiplicity | engine.js:129 | each event with that date is kept as many times as it occurs in the list, and no other event is kept |
| Events.SubsequenceElements | engine.js:129 | a filtered list is no longer than the list and holds only its elements |
| Events.EventsOnDisjoint | engine.js:129 | no event is selected under two different labels |
| CalendarGrid.FirstDay | engine.js:110 | `new Date(year, month, 1).getDay()` is a weekday 0..6 |
| CalendarGrid.MonthLength | engine.js:111 | `new Date(year, month + 1, 0).getDate()` is 28..31 |
| CalendarGrid.FirstDayIsZeller | engine.js:110 | the first weekday the grid uses equals Zeller's congruence for the first of the month in the host year, shifted to Sunday = 0 |
| CalendarGrid.DayCell | engine.js:119-137 | the cell of a day is a day cell carrying that number and that day's label, and holds an event exactly when the event is in the list and has that label as its date |
| CalendarGrid.Grid | engine.js:110-140 | the month view has FirstDay blanks plus MonthLength day cells, and no other cells |
| CalendarGrid.MonthTitle | engine.js:96-98 | the heading is the month's name, a space, then the written year |
| CalendarGrid.MonthTitleInjective | engine.js:96-98 | different (month, year) pairs get different headings |
| CalendarGrid.RenderMonth | engine.js:110-140 | the rendered cells are `Grid` of the month: FirstDay blanks, then MonthLength day cells |
| CalendarGrid.LayOutCells | engine.js:113-140 | the two loops build exactly `firstDay` blanks, then the day cells 1..daysInMonth with their labels and filtered events |
| CalendarGrid.LayoutShape | engine.js:113-140 | the layout has f + n cells, the first f blank and cell f + d - 1 that of day d |
| CalendarGrid.DayPosition | engine.js:119-129 | day d sits at position f + d - 1 with number d, its date label and exactly the events of that label |
| CalendarGrid.EventPlacement | engine.js:129-137 | an event is in a day cell exactly when it is in the list and its date is that cell's label |
| CalendarGrid.EventInAtMostOneCell | engine.js:128-137 | no event is shown in two cells of a month |
| CalendarGrid.EventDateOfCell | engine.js:129-137 | an event shown in a day cell has that cell's label as its date |
| CalendarGrid.CellLabelsDistinct | engine.js:119-128 | two day cells of a month carry different labels |
| CalendarGrid.CellLabel | engine.js:119-128 | a day cell at position k is labelled with the date of day k - f + 1, after the f blanks |
| CalendarGrid.EventLandsOnItsDay | engine.js:113-137 | an event of the list appears in day d's cell exactly when its date is day d's label, and never in a blank |
| CalendarGrid.MonthLengthIsDateOfDayZero | engine.js:111 | `new Date(year, month + 1, 0)` is the MonthLength-th day of the month and falls between its first and the next month's first |
| CalendarGrid.FebruaryLength | engine.js:111 | February gets 29 cells exactly in leap years of the year the Date object uses |
| CalendarGrid.TwoDigitYearsUseThe1900s | engine.js:110-111 | years 0..99 get the first weekday and month lengths of 1900..1999, so year 0 gets a 28-day February |
| MonthCursor.Prev | engine.js:53-57 | one month back: the result is valid and its month count is one less |
| MonthCursor.Next | engine.js:62-66 | one month forward: the result is valid and its month count is one more |
| MonthCursor.WrapAround | engine.js:53-66 | the year changes exactly at the wrap: January goes to December of the year before, December to January of the year after |
| MonthCursor.IndexInjective | engine.js:53-66 | a valid cursor is determined by its month count |
| MonthCursor.PrevNextInverse | engine.js:53-66 | previous then next, and next then previous, restore the cursor |
| MonthCursor.NextNIsAdvance | engine.js:62-66 | k next presses move the cursor k months forward |
| MonthCursor.PrevNIsAdvance | engine.js:53-57 | k previous presses move the cursor k months back |
| MonthCursor.TwelvePresses | engine.js:53-66 | twelve presses either way change only the year, by one |
| Phrases.NextIndex | engine.js:205 | the next index stays in range and wraps from the last phrase to the first |
| Phrases.PrevIndex | engine.js:200 | the previous index stays in range and wraps from the first phrase to the last |
| Phrases.NextPrevInverse | engine.js:200-205 | next after previous, and previous after next, return to the same phrase |
| Phrases.NextIterWithinTurn | engine.js:205 | up to one full turn, k next presses add k, wrapping once |
| Phrases.PrevIterWithinTurn | engine.js:200 | up to one full turn, k previous presses subtract k, wrapping once |
| Phrases.FullTurn | engine.js:200-205 | as many presses as there are phrases come back to the start, in either direction |
| Phrases.NextIterAdd | engine.js:205 | a presses and then b more are the same as a + b presses |
| Phrases.NextIterPeriodic | engine.js:205 | the phrase walk is periodic with period the length of the list |
| Auth.DisplayName | engine.js:279 | `email.split('@')[0]` is an '@'-free prefix of the email followed by '@' or by nothing |
| Auth.DisplayNameUnique | engine.js:279 | that '@'-free prefix is the only one |
| Auth.NameOfAddress | engine.js:279 | the name of local@domain is local |
| Auth.NameWithoutAt | engine.js:279 | a string without '@' is its own name |
| Auth.SignedInUser | engine.js:279 | the user record keeps the email, and its name is the '@'-free prefix of it that is followed by '@' or by the end of the email |
| Engine.Contribute | engine.js:298-312 | a contribution needs a user: without one the outcome is sign-in required, with one the typed fields are submitted |
| Engine.Page.constructor | engine.js:35-41 | the initial `state` with the `config` month of engine.js:4-5: given month, nothing loaded, sign-in mode, nobody signed in, dialog hidden |
| Engine.Page.InitCalendar | engine.js:95-140 | the heading of the current month and its cells `Grid(year, month, events)` |
| Engine.Page.PrevMonth | engine.js:52-59 | the cursor becomes `Prev` of the old one, nothing else changes, and the new month is rendered |
| Engine.Page.NextMonth | engine.js:61-68 | the cursor becomes `Next` of the old one, nothing else changes, and the new month is rendered |
| Engine.Page.LoadPhrases | engine.js:150-178 | installs the three sample phrases and shows the phrase at the current index |
| Engine.Page.LoadEvents | engine.js:220-239 | installs the two sample events and renders the month again |
| Engine.Page.DisplayCurrentPhrase | engine.js:180-181 | the phrase shown is the one at the current index |
| Engine.Page.ShowPreviousPhrase | engine.js:199-202 | the index becomes `PrevIndex` of the old one, and that phrase is shown |
| Engine.Page.ShowNextPhrase | engine.js:204-207 | the index becomes `NextIndex` of the old one, and that phrase is shown |
| Engine.Page.OpenLoginForm | engine.js:80-83 | sign-in mode, dialog shown |
| Engine.Page.OpenRegisterForm | engine.js:84-87 | registration mode, dialog shown |
| Engine.Page.HideAuthModal | engine.js:249-251 | the dialog is hidden |
| Engine.Page.ToggleAuthForm | engine.js:253-256 | the form mode is flipped |
| Engine.Page.HandleAuthSubmit | engine.js:270-283 | the user becomes `{ email, name: email.split('@')[0] }` and the dialog closes |
| Engine.Page.HandleContributionSubmit | engine.js:295-313 | the outcome is `Contribute` of the current user; without a user the sign-in dialog opens |
| Engine.December2023 | engine.js:110-111 | December 2023 starts on a Friday (5) and has 31 days |
| Engine.December20Label | engine.js:128 | the label of December 20, 2023 is "2023-12-20" |
| Engine.OnlyWinterLightsOnDecember20 | engine.js:220-236 | of the sample events only Winter Lights is dated 2023-12-20 |
| Engine.WinterLightsInDecember2023 | engine.js:220-236 | in December 2023 the Winter Lights event sits in the twentieth day cell (position 24) and in no other |

## Left out

- Output to the page is left out: writing the heading and cells into the DOM, the seven weekday header cells, the phrase card's HTML, the form labels of `updateAuthForm` (engine.js:258-268) and the button visibility of `updateAuthUI` (engine.js:285-293). The model returns what would be shown instead.
- `alert` and `console.log` messages are left out (the success and sign-in-required texts, the logged password).
- The `DOMContentLoaded` bootstrap (engine.js:43-49) and the event-listener wiring of `setupEventListeners` (engine.js:51-93) are left out. Each handler is a method of `Page`.
- `checkAuthState` (engine.js:240-242) only calls `updateAuthUI` and is left out with it.
- Engine.Page.constructor: the dialog starts hidden (`modalOpen` is false). That comes from the page's markup and style sheet, which are not part of this model; engine.js itself only shows and hides the dialog.
- Where the current month comes from: the host clock (engine.js:4-5) is replaced by the constructor's `month0` and `year0` parameters.
- `performSearch`, `playCurrentPhraseAudio` and `handleAudioUpload` are left out: they only trim input, play audio or show messages.
- The contribution form's image file and `reset()` are left out. The submitted outcome carries the typed kind, title and description.
- The host `Date` object is replaced by explicit day arithmetic, with three consequences:
  - time zones and times of day play no part, because only dates are computed;
  - dates outside ECMA-262's time range (about 273,790 years either side of 1970), where `Date` yields NaN, are left out;
  - the model labels them with the computed values instead.
- Engine.Page.ShowPreviousPhrase, Engine.Page.ShowNextPhrase and Engine.Page.DisplayCurrentPhrase require a non-empty phrase list. On an empty list the source computes `% 0` (NaN) and then fails reading the phrase.
- Engine.Page.LoadPhrases requires the current index to fit the three sample phrases; the source would otherwise read past the list. The source calls the loader once, with index 0.
- JavaScript numbers are doubles; the model's month, year and index are unbounded integers. Every value here stays far below 2^53, where the two agree.
