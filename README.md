# Back-office ticket tracker: a verified model

This Dafny project models the core of a small back-office tracker. Agents log the actions
they take on tickets and list them by day. The model has three parts:

- **The ticket controller** is the class `Tickets.TicketsController`. It holds the ticket
  table, the agent table and the read-only agent roster loaded at start-up.
  - `Mine` and `GetById` are queries, so they are functions that read the object.
  - `EnsureAgentInDb`, `Create`, `Update` and `Delete` change the tables in place, so they
    are methods with `modifies` clauses.
  - `Valid()` is the store invariant the methods keep:
    - ticket ids are positive, distinct and below the next id to be issued;
    - agents are keyed by their own id;
    - a ticket's agent is the one stored in the agent table.
- **The login action** is `Auth.Login`. It validates the request, then takes the first
  roster agent whose e-mail address matches ignoring ASCII case and whose password matches
  exactly.
- **The dashboard's pure helpers** live in `Dashboard`:
  - HTML escaping and the cell clean-up;
  - the tab-separated export of the visible rows;
  - the `YYYY-MM-DD` and `HH:mm` texts;
  - the request the ticket form turns into, and the form an existing ticket fills in;
  - the order of the rendered list.

Some conventions run through the whole model:

- **Time** is an integer: local wall-clock seconds since 0001-01-01 00:00. One day is 86400
  seconds. Sub-second ticks are dropped.
- **Dates.** A date `YYYY-MM-DD` maps to its local midnight using .NET's day count
  (`Calendar.DaysBeforeYear`).
- **The current time** is the `now` parameter of `Create` and the `today` parameter of the
  dashboard lemmas. It is not read from a clock.
- **Strings** are `seq<char>`. White space follows the runtime that trims:
  - .NET's `char.IsWhiteSpace` counts U+0085;
  - ECMAScript's `trim` counts U+FEFF instead.
- **Shared pieces.**
  - `Sequences.FirstIndex` models LINQ's `FirstOrDefault`.
  - `Sequences.NewestFirst` models both `OrderByDescending` and the dashboard's descending
    `sort`. Both of those sorts are stable.

Some behaviour of the code is easy to misread, and the model keeps it as written:

- **Editing never changes a ticket's time.** The dashboard's edit form has an "update time"
  box and sends `updateTimeNow`. `UpdateTicketDto` has no such field, so the flag is
  dropped, and `Update` keeps the time.
- **Login does not trim** the e-mail address or the password. The code only checks them for
  blankness, then compares them as sent. `Auth.LoginDoesNotTrim` shows an address with a
  leading space failing to match.
- **The login reply has unexpected fields.** The code returns a record whose `Email` field
  holds the agent's id as decimal text and whose `Password` field holds the agent's e-mail
  address. `Auth.LoginResponse` keeps exactly those fields. `login.js` reads `userId` and
  `displayName` from the reply, which it does not carry.
- **Ticket time has two types.** `Ticket.Time` is declared `int` in `Models/Ticket.cs`, but
  the controller assigns it a `DateTime`. The model uses one integer time for both.
- **Bad dates fail the request.** A date that does not parse makes `Mine` throw, and the host
  answers status 500. The model returns `ServerError` for it. The same happens for
  9999-12-31, because adding a day to that date passes the last instant `DateTime` can hold.

## Model

| member | source | states |
|---|---|---|
| Text.Trim | Controllers/TicketsController.cs:102 | the result is the infix of the input left after removing white space at both ends; it has no white space at either end; it is empty exactly when the input is all white space |
| Text.TrimIsUnique | Controllers/TicketsController.cs:102 | any infix with white space only around it and none at its ends is the trimmed string, so Trim's contract determines it |
| Text.TrimNullable | Controllers/TicketsController.cs:104-105 | null stays null; otherwise the value is the input's infix with only white space around it and none at its ends, so by TrimIsUnique it is the input trimmed |
| Text.IsNullOrWhiteSpace | Controllers/TicketsController.cs:91 | string.IsNullOrWhiteSpace: null, or every character white space under .NET's rules (so the empty string too) |
| Text.EqualsIgnoreCase | Controllers/AuthController.cs:29 | equal length and equal characters once ASCII letters are upper-cased |
| Text.Join | wwwroot/js/dashboard.js:310 | the parts with the separator between each consecutive pair; SplitJoin inverts it |
| Text.Split | Controllers/TicketsController.cs:31 | at least one part; joining the parts with the separator gives the input back; no part contains the separator |
| Text.SplitJoin | Controllers/TicketsController.cs:31 | splitting undoes joining when no part contains the separator |
| Text.SplitCrLfLines | wwwroot/js/dashboard.js:314 | a header and n lines joined with CR LF split on LF into n+1 records; every record but the last keeps its CR |
| Text.SplitCellWithSeparator | wwwroot/js/dashboard.js:310 | a cell holding one separator splits into two parts, and every later cell moves one place |
| Text.NatToDecimal | Controllers/AuthController.cs:36 | decimal digits without a leading zero that read back as the number |
| Text.IntToDecimal | Controllers/TicketsController.cs:98 | Int32.ToString(): non-negative numbers as digits that read back as the number, with no leading zero except for 0 itself; negative ones as a minus sign followed by the digits of their absolute value, again with no leading zero |
| Text.PadTwo | wwwroot/js/dashboard.js:352 | digits that read back as the number, exactly two of them below 100 (`padStart(2, "0")`) |
| Calendar.ParsePart | Controllers/TicketsController.cs:32 | a part parses exactly when it exists, is a non-empty digit string and is at most 2147483647; a missing part and a non-number are told apart |
| Calendar.ParseYmd | Controllers/TicketsController.cs:31-32 | succeeds exactly when the first three dash-separated parts parse and form a valid date, and then yields that date; parts after the third are ignored; too few readable parts is the "missing part" error |
| Calendar.IsValidDate | Controllers/TicketsController.cs:32 | the year, month and day new DateTime accepts: year 1..9999, month 1..12, day within the month's length in that year |
| Calendar.DayNumber | Controllers/TicketsController.cs:32 | days from 0001-01-01 to the date, by .NET's proleptic Gregorian count; DayNumberIncreases orders it by date and DayInRange bounds it |
| Calendar.DayStartLocal | Controllers/TicketsController.cs:28-34 | succeeds exactly when the date parses, giving that date's midnight: a multiple of one day, inside the range DateTime represents |
| Calendar.Midnight | Controllers/TicketsController.cs:32 | a date's midnight is a whole number of days |
| Calendar.DayEndLocal | Controllers/TicketsController.cs:36 | exactly one day after DayStartLocal; fails exactly when the date does not parse or is 9999-12-31 |
| Calendar.NextDate | Controllers/TicketsController.cs:36 | the valid date whose day number is one more |
| Calendar.DayInRange | Controllers/TicketsController.cs:36 | every valid date's day lies inside DateTime's range, and its end reaches the limit only on 9999-12-31 |
| Calendar.DayEndIsNextDayStart | Controllers/TicketsController.cs:36 | a day's window ends exactly where the next date's window begins |
| Calendar.DayWindowsDisjoint | Controllers/TicketsController.cs:79-80 | the windows of two different dates do not overlap |
| Calendar.HourOf | wwwroot/js/dashboard.js:357 | the hour of the day, in 0..23, within whose 3600 seconds the instant's time of day falls |
| Calendar.MinuteOf | wwwroot/js/dashboard.js:358 | the minute of the hour, in 0..59, within whose 60 seconds the instant's time within the hour falls |
| Sequences.FirstIndex | Controllers/AuthController.cs:28-30 | the index of the first element satisfying the predicate; none exactly when no element does |
| Sequences.InsertNewestFirst | Controllers/TicketsController.cs:81 | inserting into a newest-first list keeps it newest first and adds exactly that element |
| Sequences.InsertKeepsStamps | Controllers/TicketsController.cs:81 | the inserted element goes in front of the elements with its own time |
| Sequences.NewestFirst | Controllers/TicketsController.cs:81 | a permutation whose times never increase, in which elements with equal times keep their input order (a stable sort) |
| Sequences.NewestFirstKeepsSorted | wwwroot/js/dashboard.js:257-258 | a list that is already newest first comes back unchanged |
| Sequences.NewestFirstIdempotent | wwwroot/js/dashboard.js:257-258 | sorting twice is sorting once |
| Models.ToDto | Controllers/TicketsController.cs:61-62 | a missing ticket number is shown as ""; id, action, description and time carry over |
| Models.ToDtos | Controllers/TicketsController.cs:84 | one DTO per row, in order |
| Tickets.SelectDay | Controllers/TicketsController.cs:75-80 | keeps every ticket whose agent has the id and whose time is in [start, end), as often as it occurs, and drops every other ticket |
| Tickets.DayListing | Controllers/TicketsController.cs:75-82 | exactly the day's tickets, newest first, with equal times in table order |
| Tickets.AddedTicketListedOnce | Controllers/TicketsController.cs:100-109 | a ticket added with a fresh id is listed exactly once on its own day |
| Tickets.ListedOnOneDateOnly | Controllers/TicketsController.cs:72-80 | no ticket is listed under two different dates |
| Tickets.MidnightStartsItsDay | Controllers/TicketsController.cs:79-80 | a ticket stamped at the next midnight is not in this day's listing but is in the next day's |
| Tickets.DayRows | Controllers/TicketsController.cs:75-84 | the DTOs of one day's listing: times non-increasing, every one inside that day's window |
| Tickets.DayRowsShowTicket | Controllers/TicketsController.cs:75-84 | every ticket of the agent stamped inside the day is among that day's DTOs |
| Tickets.AppendKeepsStoreValid | Controllers/TicketsController.cs:109-110 | appending a ticket under the next id, with an agent from the agent table, keeps the store invariant once the counter moves on |
| Tickets.RemoveAt | Controllers/TicketsController.cs:148 | the table minus one row: rows before it keep their places, rows after it move up by one |
| Tickets.AgentNotFound | Controllers/TicketsController.cs:98 | the message "Agent {id} not found." with the id in decimal |
| Tickets.ResolveAgent | Controllers/TicketsController.cs:38-59 | the agent-table entry when there is one; otherwise the first roster agent with that id; none exactly when neither has it; the result carries the requested id |
| Tickets.TicketsController.constructor | Controllers/TicketsController.cs:16-20 | a store that starts empty, over the given roster, satisfying the invariant. The source builds a controller for every request over one shared database; this constructor stands for that database at start-up, and the methods act on the one store in turn |
| Tickets.TicketsController.Mine | Controllers/TicketsController.cs:67-85 | BadRequest exactly when the agent id is not positive or the date is blank, without reading the tables; ServerError exactly when the day's end cannot be computed; otherwise the day's DTOs (DayRows, so newest first) for the date's midnight; the tables are untouched |
| Tickets.TicketsController.GetById | Controllers/TicketsController.cs:117-122 | NotFound exactly when no ticket has the id; otherwise the DTO of a ticket with that id; nothing changes |
| Tickets.TicketsController.EnsureAgentInDb | Controllers/TicketsController.cs:38-59 | returns ResolveAgent's answer; an agent already stored leaves the table unchanged, so a second call adds nothing; a roster agent is copied in under its id; no agent means no change; the invariant holds |
| Tickets.TicketsController.Insert | Controllers/TicketsController.cs:109-110 | the new row gets the next id and is appended; the counter moves on; the invariant holds |
| Tickets.TicketsController.Create | Controllers/TicketsController.cs:89-113 | the errors for a blank number, a non-positive agent id and an unknown agent come in that order and leave both tables unchanged; success appends exactly one ticket with the next id, the trimmed non-empty number, the trimmed action and description (null stays null), the resolved agent and the given time, and returns its DTO |
| Tickets.TicketsController.Update | Controllers/TicketsController.cs:126-140 | BadRequest exactly when the number is blank, checked before the lookup; NotFound exactly when the number is not blank and the id is unknown, with nothing changed; otherwise NoContent, and only that ticket's number, action and description are overwritten with trimmed values; ids, agents and times of all tickets stay as they were |
| Tickets.TicketsController.Delete | Controllers/TicketsController.cs:144-151 | NotFound exactly when the id is absent, with nothing changed; otherwise removes exactly that ticket; afterwards no ticket has the id and GetById answers NotFound |
| Auth.IsMatch | Controllers/AuthController.cs:29-30 | the roster entry's address equals the request's ignoring case, and its password equals the request's exactly |
| Auth.Login | Controllers/AuthController.cs:23-37 | BadRequest exactly when the e-mail address or password is blank; Unauthorized, with one message, exactly when no roster agent matches; otherwise the first matching agent's id as decimal text and its e-mail address |
| Auth.EqualsIgnoreCaseKeepsBlank | Controllers/AuthController.cs:25-29 | two addresses equal up to case are blank together |
| Auth.LoginIgnoresEmailCase | Controllers/AuthController.cs:29 | any casing of an address gives the same answer |
| Auth.RosterAgentCanLogIn | Controllers/AuthController.cs:28-36 | every roster agent with non-blank credentials logs in with them, and is the one named when its address is unique ignoring case |
| Auth.LoginDoesNotTrim | Controllers/AuthController.cs:25-30 | an address with a leading space does not match the stored one |
| Dashboard.EscapeChar | wwwroot/js/dashboard.js:348 | each character becomes markup-safe text |
| Dashboard.EscapeHtml | wwwroot/js/dashboard.js:348 | no < > " or ' in the result; text without & < > " ' is returned unchanged |
| Dashboard.UnescapeEscapeChar | wwwroot/js/dashboard.js:348 | one escaped character reads back from the front |
| Dashboard.UnescapeReference | wwwroot/js/dashboard.js:348 | each of the five character references reads back as its character, whatever follows it |
| Dashboard.UnescapeEscapeHtmlBefore | wwwroot/js/dashboard.js:348 | the escaped text reads back as the original text ahead of any text that follows it; this forces & to be written as &amp; |
| Dashboard.UnescapeEscapeHtml | wwwroot/js/dashboard.js:348 | reading the character references back gives the original text |
| Dashboard.Esc | wwwroot/js/dashboard.js:348 | null prints as nothing; the result is markup-safe and reads back as the input, also ahead of any following text |
| Dashboard.EscAmpersand | wwwroot/js/dashboard.js:348 | an ampersand is written as &amp; |
| Dashboard.BreaksToSpaces | wwwroot/js/dashboard.js:281 | every CR and LF becomes a space; every other character stays where it was |
| Dashboard.Clean | wwwroot/js/dashboard.js:280-282 | the input with every CR and LF made a space, then trimmed at both ends: no CR or LF, no white space at either end, empty exactly when the input was blank |
| Dashboard.CleanKeepsTidyText | wwwroot/js/dashboard.js:281 | text with no line break and no white space at its ends is already clean |
| Dashboard.CleanIdempotent | wwwroot/js/dashboard.js:280-282 | cleaning twice is cleaning once |
| Dashboard.FormatLocalTime | wwwroot/js/dashboard.js:355-360 | five characters: two digits reading back as the hour, a colon, two digits reading back as the minute |
| Dashboard.TodayLocalYmd | wwwroot/js/dashboard.js:350-353 | the year without leading zero, a dash, the two-digit month, a dash, the two-digit day, each reading back as that field |
| Dashboard.TodayLocalYmdParts | wwwroot/js/dashboard.js:350-353 | the date text splits at its dashes into the year, month and day it was built from |
| Dashboard.TodayLocalYmdRoundTrip | wwwroot/js/dashboard.js:350-353 | the controller reads the date text back as that date's midnight, and its day end exists except on 9999-12-31 |
| Dashboard.TodayIsNotBlank | wwwroot/js/dashboard.js:122-124 | the date the dashboard switches to is never blank, so Mine does not reject it |
| Dashboard.AgentName | wwwroot/js/dashboard.js:292 | the cleaned chip text when the chip has text, "Agent" when it is missing or empty; never a line break |
| Dashboard.RowCells | wwwroot/js/dashboard.js:303-310 | the five cells of a row: the cleaned number, the agent name, the cleaned action, the cleaned description and the HH:mm time |
| Dashboard.RowLine | wwwroot/js/dashboard.js:310 | the row's cells joined with tabs; RowColumns splits it back |
| Dashboard.HeaderIsOneLine | wwwroot/js/dashboard.js:295-301 | the header has no line feed |
| Dashboard.RowLines | wwwroot/js/dashboard.js:303-311 | one line per row, in row order |
| Dashboard.RowLineIsOneLine | wwwroot/js/dashboard.js:303-311 | a row's line has no line feed, whatever the ticket's text |
| Dashboard.RowLinesAreLines | wwwroot/js/dashboard.js:303-311 | no row line holds a line feed |
| Dashboard.CrLfText | wwwroot/js/dashboard.js:314 | split on LF, the text gives the header and each line back, all but the last ending in CR |
| Dashboard.CopyVisibleTickets | wwwroot/js/dashboard.js:284-314 | "No tickets." exactly when no row is shown; otherwise n rows give n+1 records: the fixed header, then each row's line in order |
| Dashboard.TimeCellIsPlain | wwwroot/js/dashboard.js:308 | the time cell holds no tab and no line feed |
| Dashboard.RowColumns | wwwroot/js/dashboard.js:310 | without tabs in its text, a row's line splits back into its five cells |
| Dashboard.TabInDescriptionShiftsColumns | wwwroot/js/dashboard.js:305-310 | a tab inside a description gives the row a sixth column, and the description's tail lands in the Time column |
| Dashboard.SplitFourthCell | wwwroot/js/dashboard.js:310 | five cells whose fourth holds one tab split into six parts |
| Dashboard.ChosenAction | wwwroot/js/dashboard.js:103-105 | the free text when "__other" is selected, otherwise the selected option |
| Dashboard.OnSubmit | wwwroot/js/dashboard.js:98-135 | the action is the trimmed free text under "__other", otherwise the trimmed choice; no request exactly when the trimmed number or action is empty; otherwise a POST with the user's id when nothing is being edited, else a PUT for the edited id |
| Dashboard.SubmittedNumberAccepted | wwwroot/js/dashboard.js:102-112 | a number the form accepts also passes the controller's blank check, unless it holds U+0085 |
| Dashboard.NextLineNumberRejectedByController | wwwroot/js/dashboard.js:102-119 | a number made of U+0085 alone is posted by the form but is blank to the controller |
| Dashboard.OpenModalForEdit | wwwroot/js/dashboard.js:181-203 | an action among the options is selected and the free text cleared; any other action, or none, goes to the free text under "__other"; the time box starts unchecked |
| Dashboard.ResubmitUnchanged | wwwroot/js/dashboard.js:187-199 | saving an opened ticket untouched sends back its own number, action and description, trimmed, and no time bump |
| Dashboard.RenderOrder | wwwroot/js/dashboard.js:257-258 | a permutation of the items with times non-increasing, items of equal time kept in the order received (the ES2019 sort is stable) |
| Dashboard.RenderKeepsListingOrder | wwwroot/js/dashboard.js:257-258 | the DTOs Mine returns for a day come back from the dashboard's sort unchanged, so they are shown in the order they arrive |
| Dashboard.CreatedTicketShownToday | wwwroot/js/dashboard.js:122-124 | after a create the dashboard shows today, and a ticket stamped today is in that day's listing |

## Left out

- ASP.NET Core's automatic model validation is not modelled. Both controllers are
  `[ApiController]` and take non-nullable `string` parameters: `TicketNumber`, `date`, `Email`
  and `Password`. With nullable reference types on, the framework treats these as required.
  It then answers a null, empty or white-space-only value with its own 400 body before the
  action runs. The error messages the model fixes for blank strings are those of the actions'
  own checks, in `Mine`, `Create`, `Update` and `Login`. The status, 400, is the same either
  way. The project file that decides the nullable setting is not part of this model.
- Hosting is not modelled: dependency injection, Swagger and static files.
- Reading `data/agents.json` is not modelled. The roster is the constructor's argument.
- Entity Framework's asynchronous saving, change tracking and `Include` are not modelled. The
  two sets are a sequence and a map, and ids come from a counter that is always above every
  id in use (`Insert` stands for `Add` followed by `SaveChangesAsync`).
- Tickets.TicketsController.Create: takes the creation time as the `now` parameter instead
  of reading `DateTime.Now`.
- Requests are modelled one at a time. The in-memory database is shared by all requests,
  and `EnsureAgentInDbAsync` looks an agent up and then adds it. Two concurrent first
  `Create`s for the same roster agent can therefore both try to add it. The sequential
  methods of `Tickets.TicketsController` cannot show this interleaving.
- Tickets.DayListing: ticket times are whole seconds, so the sub-second part of
  `DateTime.Now` is dropped. Two tickets of one agent created within the same second tie,
  and the listing gives them in table order. The source orders them by their real times,
  newest first, and the dashboard's millisecond sort keeps that order.
- Time zones, `DateTimeKind.Local` and daylight-saving changes in `AddDays(1)` are not
  modelled. One day is always 86400 seconds.
- Calendar.ParsePart: accepts only ASCII digit strings. It rejects signs and surrounding
  white space, which `int.Parse` accepts.
- Auth.Login: folds ASCII letters only. `OrdinalIgnoreCase` also folds non-ASCII letters.
- Null e-mail addresses or passwords inside roster entries are not represented. The fields
  are non-null strings.
- The `Agent.Tickets` navigation collection is not represented. A ticket names its agent.
- `login.js` is not part of this model. It reads fields the login reply does not have, such
  as `userId` and `displayName`.
- The dashboard's DOM work is not modelled:
  - modal show and hide, status messages and `setSaving`;
  - `onDelete` and `openModalForCreate`;
  - `jsonFetch`, the clipboard and `execCommand`;
  - `setTimeout` and `loadTickets`.
- Dashboard.FormatLocalTime: works on the integer time. Parsing the ISO text with
  `new Date(iso)` is not modelled.
- Dashboard.OpenModalForEdit: takes the select's option values (`o.value || o.textContent`)
  as the `options` parameter.
- Dashboard.OnSubmit: the `updateTimeNow` flag it sends is kept in the request, but the
  controller ignores it.
