# Activity board client — Dafny model

This project models the browser client of a small activity signup service
(`src/static/app.js`). The client does three things, and each one is modelled:

- **Name formatting** (`NameFormat`, over `Strings`). `formatNameFromEmail`
  turns a participant's address into a display name. `getInitials` derives
  the avatar initials from that name. Both are modelled as functions that
  follow the JavaScript chain step by step: `split("@")[0]`, the
  `/[._\-+]+/g` replacement, `split(" ")`, `filter(Boolean)`, capitalising
  and `join(" ")`. A separate reference definition, `Words` (the maximal
  runs of characters that are neither `.`, `_`, `-`, `+` nor a space), is
  proved equal to what the chain produces. The other properties follow from
  that equality.
- **Activity rendering** (`ActivityBoard`). The decoded `GET /activities`
  response is an ordered sequence of activities. `fetchActivities` becomes
  the method `Board.FetchActivities`, whose loop appends one card and one
  select option per activity. It is proved against the specification
  functions `ListAfterLoad` and `OptionsAfterLoad`. A card is a view model
  holding the name, description, schedule, an `Availability` (`SpotsLeft(n)`
  or `Full`) and a `Roster` (`NoParticipantsYet`, or one entry of initials
  and display name per participant).
  - A missing participant list makes `details.participants.length` throw
    before anything is appended for that activity. The catch block then
    replaces the list with the failure message. The select, however, keeps
    the placeholder and the options already appended for the earlier
    activities. The model keeps that partial state.
  - A request or decoding failure happens before the select is cleared, so
    the select is left unchanged.
- **Signup messages** (`Signup`). The form and the message element form the
  class `SignupPage`. The handler's `await` splits a submission into
  `Submit`, which reads the fields and produces the request, and `Complete`,
  which applies the outcome. Between the two, other events may happen.
  `HideTimerFires` is the explicit event for a scheduled hide. The message's
  class attribute is kept as its token list. Assigning `className`
  therefore replaces `hidden` along with everything else, and
  `classList.add("hidden")` appends it.

Two details of the code are worth stating on their own:
- The hide is scheduled only when a reply was decoded (app.js:117-119). The
  catch block (app.js:120-125) shows the message and schedules nothing, so
  after a failed request the message stays until something else hides it.
- `?` is the result both for an address with no word and for one whose only
  word starts with `?`. `NameFormat.InitialsPlaceholder` states the exact
  condition.

A successful reply without a `message` field writes `undefined` to
`textContent`. That nullable string attribute stores it as the empty text,
and the model shows the empty text.

## Model

| member | source | states |
|---|---|---|
| `Strings.Split` | src/static/app.js:9-12 | `split` on one character gives at least one piece, and no piece contains the separator |
| `Strings.NonEmpty` | src/static/app.js:13 | `filter(Boolean)` keeps exactly the non-empty strings of the input, never more than the input |
| `Strings.NonEmptyAppend` | src/static/app.js:13 | filtering a concatenation is the concatenation of the filtered parts, so the kept strings stay in input order |
| `Strings.NonEmptySingle` | src/static/app.js:13 | one string is kept exactly when it is non-empty |
| `Strings.OrEmpty` | src/static/app.js:9 | the fallback to `""` for a missing address (and for a missing `message` written to `textContent` at :106): the text is empty exactly when the value is missing or empty, and a non-empty text is the value itself |
| `Strings.Join` | src/static/app.js:15 | `join` with one character: no pieces give the empty string, one piece gives itself, and otherwise the first piece starts the result and the separator follows it |
| `Strings.JoinSplit` | src/static/app.js:12-15 | joining the pieces of a split gives back the original string |
| `Strings.SplitJoin` | src/static/app.js:15-21 | splitting a join of separator-free pieces gives back exactly those pieces; this is the step `getInitials` relies on |
| `Strings.JoinSingleSpaced` | src/static/app.js:15 | non-empty space-free words joined by `" "` have no leading or trailing space and no two spaces in a row |
| `Strings.UpperString` | src/static/app.js:28 | `toUpperCase` keeps the length and upper-cases each character (ASCII) |
| `NameFormat.LocalPart` | src/static/app.js:9 | the text kept from the address contains no `@` |
| `NameFormat.CollapseSeparators` | src/static/app.js:11 | after the replacement no `.`, `_`, `-` or `+` is left, and the string is no longer than before |
| `NameFormat.CollapseKeepsPlain` | src/static/app.js:11 | a string without separators is left unchanged by the replacement |
| `NameFormat.CollapseKeepsPlainPrefix` | src/static/app.js:11 | characters that are not separators are copied in order in front of the rest |
| `NameFormat.CollapseRun` | src/static/app.js:11 | a whole run of separators, of any length, becomes exactly one space |
| `NameFormat.Capitalize` | src/static/app.js:14 | the first character of a word is upper-cased, the rest is unchanged and the length is kept |
| `NameFormat.CapitalizeAll` | src/static/app.js:14 | the `map` gives one capitalised word per input word, in order |
| `NameFormat.CollapseSplitIsWords` | src/static/app.js:11-13 | replacing separator runs, splitting on spaces and dropping empty pieces yields exactly the maximal runs of non-separator, non-space characters, in order |
| `NameFormat.FormatNameFromEmail` | src/static/app.js:8-16 | for every address, the formatted name is the capitalised maximal runs (`Words`) of the local part, joined by one space |
| `NameFormat.FormatNameOfNothing` | src/static/app.js:9 | a missing or empty address yields the empty name |
| `NameFormat.FormatNameIgnoresDomain` | src/static/app.js:9 | whatever follows the first `@` never changes the name |
| `NameFormat.FormatNameShape` | src/static/app.js:9-15 | the name has no `.`, `_`, `-`, `+` or `@`, has no leading or trailing space and no double space, and is empty exactly when the local part has no word |
| `NameFormat.FormatNameWords` | src/static/app.js:11-15 | splitting the name on spaces recovers one capitalised word per maximal run of the local part, in order |
| `NameFormat.GetInitials` | src/static/app.js:19-29 | the initials are `?` when there is no word; otherwise the upper-cased first character of the only word, or of the first two words; later words are ignored |
| `NameFormat.InitialsLength` | src/static/app.js:22-28 | the initials have one or two characters, two exactly when there are at least two words, and contain no lower-case ASCII letter |
| `NameFormat.InitialsPlaceholder` | src/static/app.js:22-24 | the initials are `?` exactly when there is no word, or there is one word and it starts with `?` |
| `NameFormat.JohnDoeExample` | src/static/app.js:7 | `john.doe@example.com` is shown as `John Doe`, with initials `JD` |
| `ActivityBoard.AvailabilityOf` | src/static/app.js:48-67 | a count is shown exactly when fewer participants than places are signed up, and count plus participants equals the maximum; otherwise `Full`, including over capacity |
| `ActivityBoard.RosterOf` | src/static/app.js:50-61 | the placeholder exactly for an empty list; otherwise one entry per participant, in order, pairing `getInitials(p)` with `formatNameFromEmail(p)` |
| `ActivityBoard.EntryFor` | src/static/app.js:55-57 | a participant's entry holds exactly `getInitials(p)` and `formatNameFromEmail(p)`: one or two initials (two exactly when the address has at least two words before `@`) and a display name made of the capitalised words, single-spaced, without separators or `@` |
| `ActivityBoard.RosterEntriesWellFormed` | src/static/app.js:53-59 | every entry of a non-empty roster is well formed |
| `ActivityBoard.RenderCard` | src/static/app.js:48-72 | a card carries its activity's name, description and schedule; its availability is `AvailabilityOf(max, length)`, so it shows `max - length` spots left exactly when that is positive; its roster is `RosterOf` of the participants: the placeholder exactly for an empty list, otherwise one `getInitials`/`formatNameFromEmail` entry per participant, in order |
| `ActivityBoard.FirstMissingRoster` | src/static/app.js:44-48 | the position where the loop throws: every earlier activity has a participant list, and the one there has none |
| `ActivityBoard.CardsFor` | src/static/app.js:44-74 | one card per activity, in response order |
| `ActivityBoard.OptionsFor` | src/static/app.js:76-80 | one option per activity, in order, with the activity name as both value and text |
| `ActivityBoard.ListAfterLoad` | src/static/app.js:33-85 | a finished load never leaves the initial content; a failed request shows the failure message, and cards, when shown, number one per activity |
| `ActivityBoard.OptionsAfterLoad` | src/static/app.js:41-83 | after a received response the select starts with the placeholder and holds at most one more option per activity; a failed request leaves it unchanged |
| `ActivityBoard.CardsExactlyWhenAllRostersPresent` | src/static/app.js:44-83 | the list shows cards exactly when every activity has a participant list; then it has one card per activity, in order, with that activity's name, description and schedule, its availability computed from `max_participants - participants.length` and its roster of one entry per participant |
| `ActivityBoard.OptionsFollowResponseOrder` | src/static/app.js:41-80 | after a load the select holds the placeholder and then one option per activity in response order, up to the first one without a participant list; a failed request leaves the select as it was |
| `ActivityBoard.PartialOptionsSurviveFailure` | src/static/app.js:48-84 | an activity without a participant list turns the list into the failure message, but the options of the activities before it remain |
| `ActivityBoard.Board.FetchActivities` | src/static/app.js:32-86 | the loop leaves the list and the options as `ListAfterLoad` and `OptionsAfterLoad` describe |
| `Signup.DetailOrFallback` | src/static/app.js:110 | a non-empty detail is itself the text shown; a missing or empty detail shows `An error occurred`; the text is never empty |
| `Signup.MessageText` | src/static/app.js:105-121 | a successful reply shows its message (empty when missing), a rejected one its detail or the fallback, an exception the fixed failure text; only a successful reply can show the empty text |
| `Signup.MessageClass` | src/static/app.js:107-122 | the class is `success` exactly after a successful reply and `error` otherwise, never `hidden` |
| `Signup.OutcomeTable` | src/static/app.js:105-125 | the class `success` goes exactly with the form reset; every other outcome shows a non-empty text with the class `error`; an exception is the only outcome that schedules no hide |
| `Signup.RemoveClass` | src/static/app.js:114 | `classList.remove` leaves every other class and no occurrence of the removed one |
| `Signup.RemoveAbsentClass` | src/static/app.js:123 | removing a class that is absent changes nothing |
| `Signup.AddClass` | src/static/app.js:118 | `classList.add` leaves the added class and every class that was there |
| `Signup.SignupPage.Submit` | src/static/app.js:89-101 | the request carries the current activity and address fields; nothing on screen changes |
| `Signup.SignupPage.Complete` | src/static/app.js:103-125 | the message shows the outcome's text and class and is not hidden; one hide is scheduled unless the request failed; the fields return to their default values only after an OK reply |
| `Signup.SignupPage.HideTimerFires` | src/static/app.js:117-119 | a pending hide adds `hidden` whatever the message shows by then; text and fields are unchanged |

## Left out

- DOM and network plumbing is not modelled: `fetch`, `response.json()`, `addEventListener`, `preventDefault`, `getElementById`, `createElement`, `appendChild` and `console.error`. The model takes the decoded response or a failure token as input instead.
- `setTimeout` and its five-second delay are not modelled. A scheduled hide is a counter plus the explicit `HideTimerFires` event; wall-clock order is not modelled.
- HTML templating (app.js:52-72) and its lack of escaping are left out. Cards are structured values, and the availability text `"<n> spots left"` is represented by `SpotsLeft(n)`.
- `encodeURIComponent` and the URL of the signup request are left out. The request carries the raw activity name and address.
- `Strings.Upper`: ASCII only. JavaScript's full Unicode `toUpperCase`, which can change a string's length, is not modelled. Nor is UTF-16 indexing (`w[0]`, `parts[0][0]`); Dafny characters are whole code points.
- The activities are taken in the order `Object.entries` produced them. JavaScript puts integer-like keys first, and that ordering rule is not modelled.
- JSON values of unexpected types are not modelled: a non-numeric `max_participants` (`NaN`, shown as `Full`), non-string participants or details, or a response that is not an object. `max_participants` is an integer and `detail` an optional string.
- Which reply belongs to which submission is not tracked. Overlapping submissions are visible only through the separate `Submit` and `Complete` steps.
- The page markup is not part of this model. The fields' default values (which `reset()` restores), the message's initial text and classes are `SignupPage` constructor arguments, the select's initial options are a `Board` constructor argument, and the list's initial content is the `Initial` state.
- The FastAPI server `src/app.py` is not part of this model. The tests in `tests/test_activities.py` exercise that server, not the client.
