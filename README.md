# Calendar client: a verified model

This project models the logic of a React calendar client and proves
properties of that logic:

- **The calendar page.** The user keeps a catalog of calendars in the
  browser. When no usable catalog is stored it starts from the default
  catalog (Personal and Work). The user can add, remove and recolor
  calendars. Events from the server are joined to their calendar to color
  them. Clicking a day opens a new event's draft, and saving either updates
  the selected event or creates one.
- **The event form.** A date-ish value is turned into the text of a
  `datetime-local` input through the ECMAScript Date rules: TimeClip, the
  proleptic Gregorian calendar and toISOString. The form is filled from the
  event being edited, or from nothing.
- **The authentication helpers.** The login answer is normalised to
  `{ data: { token } }`. The client-side profile is read from the middle
  segment of the stored JSON Web Token.
- **The OAuth landing page.** It either signs in and goes to the calendar,
  or goes to the login page with the error.

Module layout:

- `JsValue` (`js_value.dfy`): JavaScript values, with truthiness, `||`,
  `&&`, property reads and `slice`.
- `JsString` (`js_string.dfy`): `split` and `join`, and replacing one
  character.
- `JsDate` (`js_date.dfy`): time values and toISOString, following
  sections 21.4.1 and 21.4.4.36 of ECMA-262.
- `CalendarPage` (`calendar_page.dfy`): the calendar page, including the
  class `Catalog`, whose methods update the calendar list in place, as the
  page's state setter does.
- `EventModal` (`event_modal.dfy`) and `Auth` (`auth.dfy`).
- `OAuthRedirect` (`oauth_redirect.dfy`).

Engine services the code calls but that are not modelled here are
parameters:

- Date.parse and getTimezoneOffset (`EventModal.DateEnv`);
- the composed `JSON.parse(decodeURIComponent(escape(atob(…))))` of the
  profile;
- `JSON.parse` of the stored catalog;
- encodeURIComponent;
- the answers to `prompt` and `confirm`;
- the text of `Math.random().toString(36)`;
- what the HTTP requests resolve to.

`Auth.ToUrlSafeBase64` is the token issuer's alphabet change, which no
client code performs. It has no row of its own: it is the reference
definition that `Auth.UrlSafeRoundTrip` and `Auth.StandardRoundTrip` check
the client's conversion against.

## Model

| member | source | states |
|---|---|---|
| JsValue.Truthy | src/components/EventModal.jsx:4 | the falsy values are exactly undefined, null, false, 0 and `''` |
| JsValue.Or | src/components/EventModal.jsx:17 | the `or` operator gives `a` when `a` is truthy and `b` otherwise, and the result is truthy exactly when either operand is |
| JsValue.And | src/components/EventModal.jsx:17 | the `and` operator gives `a` when `a` is falsy and `b` otherwise, and the result is truthy exactly when both operands are |
| JsValue.Get | src/api/auth.js:21 | a property read gives the own value of a plain object's key, and undefined when there is none |
| JsValue.Slice | src/components/EventModal.jsx:8 | inside the bounds `slice` is the subsequence; an end past the length is clamped to the length; a start at or past the end or the length gives `''` |
| JsValue.OrChainFirstTruthy | src/api/auth.js:21 | a chain of `or` operators yields its first truthy operand |
| JsValue.OrChainNoneTruthy | src/api/auth.js:21 | with no truthy operand such a chain yields its last operand, which is falsy |
| JsString.Split | src/api/auth.js:18 | `split` gives at least one piece and no piece contains the separator |
| JsString.SplitJoin | src/api/auth.js:18 | joining the pieces of a split with the separator gives the original string |
| JsString.JoinSplit | src/api/auth.js:18 | splitting a join of separator-free pieces gives the pieces back |
| JsString.ReplaceAll | src/api/auth.js:20 | a global one-character `replace` keeps the length and changes exactly the occurrences of the character |
| JsDate.TimeClip | src/components/EventModal.jsx:5-7 | a Date is valid exactly when its time value is within 8.64e15 ms, and then keeps that value |
| JsDate.CivilRoundTrip | src/components/EventModal.jsx:8 | the calendar date of a day number determines the day number (Gregorian round trip) |
| JsDate.YearBound | src/components/EventModal.jsx:8 | every valid time value lies in a year of magnitude below 300000, so six digits always hold it |
| JsDate.Epoch | src/components/EventModal.jsx:7-8 | time value 0 is 1970-01-01, the epoch of ECMAScript time values |
| JsDate.UtcFields | src/components/EventModal.jsx:8 | month, day, hour, minute, second and millisecond of every time value are in range |
| JsDate.PadDigitsRoundTrip | src/components/EventModal.jsx:8 | zero-padded digits read back as the number they print |
| JsDate.YearString | src/components/EventModal.jsx:8 | years 0 to 9999 take four digits, which read back as the year; other years take a sign and six digits, which read back as the year's magnitude when it fits |
| JsDate.ToIsoString | src/components/EventModal.jsx:8 | toISOString is 24 characters (27 in an expanded year) and ends in `Z`; its year digits read back as the year (its magnitude for an expanded year, never truncated) |
| JsDate.IsoMinutePrefix | src/components/EventModal.jsx:8 | the first 16 characters of toISOString are the minute text; in a four-digit year they have the `YYYY-MM-DDTHH:MM` shape |
| JsDate.IsoMinutePrefixDenotes | src/components/EventModal.jsx:8 | the digits of the prefix read back as year, month, day, hour and minute |
| JsDate.IsoMinutePrefixIsMinute | src/components/EventModal.jsx:8 | two time values have the same prefix exactly when they fall in the same minute |
| CalendarPage.FindIndex | src/pages/CalendarPage.jsx:30 | `find` returns the first calendar whose id equals the key; it returns none only when no id matches |
| CalendarPage.DisplayCalendar | src/pages/CalendarPage.jsx:30 | the event's calendar is the first one whose id matches, else the first calendar; there is none only when the catalog is empty |
| CalendarPage.ToItem | src/pages/CalendarPage.jsx:31-39 | an item carries the event's id, title, start and end, the calendar's color as background and border, and the event as `raw` |
| CalendarPage.MapEvents | src/pages/CalendarPage.jsx:29-40 | one item per event, in order, carrying the event as `raw`; id, title, start and end are copied; both colors are the joined calendar's color; it throws a TypeError exactly when an event is nullish or the catalog is empty while events exist |
| CalendarPage.FetchEvents | src/pages/CalendarPage.jsx:26-43 | a failed request, a non-array body or a failed mapping gives `[]`; with a non-empty catalog and non-null events every event is shown |
| CalendarPage.Without | src/pages/CalendarPage.jsx:64 | the filtered catalog has no entry with the id and keeps every other entry |
| CalendarPage.WithoutConcat | src/pages/CalendarPage.jsx:64 | removal works piece by piece, so relative order is kept |
| CalendarPage.WithoutAbsent | src/pages/CalendarPage.jsx:64 | removing an id that no entry has leaves the catalog unchanged |
| CalendarPage.Recolored | src/pages/CalendarPage.jsx:82 | only entries with the id get the new color; ids, names and length stay the same |
| CalendarPage.NewCalendarId | src/pages/CalendarPage.jsx:63 | a new id is `cal-` followed by at most seven characters: characters 2 to 8 of the random text when it is that long, none when it has at most two |
| CalendarPage.ColorOrDefault | src/pages/CalendarPage.jsx:63 | a new calendar's color is the given one when it is non-empty, and `#2563eb` when the prompt is cancelled or left empty |
| CalendarPage.Catalog.constructor | src/pages/CalendarPage.jsx:11-20 | the page starts with the stored catalog when one is stored and parses; otherwise it starts with the two default calendars |
| CalendarPage.Catalog.AddCalendar | src/pages/CalendarPage.jsx:63 | a cancelled or empty name changes nothing; otherwise a new calendar is appended |
| CalendarPage.Catalog.RemoveCalendar | src/pages/CalendarPage.jsx:64 | if confirmed, the catalog loses the entries with that id; otherwise nothing changes |
| CalendarPage.Catalog.Recolor | src/pages/CalendarPage.jsx:82 | a non-empty answer recolors the entries with the clicked calendar's id; otherwise nothing changes |
| CalendarPage.RecolorDisplay | src/pages/CalendarPage.jsx:82 | recoloring changes no join; an event shows the new color exactly when its calendar has the recolored id |
| CalendarPage.RemovedIdJoinsNothing | src/pages/CalendarPage.jsx:64 | after a removal no event joins the removed id |
| CalendarPage.RemoveKeepsOtherJoins | src/pages/CalendarPage.jsx:64 | events with any other key join the same calendar as before |
| CalendarPage.AddDisplay | src/pages/CalendarPage.jsx:63 | adding a calendar keeps every existing join; an event joins the new entry only when no older entry has its id |
| CalendarPage.NewDraft | src/pages/CalendarPage.jsx:45-48 | the draft has an empty title, start and end both equal to the clicked date, the first calendar and completion off; it throws when the catalog is empty |
| CalendarPage.ClickedSelection | src/pages/CalendarPage.jsx:51 | the selection after a click is the raw event when it is truthy, else `{}`; either way it is truthy |
| CalendarPage.SaveTarget | src/pages/CalendarPage.jsx:55 | save updates the selected event exactly when it is truthy and has a truthy id; otherwise it creates one |
| CalendarPage.DraftSavesAsCreate | src/pages/CalendarPage.jsx:55 | a new event's draft is always created, never updated |
| CalendarPage.ClickedEventSave | src/pages/CalendarPage.jsx:51-55 | saving a clicked event updates it exactly when the server gave it a truthy id |
| EventModal.TimeOf | src/components/EventModal.jsx:5-6 | a Date keeps its valid time value; a number is clipped; true, false and null are 1, 0 and 0; undefined is invalid; a string, array or object goes through Date.parse and is clipped |
| EventModal.LocalTime | src/components/EventModal.jsx:7 | the shift keeps seconds and milliseconds and moves the minute count back by the zone offset |
| EventModal.ToDateTimeLocal | src/components/EventModal.jsx:3-9 | the result is `''` exactly for a falsy or invalid value; a RangeError occurs exactly when the local shift leaves the range; otherwise the result is the 16-character ISO prefix of the local time |
| EventModal.DateTimeLocalDenotes | src/components/EventModal.jsx:3-9 | the text spells out the local year, month, day, hour and minute |
| EventModal.SameTextSameLocalMinute | src/components/EventModal.jsx:3-9 | two values show the same text exactly when they fall in the same local minute |
| EventModal.FallbackCalendarId | src/components/EventModal.jsx:17-19 | the fallback calendar id is the first calendar's id, or `''` |
| EventModal.Hydrate | src/components/EventModal.jsx:13-21 | without an event the form is empty with the first calendar; with one, every field is the event's truthy value or its default, the end falls back to the start, and it throws exactly when a date conversion throws |
| EventModal.EmptyEventIsNoEvent | src/components/EventModal.jsx:14-19 | an event object with no fields fills the form as no event does |
| EventModal.NewEventForm | src/pages/CalendarPage.jsx:46 | a new draft opens a form with start equal to end, the first calendar selected and completion off |
| Auth.Login | src/api/auth.js:6-10 | a string body is the token; otherwise the token is `body.token` when both are truthy, else null |
| Auth.LoginTokenTruthyOrNull | src/api/auth.js:8 | an object body never yields a falsy token other than null |
| Auth.LoginShapesAgree | src/api/auth.js:8 | a string body and `{ token }` give the same result exactly when the token is non-empty |
| Auth.PayloadSegment | src/api/auth.js:18 | a second segment exists exactly when the token has a dot, and it contains no dot |
| Auth.PayloadOfJwt | src/api/auth.js:18 | the payload of `header.payload.signature` is the middle segment |
| Auth.PayloadOfTwoSegments | src/api/auth.js:18 | the payload of `header.payload`, with a single dot, is the second part |
| Auth.ToStandardBase64 | src/api/auth.js:20 | every `-` becomes `+`, every `_` becomes `/`, and nothing else changes |
| Auth.UrlSafeRoundTrip | src/api/auth.js:20 | a URL-safe segment survives the conversion to the standard alphabet and back |
| Auth.StandardRoundTrip | src/api/auth.js:20 | standard base64 text survives the conversion to the URL-safe alphabet and back |
| Auth.Username | src/api/auth.js:21 | the username is one of the four claims, truthy exactly when one of them is, and the `name` claim when it is not |
| Auth.UsernameIsFirstTruthyClaim | src/api/auth.js:21 | the username is the first truthy claim among sub, user, username and name; otherwise it is the `name` value |
| Auth.ApiProfile | src/api/auth.js:13-26 | it rejects for each of: no token, no second segment, undecodable payload, null claims; each holds exactly when its condition holds; otherwise it returns the username of the decoded claims |
| Auth.ProfileOfJwt | src/api/auth.js:13-26 | a well-formed token with decodable claims resolves to the first truthy claim |
| OAuthRedirect.Redirect | src/pages/OAuthRedirect.jsx:10-22 | a non-empty token signs in and goes to `/calendar`; otherwise it goes to `/login`, with `?error=` plus the encoded error when there is one; the history entry is always replaced |
| OAuthRedirect.SignInIffCalendar | src/pages/OAuthRedirect.jsx:15-21 | it signs in exactly when it goes to the calendar; every other outcome lands on `/login` |
| OAuthRedirect.TokenOverridesError | src/pages/OAuthRedirect.jsx:15-17 | a token wins over any error |
| OAuthRedirect.ErrorReachesLogin | src/pages/OAuthRedirect.jsx:19 | distinct encoded errors reach the login page as distinct paths |

## Left out

- HTTP transport and the API wrappers (`src/api/http.js`, `src/api/calendar.js`): a request is modelled only by what it resolves to, or by its failure.
- Persisting the catalog on every change (CalendarPage.jsx:24): that is storage I/O; the model covers only the catalog read at start-up.
- `handleDelete` (CalendarPage.jsx:61): it only asks for confirmation and issues a request, so it has no logic of its own.
- Refetching and closing the form after a save (CalendarPage.jsx:56-57): view plumbing.
- `handleSave`'s failure path (CalendarPage.jsx:58): the model does not cover the `alert('Save failed')` dialog or the fact that the form stays open. The model decides only which request is sent.
- The `console.error` logging in `fetchEvents`, `handleSave` and `handleDelete` (CalendarPage.jsx:42, 58 and 61): console output is I/O. For `fetchEvents` the model keeps only the `[]` reported after the log.
- Date.parse and getTimezoneOffset are parameters, so the model does not say how a date string is parsed or which zone is in use.
- The JSON and base64 decoding and encodeURIComponent are parameters: they are engine services.
- `URLSearchParams.get` is taken as already applied: its result is the `token` or `error` parameter.
- Numbers are integers: NaN, -0 and fractions are not modelled. A `Date` carries an optional integer time value.
- Property reads see only own properties of plain objects. Prototype properties are not modelled, nor arrays or strings used as claim objects with such keys.
- CalendarPage.Catalog.constructor: a stored value that parses to JSON other than a calendar list is not modelled. `parse` returns either a calendar list or nothing.
- CalendarPage.NewCalendarId: no uniqueness is promised, because the source does nothing to make ids unique.
- The rendering: the sidebar, the FullCalendar options, the completed checkbox in event content, and the form's inputs and buttons.
- The asynchronous control flow and React's effect scheduling: each effect is modelled as the function it computes.
- Login, registration, the navigation bar, the authentication context and the profile page: these are outside the modelled core.
