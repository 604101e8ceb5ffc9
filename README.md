# Journal: a verified model

The system is a small journaling web application. It has four parts:

- A Django server stores each user's journal entries. It answers the editor's
  load and save requests, exports a user's entries as a ZIP archive of HTML
  files, proxies text to a translation service, and shows a maintenance page
  while maintenance mode is on.
- An admin site has display helpers for users, social-login accounts and
  entries, plus an endpoint that switches maintenance mode.
- The browser editor (`journal/static/journal/js/script.js`) shows a timer
  while you write. It saves to the server, creating an entry on the first
  save and updating it afterwards.
- An older stand-alone page (`script.js`, served by `server.py`) keeps its
  entries in `localStorage`. Its tiny proxy server forwards translation requests.

This project models that core in Dafny and proves what the code promises:

- **Database table.** Each entry has an owner, bounded title and duration
  columns, creation and update times, and an optional IP address. The table
  is a class whose rows stay newest first with distinct ids. Creating,
  updating and cascading deletes all keep that invariant.
- **Views.**
  - Reading the client address.
  - The maintenance gate.
  - The owner-scoped listing.
  - The POST upsert, with its fall-through to creation and its error answers.
  - The export's file names and bodies.
  - The translation proxy with its parameter defaults and segment join.
- **Admin helpers.**
  - The `extra_data` fallbacks (`extra_data or {}`, the nested `get` defaults).
  - The escaped "verified" marker.
  - The social-account column with `str.title()`.
  - `has_add_permission`.
  - `toggle_maintenance` on a one-row configuration table.
- **Admin dashboard script.**
  - `getCookie`, proved to read back a value written with `encodeURIComponent`.
  - The status indicator and toast construction.
  - The toggle handler, which reverts on failure.
  - `updateStatCards` on a four-card array.
- **The two editors.**
  - Each is a class of handler methods over its `state` object.
  - Each method is specified by a pure transition function, and lemmas work
    on those functions.
  - Shared pieces are the `Xh Ym Zs` duration text (read back to the number of
    seconds) and the `HH:MM:SS` timer display.
  - The server editor's `currentEntryId` lifecycle is tied to the view's
    upsert: a save after a created save updates the same row.
  - The local editor newest-first prepends into `localStorage`, with the
    export guard and the backup name.
- **Proxy server.** Routing, `parse_qs` (first value wins, blank values
  dropped), the segment loop, and the 400 and 500 answers.

Python and JavaScript semantics are written out where they matter:

- truthiness;
- the exact `TypeError`/`AttributeError` texts;
- JavaScript's truncating `%`;
- `Math.floor` as Euclidean division by a positive number;
- the whitespace sets of `str.strip` and `String.prototype.trim`;
- Django `QueryDict.get` taking the last value where `parse_qs(...)[0]` takes the first;
- Django's `BooleanField` conversion on save, with the text of its refusal;
- Django's text columns, which store a decoded JSON member as its `str()`
  and refuse `null` (NOT NULL), and the message of an id `int()` refuses;
- `str()` and `repr()` of decoded JSON values.

Inputs the program gets from the outside world are parameters: the clock
(`now`, `Date.now()`), request headers, the upstream answer as decoded JSON or
the exception raised, and the DOM texts (`innerText`, `textContent`).

Two behaviours of the source are stated as lemmas rather than hidden:

- `JournalAdmin.ToggleTextZero`: posting `"maintenance_mode": "0"` stores
  `False` (the column's conversion) but reports "Maintenance mode enabled"
  (Python truthiness of the text).
- `TranslateServer.NumberSegmentMessages`: `server.py` checks `len(segment)`
  before indexing, so a numeric segment gives a different error text from the
  Django view, which indexes directly.

The export sanitiser keeps only alphanumerics, spaces, `-` and `_`, and it
does not insert a space where it drops a character. So `Report/Q1:2024`
becomes `ReportQ12024`, not `Report Q1 2024`. The model follows the code
(journal/views.py:88); `JournalViews.SafeTitleExample` and
`JournalViews.KeepSkips` state it.

`journal/models.py` does not define `SiteConfiguration`. It is
modelled as a record with the `maintenance_mode` flag, a `BooleanField`
declared without `null=True`. `load()` is a get-or-create whose creation has
the flag off.

The export's character class `str.isalnum` is a parameter (`isAlnum`), so the
sanitiser lemmas hold for Python's Unicode class as well as for ASCII.

## Model

| member | source | states |
|---|---|---|
| JournalModels.LengthViolation | journal/models.py:6-11 | no violation exactly when the title fits 255 and the duration fits 50 characters; the title is reported first, the duration only when the title fits |
| JournalModels.StoredIp | journal/models.py:10 | a blank or missing address is stored as null, any other text as given (IPv6 normalisation is left out), and a stored value is never blank |
| JournalModels.ColumnText | journal/models.py:6-11 | a text column refuses `null` with the NOT NULL message naming the column, keeps a string and stores anything else as its `str()` |
| JournalModels.ColumnTextExamples | journal/models.py:6-11 | a number, a boolean and a list given for a text column are stored as "-5", "True" and "['a', 1]" |
| JournalModels.Str | journal/models.py:16-17 | the text is the title, " (", a ten-character day that parses back to the creation date, and ")" |
| JournalModels.StrInjective | journal/models.py:16-17 | two entries with the same string form have the same title and the same creation day |
| EntryStore.Where | journal/views.py:35 | a filter keeps exactly the rows that satisfy the condition and is never longer than the table |
| EntryStore.WhereValid | journal/models.py:13-14 | filtering a valid table (newest first, distinct ids below the next id, columns within bounds) gives a valid table |
| EntryStore.WhereNewestFirst | journal/models.py:13-14 | a filter of a newest-first table is newest first |
| EntryStore.WhereDistinct | journal/models.py:13-14 | a filter of a table with distinct ids has distinct ids |
| EntryStore.WhereAppend | journal/views.py:35 | filtering distributes over concatenation of rows |
| EntryStore.InsertPosition | journal/models.py:13-14 | a new row goes after every strictly newer row and before the first row that is not newer |
| EntryStore.InsertNewestAt | journal/models.py:13-14 | insertion puts the row at that position with the rows before and after it unchanged and in order |
| EntryStore.InsertNewestOrder | journal/models.py:13-14 | inserting into a newest-first table keeps it newest first |
| EntryStore.InsertNewestContents | journal/views.py:66-72 | the table after a creation holds the old rows plus exactly the new one (as a multiset) |
| EntryStore.InsertNewestOthers | journal/views.py:66-72 | creating a row for one user leaves every other user's rows, and their order, unchanged |
| EntryStore.Find | journal/views.py:54 | a found row is in the table with the requested id and owner; nothing is found exactly when no such row exists |
| EntryStore.ReplaceRow | journal/views.py:60 | saving keeps the table's length and replaces the row with the saved id, every other row unchanged |
| EntryStore.ReplaceRowValid | journal/models.py:8-9 | saving a row that keeps its id, owner and creation time and fits the columns keeps the table valid |
| EntryStore.ReplaceRowOthers | journal/views.py:54-60 | saving one user's row leaves every other user's rows unchanged |
| EntryStore.InsertIsValid | journal/models.py:4-14 | a created row with the next id and fitting columns keeps the table valid with the id counter advanced |
| EntryStore.NoneOwned | journal/models.py:5 | a table with no row of a user yields nothing when filtered by that user |
| EntryStore.EntryTable.constructor | journal/models.py:4-14 | a new table is empty, valid and hands out id 1 first |
| EntryStore.EntryTable.Get | journal/views.py:54 | `get(id=, user=)` returns a row with that id owned by that user, or reports that none exists |
| EntryStore.EntryTable.Filter | journal/views.py:35 | `filter(user=)` returns exactly that user's rows, newest first, with distinct ids |
| EntryStore.EntryTable.Create | journal/views.py:66-72 | a creation with fitting values stores a row with the next id, both timestamps `now` and a blank address as null, in newest-first position; with a too-long value it reports the column and changes nothing |
| EntryStore.EntryTable.Update | journal/views.py:55-60 | a save with fitting values replaces the row with new title, content, duration and address and `updated_at = now`, keeping id, owner and `created_at`; a too-long value changes nothing; the table stays valid |
| EntryStore.EntryTable.DeleteUser | journal/models.py:5 | deleting a user removes exactly that user's rows and keeps the rest valid and in order |
| JournalViews.ClientIp | journal/views.py:12-18 | with a non-empty forwarded header, the result is the header's text up to its first comma; otherwise it is `REMOTE_ADDR` |
| JournalViews.ClientIpFirstHop | journal/views.py:14-15 | for a header `first,rest` (or just `first`) the recorded address is `first` |
| JournalViews.IndexPage | journal/views.py:26-29 | the 503 maintenance page is answered exactly when maintenance is on and the user is not staff; otherwise the index template is rendered with the configuration |
| JournalViews.Index | journal/views.py:20-29 | the view loads (creating if needed) the configuration and answers as the gate says, leaving an existing row unchanged |
| JournalViews.IndexGate | journal/views.py:26-29 | staff, or anyone while maintenance is off, always get the rendered page; the only other answer is 503 |
| JournalViews.ListEntries | journal/views.py:35-43 | the GET list has one item per row of the caller, in table order, each with id, title, content, ISO date and duration |
| JournalViews.ListEntriesOwnRowsOnly | journal/views.py:35-43 | every listed item comes from a row owned by the caller |
| JournalViews.ListEntriesEveryOwnRow | journal/views.py:35-43 | every row owned by the caller is listed |
| JournalViews.ItemDate | journal/views.py:40 | a listed date is `isoformat()`: it starts with the creation day, which parses back, followed by 'T' |
| JournalViews.PostStatus | journal/views.py:61-76 | the answer has status 400 exactly for the error answer and 200 for 'created' and 'updated' |
| JournalViews.DecodedBody | journal/views.py:47-57 | a body the parser refuses keeps its message, a decoded value that is not an object is kept for the `AttributeError`, and an object gives its 'id', 'title', 'content' and 'durationStr' members as `data.get` reads them |
| JournalViews.PostTarget | journal/views.py:50-63 | an absent or falsy id means creation; a truthy id `int()` refuses is reported, and only such an id; a row chosen for update is the caller's |
| JournalViews.PostColumns | journal/views.py:55-70 | the three texts written are each member's `str()` when given and the fallback otherwise; the statement fails exactly when a member is `null`, with the NOT NULL message of the first such column in title, content, duration order |
| JournalViews.ApiEntriesPost | journal/views.py:45-76 | the handler on the table answers and changes it as the upsert does (update the caller's row named by a truthy id, else create with defaults, members stored as their `str()`; a null member, an id `int()` refuses or an unreadable body is an error answer that changes nothing) and keeps the table valid |
| JournalViews.PostKeepsValid | journal/views.py:45-76 | every POST keeps the table valid |
| JournalViews.PostIsolation | journal/views.py:45-76 | a POST by one user never changes another user's rows |
| JournalViews.PostFailureChangesNothing | journal/views.py:47-76 | an error answer leaves the table and the id counter unchanged; an unparsable body answers with the parser's message, a non-object body with the `AttributeError` text, an id `int()` refuses with Django's "Field 'id' expected a number" text, and a `null` title, content or duration with the NOT NULL message of the first such column |
| JournalViews.BadIdExample | journal/views.py:51-54 | the id "abc" is answered with "Field 'id' expected a number but got 'abc'." and nothing changes |
| JournalViews.PostUpdatesOwnedRow | journal/views.py:50-61 | a truthy id naming the caller's row updates it in place: present members overwrite as their `str()`, absent ones are kept, the address is refreshed, `updated_at` is `now`, the answer is 'updated' with the same id, and no row is added |
| JournalViews.PostCreatesRow | journal/views.py:50-74 | an absent, falsy or foreign id creates one row owned by the caller with the next id and the defaults 'Untitled', '' and '0s'; the answer is 'created' with that id |
| JournalViews.CreateThenUpdate | journal/views.py:50-74 | posting again with the id a creation returned targets the created row and either updates it under the same id or is refused for a too-long or `null` column |
| JournalViews.PostToOwnedRow | journal/views.py:50-61 | a POST targeting one of the caller's rows either updates that row, keeping the id counter, or is refused for a too-long or `null` column |
| JournalViews.KeepOnlyAllowed | journal/views.py:88 | the kept characters are all alphanumerics (by the given `isalnum` class), spaces, '-' or '_' |
| JournalViews.KeepAllowed | journal/views.py:88 | a title of only allowed characters is kept whole |
| JournalViews.KeepSkips | journal/views.py:88 | a dropped character leaves no gap: the parts on either side are joined directly |
| JournalViews.SafeTitleParts | journal/views.py:88 | the safe title holds only allowed characters and neither starts nor ends with a space |
| JournalViews.SafeTitleIdempotent | journal/views.py:88 | sanitising a safe title changes nothing, for any `isalnum` class that accepts no whitespace |
| JournalViews.SafeTitleExample | journal/views.py:88 | "Q1/Q2" becomes "Q1Q2" for any `isalnum` class accepting 'Q', '1', '2' and refusing '/' |
| JournalViews.ExportNameParts | journal/views.py:87-89 | a file name is the creation day (parsing back to the date), " - ", the safe title and ".html" |
| JournalViews.ExportBodyParts | journal/views.py:92 | a file body is `<h1>`, the title, `</h1><p>Date: `, the creation day (parsing back to the date), `</p><hr>` and the content unchanged |
| JournalViews.ExportZip | journal/views.py:81-98 | the archive has one member per row of the caller, in listing order, named and filled as above, served as `application/zip` with the backup file name |
| JournalViews.ExportFindsEachName | journal/views.py:85-93 | every exported entry's file name is present in the archive |
| JournalViews.LastValue | journal/views.py:102-103 | `QueryDict.get` yields a value given for the key, and nothing exactly when the key is absent |
| JournalViews.LastValueWins | journal/views.py:102-103 | a value given later for a key overrides every earlier one, so `QueryDict.get` yields the last |
| JournalViews.JoinRaisedPrefix | journal/views.py:117-121 | once the loop has raised on a prefix of the segments, the whole loop raises the same exception |
| JournalViews.JoinTextSegments | journal/views.py:117-121 | segments whose first element is text join to the in-order concatenation of those texts |
| JournalViews.JoinSkipsFalsy | journal/views.py:119-121 | a falsy segment contributes nothing |
| JournalViews.ProxyTranslate | journal/views.py:100-126 | the handler with its loop answers 400 for empty text, 500 with the exception's text, otherwise the in-order join of the truthy segments' first elements |
| JournalViews.TranslateDefaults | journal/views.py:102-106 | empty text is refused with 400 whatever the upstream would answer; without a target the upstream is asked for Spanish |
| JournalAdmin.Escape | journal/admin.py:265 | escaping never shortens the text |
| JournalAdmin.UnescapeEscape | journal/admin.py:265 | the escaped e-mail reads back to the original text |
| JournalAdmin.EscapeIsInert | journal/admin.py:265 | escaped text holds no markup delimiter (`<`, `>`) and no quote |
| JournalAdmin.ProfileData | journal/admin.py:261 | falsy `extra_data` counts as an empty object, an object gives its members, and any other truthy value raises |
| JournalAdmin.GetOrDefault | journal/admin.py:262 | `get(key, default)` yields a value given for the key, or the default exactly when the key is absent |
| JournalAdmin.FirstOf | journal/admin.py:272 | the nested `get` yields the first key's value, else the second key's, else '-' |
| JournalAdmin.GetName | journal/admin.py:269-273 | 'name', else 'given_name', else '-'; raises exactly when the provider data is unusable |
| JournalAdmin.GetCountry | journal/admin.py:282-287 | 'country', else 'location', else '-' |
| JournalAdmin.GetLocale | journal/admin.py:276-279 | 'locale', else '-' |
| JournalAdmin.GetEmail | journal/admin.py:259-266 | 'email' (default '-') is shown plain unless 'verified_email' is truthy; then its `str()` is wrapped in the green check marker, escaped so that no `<`, `>` or quote is left inside the marker, and unescapes back to the `str()` |
| JournalAdmin.NoDataShowsDash | journal/admin.py:259-287 | with no provider data every profile column shows '-' |
| JournalAdmin.UserEmail | journal/admin.py:192-194 | the owner's e-mail, or '-' without an owner |
| JournalAdmin.Icon | journal/admin.py:159-168 | every provider gets a one-character icon, never a bar or a space |
| JournalAdmin.TitleCase | journal/admin.py:169 | `str.title()` keeps the length |
| JournalAdmin.TitleFromAt | journal/admin.py:169 | a letter is upper-cased exactly when it starts a word and lower-cased otherwise; other characters are kept |
| JournalAdmin.TitleCaseIdempotent | journal/admin.py:169 | title-casing twice is title-casing once |
| JournalAdmin.TitleCaseKeepsBars | journal/admin.py:169 | title-casing adds no bar |
| JournalAdmin.SocialAccounts | journal/admin.py:153-171 | the loop yields the 'Email/Password' span without accounts, otherwise the accounts' parts joined by " \| " |
| JournalAdmin.JoinPadded | journal/admin.py:171 | joining by " \| " is joining by "\|" the parts padded with the surrounding spaces |
| JournalAdmin.SocialAccountsSplit | journal/admin.py:159-171 | splitting the column at its bars gives back each account's icon and title-cased name, in account order |
| JournalAdmin.ToggleStatus | journal/admin.py:90-97 | status 200 exactly when the toggle succeeded |
| JournalAdmin.StoredFlag | journal/admin.py:87-88 | a posted boolean is stored as itself |
| JournalAdmin.ToggleMaintenance | journal/admin.py:74-97 | a non-POST request or an unreadable body answers 400 without touching the row; otherwise the row is loaded (created if absent), the posted flag (default False) is stored and reported, and a value the column refuses answers 400 after the row was created |
| JournalAdmin.ToggleApplies | journal/admin.py:78-94 | posting a boolean (or omitting the key, meaning False) stores it, answers 200 and reports 'enabled'/'disabled' in agreement with it |
| JournalAdmin.ToggleRejectsBeforeLoading | journal/admin.py:75-97 | a non-POST request or an unreadable body answers 400 and does not even create the configuration row |
| JournalAdmin.ToggleTextZero | journal/admin.py:83-94 | for the text "0" the stored flag is off while the message says enabled |
| JournalAdmin.FlagMessageOfText | journal/admin.py:91-95 | the refusal of a text without quotes, backslashes or control characters is answered with `['“<text>” value must be either True or False.']` |
| JournalAdmin.ToggleRefusesText | journal/admin.py:83-95 | posting "yes" creates the configuration row, answers 400 and quotes "yes" in the field's message |
| SiteConfig.ConfigTable.constructor | journal/views.py:24 | there is no configuration row before the first load |
| SiteConfig.ConfigTable.Load | journal/views.py:24 | `load()` returns the existing row, or creates one with maintenance off |
| SiteConfig.ConfigTable.Save | journal/admin.py:88 | `save()` stores the configuration |
| SiteConfig.ConfigTable.HasAddPermission | journal/admin.py:205-207 | adding is allowed exactly when no configuration exists |
| AdminScripts.FirstMatch | journal/static/admin/js/admin_scripts.js:144-151 | no value exactly when no trimmed piece starts with `name=` |
| AdminScripts.CookieValue | journal/static/admin/js/admin_scripts.js:141-154 | an absent or empty `document.cookie` gives null |
| AdminScripts.FirstMatchAt | journal/static/admin/js/admin_scripts.js:144-151 | the first matching piece decides the value; later ones are never looked at |
| AdminScripts.GetCookie | journal/static/admin/js/admin_scripts.js:141-154 | the loop with its `break` returns the decoded value of the first trimmed piece starting with `name=`, or null when there is none |
| AdminScripts.WrittenCookie | journal/static/admin/js/admin_scripts.js:146-148 | a piece `name=encodeURIComponent(v)` holds no `;`, matches the name and decodes back to `v` |
| AdminScripts.JoinedCookies | journal/static/admin/js/admin_scripts.js:144 | `;`-free pieces joined by `;` are a non-empty text that splits back into them |
| AdminScripts.ReadBack | journal/static/admin/js/admin_scripts.js:141-154 | in a cookie text where no earlier piece has the name, `getCookie` returns the value that was written |
| AdminScripts.MakeToast | journal/static/admin/js/admin_scripts.js:101-123 | the class is `toast toast-{type}`, the success icon appears exactly for 'success', the message is the text |
| AdminScripts.StatusClasses | journal/static/admin/js/admin_scripts.js:72-85 | afterwards exactly one of status-maintenance/status-live is present, as the mode says, and other classes are unchanged |
| AdminScripts.RequestFor | journal/static/admin/js/admin_scripts.js:19-40 | the request carries the toggle's new state, the config id and the csrftoken cookie's value (none without the cookie); only a cookie that fails to decode prevents it |
| AdminScripts.FailureText | journal/static/admin/js/admin_scripts.js:57 | a non-empty server message is shown as is, otherwise the fallback text; the toast text is never empty |
| AdminScripts.Settled | journal/static/admin/js/admin_scripts.js:42-65 | loading ends and one toast is added; on success the indicator shows the new mode and the toggle keeps it; otherwise the toggle reverts to `!isEnabled` and the indicator is untouched |
| AdminScripts.ToggleRoundTrip | journal/static/admin/js/admin_scripts.js:18-66 | the toggle's request, handled by `toggle_maintenance`, stores the new mode, and the settled page shows it with a success toast |
| AdminScripts.AdminPage.constructor | journal/static/admin/js/admin_scripts.js:14-20 | the page starts with the rendered toggle and indicator, not loading, without toasts |
| AdminScripts.AdminPage.UpdateStatusIndicator | journal/static/admin/js/admin_scripts.js:72-85 | the indicator's classes and text become those of the mode |
| AdminScripts.AdminPage.ShowToast | journal/static/admin/js/admin_scripts.js:96-136 | one toast is appended to the container |
| AdminScripts.AdminPage.Change | journal/static/admin/js/admin_scripts.js:18-40 | the card shows loading and the request is built from the toggle's state and the CSRF cookie |
| AdminScripts.AdminPage.Settle | journal/static/admin/js/admin_scripts.js:41-65 | the page becomes the settled page |
| AdminScripts.CardsAfter | journal/static/admin/js/admin_scripts.js:173-186 | exactly the cards whose field is defined take its value; the others are unchanged |
| AdminScripts.CardsAfterTwice | journal/static/admin/js/admin_scripts.js:173-186 | two refreshes equal one refresh with the later data overriding the earlier |
| AdminScripts.UpdateStatCards | journal/static/admin/js/admin_scripts.js:173-186 | in place, exactly the cards whose field is defined take its value and the others keep theirs |
| DurationFormat.JsRem | journal/static/journal/js/script.js:261-262 | JavaScript's `%`: the remainder has the sign of the dividend |
| DurationFormat.DurationText | journal/static/journal/js/script.js:253-263 | the duration text is never empty and always ends in 's' |
| DurationFormat.FormatDuration | journal/static/journal/js/script.js:259-263 | the `+=` steps give the hour part when there is a whole hour, the minute part (minutes modulo 60) when there is a whole minute, and always the seconds part |
| DurationFormat.DurationUnderASecond | journal/static/journal/js/script.js:254-263 | under a second, and in particular without a start time, the duration is "0s" |
| DurationFormat.DurationJoin | journal/static/journal/js/script.js:259-262 | the text is the hour, minute and second parts present, separated by single spaces |
| DurationFormat.ReadDurationText | journal/static/journal/js/script.js:253-263 | reading the text back (h×3600 + m×60 + s) gives the whole seconds elapsed |
| DurationFormat.DurationFitsColumn | journal/models.py:11 | for any realistic elapsed time the duration fits the 50-character column |
| DurationFormat.TimerText | journal/static/journal/js/script.js:233-238 | the display is `HH:MM:SS` with two digits per field |
| DurationFormat.TimerReadBack | journal/static/journal/js/script.js:233-238 | the display reads back to the elapsed whole seconds modulo a day |
| DurationFormat.TimerAtZero | journal/static/journal/js/script.js:370 | the zero display is "00:00:00" |
| JournalEditor.TitleOrDefault | journal/static/journal/js/script.js:267 | the title sent is never empty and is the input when the input is not empty |
| JournalEditor.PayloadBody | journal/static/journal/js/script.js:265-279 | the body the view decodes from `JSON.stringify` carries the id (null when there is none) and title, content and duration as strings |
| JournalEditor.Input | journal/static/journal/js/script.js:223-229 | typing starts the timer at `now` only when it is not running; a running timer is left alone |
| JournalEditor.InputOnce | journal/static/journal/js/script.js:223-229 | a second input event changes nothing: the start time is the first one |
| JournalEditor.Save | journal/static/journal/js/script.js:244-270 | blank editor text sends nothing and only shows the "Empty journal? Write something!" alert; otherwise the timer stops and the payload has the current id, the title or 'Untitled', the HTML and the duration |
| JournalEditor.Preview | journal/static/journal/js/script.js:336-338 | the preview is the first at most 80 characters of the text content, or of the inner text when that is empty |
| JournalEditor.FreshSaveCreates | journal/static/journal/js/script.js:265-284 | a save without a current entry creates a new row on the server |
| JournalEditor.NextSaveUpdates | journal/static/journal/js/script.js:282-284 | after a created save the editor holds the returned id, and its next save targets that same row |
| JournalEditor.OpenThenSave | journal/static/journal/js/script.js:328-334 | saving after opening a listed entry posts that entry's id |
| JournalEditor.ResetStartsOver | journal/static/journal/js/script.js:365-378 | after a reset the timer is stopped and shows zero, the next save has no id and a "0s" duration |
| JournalEditor.Editor.constructor | journal/static/journal/js/script.js:370 | the editor starts empty, timer stopped at "00:00:00", without a current entry, popup, alert or toast |
| JournalEditor.Editor.OnInput | journal/static/journal/js/script.js:223-229 | the timer starts at `now` unless it is already running; nothing else changes |
| JournalEditor.Editor.UpdateTimer | journal/static/journal/js/script.js:231-239 | the display shows the elapsed time; without a start time nothing changes |
| JournalEditor.Editor.OnTitleKey | journal/static/journal/js/script.js:54-58 | Enter on a title that is not blank switches to writing mode |
| JournalEditor.Editor.SaveEntry | journal/static/journal/js/script.js:244-270 | blank text sends nothing and only shows the alert; otherwise only the timer stops, and the payload with the current id, title or 'Untitled', HTML and duration is returned |
| JournalEditor.Editor.SaveSettled | journal/static/journal/js/script.js:282-293 | a successful answer stores the returned id and shows the duration popup; a failure shows the error toast |
| JournalEditor.Editor.OpenEntry | journal/static/journal/js/script.js:328-334 | opening a card loads its id, title and content |
| JournalEditor.Editor.ResetEditor | journal/static/journal/js/script.js:365-378 | back to the title screen with title and content cleared, popup hidden, timer stopped at "00:00:00", start time and current entry cleared |
| LocalJournal.Input | script.js:193-199 | typing starts the timer at `now` only when it is not running |
| LocalJournal.IsoString | script.js:158 | `toISOString()` is 24 characters whose first ten are the day |
| LocalJournal.BackupName | script.js:158 | the backup name has its fixed length |
| LocalJournal.BackupNameDay | script.js:158 | the backup name is `journal_backup_`, the export day (parsing back to the date) and `.json` |
| LocalJournal.BlankSaveRefused | script.js:215-218 | a save changes nothing but the alert exactly when the editor text is blank |
| LocalJournal.SavePrepends | script.js:220-250 | a save stops the timer and puts the new entry in front of the old list, unchanged and in order; the entry has the clock's id, the title or 'Untitled', the HTML, the date and the duration, which the popup shows |
| LocalJournal.PrependNewestFirst | script.js:246-247 | prepending an entry newer than all stored ones keeps the list newest first |
| LocalJournal.SaveKeepsNewestFirst | script.js:239-247 | with a clock later than every stored id, a save keeps the list newest first |
| LocalJournal.ExportGuard | script.js:149-162 | export alerts and produces nothing exactly when the stored list is missing or empty; otherwise the backup holds the stored list |
| LocalJournal.SaveThenExport | script.js:149-248 | after a save there is a backup, and it starts with the entry just saved |
| LocalJournal.ResetStartsOver | script.js:298-312 | a reset stops the timer, forgets its start, shows zero and keeps the entries; a save straight after it records "0s" |
| LocalJournal.LocalPage.constructor | script.js:193 | the page starts with the stored list, timer stopped at "00:00:00" |
| LocalJournal.LocalPage.OnInput | script.js:193-199 | the timer starts at `now` unless it is already running; nothing else changes |
| LocalJournal.LocalPage.UpdateTimer | script.js:201-209 | the display shows the elapsed time; without a start time nothing changes |
| LocalJournal.LocalPage.SaveEntry | script.js:214-252 | blank text only raises the alert; otherwise the timer stops, the new entry goes in front of the stored list and the popup shows its duration |
| LocalJournal.LocalPage.StoreEntry | script.js:246-250 | the entry is put in front of the stored list and the popup shows its duration |
| LocalJournal.LocalPage.ExportEntries | script.js:148-163 | with nothing stored it alerts and returns no backup; otherwise it returns the stored list under the dated backup name and shows the toast |
| LocalJournal.LocalPage.ResetEditor | script.js:298-312 | back to the title screen with title and content cleared, popup hidden, timer stopped at "00:00:00" and its start cleared; the stored entries stay |
| TranslateServer.CharIndex | server.py:16-17 | the position of the first occurrence of a character, or none when it does not occur |
| TranslateServer.Pairs | server.py:17 | `parse_qs` yields at most one pair per `&`-piece |
| TranslateServer.FirstValue | server.py:18-19 | `params.get(key, [d])[0]` yields the first value given for the key, and nothing exactly when the key is absent |
| TranslateServer.FirstValueWins | server.py:18-19 | a later value for a key never overrides the first |
| TranslateServer.PairKept | server.py:17 | a piece `n=v` with a non-blank value adds the pair of its decoded halves, split at the first `=` |
| TranslateServer.TextParameterRead | server.py:16-18 | for `/api/translate?text=v&...` the first `text` value is the decoded `v` |
| TranslateServer.BlankValueDropped | server.py:17 | a piece with a blank value adds no pair, so `target=` leaves the Spanish default |
| TranslateServer.Routing | server.py:13-64 | only paths starting with `/api/translate` are proxied; every other path is served as a static file |
| TranslateServer.EmptyTextNoFetch | server.py:21-24 | empty text answers 400 with no body, whatever the upstream would answer |
| TranslateServer.FetchArguments | server.py:18-61 | the upstream is asked with the first text and target (Spanish by default); an exception answers 500 with its text, otherwise 200 with the joined translation |
| TranslateServer.JoinAgreesWithView | server.py:42-47 | where every truthy segment is a list, text or object, the server's loop computes what the Django view's loop computes |
| TranslateServer.JoinTextSegments | server.py:42-47 | segments whose first element is text join to the in-order concatenation of those texts |
| TranslateServer.NumberSegmentMessages | server.py:46 | a numeric segment fails in both loops, with different error texts |
| TranslateServer.JoinRaisedPrefix | server.py:45-47 | once the loop has raised on a prefix of the segments, the whole loop raises the same exception |
| TranslateServer.JoinLoop | server.py:42-47 | the loop appends `segment[0]` of each non-empty segment in order, or stops at the first exception with its text |
| TranslateServer.JournalHandler.constructor | server.py:10 | nothing has been sent yet |
| TranslateServer.JournalHandler.DoGet | server.py:11-64 | the handler sends, for the path, static serving, a bare 400, a 500 with the error body, or 200 with the JSON headers and the joined translation |
| UriComponent.DecodeEncode | journal/static/admin/js/admin_scripts.js:148 | `decodeURIComponent` reads back what `encodeURIComponent` wrote, for every text |
| UriComponent.EncodeAlphabet | journal/static/admin/js/admin_scripts.js:148 | encoded text uses only unreserved characters and `%` escapes |
| Text.TrimEmpty | journal/static/journal/js/script.js:245 | trimming yields the empty text exactly when every character is whitespace |
| Text.TrimIdempotent | journal/views.py:88 | trimming twice is trimming once |
| Text.SplitConcat | journal/static/admin/js/admin_scripts.js:144 | splitting at a separator peels off the text before it |

## Left out

- Unicode: `str.title()` and whitespace follow ASCII letters plus the listed
  whitespace characters, and `repr()` escapes only ASCII control characters
  (Python also escapes non-printable non-ASCII ones). Python's Unicode
  categories are not modelled; the export takes `str.isalnum` as a parameter.
  JavaScript strings are sequences of code points, not UTF-16 units.
- JSON: numbers are integers, because floats are not modelled. Objects are
  member lists whose first matching key wins, so duplicate keys are not
  modelled. JSON parser error texts are inputs.
- `server.py` percent-decoding is the parameter `unquote`. `urlparse`'s
  stripping of the fragment and of surrounding whitespace is modelled only as
  cutting at `#`.
- Time zones: `isoformat()`, `strftime('%Y-%m-%d')` and `toISOString()` are
  modelled as naive UTC date-times.
- The ORM and the database: the table enforces the declared column lengths,
  which SQLite would not do. NOT NULL is checked before the lengths, and its
  refusal text, "NOT NULL constraint failed: journal_entry.<column>", is
  SQLite's wording; the id and boolean refusal texts are Django's own, raised
  before the database is reached. `Entry.objects` ordering is over the stored
  list. Id reuse and concurrent requests are not modelled.
- Framework gates: `@login_required` (journal/views.py:30, 77), and
  `admin_view`'s staff redirect and `csrf_protect` (journal/admin.py:69), are
  assumed passed. A request without a CSRF token, which Django answers with
  403, is modelled as if it reached the view.
- ZIP compression, buffers and headers other than content type and
  disposition. The archive is its list of member names and bodies.
- Network: the translation fetch, the editor's `fetch` and `loadEntries` are
  parameters or inputs. The card rendering after loading (HTML markup,
  `toLocaleDateString`) is not modelled.
- Timers: `setInterval`, `setTimeout`, `clearInterval` and toast removal are
  not modelled. The timer is a running flag, and the interval tick is a
  method taking `now`. An alert is the last alert shown.
- The translator and grammar handlers of both scripts
  (journal/static/journal/js/script.js:97-194), `updateDateTime` and the
  `execCommand` formatting buttons: they are DOM or network glue.
- `get_profile_picture`, `get_all_data`, `get_profile_link` and
  `entry_count`: these are markup or a database count. `format_html`'s
  `mark_safe` wrapping is modelled only as escaping.
- The dashboard statistics and `get_stats` (journal/admin.py:24-116,
  99-121): they are reporting queries over the database.
- `journal/ai_utils.py`, `journal/forms.py`,
  `journal/management/commands/ensure_admin.py` and the URL tables are not
  part of this model. They are a foreign client, form glue, environment
  setup and routing. journal/urls.py:8 names `views.ai_check_grammar`, which
  journal/views.py does not define.
- The password-reset rate limiter and `SiteConfiguration`'s own definition
  and cache: their definitions are outside the modelled files.
- JournalModels.StoredIp: Django stores a valid IPv6 text in its compressed
  lower-case form (`2001:0DB8::0001` becomes `2001:db8::1`); the model stores
  the text as given, since IPv6 parsing is not modelled.
- JournalAdmin.SocialAccounts: `format_html` still runs `str.format` on the
  joined text, so a `{` or `}` in a provider id would raise or collapse; the
  model joins the parts as they are, since provider ids hold no braces.
- JournalAdmin.ToggleMessage: a `null` flag is refused by the database, whose
  message names the configuration's table; the definition of that table is
  outside the modelled files, so the message is not modelled.
- AdminScripts.UpdateStatCards: values are taken as the text the card
  shows. JavaScript's number-to-text conversion is not modelled.
- AdminScripts.CookieValue: a malformed `%` escape is a `UriError` result.
  In the source it escapes the handler before the request is sent.
- LocalJournal.LocalPage.SaveEntry: `localStorage` is kept as the parsed
  entry list. Text that does not parse, and text written by other code, are
  not modelled, and `JSON.stringify`'s text is compared only as empty or
  not.
- LocalJournal.LocalPage.SaveEntry: like the source, a save does not clear
  `startTime`. Only `resetEditor` does.
- JournalViews.ListEntries: `JsonResponse`'s text encoding (`ensure_ascii`)
  is not modelled. Answers are JSON values.
- JournalEditor.TitleOrDefault: it uses `||` on the input's value, so a
  title of spaces is sent as is, like the source.
- DurationFormat.DurationFitsColumn: it is stated for elapsed times below
  10^41 hours, not for every integer.
