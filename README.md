# Hackathon Swiper: event discovery and the registration form, modelled in Dafny

The application shows the event catalog as a stack of cards. The user swipes the top card right to
save it, or clicks the save button, or presses the right arrow key. Swiping left (or the reject
button, or the left arrow key) skips it. Saved events go on a shortlist, and every save or removal
is written to an activity log. The profile view derives three things from the shortlist: its tags,
how often each tag occurs, and the saved events grouped by tag. A separate page holds a hackathon
registration form with client-side validation.

The project has five modules:

- `Seqs` (seqs.dfy): JavaScript's `filter` and a few sequence notions (subsequence, reversal,
  repetition, occurrence counts).
- `JsStrings` (js_strings.dfy): the JavaScript string operations the code relies on. These are
  `trim` and the `\s` class, `replace(/\s/g, '')`, `toLowerCase`, `includes`, the `<` order on
  strings, and `Array.from(set).sort()`.
- `Catalog` (catalog.dfy): the event record, the shipped catalog `mockEvents`, and the catalog
  queries of js/data.js.
- `EventManagement` (events.dfy) covers js/events.js:
  - the `EventManager` class, holding the shortlist, the activity log (newest first, at most 20
    records) and the catalog cursor;
  - a `Card` class for the drag gesture each card carries;
  - the loops that build the tag views;
  - the bucketing of activity times.
- `FormValidation` (form.dfy) covers form.js:
  - the required, email and phone rules of `validateField`;
  - the `validateForm` pass with its date rule;
  - the start-date handler that clears an earlier end date;
  - the description counter.

The state-changing parts are imperative Dafny:
- the manager and the card are classes whose methods change their fields;
- the `forEach` loops are `for` loops with invariants.

Each method is proved against a pure function: `Added`, `Without`, `PushActivity`, `Advance`,
`TagCount`, `TagGroup`, `Positions`, `ClearedEnd`. The properties the application relies on are
proved about those functions. They include:
- the ids on the shortlist stay distinct;
- the log keeps the newest 20 records;
- the cursor cycles through the catalog;
- tags come out sorted and unique;
- counts and groups agree;
- the hand-written string tests accept exactly what the regular expressions match.

Things that come from outside the code are parameters:
- The clock is the integer `now` (milliseconds). It serves as both the activity id and the
  timestamp.
- Date parsing in the form is the parameter `instant`, which returns `None` for an invalid date.
- `setTimeout(() => this.nextCard(), 500)` is the counter `pendingAdvances`. `FireTimer` runs one
  scheduled advance.

## Model

| member | source | states |
|---|---|---|
| `Catalog.GetEventById` | js/data.js:157-159 | the result is present exactly when some entry has the id; it is then the first such entry |
| `Catalog.GetEventByIdFindsTheEntry` | js/data.js:157-159 | in a catalog with distinct ids, looking up the id of entry k returns entry k |
| `Catalog.MockEventsIdsDistinct` | js/data.js:5-150 | the twelve shipped events have distinct ids |
| `Catalog.GetEventsByCategory` | js/data.js:161-163 | the result is a subsequence of the catalog and holds exactly the entries of that category |
| `Catalog.GetEventsByTag` | js/data.js:165-167 | the result is a subsequence of the catalog and holds exactly the entries whose tags include the tag |
| `Catalog.TagsOfMembers` | js/data.js:169-175 | a string is in the tag union exactly when some entry's tag list contains it |
| `Catalog.GetAllTags` | js/data.js:169-175 | the result is strictly ascending, hence duplicate-free, and holds exactly the tags of the catalog |
| `Catalog.SearchEvents` | js/data.js:177-186 | the result is a subsequence of the catalog and holds exactly the entries matching the lower-cased query in title, description, location, category or a tag |
| `Catalog.MatchesQueryIsSubstring` | js/data.js:179-185 | an entry matches exactly when the folded query occurs at some offset of a folded field or tag |
| `Catalog.SearchEmptyQuery` | js/data.js:177-186 | the empty query returns the whole catalog, in order |
| `Catalog.SearchIgnoresQueryCase` | js/data.js:178 | searching for the lower-cased query gives the same result as the query itself |
| `JsStrings.Trim` | form.js:67 | the result sits in the input with only white space around it, is empty exactly for all-white-space input, and otherwise starts and ends with a non-space |
| `JsStrings.TrimIdempotent` | form.js:67 | trimming a trimmed value changes nothing |
| `JsStrings.RemoveWhitespace` | form.js:88 | the result is the input filtered to its non-white-space characters, so their order and repeats are kept and no white space remains |
| `JsStrings.RemoveWhitespaceConcat` | form.js:88 | removing white space distributes over concatenation |
| `JsStrings.RemoveWhitespaceBetween` | form.js:88 | white space between two pieces disappears with the rest |
| `JsStrings.LowerIdempotent` | js/data.js:178-185 | folding case twice is folding it once and keeps the length |
| `JsStrings.IncludesIsSubstring` | js/data.js:180-185 | `includes` holds exactly when the needle occurs at some offset; the empty needle is always included |
| `JsStrings.LessIrreflexive` | js/data.js:174 | no string sorts before itself |
| `JsStrings.LessTransitive` | js/data.js:174 | the string order is transitive |
| `JsStrings.LessTotal` | form.js:18 | of two different strings exactly one sorts first |
| `JsStrings.StrictlySortedHasNoDuplicates` | js/data.js:174 | a strictly ascending sequence has no repeated string |
| `JsStrings.InsertSorted` | js/data.js:174 | inserting into a strictly ascending sequence keeps it strictly ascending and adds exactly the new string |
| `JsStrings.SortedIsUnique` | js/data.js:174 | two strictly ascending sequences with the same strings are equal, so the sorted tag list is determined by the tag set |
| `JsStrings.SortedFromSet` | js/data.js:174 | `Array.from(set).sort()` is strictly ascending and holds exactly the set's strings |
| `EventManagement.PushActivity` | js/events.js:364-370 | after `unshift` and the cut, the new record is at index 0, the length is min(old + 1, 20), and the rest is the old log's first 19 or fewer records in order |
| `EventManagement.LogAfterKeepsNewest` | js/events.js:355-373 | after any series of records the log is the newest 20 of them and of the old log, newest first |
| `EventManagement.AddedSpec` | js/events.js:205-213 | after an add the id is present, no id is lost, distinct ids stay distinct, and the old shortlist is a subsequence of the new |
| `EventManagement.AddedAllSpec` | js/events.js:205-213 | after any series of adds the ids are still distinct, every added id is present and no earlier id is lost |
| `EventManagement.AddedTwice` | js/events.js:206 | adding an event a second time changes nothing |
| `EventManagement.WithoutSpec` | js/events.js:216-227 | a remove keeps exactly the entries with another id, as a subsequence in their order; the id is gone; an absent id leaves the shortlist as it was; distinct ids stay distinct |
| `EventManagement.RemoveThenAdd` | js/events.js:205-227 | removing an event and adding it again puts it back once, at the end |
| `EventManagement.FilterKeepsIdsDistinct` | js/events.js:222 | filtering a shortlist with distinct ids leaves the ids distinct |
| `EventManagement.TagViewsAgree` | js/events.js:330-352 | a tag's count is positive exactly when some shortlisted event carries it; its group is as long as its count and holds exactly the events carrying it |
| `EventManagement.TagGroupIsCatalogQuery` | js/events.js:341-352 | when no event lists the tag twice, its group is `getEventsByTag`'s filter applied to the shortlist, in shortlist order |
| `EventManagement.AdvanceCycles` | js/events.js:174-181 | k advances from position i of a catalog of n events land on (i + k) mod n |
| `EventManagement.CardsShown` | js/events.js:156 | at most three cards are shown, and they are the catalog entries from the cursor on |
| `EventManagement.EventManager.constructor` | js/events.js:5-10 | the cursor starts at 0 and the shortlist, the log and the scheduled advances start empty |
| `EventManagement.EventManager.AddUserActivity` | js/events.js:355-373 | the log becomes `PushActivity` of the old log and the new record, and stays at most 20 long |
| `EventManagement.EventManager.AddToShortlist` | js/events.js:205-213 | the shortlist becomes `Added`: an event whose id is absent is appended and logged as saved; an id already present changes neither the shortlist nor the log |
| `EventManagement.EventManager.RemoveFromShortlist` | js/events.js:216-227 | the shortlist becomes `Without`; a removed record (of the first entry with the id) is logged exactly when the id was present |
| `EventManagement.EventManager.SetShortlist` | js/events.js:301-305 | the shortlist becomes the given one, or empty when none is given |
| `EventManagement.EventManager.ClearShortlist` | js/events.js:308-313 | the shortlist becomes empty and the cursor 0 |
| `EventManagement.EventManager.NextCard` | js/events.js:174-181 | the cursor moves one forward and wraps to 0 at the end, so it stays inside a non-empty catalog; the stack is rebuilt from the new cursor, as `LoadEventCards` builds it |
| `EventManagement.EventManager.FireTimer` | js/events.js:125 | one scheduled `nextCard` runs: one advance fewer is pending, the cursor has advanced and the stack is rebuilt from it |
| `EventManagement.EventManager.LoadEventCards` | js/events.js:150-171 | one fresh idle card per entry of the slice of up to three from the cursor, in catalog order, the top card at stack index 0 |
| `EventManagement.EventManager.RejectEvent` | js/events.js:184-190 | only a present, unswiped top card is marked swiped left and schedules an advance; otherwise nothing changes |
| `EventManagement.EventManager.SaveEvent` | js/events.js:193-202 | only a present, unswiped top card adds the event under the cursor, is marked swiped right and schedules an advance; otherwise nothing changes |
| `EventManagement.EventManager.GetUserUniqueTags` | js/events.js:321-327 | the result is strictly ascending and holds exactly the tags of the shortlisted events |
| `EventManagement.EventManager.GetUserTagStats` | js/events.js:330-338 | the keys are exactly the shortlist's tags, each mapped to its number of occurrences over all tag lists |
| `EventManagement.EventManager.GetEventsByTag` | js/events.js:341-352 | the keys are exactly the shortlist's tags, each mapped to the events carrying it in shortlist order, once per occurrence |
| `EventManagement.CountTags` | js/events.js:333-335 | adds one event's tags to the running counts: new keys for its tags, each count raised by its occurrences |
| `EventManagement.GroupByTags` | js/events.js:344-349 | appends one event to the group of each of its tags, once per occurrence, creating missing groups |
| `EventManagement.Card.constructor` | js/events.js:88-93 | a new card is not dragging, has both offsets 0 and is not swiped |
| `EventManagement.Card.HandleStartAsWritten` | js/events.js:95-101 | a press on any card but the top one does nothing; on the top one it starts a drag at the press and keeps the old `currentX` |
| `EventManagement.Card.HandleStart` | js/events.js:95-101 | as above, and a swiped card (see Findings) takes no new drag; a swiped card that is not dragging stays so |
| `EventManagement.Card.HandleMove` | js/events.js:103-110 | without a drag nothing changes; during one `currentX` becomes the offset from the press |
| `EventManagement.Card.HandleEndAsWritten` | js/events.js:112-130 | the drag ends; past +100 the event is added (as `AddToShortlist`), the card is marked right and an advance is scheduled; past -100 it is marked left and an advance is scheduled with the shortlist untouched; within ±100 nothing else changes; without a drag nothing changes; an earlier mark does not stop any of this |
| `EventManagement.Card.HandleEnd` | js/events.js:112-130 | as above for an unswiped card; a card already swiped (by a release, the save control or the reject control, see Findings) only ends its drag, with the manager unchanged |
| `EventManagement.Replay` | js/events.js:132-146 | for any series of presses, moves, releases and save or reject controls (wired at js/events.js:19-44) reaching the top card, it schedules exactly one advance if the card becomes swiped and none otherwise, changes the shortlist at most by adding its own event, and once swiped changes nothing |
| `EventManagement.RetouchAfterSwipeAsWritten` | js/events.js:95-130 | swipe right, then press and release again before the timer: two advances are scheduled, the second entry is on top only between the two timers, and the cursor ends on the third entry |
| `EventManagement.RunTwoTimers` | js/events.js:174-181 | two scheduled advances from the first entry: the second entry tops the stack between them, the cursor is on the third after them |
| `EventManagement.SaveDuringDragAsWritten` | js/events.js:112-125 | the save control (`saveEvent`, js/events.js:193-202) during a drag past +100, then the release: two advances are scheduled, the first entry shortlisted once |
| `EventManagement.RetouchAfterSwipe` | js/events.js:95-130 | the retouch inputs with the guarded handlers: one advance, the cursor on the second entry, the first entry shortlisted once |
| `EventManagement.SaveDuringDrag` | js/events.js:112-125 | the save control during a drag, then the guarded release: one advance, the first entry shortlisted once |
| `EventManagement.RejectThenSave` | js/events.js:174-202 | reject, let the timer fire, then save: the save acts on the rebuilt top card and shortlists the second entry |
| `EventManagement.MinutesBetween` | js/events.js:526 | `Math.floor` of the millisecond difference over 60000, bounded on both sides |
| `EventManagement.FormatActivityTime` | js/events.js:523-532 | "Just now" below one minute, minutes below 60, hours below 1440, days otherwise, each with the floored count of its unit |
| `EventManagement.Unit` | js/events.js:529-531 | the unit word is plural exactly when the count is above one |
| `EventManagement.FormatActivityTimeMonotone` | js/events.js:523-532 | an older activity never reads as more recent than a newer one |
| `FormValidation.EmailAgrees` | form.js:77-83 | the scan accepts exactly the strings `^[^\s@]+@[^\s@]+\.[^\s@]+$` matches |
| `FormValidation.PhoneAgrees` | form.js:86-92 | the digit test accepts exactly the strings `^[\+]?[1-9][\d]{0,15}$` matches |
| `FormValidation.ValidateField` | form.js:66-95 | a required blank field fails as required, before any other rule; a non-blank email field fails exactly when its trimmed value does not match the email pattern; a non-blank telephone field fails exactly when its trimmed value without white space does not match the phone pattern; a blank optional field passes |
| `FormValidation.PhoneIgnoresSpaces` | form.js:86-92 | a telephone field whose stripped value matches the phone pattern is accepted, required or not |
| `FormValidation.PaddingIgnored` | form.js:67 | replacing a value by its trimmed value never changes the verdict |
| `FormValidation.PhoneIgnoresInnerSpace` | form.js:88 | white space inside a telephone number does not change the verdict |
| `FormValidation.ValidateForm` | form.js:45-64 | every required field is checked; the failures reported are exactly the failing required fields, in form order; the form is valid exactly when none fails and the end date is not at or before the start date |
| `FormValidation.ClearedEnd` | form.js:14-22 | the end value is kept or cleared; it is cleared exactly when both are non-empty and it sorts before the start; a kept end never sorts before a non-empty start |
| `FormValidation.ClearedEndNotBefore` | form.js:14-22 | after the handler a remaining end value equals or sorts after the start value |
| `FormValidation.DateInputs.constructor` | form.js:3-4 | the inputs hold the given values |
| `FormValidation.DateInputs.OnStartDateChange` | form.js:14-22 | an empty start changes nothing; otherwise the end's minimum becomes the start and the end value becomes `ClearedEnd` |
| `FormValidation.Utf16Length` | form.js:199 | `length` counts one or two code units per character, exactly one each when all lie in the Basic Multilingual Plane |
| `FormValidation.UpdateCounter` | form.js:198-202 | the remaining count is 500 minus the length; the warning colour is shown exactly when fewer than 50 remain; a description of at most 225 characters never warns |

## Left out

- Rendering: card markup (`createEventCard`), the shortlist and profile views, counters and
  notifications, `showFieldError`/`clearFieldError`. These only present state.
- Storage: `localStorage` and JSON. The shortlist and the activity log are neither saved nor
  loaded; `SetShortlist` takes the loaded value as a parameter.
- `EventManager.Valid` assumes that a log loaded from storage holds at most 20 records. The source's
  `loadUserActivity` (js/events.js:384-393) trusts the stored text, with no error handling.
- The clock: `Date.now()` and `new Date().toISOString()` are the integer `now`. The ISO text of the
  timestamp is not modelled; `FormatActivityTime` takes milliseconds.
- `formatDate` (js/data.js) uses locale formatting and is not modelled.
- The form's `new Date(...)` parsing is the parameter `instant`. The start input's `min` of today
  (form.js:9-11) reads the clock and is not modelled.
- Drag feedback: the vertical offsets, the rotation and the opacity have no logical effect and are
  not modelled.
- `setTimeout` is modelled only as a count of scheduled advances. Whether the timer fires before or
  after further input is up to the caller of `FireTimer`.
- Keyboard and button wiring (js/events.js:19-44): the arrow keys and buttons reach `RejectEvent`
  and `SaveEvent`. The test that a user is logged in and the discover view is visible is not
  modelled. js/auth.js, js/app.js and js/ui.js are not part of this model.
- `submitForm`'s fake submission and the form's `blur`/`input` listeners are not modelled.
- `Lower`: folds only ASCII letters, not full Unicode `toLowerCase`.
- `Less`: compares code points, while JavaScript compares UTF-16 code units. The two agree on the
  Basic Multilingual Plane, which covers the catalog's tags and the date strings.
- `GetEventsByTag` and `GetUserTagStats`: keys are plain strings. JavaScript object quirks (a tag
  named `__proto__`) and key order are not modelled.
- `TagGroupIsCatalogQuery`: requires that no event lists the tag twice. With a repeated tag, the
  source's groups hold the event once per occurrence, which `TagGroup` describes.
- `SaveEvent`: requires a non-empty catalog when a top card exists. The source would read
  `events[0]` of an empty catalog as `undefined`, but `loadEventCards` shows no card then.
- `RetouchAfterSwipeAsWritten`: the stylesheet is not part of this model. A style that stops
  mouse and touch input on a swiped card would hide the retouch half of the finding below, not the save
  control during a drag (`SaveDuringDragAsWritten`).
- `Replay`: covers the top card only (its event is the one under the cursor). The other cards of
  the stack take no press, and the controls act on the top card.

## Findings

| source | as written | input that shows it | evidently intended | confidence | as-written member | corrected member |
|---|---|---|---|---|---|---|
| js/events.js:95-130 | neither `handleStart` nor `handleEnd` checks the `swiped-left`/`swiped-right` mark that `rejectEvent` and `saveEvent` check (js/events.js:186, 195); `handleStart` keeps the previous `currentX`, and a save or reject during a drag leaves the drag running | drag the top card +150 and release, then press and release it again within the 500 ms before `nextCard` runs; or drag it +150, press the right arrow key, then release | a swiped card is decided once, so one swipe schedules exactly one advance; as written the later release re-applies the offset and schedules a second `nextCard`, so the second event is on top only until the second timer fires | low, not executed | `EventManagement.RetouchAfterSwipeAsWritten`, with `EventManagement.Card.HandleEndAsWritten`; also `EventManagement.SaveDuringDragAsWritten` | `EventManagement.Card.HandleEnd` with `EventManagement.Card.HandleStart`, used by `EventManagement.Replay`, `EventManagement.RetouchAfterSwipe` and `EventManagement.SaveDuringDrag` |
