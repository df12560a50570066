# Emoji day planner: a verified model of its rules

The planner is a single browser script, `script.js`. It has three parts:

- a picker that shows emojis from a downloaded catalog, by category or by search term;
- a timeline of hourly timeslots, from 8 AM to 11 PM;
- a deck panel that a button opens and closes, and that a horizontal swipe closes.

An emoji dragged from the picker onto an emoji placeholder of the timeline is placed there. It is also recorded in a recent list of at most 50 glyphs. Holding a filled placeholder long enough empties it.

This project models the rules inside that script and proves properties of them:

- `strings.dfy` (`Strings`): ASCII lower-casing, `includes`, and global replacement of a literal pattern.
- `seqs.dfy` (`Seqs`): `Option`, `Result`, and the order-preserving array filter `Keep`, with its algebra.
- `catalog.dfy` (`Catalog`):
  - category-name normalisation;
  - conversion of the downloaded dataset into catalog records;
  - the category filter and the search filter of `loadEmojis`;
  - what the picker shows.
- `timeline.dfy` (`Timeline`): 12-hour labels, and the nested loop that builds the 16 timeslots of 6 placeholders.
- `planner.dfy` (`Planner`):
  - the recent-list update;
  - a `Planner` class holding the emoji placeholders, the recent list, the drag in progress and the long-press timers, with the mouse and touch handlers that change them.
- `deck.dfy` (`Deck`): a `Deck` class with the toggle click, `closeEmojiDeck`, and the swipe handlers.

Three behaviours of the code that a reader might not expect; the model follows the code:

- A glyph dropped a second time is not moved to the front of the recent list. The list is left as it is (`script.js:144`).
- Keywords are compared as they are against the lower-cased term (`script.js:84`). Only the name is lower-cased, so search is case-insensitive for names only (`Catalog.KeywordsAreCaseSensitive`).
- Searching the "recent" category with a non-empty term does not filter glyphs. Recent entries carry only `char`, so reading `name.toLowerCase()` throws a TypeError (`script.js:83`, `145`). `Catalog.LoadSearchRecent` models this as `Failure(NameMissing)`.

## Model

| member | source | states |
|---|---|---|
| Strings.Lower | script.js:81 | ASCII `toLowerCase` keeps the length; its properties are stated by `LowerIdempotent`, `LowerAppend` and `LowerOfLower` |
| Strings.LowerIdempotent | script.js:81 | lower-casing a lower-cased string changes nothing |
| Strings.Includes | script.js:83-84 | `includes` holds exactly when the term occurs at some position of the string |
| Strings.IncludesFirstChar | script.js:83-84 | a string contains no term whose first character it lacks |
| Strings.ReplaceAll | script.js:38 | `replace(/pat/g, rep)` for a literal pattern, left to right without overlaps; its properties are stated by `ReplaceAllLength`, `ReplaceAllChars`, `ReplaceAllAbsent` and `ReplaceAllSkip` |
| Strings.ReplaceAllLength | script.js:38 | replacement never lengthens the string when the replacement is no longer than the pattern, and keeps the length when the two are equally long |
| Strings.ReplaceAllChars | script.js:38 | global replacement adds no character that is in neither the input nor the replacement |
| Strings.ReplaceAllAbsent | script.js:38 | replacing a pattern whose first character does not occur leaves the string unchanged |
| Strings.ReplaceAllSkip | script.js:38 | replacement skips a prefix that cannot start the pattern, then replaces the occurrence that follows |
| Strings.ReplaceChar | script.js:38 | replacing a single character keeps the length, changes exactly the positions holding that character, and leaves none of it |
| Strings.ReplaceCharIsReplaceAll | script.js:38 | single-character replacement agrees with general global replacement |
| Seqs.Keep | script.js:77 | `filter` keeps exactly the elements that pass, as a subsequence of its input |
| Seqs.KeepAppend | script.js:77 | filtering distributes over concatenation |
| Seqs.KeepCount | script.js:77 | each element that passes keeps every occurrence, and each element that fails keeps none |
| Seqs.KeepKeep | script.js:77-85 | filtering by category and then by search term is one filter by both conditions |
| Catalog.NormalizeCategory | script.js:38 | the category id contains no space; `NormalizeCategoryShape`, `NormalizeIdempotent`, `NormalizeWord`, `NormalizePair` and `NormalizeCategoryTable` state the rest |
| Catalog.NormalizeCategoryShape | script.js:38 | a normalised category id has no space and no upper-case letter |
| Catalog.NormalizeIdempotent | script.js:38 | normalising an id again changes nothing |
| Catalog.NormalizeWord | script.js:38 | a one-word name normalises to its lower-case form |
| Catalog.NormalizePair | script.js:38 | a name "A & B" normalises to "a-b" |
| Catalog.NormalizeCategoryTable | script.js:16-27 | every display name in the category table normalises to that row's id |
| Catalog.ToRecord | script.js:37-40 | an entry converts exactly when it has a skin; the record then carries skin 0's glyph, the entry's name and keywords, and the entry's normalised category, which has no space |
| Catalog.MapRecords | script.js:36-41 | the conversion succeeds exactly when every entry has a skin; it then keeps the length, and record i is entry i converted |
| Catalog.LoadCatalog | script.js:36-47 | an entry without a skin leaves the catalog empty (the error is only logged); otherwise record i holds skin 0, the normalised category, the name and the keywords of entry i |
| Catalog.CatalogIdsHaveNoSpace | script.js:36-41 | no category of a loaded catalog contains a space |
| Catalog.CategoryFilter | script.js:77 | the result holds exactly the catalog records of that category, each occurrence kept, in catalog order |
| Catalog.Matches | script.js:83-84 | the empty term matches every record; a matching term is no longer than the name or some keyword; `MatchesOccurrence` gives both directions of the test |
| Catalog.MatchByName | script.js:83 | a record whose lower-cased name contains the term matches |
| Catalog.MatchesOccurrence | script.js:83-84 | a record matches exactly when the term occurs in its lower-cased name or in one of its keywords as written |
| Catalog.Search | script.js:82-85 | the search fails exactly when a recent entry is among its input; otherwise it keeps the matching records in order |
| Catalog.Candidates | script.js:74-78 | for "recent" the list is the recent glyphs, in order, as glyph-only entries; for any other id it is the category's records from `CategoryFilter`, in catalog order |
| Catalog.Render | script.js:88-101 | the "No emojis found." message exactly when the list is empty; otherwise one glyph per entry, in order |
| Catalog.LoadEmojis | script.js:69-105 | `loadEmojis` fails exactly when a non-empty term is searched in a non-empty "recent" list; `LoadWithoutSearch`, `LoadSearchCategory`, `LoadSearchRecent` and `LoadTermCaseInsensitive` state what it shows |
| Catalog.LoadWithoutSearch | script.js:69-101 | with no term, the picker shows the recent glyphs for "recent" and the category's records otherwise; an empty list shows "No emojis found." |
| Catalog.SearchRecords | script.js:82-85 | a search over catalog records never fails, and keeps the records whose lower-cased name or raw keyword contains the term |
| Catalog.LoadSearchCategory | script.js:69-101 | a search in an ordinary category shows exactly the records of that category that match the lower-cased term, in catalog order |
| Catalog.LoadSearchRecent | script.js:74-85 | a search in "recent" throws when the list has an entry, and shows "No emojis found." when it is empty |
| Catalog.LoadTermCaseInsensitive | script.js:81 | the search term's letter case does not change the result |
| Catalog.SearchSingleRecord | script.js:80-101 | one record, searched in its own category, is shown exactly when it matches the lower-cased term |
| Catalog.MatchByKeyword | script.js:84 | a record matches any term that one of its keywords contains |
| Catalog.NoMatchWithoutFirstChar | script.js:83-84 | a record does not match a term whose first character is in neither its lower-cased name nor any keyword |
| Catalog.GrinningFaceFound | script.js:80-101 | "grinning face" with keywords happy and smile is shown for "smile" |
| Catalog.GrinningFaceNotFound | script.js:80-101 | the same record gives "No emojis found." for "zzz" |
| Catalog.KeywordsAreCaseSensitive | script.js:84 | the keyword "Smile" is not found by the term "Smile", because the term is lower-cased and the keyword is not |
| Timeline.Hour12 | script.js:197 | for hours 1-24 the 12-hour value is in 1..12, and equals the hour or the hour minus 12 |
| Timeline.Meridiem | script.js:198 | the label says PM exactly from noon on, and AM before |
| Timeline.Decimal | script.js:199 | a number renders as a non-empty string of digits |
| Timeline.ParseDecimalOfDecimal | script.js:199 | the rendered digits read back as the number |
| Timeline.TimeLabel | script.js:197-199 | a heading has at least 7 characters; `TimeLabelShape` and `TimeLabelRoundTrip` state the rest |
| Timeline.TimeLabelShape | script.js:197-199 | a heading is the 12-hour value's digits, then ":00 ", then PM exactly from noon on and AM before |
| Timeline.TimeLabelRoundTrip | script.js:197-199 | every timeslot label for hours 8 to 23 reads back as its own hour |
| Timeline.TimeLabelsDistinct | script.js:196-205 | no two timeslots share a heading |
| Timeline.TimeLabelExamples | script.js:197-199 | the headings of hours 8, 12 and 23 are "8:00 AM", "12:00 PM" and "11:00 PM" |
| Timeline.BuildPlaceholders | script.js:213-227 | the inner loop builds 6 placeholders, positions 0-3 for emojis and 4-5 for notes |
| Timeline.BuildTimeline | script.js:196-231 | the loop builds 16 timeslots; slot k is headed by the label of hour 8+k and has 6 placeholders, of which positions 0-3 are emoji placeholders and 4-5 note placeholders |
| Planner.Remember | script.js:144-147 | the glyph ends up in the list. A present glyph leaves the list unchanged. A new glyph goes in front of the old entries in order, and the oldest is dropped past 50. The cap of 50 and distinctness are preserved |
| Planner.RememberTwice | script.js:144-147 | recording the same glyph twice is recording it once |
| Planner.NewestAppend | script.js:145-146 | recording a new glyph in front of the newest earlier drops gives the newest drops including it |
| Planner.ReplayDistinct | script.js:144-147 | after distinct drops on an empty list, the list holds the last 50 of them, most recent first |
| Planner.OldestEvicted | script.js:145-146 | after 51 distinct drops, the first is gone, the last is in front, and 50 remain |
| Planner.SlotIndex | script.js:213-217 | every valid emoji placeholder has an index below 64 |
| Planner.SlotIndexInjective | script.js:213-217 | different emoji placeholders have different indices |
| Planner.Planner.constructor | script.js:12-13 | on page load every emoji placeholder is empty, the recent list is empty, and no drag or timer is pending |
| Planner.Planner.Grab | script.js:112-133 | a mousedown on a picker glyph starts a drag of that glyph |
| Planner.Planner.Drop | script.js:135-153 | on an emoji placeholder, exactly that placeholder now holds the dragged glyph and the recent list is updated by `Remember`; on any other target, nothing but the drag changes; the drag ends on both paths |
| Planner.Planner.Press | script.js:245-251 | pressing a filled placeholder schedules one timeout that clears it and stores its handle in the placeholder's timer; pressing an empty one changes nothing |
| Planner.Planner.Release | script.js:253-255 | releasing cancels the timeout whose handle the placeholder's timer holds, and nothing else |
| Planner.Planner.Fire | script.js:247-249 | a pending timeout empties its placeholder and is no longer pending; a cancelled or unknown one changes nothing |
| Planner.DropOnEmptyPlanner | script.js:135-148 | a glyph dropped on the first emoji placeholder of a fresh page is placed there and becomes the only recent glyph |
| Planner.DropOnNote | script.js:137-138 | a drop on a note placeholder changes no emoji placeholder, records nothing, and ends the drag |
| Planner.LongPress | script.js:243-267 | holding a filled placeholder until the timeout fires empties it; releasing first keeps the glyph |
| Planner.PressEmpty | script.js:245-251 | pressing an empty placeholder schedules nothing |
| Deck.ToggleClass | script.js:162-163 | `classList.toggle` flips membership of its class and leaves every other class as it is |
| Deck.Toggled | script.js:162-163 | a click flips both `open` and `closed` and keeps every other class |
| Deck.Closed | script.js:188-190 | `closeEmojiDeck` leaves no `open` class, adds `closed` to an open deck, leaves a deck that is not open unchanged, and keeps every other class |
| Deck.Swipe | script.js:182 | a touch is a swipe exactly when a start was recorded and the horizontal travel exceeds 50 pixels in either direction |
| Deck.ToggleFlips | script.js:161-171 | a click keeps the invariant that exactly one of `open` and `closed` is set, and reverses which one it is |
| Deck.ToggleTwice | script.js:162-163 | two clicks restore the class list |
| Deck.CloseCloses | script.js:187-193 | closing keeps the invariant that exactly one of `open` and `closed` is set, and a deck with that invariant ends up `closed` |
| Deck.CloseIdempotent | script.js:187-193 | closing twice is closing once |
| Deck.Deck.constructor | script.js:174 | the deck starts with its markup's classes and button text, and no touch recorded |
| Deck.Deck.Toggle | script.js:161-171 | a click toggles `open` and then `closed`, and the button text names the action the next click performs |
| Deck.Deck.Close | script.js:187-193 | only an open deck is changed: it becomes closed and the button reads "Open Emoji Deck" |
| Deck.Deck.TouchStart | script.js:176-178 | a touchstart records where the touch began and changes nothing else |
| Deck.Deck.TouchEnd | script.js:180-185 | a swipe from the recorded start closes the deck, and any other touchend changes nothing; the recorded start is kept |
| Deck.OpenThenSwipe | script.js:161-193 | a closed deck is opened by a click and closed again by a 60-pixel swipe |
| Deck.ShortDrag | script.js:180-185 | a travel of exactly 50 pixels leaves an open deck open |

## Left out

- The download of the dataset, and JSON parsing (script.js:33-35). `LoadCatalog` takes the dataset entries as a parameter.
- The dataset entries are given in the order `Object.values(data.emojis)` enumerates them, which puts integer-like keys first in ascending order and then the other keys in insertion order. Every "catalog order" in this model is that order.
- The dataset's `keywords` field is taken to be present. An entry without keywords is modelled with an empty keyword list, which the search treats the same way (`emoji.keywords &&` at script.js:84).
- DOM construction, `innerHTML`, `classList` other than the deck's, and listener wiring are not modelled. Only the state they encode is kept.
- The position of the floating proxy on mousemove (script.js:117-131) is purely visual. It is not modelled.
- `document.elementFromPoint` (script.js:137) is a browser call. Its answer is the `Target` parameter of `Drop`.
- Planner.Planner.Grab: overlapping drags are excluded by its precondition. In the browser, a second mousedown during a drag would attach a second set of listeners.
- Real `setTimeout`/`clearTimeout` timing and the 800 ms delay are not modelled. A timeout is a handle that is pending until `Fire` or `Release`.
- A second press without a release overwrites the placeholder's `timer`. The earlier timeout stays pending and can no longer be cancelled. The model keeps this behaviour but proves nothing further about it.
- Strings.Lower: only ASCII letters are lower-cased, not the full Unicode `toLowerCase`.
- Trimming of the search box (script.js:286): `LoadEmojis` receives the term already trimmed.
- The click handler of the category selector (script.js:50-66) is not modelled separately. Besides highlighting, it clears the term and calls `loadEmojis`, which `LoadWithoutSearch` covers.
- The active-label highlighting (script.js:58-61, 277-282) and the global error handler (script.js:291-293) are not modelled.
- After the TypeError of a search in "recent", the picker is left empty. The model returns the error instead of a view.
- The deck's initial classes and button text come from the page's markup, which is not part of this model. `Deck.Deck.constructor` takes them as parameters.
- Touch coordinates are modelled as exact reals, not as floating-point numbers.
