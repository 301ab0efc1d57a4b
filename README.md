# Self-guided campus tour: a Dafny model of its core

The tour is a small progressive web app. It loads one JSON document of tours and
their stops, sorts and filters the stops of the active tour, and shows them as
cards, each with a map link. A visitor can mark stops visited, reset that
mark, switch tours and switch between a light and a dark theme. The visited
set, the chosen tour and the theme survive a reload through the origin's
key/value storage.

This project models the logic of `app.js` behind that behaviour and proves
what it promises:

- `Values`: optional JSON fields and the `||` / `??` defaults the code relies on.
- `Text`: `String.prototype.trim` and `toLowerCase` (ASCII letters), `normalize`, `includes`.
- `Uri`: `encodeURIComponent` over UTF-8 and its inverse. It escapes every character
  except the alphanumerics and the "mark" characters of RFC 2396 section 2.3.
  Each escaped character becomes its UTF-8 octets written as `%XY` (RFC 2396
  section 2.4.1).
- `Tours`: stops, tours, the two dataset shapes (`getToursFromData`), the active-tour
  rule (`tours.find(...) || tours[0]`), the header and the route link.
- `Navigation`: `buildStopNavUrl`. A trimmed override wins; otherwise a coordinate
  query; otherwise an encoded text query.
- `Storage`: the storage as a map from keys to stored values. `Visited`: the
  visited set as an insertion-ordered sequence without duplicates, with
  `loadVisitedSet`/`saveVisitedSet`.
- `StopList`: `renderStops`. It applies a stable sort on `order ?? 999`, the
  "hide visited" filter and the search filter, then produces the "No stops
  found" placeholder or one card per stop.
- `Theme`: the theme applied at start-up and the toggle's next-state rule.
- `App`: the class `TourApp`. Its fields are the state `main` keeps: storage,
  theme, visited set, tours, active tour, header, route link, grid and status
  text. Its methods are the start-up sequence and the event handlers.

The page's widget state (the search text and the "hide visited" switch) is
passed to every handler that re-renders. The fetched dataset is an input
(`None` when the fetch or the JSON parse fails), and so is the system colour
scheme.

## Model

| member | source | states |
|---|---|---|
| Values.Truthy | app.js:225 | JavaScript truthiness of a string field: present and not empty; it decides the no-op of `ToggleVisited` and every default in `OrElse` |
| Values.JoinText | app.js:170 | what `join` writes for one element: the text, or nothing for a missing one; used by `Haystack` |
| Values.OrElse | app.js:214-216 | the `or` default gives the value when it is a non-empty string and the fallback otherwise; an empty result needs an empty fallback |
| Values.Nullish | app.js:163 | `o ?? fallback` replaces only a missing value, so a present 0 is kept |
| Text.IsSpace | app.js:75 | the characters `trim` removes, ECMAScript WhiteSpace and LineTerminator; its role is fixed by `TrimShape` and `LowerKeepsSpace` |
| Text.LeadingSpace | app.js:75 | the count of leading white space never exceeds the length |
| Text.TrailingSpace | app.js:75 | the count of trailing white space never exceeds the length |
| Text.LeadingSpaceShape | app.js:75 | the leading run is all white space and the character after it is not white space |
| Text.TrailingSpaceShape | app.js:75 | the trailing run is all white space and the character before it is not white space |
| Text.TrimShape | app.js:75 | `trim` cuts the string into white space, the result and white space, and the result neither starts nor ends with white space |
| Text.TrimPieces | app.js:75 | cutting `i` characters from the front and `k` from the back leaves the middle piece of the string, followed by the cut tail |
| Text.TrimmedIsFixed | app.js:75 | a string without white space at either end is its own trim |
| Text.TrimIdempotent | app.js:75 | trimming twice equals trimming once |
| Text.LowerChar | app.js:75 | an upper-case ASCII letter becomes its lower-case letter (32 code points on), and every other character is kept |
| Text.LowerKeepsSpace | app.js:75 | lower-casing never creates or removes white space |
| Text.ToLower | app.js:75 | same length, each character lower-cased in place |
| Text.Trim | app.js:75 | `String.prototype.trim`; what it does is the contract of `TrimShape` |
| Text.Normalize | app.js:74-76 | `normalize`: `ToLower(Trim(s))`; `TrimShape` fixes the trim and `ToLower`'s ensures fix the lower-casing; `NormalizeSound` adds that the result has no upper-case ASCII letter or edge white space and is a fixed point |
| Text.NormalizeSound | app.js:74-76 | a normalized string has no upper-case ASCII letter and no white space at either end, and normalizing it again changes nothing |
| Text.Contains | app.js:171 | `hay.includes(q)` holds exactly when `q` occurs at some position of `hay` |
| Uri.IsUnreserved | app.js:93 | the characters `encodeURIComponent` leaves as they are: letters, digits and the RFC 2396 marks; used by `EncodeUnreservedOnly` and `OctetEncodingIsSafe` |
| Uri.Utf8Char | app.js:93 | the UTF-8 octets of one character; its shape is `Utf8CharShape` and its read-back is `ScalarValueOfChar` and `DecodeScalarOfChar` |
| Uri.Continuations | app.js:93 | the `n` low six-bit groups become `n` UTF-8 continuation octets |
| Uri.Utf8CharShape | app.js:93 | a character encodes to 1–4 octets, the lead octet announces the length, ASCII encodes to itself alone, and a multi-octet form has no ASCII octet |
| Uri.ScalarValueOfChar | app.js:93 | reading the UTF-8 octets of a character gives back its code point |
| Uri.ScalarValueOfTwo | app.js:93 | the two-octet form of a code point in U+0080..U+07FF reads back as that code point |
| Uri.ScalarValueOfThree | app.js:93 | the three-octet form of a code point in U+0800..U+FFFF reads back as that code point |
| Uri.ScalarValueOfFour | app.js:93 | the four-octet form of a code point in U+10000..U+10FFFF reads back as that code point |
| Uri.DecodeScalarOfChar | app.js:93 | the checked decoder (no overlong forms, surrogates or values above U+10FFFF) accepts the encoding of every character and returns it |
| Uri.Utf8RoundTrip | app.js:93 | UTF-8 decoding undoes UTF-8 encoding for every string |
| Uri.HexDigit | app.js:93 | escapes use upper-case hexadecimal digits |
| Uri.HexValueOfDigit | app.js:93 | reading a written hexadecimal digit gives back its value |
| Uri.Escape | app.js:93 | an octet escapes to `%` and two upper-case hexadecimal digits |
| Uri.EncodeComponent | app.js:93 | `encodeURIComponent`; its meaning is the contracts of `EncodeComponentIsOctetEncoding`, `ComponentRoundTrip` and `ComponentIsSafe` |
| Uri.EncodeComponentAppend | app.js:93 | `encodeURIComponent` distributes over concatenation |
| Uri.EncodeUnreservedOnly | app.js:93 | a string of unreserved characters encodes to itself |
| Uri.EncodeSpace | app.js:93 | a space encodes to `%20` |
| Uri.EncodeOctetsAppend | app.js:93 | the octet encoding distributes over concatenation |
| Uri.EscapeAllHigh | app.js:93 | octets of 0x80 and above are all escaped |
| Uri.EncodeComponentIsOctetEncoding | app.js:93 | the character-by-character encoder equals the octet encoding of the string's UTF-8 |
| Uri.OctetRoundTrip | app.js:93 | percent-decoding undoes the octet encoding |
| Uri.ComponentRoundTrip | app.js:93 | `decodeURIComponent(encodeURIComponent(s))` is `s` for every string |
| Uri.OctetEncodingIsSafe | app.js:93 | every character of the octet encoding is unreserved, `%` or an upper-case hexadecimal digit |
| Uri.ComponentIsSafe | app.js:93 | an encoded component holds no `&`, `#`, `=`, `?`, `/`, space or `+`, so it cannot end or split the query parameter |
| Tours.LegacyTour | app.js:270-280 | the flat shape becomes one tour with id `"default"`, the same stops, the name `tourSubtitle` when non-empty else `"Campus Tour"`, and the description and route link of the dataset when non-empty, else empty text |
| Tours.HasTourList | app.js:268 | `Array.isArray(data.tours) && data.tours.length`: the multi-tour shape is used; it splits the cases of `GetTours` |
| Tours.GetTours | app.js:267-282 | a non-empty `tours` array is returned as it is; otherwise a `stops` array gives exactly the legacy tour; the result is empty exactly when neither applies |
| Tours.StopsOf | app.js:163 | the tour's stops, or the empty list when `stops` is missing; used by `SortByOrderCorrect` and `VisibleStopsCorrect` |
| Tours.Matches | app.js:315 | the `find` test `t.id === savedTourId`, false when nothing is saved; used by `FindTour` and `ActiveIndex` |
| Tours.FindTour | app.js:315 | `find` returns the first tour whose id equals the saved id, and none when no tour matches |
| Tours.ActiveIndex | app.js:314-315 | the active tour is the first match of the saved id when there is one, else the first tour |
| Tours.SelectionSurvivesReload | app.js:327-331 | storing the chosen tour's id makes the next load pick that same tour, when the tour has an id |
| Tours.RouteHref | app.js:341 | the route link is the tour's `routeUrl` when non-empty, else the generic maps URL; never empty |
| Tours.HeaderText | app.js:284-287 | the header is the tour's name when non-empty, else "Self-guided tour"; never empty |
| Tours.IdText | app.js:331 | what storing a tour's id writes: the id, or the text "undefined" for a tour without one (used by `SelectionSurvivesReload` and `TourApp.Activate`) |
| Storage.Get | app.js:57 | `getItem` finds a value exactly when the key is stored, and it is the stored value |
| Storage.GetText | app.js:314 | a text read finds exactly the plain text stored under the key |
| Navigation.HasOverride | app.js:83 | a `navUrl` that is not blank after trimming; used by `NavUrlShape` and `OverrideIsTrimmed` |
| Navigation.HasCoordinates | app.js:88 | both `lat` and `lng` are numbers; used by `CoordinateQuery` and `TextQuery` |
| Navigation.SearchText | app.js:93 | the searched text is the address, else the title, else the campus name; never empty |
| Navigation.SearchQuery | app.js:93 | the encoded search text; the campus fallback is its encoding written out as the constant `DefaultPlaceQuery`, and `SearchQueryEncodes` proves the query is `encodeURIComponent` of the search text in every case |
| Navigation.SearchQueryEncodes | app.js:93 | the query is `encodeURIComponent` of the searched text in every case |
| Navigation.DefaultPlaceEncoding | app.js:93 | the campus name encodes to its words joined by `%20` |
| Navigation.DefaultPlaceWords | app.js:93 | the campus name is its four words joined by spaces |
| Navigation.EncodeFourWords | app.js:93 | four unreserved words joined by spaces encode to the same words joined by `%20` |
| Navigation.NavUrl | app.js:81-95 | `buildStopNavUrl`; its three cases are the contracts of `NavUrlShape`, `OverrideIsTrimmed`, `CoordinateQuery` and `TextQuery` |
| Navigation.NavUrlShape | app.js:81-95 | the link is never empty; with a non-blank override it is the trimmed override; otherwise it starts with the maps search prefix |
| Navigation.EncodeNonEmpty | app.js:93 | a non-empty text encodes to a non-empty query |
| Navigation.OverrideIsTrimmed | app.js:83-84 | an override is used with no white space left at either end |
| Navigation.CoordinateQuery | app.js:88-89 | without an override, coordinates give the query `lat,lng` |
| Navigation.TextQuery | app.js:92-94 | otherwise the query decodes back to exactly the address, title or campus name chosen, and holds no URL delimiter |
| Visited.Add | app.js:227 | `add` appends a new id at the end and leaves the set unchanged for a member already present; membership grows by exactly `x`; no duplicates appear |
| Visited.Delete | app.js:226 | `delete` removes exactly `x`, keeps the others and adds no duplicates |
| Visited.DeleteKeepsOrder | app.js:226 | deleting a member of a duplicate-free set cuts it out at its position, so the others keep their insertion order |
| Visited.DeleteAt | app.js:226 | deleting an id that occurs once removes just that position |
| Visited.Toggle | app.js:225-227 | the toggled id's membership flips, every other id keeps its membership, and no duplicates appear |
| Visited.ToggleTwice | app.js:225-227 | toggling twice restores membership, and restores the exact sequence when the id was not a member |
| Visited.DeleteLast | app.js:226-227 | deleting an id just appended restores the sequence |
| Visited.AddAll | app.js:59 | `new Set(arr)` holds exactly the elements, without duplicates |
| Visited.SaveVisited | app.js:65-67 | `saveVisitedSet` writes the members as an array in insertion order; `LoadAfterSave` proves it reads back unchanged |
| Visited.LoadVisited | app.js:55-63 | loading yields no duplicates, exactly the stored ids for a stored array, and the empty set when the key is missing, empty, unparseable or not an array |
| Visited.AddAllDistinct | app.js:59 | building a set from distinct ids keeps their order |
| Visited.LoadAfterSave | app.js:55-67 | loading right after saving a set gives back the same ids in the same order |
| Visited.SaveOfLoadIsStable | app.js:55-67 | saving what was loaded and loading again changes nothing, whatever was stored |
| StopList.SortKey | app.js:163 | `order ?? 999`; its placement effect is the contract of `MissingOrderPlacement` |
| StopList.Insert | app.js:163 | inserting adds exactly one element |
| StopList.SortByOrder | app.js:163 | the sorted copy; sortedness, permutation and stability are the contracts of `SortByOrderCorrect`, `SortByOrderStable` and `StableSortIsUnique` |
| StopList.InsertSorted | app.js:163 | inserting into a key-sorted list keeps it sorted |
| StopList.InsertMultiset | app.js:163 | inserting adds the element and loses nothing |
| StopList.SortByOrderCorrect | app.js:163 | the sorted copy is ordered by `order ?? 999` and is a permutation of the tour's stops |
| StopList.InsertWithKey | app.js:163 | inserting keeps the relative order of the stops with any one key |
| StopList.SortByOrderStable | app.js:163 | the sort is stable: for every key, the stops with that key keep their input order |
| StopList.WithKeyNone | app.js:163 | a list with no stop of key `k` has no stops of key `k` |
| StopList.WithKeyHead | app.js:163 | the first stop's key has at least one stop |
| StopList.SortedUnique | app.js:163 | two key-sorted lists that agree on the stops of every key are equal |
| StopList.StableSortIsUnique | app.js:163 | any key-sorted list that keeps each key's stops in input order is exactly the sorted copy |
| StopList.MissingOrderPlacement | app.js:163 | a stop without `order` comes after every stop with an order below 999 (0 included) and before every stop with an order above 999 |
| StopList.IsVisited | app.js:167 | `visitedSet.has(s.id)`, false for a stop without an id; used by `CardShows`, `VisibleStopsCorrect` and `HiddenVisitedShowNoBadge` |
| StopList.MatchesQuery | app.js:169-171 | an empty normalized query matches every stop, otherwise the normalized haystack must contain it; used by `VisibleStopsCorrect` |
| StopList.Keep | app.js:166-172 | the filter callback: not hidden as visited, and matching the query; used by `FilterMembers` |
| StopList.FilterStops | app.js:166-172 | the filtered list is a subsequence of its input |
| StopList.Haystack | app.js:170 | the four text fields joined by single spaces, a missing one as empty text |
| StopList.FilterMembers | app.js:166-172 | a stop is in the filtered list exactly when it is in the input and the callback keeps it; a kept stop appears as often as in the input, a dropped one not at all |
| StopList.SubsequenceSorted | app.js:163-172 | a subsequence of a key-sorted list is key-sorted |
| StopList.SubsequenceBound | app.js:163-172 | a lower bound on the keys of a list bounds the keys of its subsequences |
| StopList.FilterKeepsAll | app.js:169 | when the callback keeps every stop, the filter returns its input |
| StopList.VisibleStops | app.js:163-172 | the stops shown: the sorted copy filtered; described by `VisibleStopsCorrect` |
| StopList.VisibleStopsCorrect | app.js:163-172 | the visible stops are a key-sorted subsequence of the sorted stops; a stop is visible exactly when it belongs to the tour, is not hidden as visited, and matches the normalized query, and then as many times as the tour holds it |
| StopList.BlankQueryShowsAll | app.js:164-169 | with a blank normalized query and "hide visited" off, every stop is shown, in sorted order |
| StopList.CardFor | app.js:198-223 | the view of one stop card; described by `CardShows` |
| StopList.CardShows | app.js:198-223 | the card's id, the photo source or empty text, the description or empty text, the title or "Tour Stop", the photo alt text, the subtitle or else the address or else empty text, a badge hidden exactly when not visited, the button label "Visited ✓" exactly when visited, and a non-empty map link |
| StopList.MapSeqLength | app.js:187-240 | mapping keeps the length |
| StopList.MapSeqAt | app.js:187-240 | mapping puts `f` of the i-th stop at position i |
| StopList.StopsGrid | app.js:156-241 | the grid `renderStops` leaves: the grid of the visible stops; described by `GridShape`, `HiddenVisitedShowNoBadge` and `BlankQueryCardPerStop`, and computed by `RenderStops` |
| StopList.GridOf | app.js:174-240 | the placeholder for no stops, else one card per stop; described by `GridShape` |
| StopList.GridShape | app.js:174-240 | the grid is the lone "No stops found" placeholder exactly when no stop is visible; otherwise one card per visible stop, in order |
| StopList.HiddenVisitedShowNoBadge | app.js:166-223 | with "hide visited" on, no card shows the visited badge or the "Visited ✓" label |
| StopList.BlankQueryCardPerStop | app.js:163-240 | with a blank query and "hide visited" off, a tour with stops gets exactly one card per stop |
| StopList.RenderStops | app.js:156-241 | the rendered grid is the grid of the visible stops |
| StopList.AppendCards | app.js:174-240 | the loop leaves the placeholder for an empty list, else one card per stop in order |
| Theme.SavedTheme | app.js:31 | the saved theme, else `"system"`; never empty |
| Theme.Applied | app.js:19-21 | `"system"` is replaced by the system's theme, any other name is applied as it is, and `"system"` is never applied |
| Theme.CurrentTheme | app.js:38 | the theme on the document, else the system's |
| Theme.NextTheme | app.js:38-39 | light after dark and dark after anything else, so never `"system"`, and a concrete theme always changes |
| Theme.NextThemeTwice | app.js:38-39 | two clicks come back to the starting theme exactly when it was light or dark |
| Theme.ButtonLabel | app.js:25 | the button reads "🌙 Dark mode" exactly when the theme is dark, and "☀️ Light mode" otherwise |
| App.TourApp.Boot | app.js:292-369 | start-up applies the saved theme and loads the visited set; with no tours the status shows the load error and nothing is rendered; otherwise the saved tour (or the first) is active, the page shows it, the status is cleared, and the state is consistent with storage |
| App.TourApp.UpdateForTour | app.js:336-351 | the header, the route link and the grid show the active tour |
| App.TourApp.RenderGrid | app.js:345-350 | the grid is re-rendered for the active tour and the current widgets |
| App.TourApp.ToggleVisited | app.js:224-235 | a stop without an id changes nothing; otherwise its id's membership flips, the set is saved, and the grid shows the new set |
| App.TourApp.SaveToggled | app.js:225-229 | the id's membership flips and storage then holds the new set, which a reload reads back |
| App.TourApp.ResetVisited | app.js:355-360 | the set is empty and saved, the page shows the active tour, and the status reads "Visited status reset." |
| App.TourApp.ClearVisited | app.js:356-357 | the set is empty and the saved value is the empty array |
| App.TourApp.SelectTour | app.js:327-333 | the chosen tour (or the first) is active, its id is stored, a reload keeps it, and the page shows it |
| App.TourApp.Activate | app.js:328-331 | the chosen tour (or the first) is active and its id is stored |
| App.TourApp.WidgetsChanged | app.js:353-362 | a search or "hide visited" change re-renders the active tour |
| App.TourApp.ToggleTheme | app.js:37-42 | the next concrete theme is stored and applied, with its button label |

## Left out

- DOM work is not modelled: element lookup, `innerHTML`, template cloning, event wiring and the tour selector's options (app.js:1, 157-161, 188-196, 317-326). Cards are records; the grid is a sequence of them.
- The callouts (app.js:100-151), the online indicator (app.js:246-256), the reload button (app.js:296-299) service-worker registration (app.js:371-377) and the console logging of the load error and of a failed registration (app.js:367, 375) are browser presentation or I/O.
- The `img.onerror` photo fallback (app.js:203-211) is asynchronous browser behaviour.
- `fetch` and `res.json()` (app.js:261-265) are replaced by an input of type `Option<Dataset>`. The intermediate "Loading…" status (app.js:304) is overwritten before `main` finishes and is not modelled.
- `matchMedia` detection is an input (app.js:13-17). The listener that re-applies `"system"` on a system change (app.js:44-49) is left out.
- The theme button's `aria-label` (app.js:26) and the route button's fixed text (app.js:342) are presentation.
- Text.ToLower: lower-cases the ASCII letters only; Unicode case mapping is not modelled.
- Coordinates are the already formatted text of two numbers. Number-to-string conversion (app.js:89) is not modelled.
- Stops whose `order` is not an integer (a fraction, a string, NaN) are not modelled; `order` is an optional integer.
- A non-string `id`, and the difference between a null and an undefined id, are not modelled. A stored visited array is an array of strings.
- JSON text in storage is abstracted. A plain text value read as JSON counts as "not an array". A JSON value read as text (the tour id or the theme) counts as missing.
- `JSON.stringify` writing non-string set members, and storage quota errors, are left out.
- Dataset shapes JavaScript tolerates but the typed model cannot hold are not modelled: a non-string `title`, `subtitle`, `description` or `address` (the page would show it converted to text), a truthy `tour.stops` that is not an array, a null stop or tour in a list, and a JSON document that is `null` (reading `data.tours` would throw). Each of these makes the source throw inside `main` or show converted text; the model's `None` dataset stands only for a failed fetch or parse.
- `pageSections` is used only by the callouts and is not modelled.
- StopList.RenderStops: the card click handler re-renders the tour the card was drawn for (app.js:230-235). That tour is always the active tour, because every tour change redraws the grid, so the model re-renders the active tour.
- Navigation.NavUrlShape: a null stop is not modelled. Line 88 would throw on one, and `Stop` is a value.
- Lone surrogates (which make `encodeURIComponent` throw) cannot occur, because a Dafny `char` is a Unicode scalar value.
