# Contact list search, modelled in Dafny

The contact list screen (`App.js`) shows a bundled list of contacts, each with
an id, a name, a phone number, an e-mail address and an avatar URI. Above the
list sits a search field. The screen keeps the typed text as its only state,
which starts empty. From it the screen derives the filtered list: a contact
is kept when its name, lower-cased, includes the lower-cased search text. The
screen shows how many contacts survive the filter. A clear button, rendered
only while the text is non-empty, sets the text back to empty.

The project has three modules:

- `JsString` (`js_string.dfy`) models the two JavaScript string built-ins the
  filter uses. `Lower` stands for `toLowerCase` and folds ASCII letters.
  `Includes` stands for `includes`. It is proved equal to "there is a
  position where the needle occurs".
- `ContactFilter` (`contact_filter.dfy`) holds the `Contact` record and
  `Filter`, the `Array.prototype.filter` call. Its lemmas cover soundness,
  completeness, order, multiplicity, the empty query, case-insensitivity,
  idempotence and narrowing.
- `SearchScreen` (`search_screen.dfy`) holds the screen state as a one-field
  record. It has the initial state, the text-change and clear transitions,
  the visibility of the clear button, and the count shown above the list.

## Model

| member | source | states |
|---|---|---|
| `JsString.LowerChar` | App.js:12 | the result is never an ASCII capital; a capital maps to the small letter at the same alphabet position; every other character is kept |
| `JsString.Lower` | App.js:12 | `toLowerCase` keeps the length and lower-cases each character in place |
| `JsString.LowerIdempotent` | App.js:12 | lower-casing an already lower-cased string changes nothing |
| `JsString.Includes` | App.js:12 | the left-to-right scan of `includes` answers true exactly when the needle occurs at some position of the haystack |
| `JsString.IncludesEmpty` | App.js:12 | every string includes the empty string |
| `JsString.IncludesTransitive` | App.js:12 | if a includes b and b includes c, then a includes c |
| `JsString.IncludesLower` | App.js:12 | an occurrence survives lower-casing both the haystack and the needle |
| `JsString.IncludesFolded` | App.js:12 | searching the lower-cased string for the lower-cased needle succeeds exactly when the needle occurs at some position with each aligned pair of characters equal once lower-cased; this holds under the ASCII fold of `Lower` |
| `ContactFilter.Matches` | App.js:11-12 | the filter's callback holds exactly when the search text occurs at some position of the contact's name with case ignored, character by character, under the ASCII fold of `Lower` |
| `ContactFilter.Filter` | App.js:11-13 | soundness and completeness: a contact is in the result exactly when it is in the input and its lower-cased name includes the lower-cased search text; the result is no longer than the input |
| `ContactFilter.FilterSelects` | App.js:11-13 | order: the result is the input read at exactly the matching positions, taken in strictly increasing order, so nothing is reordered and nothing is repeated |
| `ContactFilter.FilterMultiplicity` | App.js:11-13 | each matching contact appears in the result as often as in the input; a non-matching one does not appear |
| `ContactFilter.FilterEmptyQuery` | App.js:8-13 | the empty search text keeps the whole list unchanged |
| `ContactFilter.FilterKeepsAll` | App.js:11-13 | the result has the input's length exactly when every contact matches |
| `ContactFilter.FilterCaseInsensitive` | App.js:12 | two search texts with the same lower-cased form give the same result |
| `ContactFilter.FilterLowerQuery` | App.js:12 | searching for the lower-cased text gives the same result as the text as typed |
| `ContactFilter.FilterIdempotent` | App.js:11-13 | filtering the result again with the same text changes nothing |
| `ContactFilter.FilterNarrowing` | App.js:11-13 | when the new text includes the old one, the new result is the old result filtered again, and it is no longer |
| `SearchScreen.Initial` | App.js:8 | the search text starts empty |
| `SearchScreen.SetText` | App.js:41 | a text change replaces the search text with the new text |
| `SearchScreen.Clear` | App.js:45 | a press of the clear button leaves the initial, empty search text, and the button disappears |
| `SearchScreen.ClearButtonShown` | App.js:44 | the clear button is rendered exactly when the state differs from the initial one, that is, when the search text is non-empty |
| `SearchScreen.Visible` | App.js:11-13 | the list handed to the list view holds exactly the contacts whose name matches the current search text, and is no longer than the contact list |
| `SearchScreen.ContactCount` | App.js:52 | the count shown is the length of the visible list; it is at most the number of contacts and equals it exactly when every contact matches |
| `SearchScreen.HiddenClearShowsAll` | App.js:44 | whenever the clear button is not rendered, the whole contact list is visible and counted |
| `SearchScreen.InitialShowsAll` | App.js:8 | on first display the whole list is visible and no clear button is shown |
| `SearchScreen.ClearShowsAll` | App.js:45 | after a clear the whole list is visible again and the count equals the number of contacts |
| `SearchScreen.TypingNarrows` | App.js:41 | typing more around the current text gives the previous visible list filtered again, and the count does not grow |

## Left out

- JsString.Lower: folds only the ASCII letters `A`–`Z`. The full Unicode, locale-independent mapping of `toLowerCase` (accented capitals, characters whose lower-case form has another length) is not modelled.
- JsString.IncludesLower: holds for the per-character ASCII fold only. The context-sensitive mappings of `toLowerCase` break it: final sigma lower-cases "ΟΣ" to "ος" but "Σ" to "σ", so an occurrence of "Σ" in "ΟΣ" does not survive lower-casing.
- JsString.IncludesFolded: the character-by-character characterisation holds for the ASCII fold only. Under final sigma, "Σ" occurs in "ΝΙΚΟΣ" at position 4 with case ignored, yet `"ΝΙΚΟΣ".toLowerCase()` is "νικος", which does not include "σ". Mappings such as "İ" (U+0130), whose lower-case form has two characters, also shift positions.
- ContactFilter.Matches: the characterisation as a case-ignoring occurrence holds for the ASCII fold only. With the program's `toLowerCase`, the callback is false for the name "ΝΙΚΟΣ" and the search text "Σ", although the model's `Matches` is true there.
- ContactFilter.FilterNarrowing: holds for the ASCII fold only. Under final sigma a contact named "ΝΙΚΟΣ" is hidden for the search text "Σ" and shown again for "ΟΣ", although "ΟΣ" includes "Σ".
- SearchScreen.TypingNarrows: holds for the ASCII fold only, for the same final-sigma reason: typing "Ο" before "Σ" can bring a contact back.
- Strings are sequences of Unicode scalar values, not the UTF-16 code units of JavaScript strings, so lone surrogates cannot be represented and `length` counts scalar values rather than code units.
- JsString.Includes: models `includes` with its default start position 0 only; the source never passes a position.
- Rendering: the header, the text input, the card layout, the separators and the `FlatList` (App.js:15-65) have no behaviour beyond displaying the derived data.
- The style sheet (App.js:68-175) is presentation data.
- Loading the bundled JSON file (App.js:4) is asset plumbing. The contact list is an input sequence, and every field is assumed to be a string.
- `keyExtractor` (App.js:58) uses `id` only as a list key. The code never checks that ids are unique, so the model does not either.
- The source collection is never changed by filtering. `filter` builds a new array, and Dafny sequences are values, so this holds by construction and has no lemma of its own.
- Alphabetical grouping, the single-expanded toggle and the A–Z index lookup belong to another screen. That screen is not part of this model.
- The clear button's visibility is modelled as a predicate on the state. `Clear` is total, like the setter it calls, so pressing it on an empty text is harmless.
