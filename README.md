# Hex Colour Board — a Dafny model

The colour board is a page with a fixed list of ten colours. Each entry has a
text field for a hex code, a native colour picker and a swatch. This project
models the page's logic from `client/src/pages/home.tsx` in three layers:

- **Hex helpers** (`hex_codes.dfy`, module `HexCodes`). `isValidHex`,
  `expandShortHex` and `normalizeHex` are pure functions over `seq<char>`.
  - The regular expression `^#([0-9A-Fa-f]{3}|[0-9A-Fa-f]{6})$` is written out as the predicates `IsShortHex`, `IsLongHex` and `IsValidHex`.
  - `String.prototype.trim` becomes `Trim`, built from `LeadingTrimmable` and `TrailingStart`, over the full ECMAScript WhiteSpace and LineTerminator set.
  - `toUpperCase` becomes `ToUpper`.
  - `CommitValue` is the composition every text path uses: normalise, validate, expand.
  - `Channels` gives the colour a valid hex string denotes, following CSS Color Module Level 4, section 5.2. It is the reference the lemmas use to show that expanding and upper-casing keep the colour.
- **One entry** (`color_items.dfy`, module `ColorItems`).
  - The state of a `ColorItem` is the datatype `ItemState`. It holds `inputValue`, `isInvalid`, `shouldShake`, and how many blur-scheduled timers that clear `isInvalid` are still pending.
  - Each handler is specified by a pure step function (`OnInputChange`, `OnInputBlur`, `OnPickerChange`, `OnColorProp`, `OnShakeTimer`, `OnInvalidTimer`). Each function returns the new state and the colour reported through `onColorChange`, if any.
  - The class `ColorItem` keeps the state in fields. Its methods follow the handlers statement by statement, and each method is proved equal to its step function.
- **The page** (`home_page.dfy`, module `HomePage`).
  - The class `Home` holds the colour list and one `ColorItem` per index.
  - `HandleColorChange` is `handleColorChange`.
  - `TextChange`, `Blur`, `PickerChange` and the two timer events each run one entry handler atomically. They hand its report to the list and then render the entry with the new colour. The colour-reset effect runs only if that colour changed.
  - The object invariant `Home.Valid` is kept by every event. It says: ten entries, pairwise distinct, and only canonical `#rrggbb` colours in the list. So the list stays canonical and keeps its length after any sequence of events.

Behaviour of the code worth knowing, which the model follows:

- **The `minLength` threshold (line 73)** tests the *normalised* text, and normalised text always starts with `#`. The threshold is therefore always 4. Typing `zzz` is rejected but raises no invalid flag (`ShortJunkRaisesNoFlag`). The `: 3` alternative on the same line suggests a three-character threshold was meant for text typed without `#`; as written it is dead code.
- **The picker.** It shows the upper-cased value only until the entry is rendered with the new colour. The reset effect (lines 52-54) then replaces the text with the reported, lower-case string whenever it differs from the previous colour (`PickedTextAfterRender`). The same effect replaces typed shorthand by its expansion once it has been reported (`TypedTextAfterRender`).
- **Blur on an empty field** leaves `isInvalid` as it was, rather than forcing it off. It still schedules the timer that clears it.
- **Only the failing branch of blur** schedules the 300 ms clear of `isInvalid`.

## Model

| member | source | states |
|---|---|---|
| `HexCodes.ValidHexLanguage` | client/src/pages/home.tsx:19-21 | `IsValidHex(s)` holds exactly when `s` is `#` followed by a string of three or six hex digits, in both directions |
| `HexCodes.ValidHexRejects` | client/src/pages/home.tsx:19-21 | a missing `#`, a length other than 4 or 7, or any non-hex character after position 0 makes a string invalid |
| `HexCodes.ExpandShortHex` | client/src/pages/home.tsx:23-31 | a `#rgb` input becomes a valid `#rrggbb` with each digit doubled in order and in its own case; every other input comes back unchanged; every valid input yields a 7-character 6-digit form |
| `HexCodes.ExpandIdempotent` | client/src/pages/home.tsx:23-31 | expanding an expanded string changes nothing |
| `HexCodes.ExpandPreservesColour` | client/src/pages/home.tsx:23-31 | expanding a valid string gives the canonical form of the same red/green/blue colour |
| `HexCodes.LeadingTrimmable` | client/src/pages/home.tsx:34 | the result counts the whitespace characters that lead the string: all of them are whitespace and the next character, if any, is not |
| `HexCodes.TrailingStart` | client/src/pages/home.tsx:34 | the result is where the trailing whitespace begins: everything from there on is whitespace and the character before, if any, is not |
| `HexCodes.Trim` | client/src/pages/home.tsx:34 | the result is the slice of the input that starts after the leading whitespace; only whitespace is cut away on either side, and the result neither starts nor ends with whitespace |
| `HexCodes.TrimFixpoint` | client/src/pages/home.tsx:34 | a string with no whitespace at either end trims to itself |
| `HexCodes.TrimIdempotent` | client/src/pages/home.tsx:34 | trimming twice is trimming once |
| `HexCodes.NormalizeHex` | client/src/pages/home.tsx:33-39 | the result starts with `#` and ends with the trimmed input, unchanged (so no case change); it is one character longer than the trimmed input exactly when the trimmed input did not start with `#` |
| `HexCodes.NormalizeKeepsLeadingHash` | client/src/pages/home.tsx:33-39 | `##abc` normalises to itself: no second `#` is added |
| `HexCodes.NormalizeTrimsExample` | client/src/pages/home.tsx:33-39 | ` abc ` normalises to `#abc` |
| `HexCodes.NormalizeIdempotent` | client/src/pages/home.tsx:33-39 | normalising a normalised string changes nothing |
| `HexCodes.CommitValue` | client/src/pages/home.tsx:67-71 | typed text yields a colour exactly when its normalisation is valid hex; that colour is exactly the expansion of the normalised text, case kept, a canonical `#rrggbb` denoting the same colour |
| `HexCodes.CommitValueOfCanonical` | client/src/pages/home.tsx:67-71 | a canonical colour, with or without its `#`, yields itself |
| `HexCodes.CommitOfShorthandExample` | client/src/pages/home.tsx:67-71 | typing `f00` yields `#ff0000`, lower case as typed |
| `HexCodes.CommitOfNonHexExample` | client/src/pages/home.tsx:67-72 | typing `zzz` yields no colour |
| `HexCodes.ToUpper` | client/src/pages/home.tsx:99 | the result has the input's length and upper-cases each character in place |
| `HexCodes.UpperPreservesColour` | client/src/pages/home.tsx:99 | upper-casing a valid hex string keeps it valid, in the same form, and denoting the same colour |
| `HexCodes.UpperChangesIffLowerLetter` | client/src/pages/home.tsx:99 | upper-casing changes a string exactly when it contains a lower-case letter |
| `ColorItems.OnInputChange` | client/src/pages/home.tsx:63-78 | the text becomes the typed value; a colour is reported iff the normalised value is valid, and it is its expansion, a canonical `#rrggbb`, with the invalid flag cleared; an invalid value raises the flag from four characters on and leaves it unchanged below; shake and pending timers are untouched |
| `ColorItems.OnInputBlur` | client/src/pages/home.tsx:80-95 | valid normalised text is replaced by its expansion, which is reported, and the flag is cleared, nothing else changes; invalid text reports nothing, reverts to the owner's colour and schedules one clear timer; shake and flag are raised iff the text was non-empty, otherwise left as they were |
| `ColorItems.OnPickerChange` | client/src/pages/home.tsx:97-102 | given a `#rrggbb` value, the text becomes its upper-cased form (valid, same colour), the flag is cleared, and the value itself is reported with its case unchanged; shake and timers are untouched |
| `ColorItems.RejectedBlurSettles` | client/src/pages/home.tsx:87-94 | a failed blur of non-empty text raises shake and flag; once the shake timer and the clear timer have fired, the entry shows the owner's colour with both flags down |
| `ColorItems.ShortJunkRaisesNoFlag` | client/src/pages/home.tsx:72-77 | typing `zzz` reports nothing and leaves a lowered invalid flag down |
| `ColorItems.ColorItem.constructor` | client/src/pages/home.tsx:48-50 | a new entry shows its colour with both flags down and no pending timer |
| `ColorItems.ColorItem.InputChange` | client/src/pages/home.tsx:63-78 | the new state and the report are those of `OnInputChange` on the old state |
| `ColorItems.ColorItem.InputBlur` | client/src/pages/home.tsx:80-95 | the new state and the report are those of `OnInputBlur` on the old state and the owner's colour |
| `ColorItems.ColorItem.PickerChange` | client/src/pages/home.tsx:97-102 | the new state and the report are those of `OnPickerChange` |
| `ColorItems.ColorItem.ColorChanged` | client/src/pages/home.tsx:52-54 | the text becomes the new colour; nothing else changes |
| `ColorItems.ColorItem.ShakeTimerFires` | client/src/pages/home.tsx:56-61 | while shaking, the timer firing clears `shouldShake` only |
| `ColorItems.ColorItem.InvalidTimerFires` | client/src/pages/home.tsx:93 | a pending clear timer firing clears `isInvalid` and is used up |
| `HomePage.DefaultColorsCanonical` | client/src/pages/home.tsx:6-17 | the default palette has ten entries, all canonical `#rrggbb` |
| `HomePage.Delivered` | client/src/pages/home.tsx:173-179 | a report overwrites exactly its index; the length and every other index are kept; no report leaves the list as it was |
| `HomePage.DeliveredKeepsCanonical` | client/src/pages/home.tsx:173-179 | canonical reports keep a canonical list canonical and its length fixed |
| `HomePage.TypedTextAfterRender` | client/src/pages/home.tsx:52-54 | once rendered after a text change, the field shows the reported colour if it differs from the previous one, and the typed text otherwise |
| `HomePage.PickedTextAfterRender` | client/src/pages/home.tsx:97-102 | once rendered after a picker change, the field shows the picker's string if it differs from the previous colour, else its upper-cased form; either way a valid string of the reported colour |
| `HomePage.Home.constructor` | client/src/pages/home.tsx:171 | the list starts as the default palette, with one fresh, freshly mounted entry per colour, and the invariant holds |
| `HomePage.Home.HandleColorChange` | client/src/pages/home.tsx:173-179 | the list keeps its length, holds the new colour at the index and is unchanged elsewhere; the entries are untouched; a canonical colour written into a valid page keeps it valid |
| `HomePage.Home.Deliver` | client/src/pages/home.tsx:203 | a canonical report reaches the list at its index, and the entry is rendered with the new colour, reset only if the colour changed; the invariant is kept |
| `HomePage.Home.TextChange` | client/src/pages/home.tsx:63-78 | the list and the entry end as `OnInputChange` followed by delivery and rendering say; the invariant, so every colour stays canonical, is kept |
| `HomePage.Home.Blur` | client/src/pages/home.tsx:80-95 | the same for `OnInputBlur` with the entry's current colour |
| `HomePage.Home.PickerChange` | client/src/pages/home.tsx:97-102 | the same for `OnPickerChange`, given a `#rrggbb` picker value |
| `HomePage.Home.ShakeTimerFires` | client/src/pages/home.tsx:56-61 | the entry's shake timer fires as in `OnShakeTimer`; the list is unchanged and the invariant kept |
| `HomePage.Home.InvalidTimerFires` | client/src/pages/home.tsx:93 | one of the entry's clear timers fires as in `OnInvalidTimer`; the list is unchanged and the invariant kept |

## Left out

- Rendering: JSX, CSS classes, labels, aria attributes, the alert text, the swatch and the `Card`/`Input`/`Label` components (lines 104-167 and 181-210). They are presentation and foreign UI code. The swatch's meaning is covered only through `Channels`.
- Time: the 300 ms durations and the order in which timers fire. They become the discrete events `ShakeTimerFires` and `InvalidTimerFires`.
- Cancelling the shake timer on unmount (line 59). Unmounting is not modelled, because the list never changes length.
- React scheduling: state batching and effect timing. Each handler is one atomic step. The reset effect is a step that follows a report which changed the colour.
- The browser's colour picker. Its "always `#rrggbb`" output is the precondition of `PickerChange`. That it is lower case is not required. Setting the picker's value to `color.toLowerCase()` (line 127) is display only.
- The text field's `maxLength={7}` (line 143). It is not imposed: every text length is accepted.
- String lengths: JavaScript measures them in UTF-16 code units, the model in Unicode scalar values. They differ only for characters outside the Basic Multilingual Plane.
- `HexCodes.ToUpper`: upper-cases ASCII letters only, not the full locale-independent Unicode mapping of `toUpperCase`. That is enough for the hex strings the picker yields.
- `HexCodes.Trim`: uses the whitespace set of current Unicode; later Unicode versions may add space separators.
- `HomePage.Home.HandleColorChange`: requires the index to be in range. Every caller passes the index of a rendered entry. The JavaScript array write would silently grow the list for an out-of-range index.
