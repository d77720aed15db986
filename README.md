# Discord intents calculator, modelled in Dafny

The calculator is a single page for working out a Discord gateway "intents" value. Each gateway
intent unlocks a list of gateway events and owns one bit position. The user ticks intents, and the
page keeps two running values:

- the intents mask, a sum of `1 << bit`;
- the number of events the chosen intents give access to.

Three switches record whether the privileged intents (presence, server members, message content)
are enabled for the bot. Their checkboxes are disabled while a switch is off. The page also lists
the accessible events, links each one to the gateway-events documentation, shows a Clear button
while something is ticked, and keeps a dark/light theme. The theme and the switches are
remembered in the browser's localStorage.

The project models:

- `Intents` (`intents.dfy`): the catalog.
  - The five events every bot receives.
  - The nineteen intents with their event lists and bit positions.
  - Facts about that table.
- `Bits` (`bits.dfy`):
  - powers of two;
  - JavaScript `<<` on 32-bit integers (ToInt32 of the left operand, shift count modulo 32, signed wrap-around);
  - reading one bit of a non-negative integer.
- `Selection` (`selection.dfy`): what the page derives from its checkboxes.
  - The mask and the event count, computed from scratch.
  - The displayed event list: the `filter` over the state's keys, then the per-intent event lists.
  - The Clear-button test.
  - The `disabled` expression of each checkbox.
- `Slug` (`slug.dfy`): the documentation anchor of an event name,
  `toLowerCase().trim().replace(/_/g, "-").replaceAll('*', '')`.
- `App` (`app.dfy`): the page state as the class `Calculator`, with the handlers `handleChange`,
  `resetIntents` and `toggleLights`.
  - The handlers update the running mask and count step by step, as the page does.
  - `Consistent()` states that those running values equal the from-scratch definitions in
    `Selection`.
  - `Synced()` states that the theme and switches equal what localStorage would return.
  - localStorage is a field of the class, a `Stored` record. The constructor receives its
    initial contents, and the handlers write to it as the page does.

## Model

| member | source | states |
|---|---|---|
| Intents.DefaultIntentsContents | src/Intents.tsx:3-9 | exactly five default events, in the order READY, RESUMED, VOICE_SERVER_UPDATE, USER_UPDATE, INTERACTION_CREATE |
| Intents.BitPositions | src/Intents.tsx:11-139 | the catalog's bit positions, in order, are 0 to 16, then 20 and 21 |
| Intents.BitsIncreasing | src/Intents.tsx:34-138 | bit positions strictly increase along the catalog |
| Intents.BitsDistinct | src/Intents.tsx:34-138 | no two intents share a bit position |
| Intents.BitsInRange | src/Intents.tsx:116-138 | every bit position is at most 21, and 17, 18, 19 are unused |
| Intents.NamesDistinct | src/Intents.tsx:11-139 | intent names are pairwise distinct |
| Intents.NameIndexInverts | src/Intents.tsx:11-139 | each intent name maps back to its own catalog position |
| Intents.KeyIndex | src/Intents.tsx:11-139 | looking up a name gives a position holding that name, or None exactly when no intent has that name |
| Intents.KeyIndexOfName | src/Intents.tsx:11-139 | looking up the name of entry k finds k |
| Intents.NamedPositions | src/Intents.tsx:12-116 | GUILDS, GUILD_MEMBERS, GUILD_PRESENCES, GUILD_MESSAGES, DIRECT_MESSAGES and MESSAGE_CONTENT sit at their positions, with bits 0, 1, 8, 9, 12 and 15 |
| Intents.MessageContentHasNoEvents | src/Intents.tsx:116 | MESSAGE_CONTENT has bit 15 and an empty event list |
| Intents.SharedEventNames | src/Intents.tsx:29-96 | MESSAGE_CREATE belongs to both GUILD_MESSAGES and DIRECT_MESSAGES; "THREAD_MEMBERS_UPDATE *" belongs to both GUILDS and GUILD_MEMBERS |
| Bits.JsShl | src/App.tsx:59 | `x << n` is a signed 32-bit value, and for x = ±1 and n ≤ 30 it is exactly ±2^n |
| Bits.JsShlWraps | src/App.tsx:59 | `1 << 31` is negative and `1 << 32` is 1, so the catalog's bits (≤ 21) stay clear of the wrap-around |
| Bits.ToInt32 | src/App.tsx:59 | ToInt32 lands in the signed 32-bit range and agrees with its argument modulo 2^32 |
| Selection.NoneChecked | src/App.tsx:40-43 | the initial `reduce` gives one false per catalog key |
| Selection.MaskBitOfIntent | src/App.tsx:56-61 | in the from-scratch mask, bit `bit(k)` is set if and only if intent k is checked |
| Selection.MaskUpToBits | src/App.tsx:56-61 | bit b of the mask of the first n entries is set if and only if one of them is checked and has bit b |
| Selection.UnusedBitsClear | src/Intents.tsx:116-138 | a bit that no intent uses is never set in the mask |
| Selection.MaskFlip | src/App.tsx:59 | checking an unchecked intent adds 2^bit to the from-scratch mask; unchecking a checked one subtracts it |
| Selection.RepeatedCheckDrifts | src/App.tsx:59-61 | re-checking a checked intent and adding 2^bit again leaves the mask different from its from-scratch value |
| Selection.FullMask | src/Intents.tsx:11-139 | the mask with every intent checked is 3276799 |
| Selection.MaskBounds | src/App.tsx:56-61 | every mask lies between 0 and 3276799 |
| Selection.FirstTwoMasks | src/Intents.tsx:34-44 | GUILDS alone gives 1, GUILD_MEMBERS alone 2, both 3 |
| Selection.NothingChecked | src/App.tsx:37-51 | with nothing checked the mask is 0 and the count is 5 |
| Selection.EventCountFlip | src/App.tsx:60 | checking adds the intent's number of events to the from-scratch count; unchecking subtracts it |
| Selection.EnabledUpTo | src/App.tsx:208 | the filter keeps checked catalog positions only, in increasing (catalog) order |
| Selection.EnabledUpToExact | src/App.tsx:208 | a position passes the filter if and only if it is checked |
| Selection.EventsOfEnabled | src/App.tsx:208-216 | filtering then mapping lists the checked intents' events one intent after another, in catalog order |
| Selection.DisplayedLength | src/App.tsx:197-217 | the from-scratch count equals the length of the displayed list |
| Selection.DisplayedStartsWithDefaults | src/App.tsx:200-206 | the displayed list starts with the five default events |
| Selection.DisplayedEventsAt | src/App.tsx:200-217 | a checked intent's events appear contiguously and in order, at offset 5 plus the event counts of the checked intents before it |
| Selection.DisplayedEventsApart | src/App.tsx:208-216 | the event blocks of two checked intents do not overlap |
| Selection.SharedEventListedTwice | src/App.tsx:208-216 | an event name shared by two checked intents is listed twice (duplicates are kept) |
| Selection.DuplicateMessageCreate | src/App.tsx:208-216 | with GUILD_MESSAGES and DIRECT_MESSAGES checked, MESSAGE_CREATE occurs at least twice |
| Selection.SomeChecked | src/App.tsx:189 | the Clear test is true if and only if some intent boolean is true |
| Selection.GatedEntries | src/App.tsx:182 | over the catalog, a checkbox is disabled exactly when it is GUILD_PRESENCES with presence off, GUILD_MEMBERS with guildMembers off, or MESSAGE_CONTENT with messageContent off |
| Selection.NothingGatedWhenAllOn | src/App.tsx:182 | with all three switches on, no key is disabled |
| Slug.ToLowerCase | src/App.tsx:201 | lower-casing keeps the length and maps every character by ASCII `toLowerCase` |
| Slug.Trim | src/App.tsx:201 | the trimmed string is no longer than its input and has no white space at either end |
| Slug.TrimSlice | src/App.tsx:201 | `trim` keeps one contiguous slice, starting after the leading white space |
| Slug.TrimRemovesWhiteSpace | src/App.tsx:201 | everything `trim` drops is white space, at the two ends |
| Slug.ReplaceUnderscores | src/App.tsx:201 | every '_' becomes '-' and every other character is kept in place |
| Slug.RemoveStars | src/App.tsx:201 | no '*' is left, and every other character keeps its number of occurrences |
| Slug.RemoveStarsAppend | src/App.tsx:201 | star removal works piece by piece, so kept characters keep their order |
| Slug.SlugShape | src/App.tsx:201-211 | an anchor has no '_', no '*', no ASCII capital, and is at most as long as the name |
| Slug.PlainNameSlug | src/App.tsx:201-211 | for a name of capitals and underscores, the anchor has the same length and is the lower-case name with '-' for '_' |
| Slug.StarredNameKeepsSpace | src/App.tsx:210 | a name ending in " *" gets the anchor of the name without it, plus a trailing space, because `trim` runs before the star is removed |
| App.InitialTheme | src/App.tsx:38 | the stored theme is used unless it is absent or empty, in which case the theme is "dark" |
| App.FlagRoundTrip | src/App.tsx:45-47 | a flag stored as its `toString` is read back unchanged, and only the string "true" reads as set |
| App.InitialPrivileged | src/App.tsx:44-48 | each switch starts on if and only if its localStorage entry is exactly "true" |
| App.NextTheme | src/App.tsx:107-116 | the next theme is "light" if and only if the current one is "dark", and "dark" otherwise |
| App.ToggleTwice | src/App.tsx:107-116 | toggling twice returns to the same theme if and only if it was "dark" or "light" |
| App.SwitchNamesAreNotIntents | src/App.tsx:58 | no intent is named presence, guildMembers or messageContent, so the switch test separates the two kinds of control |
| App.Calculator.constructor | src/App.tsx:37-53 | theme and switches from localStorage, every intent off, mask 0, count 5, running values consistent, Clear hidden |
| App.Calculator.HandleChange | src/App.tsx:55-76 | an intent event sets its boolean and moves the mask by ±2^bit and the count by ± its events; a switch changes only its flag and its stored entry; consistency is kept whenever an intent event flips the boolean |
| App.Calculator.Reset | src/App.tsx:78-80 | mask 0, count 5, nothing checked, Clear hidden; the theme and switches are read again from localStorage and so are kept when they were in step with it |
| App.Calculator.ToggleLights | src/App.tsx:107-116 | the theme becomes NextTheme of the old one and is stored; nothing else changes |
| App.Calculator.Payload | src/App.tsx:226-231 | the copied value is between 0 and 3276799, and bit `bit(k)` of it is set if and only if intent k is checked |
| App.Calculator.EventsHeading | src/App.tsx:197 | the count in the heading is the length of the list below it, at least 5 |
| App.Calculator.ShownEvents | src/App.tsx:199-217 | the shown list begins with the default events |
| App.Calculator.ShowClear | src/App.tsx:189 | Clear is shown if and only if some intent is checked |
| App.CheckThenUncheck | src/App.tsx:59-61 | checking and then unchecking an intent restores the mask and the count |
| App.CheckTwice | src/App.tsx:59-61 | two "checked" events for one intent add its bit twice |

## Left out

- Rendering (Material UI components, `makeStyles`, `createTheme` palettes, tooltips, icons): presentation only. The `disabled` expression at src/App.tsx:182 is kept as `Selection.Disabled`. The identical `indeterminate` expression on the same line is not modelled separately.
- The clipboard, `alert` and `window.open` (src/App.tsx:202, 211, 227-229): browser I/O. The value they receive is modelled: `Payload` and `Slug`.
- The copyright year `new Date().getFullYear()` (src/App.tsx:238): a clock.
- localStorage is modelled as a field written only by the page. Writes from other tabs and storage failures are not modelled.
- JavaScript numbers are doubles. The running mask and count are unbounded integers here. With bits at most 21 and a mask at most 3276799, every value stays an exact integer, so nothing is lost. Only `<<` is modelled at 32 bits.
- React's asynchronous `setState` and stale closures are not modelled. Each handler acts on the current state.
- Slug.LowerChar: `toLowerCase` is modelled for ASCII letters only. Event names are ASCII capitals, underscores, spaces and '*'.
- HandleChange: a name that is neither a switch nor a catalog key is excluded by its precondition. In the page such a name would make `intents[name]` throw, and every control passes either a catalog key or a switch name.
- Slug.StarredNameKeepsSpace: it states the trailing-space behaviour for every name. Its concrete instance, "THREAD_MEMBERS_UPDATE *" becoming "thread-members-update ", is not proved as a separate literal lemma. `Slug.PlainNameSlug` gives the anchor of "THREAD_MEMBERS_UPDATE" character by character.
- The model follows the code where a stricter design might be expected:
  - `handleChange` does not refuse to check an intent whose privileged switch is off. Only the checkbox is disabled (`GatedEntries`).
  - Turning a switch off does not uncheck the intents it gates (see `HandleChange`).
  - An intent event always moves the mask, so repeating a "checked" event is not idempotent (`RepeatedCheckDrifts`, `CheckTwice`).
  - The page has no error values for unknown names.
