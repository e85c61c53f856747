# Quote Formatter, modelled in Dafny

The Quote Formatter is a chat-host extension that deletes asterisks found
inside double-quoted spans of chat messages and leaves asterisks outside quotes
alone. Quotes are paired left to right without nesting: the 1st with the 2nd,
the 3rd with the 4th, and so on. An unmatched final quote and the text after
it are copied unchanged. Three flags, `enabled`, `processIncoming` and
`processOutgoing`, all true by default, live in the host's per-extension
settings store and gate the two message handlers.

The model has three modules, one per component of `index.js`:

- `QuoteText` (`quote_text.dfy`) covers the pure transformer
  `removeAsterisksFromQuotes`.
  - `NextMatch` finds the leftmost match of the pattern "quote, run of
    non-quotes, quote" and returns the text before it, the captured interior
    and the text after it.
  - `Transform` follows the global replace as a recursion over successive
    matches on `seq<char>`, with `StripStars` as the inner replace.
  - `JsValue` stands for "a string, or any other JavaScript value", so the
    falsy and non-string pass-through can be modelled.
  - There are two independent reference definitions of the result:
    - `Scan` is one left-to-right pass with a quote-parity flag.
    - `Kept` is a rule per position: an asterisk is deleted exactly when an
      odd number of quotes precede it and some quote follows it.
  - `IsStarDeletion` says "this string is that one with some asterisks
    deleted".
- `Settings` (`settings.dfy`) covers `getSettings`.
  - The host store `extension_settings` is a class field of type
    `map<string, map<Key, bool>>`.
  - The debounced save is a ghost flag, `saveRequested`.
  - The backfill loop over the default keys is a `for` loop proved against
    the function `Loaded`.
- `Handlers` (`handlers.dfy`) covers `onMessageReceived` and `onMessageSent`.
  - A message is a class with fields `mes` and `swipes`. `swipes` is an array,
    or `null` when absent or not an array.
  - The swipes are rewritten in place by an indexed loop.
  - The outgoing handler receives the host's chat as a sequence of message
    objects.

## Model

| member | source | states |
|---|---|---|
| `QuoteText.FindQuoteIsQuote` | index.js:43 | where the search for a quote stops before the end, the character there is `"`. A match of the pattern opens and closes there. |
| `QuoteText.FindQuotePrefix` | index.js:43 | no quote occurs before the position the search returns, so the match found is the leftmost one. |
| `QuoteText.FindQuoteNone` | index.js:43 | the search runs to the end of the text exactly when the text holds no quote. |
| `QuoteText.StripStarsSpec` | index.js:45 | the inner replace leaves no `*` in the interior, and deletes nothing but asterisks. |
| `QuoteText.NextMatchSplit` | index.js:43 | a match cuts the text into a quote-free prefix, an opening quote, a quote-free interior (the capture group), a closing quote and the rest. |
| `QuoteText.NextMatchAt` | index.js:43 | for a text built from a quote-free prefix and a quoted, quote-free interior, the match found is exactly that prefix, interior and rest. |
| `QuoteText.NextMatchFound` | index.js:43 | the pattern matches exactly when the text holds at least two quotes. |
| `QuoteText.RemoveAsterisksFromQuotes` | index.js:39-48 | a falsy or non-string value (and so the empty string) is returned as it is. A non-empty string becomes its transform. A string stays a string. |
| `QuoteText.TransformIsScan` | index.js:43-47 | for every input, the regex-driven replace equals the independent single-pass definition `Scan`. |
| `QuoteText.ScanIsKept` | index.js:43-45 | the single pass, resumed at any position with the parity of the quotes before it, emits exactly the characters `Kept` keeps. |
| `QuoteText.TransformWithoutQuotes` | index.js:43-47 | a text without any `"` is returned unchanged. |
| `QuoteText.TransformKeepsExactly` | index.js:43-45 | for every input, the output is exactly the input's characters in order, minus the asterisks that lie between the (2k-1)-th and the 2k-th quote. Asterisks before the first quote, between pairs and after an unmatched last quote are all kept. |
| `QuoteText.TransformDeletesOnlyStars` | index.js:43-46 | the output is the input with some asterisks deleted. Nothing is added, no other character is removed, and nothing is reordered. |
| `QuoteText.TransformNotLonger` | index.js:43-47 | the replace never lengthens the text. |
| `QuoteText.TransformKeepsNonStars` | index.js:43-46 | deleting all asterisks from the output gives the same string as deleting them from the input. |
| `QuoteText.TransformKeepsQuotes` | index.js:43-46 | the output has exactly as many `"` as the input. |
| `QuoteText.TransformStep` | index.js:43-46 | one match: a quote-free prefix is copied, a quote pair is re-emitted with its interior stripped of asterisks, and the replace continues after the closing quote. |
| `QuoteText.TransformIdempotent` | index.js:43-47 | applying the transform twice gives the same result as applying it once. |
| `QuoteText.RemoveAsterisksFromQuotesIdempotent` | index.js:39-48 | applying the function twice to any value gives the same result as applying it once. |
| `Settings.Defaults` | index.js:15-19 | the default record defines every key, and every key is true. |
| `Settings.Loaded` | index.js:22-35 | the settings `getSettings` returns define all three keys. A key present in the stored entry keeps its value. A missing key, or every key when there is no entry, is true. |
| `Settings.BackfillSpec` | index.js:28-33 | backfilling defines every default key, keeps every present value and fills each missing key with its default. |
| `Settings.BackfillIdempotent` | index.js:28-33 | backfilling a complete entry changes nothing, so backfilling twice is the same as backfilling once. |
| `Settings.FreshSettingsProcessBoth` | index.js:22-35 | an absent or empty entry loads as the defaults, and with the defaults the gate is open in both directions. |
| `Settings.DisabledClosesGate` | index.js:54 | a stored `enabled: false` closes the gate of both handlers. |
| `Settings.ExtensionSettings.GetSettings` | index.js:22-36 | returns `Loaded` of the old store and writes it back under the module key. Other extensions' entries are unchanged. A save is requested exactly when the entry was absent. |
| `Handlers.RewriteSwipes` | index.js:63-67 | after the loop, every element is its transform: a non-empty string is transformed and every other element is untouched. The length is unchanged. |
| `Handlers.OnMessageReceived` | index.js:51-73 | settings are loaded as by `GetSettings`. When the gate is closed, or `mes` is not a non-empty string, neither `mes` nor `swipes` changes. Otherwise `mes` becomes its transform and each swipe becomes its transform. The `swipes` reference itself never changes. |
| `Handlers.OnMessageSent` | index.js:75-91 | settings are loaded as by `GetSettings`. With the gate closed nothing changes. Otherwise only the last chat entry's `mes` is replaced by its transform. Every other entry's `mes` and every `swipes` are unchanged. |

## Left out

- `createUI`, the checkbox handlers and the template rendering (index.js:94-116) are user-interface glue over jQuery and the host's template renderer.
- `init`, the event-bus registration and the jQuery bootstrap (index.js:119-135) are host wiring.
- `SillyTavern.getContext()` and `saveSettingsDebounced` are calls into the host:
  - the save is recorded only as the ghost flag `saveRequested`;
  - the chat is passed to `OnMessageSent` as a parameter.
- The try/catch blocks and their console logging (index.js:70-72, 88-90) are out of scope, because none of the modelled steps can throw.
- Host refresh and chat-save calls after a message changes are not modelled: the code makes none.
- The outgoing handler does not look the sent message up by id: the code always takes the last chat entry, and so does the model.
- An existing but empty settings object is truthy in JavaScript, so `GetSettings` backfills it without requesting a save.
- `Settings.ExtensionSettings.GetSettings` does not model a stored entry that exists but is falsy (`null`, `false`, `0`). Such an entry would be recreated, and the model only has present or absent entries.
- `Settings.ExtensionSettings.GetSettings` does not model setting values that are not booleans. Stored values are `bool`, so `null` or a string under a key is not represented.
- The general JavaScript regular-expression engine is not modelled: only the one fixed pattern of index.js:43, as a hand-written scan.
- JavaScript strings are sequences of UTF-16 code units; the model uses Dafny `char`. Only `"` and `*`, both ASCII, are examined.
