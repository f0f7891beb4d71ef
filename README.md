# Licence-key generator page: a Dafny model

The page in `script.js` generates licence-style keys, keeps them in the
browser's local storage under one item (`mod_keys`), and lists them with a
status. This project models the logic behind that:

- **Key formatting** (`generateKey`): sixteen characters from the alphabet
  `A-Z0-9`, in four groups of four joined by `-`. The random draws are an
  input, `picks`, holding sixteen alphabet indices in `[0, 36)`. The nested
  loops are a method proved against `KeyOf`, the four groups joined by `-`.
  Lemmas give the character at each position. They also show that every
  generated key matches `^[A-Z0-9]{4}(-[A-Z0-9]{4}){3}$`, and that every string
  of that shape is produced by exactly one pick sequence.
- **Duration labels** (`getDurationText`): the four fixed phrases and the
  generic `"<minutes> минут"` label, with `${minutes}` written out as decimal
  rendering. Lemmas show that each fixed phrase comes from exactly one
  duration, and that the label determines the duration.
- **Key records and status**: the record the generate handler builds, and the
  expired > used > active precedence. `displayKeys` computes the status name,
  label and CSS class as three separate conditionals. The model proves that
  all three agree with one `Status`.
- **Storage and handlers**: a `LocalStore` class whose `item` field is the
  stored document, or `None` when nothing has been saved. Its methods are
  `saveKeysLocally` and `loadKeysLocally` (empty list when absent). Two
  module-level methods take the store: the generate click handler
  (`OnGenerate`) and `displayKeys` (`DisplayKeys`). The generate handler
  appends exactly one record at the end of the list and then refreshes the
  listing. `displayKeys` builds one card per record in a loop.

Clock readings (`Date.now()`) and random draws are parameters.

Modules: `Wrappers` (Option), `KeyFormat`, `Decimal`, `Duration`, `Records`,
`Store`.

## Model

| member | source | states |
|---|---|---|
| KeyFormat.GenerateKey | script.js:5-15 | the nested loops return exactly the four groups of picked characters joined by `-`, and the result is a well-formed key |
| KeyFormat.KeyPrefixAt | script.js:8-13 | after n rounds of the outer loop the partial key has length 5n (19 after the last round, with no trailing separator); position p holds `-` when p % 5 == 4, and otherwise the character of pick p - p/5 |
| KeyFormat.KeyPrefixComplete | script.js:12 | the outer loop's result equals the groups joined by `-`: only groups 0-2 are followed by a separator |
| KeyFormat.KeyOfAt | script.js:8-13 | the key has length 19; positions 4, 9 and 14 are `-`; every other position p holds `Chars[picks[p - p/5]]`, so group i holds picks 4i..4i+3 in order |
| KeyFormat.KeyOfWellFormed | script.js:5-15 | every generated key matches `[A-Z0-9]{4}-[A-Z0-9]{4}-[A-Z0-9]{4}-[A-Z0-9]{4}` |
| KeyFormat.IndexOfChars | script.js:6 | every alphabet character is in `A-Z0-9` and sits at the index that reading it back gives |
| KeyFormat.CharsIndexOf | script.js:6 | every character of `A-Z0-9` occurs in the alphabet |
| KeyFormat.DecodeEncode | script.js:6-13 | reading the picks back out of a generated key gives the picks it was made from |
| KeyFormat.EncodeDecode | script.js:5-15 | every string matching the key pattern is the key of some valid picks: the pattern describes exactly the possible keys |
| KeyFormat.KeyOfInjective | script.js:10 | different draws give different keys; a repeated key needs a repeated draw, since there is no uniqueness check |
| Decimal.NatToDecimal | script.js:29 | a natural number prints as one or more digits, with a leading `0` only for zero, and zero prints as the single digit `0` |
| Decimal.IntToDecimal | script.js:29 | a whole number prints with a leading `-` exactly when it is negative, followed by the digits of its magnitude |
| Decimal.NatToDecimalValue | script.js:29 | reading the printed digits back gives the number |
| Decimal.IntToDecimalInjective | script.js:29 | different minute counts print differently |
| Duration.DurationText | script.js:24-30 | `getDurationText`: the label ends in " минут" exactly when the duration is none of 3, 10080, 43200, 129600, and such a label is the decimal rendering of the minutes followed by " минут" (each fixed phrase and injectivity are the two lemmas below) |
| Duration.FixedPhrasesExactly | script.js:25-28 | "3 минуты", "7 дней", "30 дней" and "90 дней" are produced by 3, 10080, 43200 and 129600 respectively and by no other duration |
| Duration.DurationTextInjective | script.js:24-30 | two durations with the same label are equal |
| Records.NewKeyRecord | script.js:63-74 | the record built by the generate handler carries the key, createdAt == now and the duration; it lives exactly duration * 60 * 1000 ms; it is unused, has no HWID and no usedAt, and is never shown as used at any time |
| Records.NewKeyRecordLifetime | script.js:63-74 | a new record expires exactly duration * 60000 ms after creation; it is active up to and including that instant and expired after it; being unused, it is never shown as used |
| Records.StatusOf | script.js:122-125 | expired exactly when now > expiresAt, whatever `used` is; otherwise used when `used`, else active; at now == expiresAt the record is not expired |
| Records.StatusName | script.js:123 | the `status` conditional equals the name of the precedence status |
| Records.StatusText | script.js:124 | the `statusText` conditional equals the label of the precedence status (Истек / Используется / Активен) |
| Records.StatusClass | script.js:125 | the `statusClass` conditional equals the class of the precedence status, which is `status-` followed by the status name |
| Records.LabelsIdentifyStatus | script.js:123-125 | distinct statuses have distinct names, labels and classes, so the three derivations never disagree |
| Records.StatusOverTime | script.js:122-123 | once expired, a record stays expired as time advances; before that its status does not change |
| Records.Prefix16 | script.js:137 | `substring(0, 16)` keeps the first min(16, length) UTF-16 code units and is a prefix of the HWID |
| Records.RowOf | script.js:122-141 | a card shows the record's key, creation and expiry times and duration label; it is marked expired exactly when the status is expired; its label and class are those of the precedence status; it shows the first 16 code units of the HWID exactly when the HWID is set and non-empty, and the activation time exactly when it is set and non-zero |
| Store.LocalStore.SaveKeysLocally | script.js:48-51 | the storage item becomes the saved document |
| Store.LocalStore.LoadKeysLocally | script.js:54-57 | returns the saved document, or an empty key list when nothing is saved |
| Store.SaveThenLoad | script.js:48-57 | loading right after a save returns the saved document |
| Store.DisplayKeys | script.js:109-145 | shows the placeholder exactly when the stored list is empty; otherwise one card per stored record, in stored order, each the record's card at the given time |
| Store.OnGenerate | script.js:60-91 | appends exactly one record at the end of the stored list and leaves earlier records unchanged; the record has a well-formed key, createdAt == now, expiresAt == now + duration * 60000, used false, and no HWID or usedAt; the panel shows the duration label; the refreshed listing shows the new key last, active or expired according to its expiry |

## Left out

- `Math.random()` (script.js:10): floating point. The draws are the `picks` parameter, sixteen integers in `[0, 36)`. `Math.floor(Math.random() * 36)` always lands in that range, which is why `ValidPicks` is a precondition.
- `Date.now()` (script.js:63, 118): clock readings are parameters (`now`, `shownAt`).
- JavaScript numbers are modelled as unbounded integers. `duration * 60 * 1000` and `now + ...` are exact here; in the source they are doubles, exact only below 2^53. `${minutes}` is modelled as plain decimal digits; JavaScript prints magnitudes of 10^21 and more in exponent notation (`1e+21`).
- Strings other than the HWID are Dafny strings (Unicode scalar values). All of them (keys, labels, classes) are ASCII or Cyrillic, one UTF-16 code unit per character, so the two counts agree. The HWID, which this page never sets, is a sequence of UTF-16 code units so that `substring(0, 16)` cuts where JavaScript does.
- Store.OnGenerate: `parseInt` of the form field (script.js:61) is not modelled, so the duration is an `int`. A non-numeric field, which would give `NaN` and the label "NaN минут", has no counterpart.
- `loadKeys` (script.js:33-45): a network fetch that no handler calls.
- `formatDate` / `toLocaleString('ru-RU')` (script.js:18-21): a locale library. Cards keep raw timestamps.
- JSON serialisation in `saveKeysLocally`/`loadKeysLocally` (script.js:49, 56): the storage item holds the document itself. A stored empty string, which the source would also treat as absent, cannot arise, since `JSON.stringify` never yields one.
- The export shortcut (script.js:156-170): JSON pretty-printing, Blob, object URL, download and alert are host APIs. The export/re-import round trip is therefore not stated. Its loading half is `LoadKeysLocally`.
- The copy button (script.js:94-106): clipboard and `setTimeout`.
- DOM updates and HTML markup (script.js:84-87, 111-114, 127-144): only the data each card shows (`Row`) and the empty-list placeholder (`NoKeys`) are modelled. The refresh button and the start-up call (script.js:148-153) just run `displayKeys`, which is `DisplayKeys`.
- The console logging in `saveKeysLocally` (script.js:50).
