# Registro laboral: a verified model of its day store, names and ledger rules

Registro laboral is a mobile work-time logger. A worker clocks in and out, and
records incidents, by taking a photo. The app keeps one record per calendar day
under a `YYYY-MM-DD` key and can produce a monthly PDF report. This project
models the logic at its core, in Dafny, and proves what that logic promises:

- `storage.dfy` (module `Storage`) is the day store of `src/native/storage.ts`.
  It covers:
  - the day-key format;
  - the lazy migration of a legacy single-session record (`entrada`,
    `salida`, `incidencias`) into the list of sessions (`jornadas`);
  - `getDia` and `setDia`;
  - the sorted index of day keys under the reserved key `__indice_dias__`;
  - the pruning of old days.

  The Preferences store is the class `Preferences`, whose one field maps each
  key to the value it holds.
- `ledger.dfy` (module `Ledger`) holds the rules of `src/App.tsx`. It covers:
  - when a photo is admissible;
  - how one clock-in, clock-out or incident updates the day record;
  - the "clocked in" status;
  - the months offered for the report;
  - the days the report covers, in order.

  The web storage these rules use is the class `WebStorage`.
- `files.dfy` (module `Files`) holds the pure parts of `src/native/files.ts`:
  - photo and report file names;
  - the relative path a saved file is stored under;
  - the MIME type and data URL a file is read back as.
- `strings.dfy` (module `Strings`) supports the other modules. It defines:
  - JavaScript's default string order, proved a total order;
  - an insertion sort under that order, proved to produce a sorted
    permutation;
  - reversal;
  - zero-padded decimal digits, with their round trips.
- `wrappers.dfy` (module `Wrappers`) defines `Option` and `Result`.

Time, time zones and the filesystem are inputs to the model. The caller
supplies:
- "now", in milliseconds;
- the date of a key, as `dateMs`;
- a photo's capture instant, as a local day number and the milliseconds since
  that day's local midnight;
- today's key;
- the base64 contents of a file.

Four facts about the code shape the model:
- `App.tsx` reads and writes days through its own store (`window.storage`),
  in the legacy single-session shape, and never through the migrating store
  of `storage.ts`. `Ledger` therefore models that shape and that store
  separately from `Storage`.
- `generarPDF` keeps every listed key that starts with the chosen month, or
  every key when no month is given, without checking the day-key format;
  `Ledger.PdfFechas` does the same.
- `normalize` keeps a stored `jornadas` array as it is, without checking its
  elements.
- `getDia` writes the normalized record back only when the stored `jornadas`
  is falsy. A truthy `jornadas` that is not an array is migrated on every
  read but never written back (`Storage.NeedsWriteBack`).

## Model

| member | source | states |
|---|---|---|
| Storage.ValidKey | src/native/storage.ts:17 | the defining predicate of `KEY_REGEX` (no contract of its own): four digits, '-', two digits, '-', two digits and nothing else; `FormatKeyValid` and `ValidKeyFormatted` state what it admits |
| Storage.FormatKeyValid | src/native/storage.ts:17 | every zero-padded year-month-day is a valid key and parses back to its three numbers |
| Storage.ValidKeyFormatted | src/native/storage.ts:17 | every valid key is the zero-padded form of the numbers it holds: the pattern admits nothing else |
| Storage.IndexKeyIsNotADay | src/native/storage.ts:16-17 | the reserved index key is not a valid day key, so day reads and writes never touch the index |
| Storage.Normalize | src/native/storage.ts:34-57 | a falsy value has no record; an array `jornadas` is kept as it is; otherwise the legacy fields become at most one session. That session is empty exactly when there is no clock-in, no clock-out and no incident. A clock-in carries the clock-out; a lone clock-out becomes the clock-in; lone incidents get the `00:00` placeholder clock-in. Incidents default to `[]` |
| Storage.LegacyDayMigrates | src/native/storage.ts:42-47 | a legacy day with clock-in 09:00 and clock-out 17:00 becomes one session holding both, with an empty incident list |
| Storage.Encode | src/native/storage.ts:70 | the defining function of a record as `JSON.stringify` stores it and `JSON.parse` reads it back (no contract of its own); `NormalizeIdempotent` and `WriteThenRead` state that it reads back unchanged |
| Storage.NeedsWriteBack | src/native/storage.ts:69 | the defining predicate of the write-back test `!raw.jornadas` (no contract of its own); `NormalizeIdempotent` and `ReadSettles` state that a normalized record never needs it |
| Storage.NormalizeIdempotent | src/native/storage.ts:34-38 | a normalized record, once stored, normalizes to itself and needs no write-back |
| Storage.IndexOf | src/native/storage.ts:19-22 | `listDias`: the stored index, or `[]` when none is stored |
| Storage.ReadDay | src/native/storage.ts:59-73 | `getDia`'s result: nothing for an invalid or absent key, otherwise the normalized stored value |
| Storage.AfterRead | src/native/storage.ts:68-71 | the store after `getDia` stays well typed; `AfterReadEffect` states what the read writes |
| Storage.AfterReadEffect | src/native/storage.ts:59-71 | a read leaves every other key as it was and keeps the key set; it changes the store exactly when the key is valid, stored, and its `jornadas` is falsy |
| Storage.ReadSettles | src/native/storage.ts:59-73 | a second `getDia` returns the same record and writes nothing more; a read never adds or drops keys |
| Storage.WriteThenRead | src/native/storage.ts:59-78 | a record written by `setDia` is read back unchanged by `getDia`, with no write-back |
| Storage.Retained | src/native/storage.ts:85-87 | the defining predicate of the age test (no contract of its own): a key whose date does not parse is dropped, one at most `dias` days old is kept; `PruneEffect` states its effect |
| Storage.Kept | src/native/storage.ts:83-87 | the defining function of the kept list (no contract of its own); `KeptMembers`, `KeptSorted` and `PruneStep` state its properties |
| Storage.Expired | src/native/storage.ts:88 | the defining function of the set of keys whose records `Preferences.remove` deletes (no contract of its own): the indexed keys not retained; `PruneStep`, `PrunePartition` and `PruneEffect` state its properties |
| Storage.PruneStep | src/native/storage.ts:84-89 | one more indexed key joins either the kept list or the removed set, according to its age |
| Storage.KeptMembers | src/native/storage.ts:83-87 | the kept list holds exactly the indexed keys that are retained, each as often as in the index |
| Storage.KeptSorted | src/native/storage.ts:83-90 | the kept list is in index order, so a sorted index stays sorted |
| Storage.PrunePartition | src/native/storage.ts:84-89 | every indexed key is either kept or removed, never both; a sorted, duplicate-free index keeps both properties |
| Storage.Pruned | src/native/storage.ts:84-90 | the defining function of the store after pruning (no contract of its own); `PruneEffect` states its effect and `Preferences.RemoveDiasAntiguos` is proved to produce it |
| Storage.PruneEffect | src/native/storage.ts:80-91 | pruning removes the record of exactly the indexed keys not retained, keeps the record of every retained key unchanged, leaves unindexed keys untouched, and rewrites the index with exactly the retained keys, still sorted and duplicate-free |
| Storage.IndexInsert | src/native/storage.ts:26-29 | the index written for a new key holds the old keys plus that key, sorted, and duplicate-free when the old index was |
| Storage.Preferences.constructor | src/native/storage.ts:19-22 | an empty store is well typed and has an ordered (absent) index |
| Storage.Preferences.ListDias | src/native/storage.ts:19-22 | returns the stored index, or `[]` when none is stored |
| Storage.Preferences.AddDiaAlIndice | src/native/storage.ts:24-31 | a known key changes nothing; a new key rewrites the index as the sorted old index plus the key. The key is indexed afterwards, and a sorted, duplicate-free index stays so |
| Storage.Preferences.GetDia | src/native/storage.ts:59-73 | returns `ReadDay` of the old store and leaves `AfterRead` of it; an invalid key returns nothing and writes nothing |
| Storage.Preferences.SetDia | src/native/storage.ts:75-78 | succeeds exactly for a valid key and then stores the record under it; otherwise fails with `Clave inválida (YYYY-MM-DD)` and writes nothing |
| Storage.Preferences.RemoveDiasAntiguos | src/native/storage.ts:80-91 | the loop leaves the store equal to `Pruned` of the old store, whose effect `PruneEffect` states; an ordered index stays ordered |
| Strings.Below | src/native/storage.ts:28 | the defining predicate of the order `sort()` uses, here and in `App.tsx` (no contract of its own): character by character, a proper prefix first; `BelowReflexive`, `BelowTotal`, `BelowAntisymmetric` and `BelowTransitive` state that it is a total order |
| Strings.BelowTotal | src/native/storage.ts:28 | `sort()`'s order compares any two strings |
| Strings.BelowAntisymmetric | src/native/storage.ts:28 | two strings ordered both ways are equal |
| Strings.BelowTransitive | src/native/storage.ts:28 | the order is transitive |
| Strings.SortStrings | src/native/storage.ts:28 | `sort()` returns a permutation of its input (same multiset) in ascending order |
| Strings.Reverse | src/App.tsx:323 | `.reverse()`: same length, and the element at each position is the input element at the same distance from the other end |
| Strings.ReverseSortedDescending | src/App.tsx:323 | reversing an ascending list gives a descending list with the same elements |
| Strings.DigitsRoundTrip | src/native/storage.ts:17 | a number written with zero-padded digits reads back as that number |
| Strings.ValueRoundTrip | src/native/storage.ts:17 | a digit string is the zero-padded form of its value |
| Ledger.SplitColon | src/App.tsx:105 | `split(':')`: at least one piece, and a text without ':' is its own single piece |
| Ledger.SplitPiecesHaveNoColon | src/App.tsx:105 | no piece of `split(':')` holds a ':' |
| Ledger.SplitAtColon | src/App.tsx:105 | the text before the first ':' is the first piece, and the rest splits on its own |
| Ledger.ClockInMs | src/App.tsx:105-107 | the defining function of the clock-in time `setHours(horaE, minE)` gives (no contract of its own): None when a field is missing or not a number; `ClockInOfDigits` states its value |
| Ledger.ClockInOfDigits | src/App.tsx:105-107 | a clock-in `HH:MM` of digits is that many hours and minutes after midnight |
| Ledger.ValidarFechaFoto | src/App.tsx:79-117 | each rejection is stated as an if-and-only-if. There is no timestamp; the photo is not from today; a clock-out at or before today's readable clock-in; a clock-out when today's stored value does not parse or is `null`. Otherwise the photo, which is from today, is accepted and its timestamp returned |
| Ledger.ClockOutScenario | src/App.tsx:98-111 | against a 09:00 clock-in, clock-out photos at 08:30 and 09:00 are rejected and one at 17:00 is accepted |
| Ledger.Current | src/App.tsx:136-145 | the defining function of the record the update starts from (no contract of its own): the stored object, or `{}` when nothing is stored or the text does not parse |
| Ledger.Recorded | src/App.tsx:147-154 | the defining function of the record after one event (no contract of its own); `IncidentAppended`, `StampOverwritten` and `StatusAfterRecord` state its properties |
| Ledger.IncidentAppended | src/App.tsx:147-149 | an incident is appended after the earlier ones (a missing list counts as empty); the clock-in and clock-out are untouched |
| Ledger.StampOverwritten | src/App.tsx:150-154 | a clock-in or clock-out replaces that stamp and changes nothing else |
| Ledger.WebStorage.GuardarRegistro | src/App.tsx:119-156 | a stored `null`, number, string or boolean makes the update throw with no write. A stored array is written back as it was, so the event is lost. Otherwise the day's record (or `{}` when absent or unparsable) is updated by the event and stored under today's key, with every other key unchanged |
| Ledger.EstadoHoy | src/App.tsx:48-59 | no stored value leaves the status; an array, `null`, a number, string or boolean, or text that does not parse clears it; for an object, "in" holds exactly when there is a clock-in and no clock-out |
| Ledger.StatusAfterRecord | src/App.tsx:147-159 | after a clock-out the worker is out; after a clock-in the worker is in unless the day already holds a clock-out; an incident leaves the status |
| Ledger.AcceptedClockOutCloses | src/App.tsx:98-159 | an accepted clock-out is later than a readable clock-in, and once recorded it keeps the clock-in and reads back as "out" |
| Ledger.Months | src/App.tsx:317-321 | the defining function of the set of months of the day keys (no contract of its own); `MesesDisponibles` is proved to return exactly it |
| Ledger.MesesDisponibles | src/App.tsx:312-327 | a failed listing gives `[]`. Otherwise the result holds exactly the months of the valid day keys, each once, newest first |
| Ledger.NewestFirst | src/App.tsx:323 | sorting and reversing a duplicate-free list keeps its elements, each once, in descending order |
| Ledger.SelectKeys | src/App.tsx:217-223 | every key starting with the month (every key when none is given) occurs as often as listed, and every other key not at all |
| Ledger.PdfFechas | src/App.tsx:217-224 | the report's days are the selected keys, each as often as listed, in ascending order |
| Files.SaveDataUrl | src/native/files.ts:7-15 | the returned path is `Download/RegistroLaboral`, '/', then the file name |
| Files.SaveDataUrlSafe | src/native/files.ts:66-80 | returns the same relative path as `saveDataUrl` |
| Files.Extension | src/native/files.ts:19 | the text after the last '.': a dot-free suffix of the path, preceded by a '.', or the whole path when it has no '.' |
| Files.ExtensionAfterLastDot | src/native/files.ts:19 | the extension of `front.ext` is `ext`, whatever `front` holds |
| Files.LowerAscii | src/native/files.ts:19 | `toLowerCase()`: same length, each character lower-cased |
| Files.MimeOfExtension | src/native/files.ts:20-23 | `jpg`/`jpeg` give `image/jpeg`, `png` gives `image/png`, `pdf` gives `application/pdf`, and exactly every other extension gives `application/octet-stream` |
| Files.MimeOf | src/native/files.ts:19-23 | the defining function of the MIME type of a path, the chain applied to the lower-cased extension (no contract of its own); `SavedPathMime`, `ImageReadsAsJpeg` and `ReportReadsAsPdf` state its values |
| Files.ReadAsDataUrl | src/native/files.ts:17-25 | the data URL reads back as the MIME type of the path's lower-cased extension and the file's base64 contents |
| Files.DataUrlRoundTrip | src/native/files.ts:24 | a data URL built from a MIME type without ';' splits back into that type and payload |
| Files.Dashed | src/native/files.ts:32 | `replace(/[:.]/g, '-')`: same length; each ':' and '.' becomes '-', every other character is kept |
| Files.BuildImageName | src/native/files.ts:31-34 | the name has no ':' and no '.' before its `.jpg` extension; each timestamp character is kept or replaced by '-'; the name ends in `_<tipo>.jpg` |
| Files.BuildPdfName | src/native/files.ts:48-50 | the name is `informe_`, the period, then `.pdf` |
| Files.SavedPathMime | src/native/files.ts:7-25 | a file saved under a name containing a '.' is read back with the MIME type its name gives |
| Files.ImageReadsAsJpeg | src/native/files.ts:17-34 | every photo name, and the path it is saved under, is read back as `image/jpeg` |
| Files.ReportReadsAsPdf | src/native/files.ts:17-50 | every report name, and the path it is saved under, is read back as `application/pdf` |

## Left out

- All I/O is left out: Capacitor Preferences, Filesystem and Share calls, permissions, `ensurePublicFolder`, `fileExists`, `openFile`, `getUri`. The stores are maps, and the effect of each call is the new map.
- The asynchronous interleaving of store calls is left out. Each operation is one atomic step.
- The clock and the time zone are left out. "Now", a key's date (`new Date(k)`), today's local day number and today's key are inputs. The UTC day of `toISOString()` and the local day of `setHours` can differ near midnight; the model does not relate them.
- EXIF parsing (`exifr.parse`) is left out. The photo's `DateTimeOriginal` is an input.
- Storage.Retained: the day difference is a floating-point division in the source. The model uses the equivalent exact comparison `now - t <= dias * 86400000`.
- The default of `dias` in `removeDiasAntiguos` (90) is left out. `dias` is a parameter.
- Storage.ReadDay: stored text that is not valid JSON makes `getDia` throw. The model assumes stored day values parse.
- Ledger.WebStorage.GuardarRegistro: fields of a stored object other than `entrada`, `salida` and `incidencias` are not modelled. The source keeps them when it stores the record back; the model's record has only those three fields.
- Storage.Normalize: a truthy `incidencias` that is not an array, elements of a `jornadas` array that are not sessions, and extra JSON fields are not modelled.
- Ledger.ClockInMs: `Number()` also accepts surrounding white space, signs, decimals and exponents. The model reads only digit strings as numbers; anything else is NaN, as `Number` gives for most other text. An hour or minute past its usual range rolls over past midnight as `setHours` would. Daylight-saving shifts are not modelled. Nor is the range limit of `Date`: an hour or minute so large that the clock-in lies beyond ±8.64e15 ms gives an invalid Date, on which the source accepts the clock-out, while the model compares against the huge clock-in and rejects it.
- Files.LowerAscii: `toLowerCase()` is modelled on ASCII letters only.
- Strings.Below: JavaScript compares UTF-16 code units. The model compares characters, which differs only beyond the Basic Multilingual Plane.
- Ledger.MesesDisponibles: a failed `window.storage.list()` is modelled as an absent listing. `MesesDisponibles` and `PdfFechas` take the listing as an input.
- PDF rendering (jsPDF), alerts, React state and rendering are left out. So are `imageTools.ts`, the `localStorage` fallback, the unused `completarIncidencia`, and the build configuration.
- Files.SaveDataUrl: the data URL written to the file is not modelled. Only the returned path is.
