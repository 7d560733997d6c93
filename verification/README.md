# Hours ledger of GHorarien, modelled in Dafny

This project models the hours-accounting core of GHorarien, a calendar and
event-attendance application. It covers four pieces:

- **Declared hours** (`HorasDeclaradas`). These are hours that users report
  themselves. Stored values use a legacy encoding: a whole number above 24 is
  a count of minutes and is divided by 60, and anything else is hours. The
  module models:
  - the parsing and the two unit conversions;
  - the configuration guard;
  - the offset/limit pagination loop that fetches a user's records (an
    imperative method with a loop invariant and a termination measure);
  - the sum over those records;
  - the payload that a create call writes.
- **Earned hours** (`HorasObtenidas`). Attending an event credits each
  attendee with `HOURS_PER_EVENT` = 3 hours, unless the event's category is
  Comida. In that case nothing is issued and the configuration is not
  checked.
- **Event categories** (`EventCategories`). The closed four-value enumeration
  and its total metadata table.
- **Section formulas** (`SectionFormula`). The global, case-insensitive
  rewrite of `condition\s*:\s*(` into `condition:(`. It is written as an
  explicit deterministic matcher and a left-to-right scanner.

Shared pieces:

- `Wrappers` holds `Option`, `Result` and `Outcome`.
- `AppwriteConfig` holds the configuration, a record of optional strings. A
  collection id that is missing or empty fails a guard, as JavaScript
  truthiness does.
- `JsNumber` holds JavaScript numbers as exact reals with explicit
  non-finite values. `Math.round` is `floor(x + 0.5)`.

The document store is a parameter: a sequence of records in server order. A
list call returns `Matching(store, user)[offset .. min(offset + limit, n)]`.

Two consequences of the code are worth stating:

- The code credits `numeroHoras = 3` per attendee
  (services/horasObtenidasService.ts:12).
- Writing hours as minutes and reading them back is not an exact inverse.
  For `h` other than 0, the round trip holds exactly when the stored minutes
  exceed 24 and `60 * h` is a whole number (`RoundTripExactIff`). Above 24
  stored minutes it is otherwise within 1/120 hour (`StoredHoursReadBack`). When `60 * h` is a whole number and the stored
  minutes are 24 or fewer, the stored value is read back as that many hours.
  For example, 0.25 h is stored as 15 and read back as 15 hours
  (`RoundTripAtOrBelowThreshold`).

## Model

| member | source | states |
|---|---|---|
| `JsNumber.IsInteger` | services/horasDeclaradasService.ts:40 | `Number.isInteger` on a finite value holds exactly when the value equals some integer |
| `JsNumber.Round` | services/horasDeclaradasService.ts:48 | `Math.round` gives the integer `r` with `x - 1/2 < r <= x + 1/2`, so halves round upwards |
| `HorasDeclaradas.EnsureHorasDeclaradasConfig` | services/horasDeclaradasService.ts:18-23 | passes exactly when the shared client check passes and the collection id is set and non-empty; otherwise it fails with the shared error first, then with "Falta NEXT_PUBLIC_APPWRITE_HORASDECLARADAS_COLLECTION_ID" |
| `HorasDeclaradas.ParseHorasDeclaradasValue` | services/horasDeclaradasService.ts:28-35 | a number is returned unchanged; a string gives its parsed value when that is finite and 0 otherwise; null and a missing value give 0; only a number input can yield a non-finite result |
| `HorasDeclaradas.ToHorasDeclaradasHours` | services/horasDeclaradasService.ts:37-44 | a non-finite parsed value gives 0; a whole number above 24 gives a result that times 60 equals the value; any other finite value is returned as hours |
| `HorasDeclaradas.ToHorasDeclaradasMinutes` | services/horasDeclaradasService.ts:46-49 | a non-finite input gives 0; otherwise the result is the integer nearest to `hours * 60`, with halves rounded up |
| `HorasDeclaradas.LegacyReadingExamples` | services/horasDeclaradasService.ts:40-43 | 150 is read as 2.5 hours, while 24 and 2.5 are read unchanged |
| `HorasDeclaradas.StoredHoursReadBack` | services/horasDeclaradasService.ts:37-49 | when the stored minutes exceed 24, reading them back gives the original hours to within 1/120 hour |
| `HorasDeclaradas.RoundTripAboveThreshold` | services/horasDeclaradasService.ts:37-49 | when `60*h` is a whole number above 24, the round trip returns exactly `h` |
| `HorasDeclaradas.RoundTripAtOrBelowThreshold` | services/horasDeclaradasService.ts:37-49 | when `60*h` is a whole number of at most 24, the round trip gives `60*h`, which differs from `h` for every positive `h` (the accepted legacy ambiguity) |
| `HorasDeclaradas.RoundTripExactIff` | services/horasDeclaradasService.ts:37-49 | for every non-zero `h`, the round trip returns `h` exactly when more than 24 minutes are stored and `60*h` is a whole number |
| `HorasDeclaradas.Matching` | services/horasDeclaradasService.ts:64-65 | the `user` equality filter keeps exactly the store's records for that user, and no more records than the store holds |
| `HorasDeclaradas.MatchingAppend` | services/horasDeclaradasService.ts:64-65 | filtering a concatenation is the concatenation of the filtered parts, so each matching record is kept exactly once and in server order |
| `HorasDeclaradas.ListDocuments` | services/horasDeclaradasService.ts:61-69 | a page holds at most `limit` records; it is full unless it reaches the end of the matching records; it is empty past the end; record i of the page is matching record `offset + i` |
| `HorasDeclaradas.FetchHorasDeclaradasForUser` | services/horasDeclaradasService.ts:51-76 | a configuration error makes zero list calls; otherwise the result is every matching record in server order, after `n/100 + 1` list calls (a multiple of 100 costs one extra, empty page) |
| `HorasDeclaradas.SumHours` | services/horasDeclaradasService.ts:80-83 | the `reduce` as the left fold of `total + ToHorasDeclaradasHours(d.horasDeclaradas)` from 0, in record order; it is 0 for no records and non-negative when every reading is non-negative |
| `HorasDeclaradas.SumHoursAppend` | services/horasDeclaradasService.ts:80-83 | the fold of hour readings distributes over concatenation, so the total does not depend on how pages split the records |
| `HorasDeclaradas.SumHoursCons` | services/horasDeclaradasService.ts:80-83 | each record adds exactly its hour reading to the total |
| `HorasDeclaradas.SumHorasDeclaradasForUser` | services/horasDeclaradasService.ts:78-84 | the configuration error is passed through; otherwise the result is the fold of `ToHorasDeclaradasHours` over the user's records, which is 0 for a user who has none |
| `HorasDeclaradas.MixedUnitsExample` | services/horasDeclaradasService.ts:78-84 | stored values 30, "2.5" and 10 read as 0.5, 2.5 and 10 hours, and sum to 13, given that `parseFloat("2.5")` is 2.5 |
| `HorasDeclaradas.CreateHorasDeclaradas` | services/horasDeclaradasService.ts:86-105 | fails exactly when the guard fails, with its error and before any write; otherwise it stores the hours converted to minutes and passes `user`, `motivo` and `fechaHorasDeclaradas` through |
| `HorasDeclaradas.CreatedPayloadReadBack` | services/horasDeclaradasService.ts:92-100 | a created record with more than 24 stored minutes reads back as the declared hours to within 1/120 hour |
| `EventCategories.FromName` | constants/eventCategories.ts:1-8 | a string denotes a category exactly when it is that category's literal, and no category when it matches none |
| `EventCategories.NameRoundTrip` | constants/eventCategories.ts:1-8 | going from a category to its literal and back gives the same category |
| `EventCategories.CategoriesEnumerated` | constants/eventCategories.ts:1-6 | there are exactly four categories, each listed once, in the order Talleres de tarde, Comida, Cena, Visita turística |
| `EventCategories.Meta` | constants/eventCategories.ts:18-47 | the table is total; each entry's label is its category's name; each entry's start and end are valid HH:MM times, with the start earlier than the end |
| `EventCategories.MetaDistinguishesCategories` | constants/eventCategories.ts:18-47 | two different categories have different dot classes and different names |
| `HorasObtenidas.IsHoursGeneratingEvent` | services/horasObtenidasService.ts:13 | a category generates hours exactly when its literal is not "Comida" |
| `HorasObtenidas.ThreeCategoriesGenerateHours` | services/horasObtenidasService.ts:13 | Comida is the only category that generates no hours, so three of the four generate hours |
| `HorasObtenidas.EnsureHorasObtenidasConfig` | services/horasObtenidasService.ts:22-27 | passes exactly when the shared client check passes and the earned-hours collection id is set; otherwise it fails with the shared error first, then with "Falta NEXT_PUBLIC_APPWRITE_HORASOBTENIDAS_COLLECTION_ID" |
| `HorasObtenidas.AttendeePayloads` | services/horasObtenidasService.ts:39-51 | one payload per attendee, in order; payload i is for attendee i, with 3 hours and the given `causa` and `fechaObtencion` |
| `HorasObtenidas.CreateHorasObtenidasForAttendees` | services/horasObtenidasService.ts:29-54 | Comida gives the empty list whatever the configuration; any other category fails exactly when the guard fails, and otherwise issues one payload per attendee, in order, each with 3 hours and `causa` and `fechaObtencion` copied |
| `HorasObtenidas.ComidaIgnoresConfig` | services/horasObtenidasService.ts:35-38 | for Comida the result is the same under any two configurations, because the early return comes before the guard |
| `HorasObtenidas.PayloadsRoundTrip` | services/horasObtenidasService.ts:39-53 | the credited users, read back, are the attendee list, and the total credit is 3 hours per attendee (0 for no attendees) |
| `HorasObtenidas.PayloadsAppend` | services/horasObtenidasService.ts:39-51 | issuing for two groups of attendees together gives the concatenation of issuing for each group |
| `SectionFormula.MatchFrom` | utils/sectionFormula.ts:1 | a match found from matcher state q consumes at least `11 - q` characters and no more than are present |
| `SectionFormula.MatchLength` | utils/sectionFormula.ts:1 | a match of `condition\s*:\s*(` is at least 11 characters long |
| `SectionFormula.MatchLengthIff` | utils/sectionFormula.ts:1 | the matcher finds a match of length `n` exactly when the first `n` characters are `condition` in any ASCII case, then `\s` characters, `:`, `\s` characters and `(`; `\s` is the ECMAScript white-space and line-terminator set (tab, line feed, vertical tab, form feed, carriage return, space, no-break space, U+1680, U+2000 to U+200A, U+2028, U+2029, U+202F, U+205F, U+3000, U+FEFF) |
| `SectionFormula.MatchIgnoresCase` | utils/sectionFormula.ts:1 | texts equal up to ASCII case match at the same places with the same lengths (the `i` flag) |
| `SectionFormula.ReplacementMatches` | utils/sectionFormula.ts:1-4 | the replacement `condition:(` is itself exactly one match |
| `SectionFormula.Scan` | utils/sectionFormula.ts:3-4 | the left-to-right scan splits the input into kept characters and whole matches whose concatenation is the input |
| `SectionFormula.ScanTakesEveryMatch` | utils/sectionFormula.ts:1-4 | a character is kept only where no match begins, so every match is replaced, leftmost first (the `g` flag) |
| `SectionFormula.NormalizeSectionConditionSpacing` | utils/sectionFormula.ts:3-4 | the output is never longer than the input |
| `SectionFormula.RenderedNoLonger` | utils/sectionFormula.ts:3-4 | replacing each match by `condition:(` never lengthens the text |
| `SectionFormula.NoMatchUnchanged` | utils/sectionFormula.ts:3-4 | a text with no case-insensitive occurrence of the pattern is returned unchanged |
| `SectionFormula.NormalizeStep` | utils/sectionFormula.ts:3-4 | the output is the lowercase `condition:(` followed by the rewrite of the rest when a match starts the text; otherwise it is the first character, kept, followed by the rewrite of the rest |
| `SectionFormula.NormalizeIdempotent` | utils/sectionFormula.ts:3-4 | normalising twice gives the same text as normalising once |
| `SectionFormula.FixedPointIff` | utils/sectionFormula.ts:3-4 | the output equals the input exactly when every match is already written as lowercase `condition:(` with no spaces |

## Left out

- The Appwrite client is not part of this model (`databases.listDocuments`, `databases.createDocument`, `ID.unique`, `Query`). The store is a sequence of records. Each list call returns the page described above. A create is represented by the payload it writes, without the generated document id or the store's metadata fields.
- Errors raised by the store (network, validation) are not modelled. The modelled store never fails; only configuration errors are.
- `ensureAppwriteConfig` in services/appwriteClient.ts is not part of this model. Its outcome is the `appwriteClientError` field of the configuration. The database id is passed to the store untouched and is not modelled.
- `Number.parseFloat` is a parameter of type `string -> Number`, so its prefix-parsing rules are not modelled.
- Numbers are exact reals. The model ignores IEEE-754 rounding of `hours * 60` and of `/ 60`, ignores `-0`, and ignores `Number.isInteger` and `Math.round` on values beyond 2^53.
- The `Promise.all` fan-out in `createHorasObtenidasForAttendees` is modelled as an order-preserving map. Concurrency, failure of one create among many, and the lack of rollback are not modelled.
- The regular expression runs over Unicode scalar values rather than UTF-16 code units. This gives the same matches, because every character of the pattern and of `\s` lies in the Basic Multilingual Plane.
- The `cardClass` strings of the metadata table are carried as data. No property is stated about them.
- components/EventItem.tsx is UI rendering and is not part of this model.
- The other earned-hours operations (bulk delete, the solo-meal credit, `fetchAll`, raw create and delete) are not in services/horasObtenidasService.ts, so they are not part of this model.
