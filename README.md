# Medical examination assistant: registry, sessions and the examination page

This project is a Dafny model of the domain layer of the medical examination assistant. That layer is a clinical-notes application. A doctor registers patients, opens an examination session and records the consultation. An analysis service turns the recording into a SOAP note (subjective, objective, assessment, plan) and ICD-10 codes, and the doctor saves the note as a draft or as final. A final save is pushed to the hospital information system (HIS) and closes the session.

The model covers four parts, each followed by what is proved about it:

- **The patient registry** (`PatientService`, with `DisplayIds` for the human-readable ids). The `patients` table is a sequence field of the class `Registry`, in insertion order.
  - Display ids `BN-<year>-NNNNNN` are generated and read back. The first id of a year, the round trip, and freshness while the counter is below 999999 are proved. So is the stall once the counter reaches 1,000,000: `padStart` does not truncate, and the text order no longer matches the numeric order.
  - `findPossibleDuplicates` is proved exact: the result holds every stored patient matching by phone, or by name and birth date, each once and nothing else.
  - `createPatient` refuses on duplicates and then leaves the table alone. Otherwise it, and `forceCreatePatient`, append exactly one row.
  - `updatePatient` is a sparse update: supplied fields are overwritten and absent ones kept.
  - For paging, the defaults, offset, window, page count and newest-first order are proved. Reading every page gives back every row once.
- **The session lifecycle** (`SessionService` over the tables of `SessionSchema`). The `examination_sessions` and `medical_records` tables are sequence fields of the class `SessionStore`. Its invariant holds the declared keys (unique ids, and every record naming an existing session) and one record per session. The schema declares no unique key on `session_id`; the upsert of `saveMedicalRecord` keeps that last property.
  - `createSession` backfills the visit id, name, patient info and medical history with a fixed precedence: the input, then the HIS, then a default.
  - `saveMedicalRecord` upserts the record of a session. A final save calls `finalizeRecord`, which sends the note to the HIS only when the session has a visit id, ignores the reply, and always marks the session completed.
  - Neither status has a transition guard, and lemmas state this.
- **The examination page** (`ExaminationPage`).
  - `transformIcdCodes` splits `CODE - description` entries.
  - The matching engine is proved to see exactly the codes the review form shows.
  - `getSpeakerStyle` classifies a transcript speaker, trying doctor before patient.
  - The two handlers reset and flag the page state, held as fields of the class `PageState`.
- **Shared JavaScript semantics** (`JsValues`, `Text`, `Decimal`):
  - truthiness and `||` on optional strings;
  - how Drizzle's `set()` treats an absent key;
  - `trim` with the ECMAScript white-space set;
  - `toLowerCase` on ASCII, Latin-1 and the Vietnamese letters;
  - `indexOf` and `split`;
  - `parseInt`, `toString` and `padStart`;
  - SQLite's code-point order on text.

The clock, the current year, random UUIDs and id suffixes, and the HIS replies are parameters. Each fresh id comes with a precondition that it is not yet a key. Calls are sequential, and one instant `now` is used per call.

Three behaviours of the code are worth stating outright:

- The update path of `saveMedicalRecord` is sparse: Drizzle skips keys whose value is `undefined`, so omitted SOAP fields keep their stored value (`MergeRecord`, `MergeRecordFields`).
- Neither status has a transition guard. `updateSessionStatus` overwrites the status whatever it was, and a draft save turns a final record back into a draft (`NoTransitionGuard`, `FinalRecordReopens`).
- The schema comments give ids as `sess_<uuid>` and `rec_<uuid>`. The code builds `sess_<Date.now()>_<random>` and `rec_<Date.now()>_<random>`. The model follows the code (`SessionId`, `RecordId`).

## Model

| member | source | states |
|---|---|---|
| JsValues.OrNullFacts | medical-examination-assistant/src/lib/services/patientService.ts:152-161 | `v \|\| null` never stores an empty string, keeps exactly the truthy values, and gives NULL exactly for the falsy ones |
| JsValues.OrEmptyFacts | medical-examination-assistant/src/lib/services/sessionService.ts:224-227 | `v \|\| ''` reads NULL and the empty string both as `''` and any other value as itself |
| Text.TrimStart | medical-examination-assistant/src/app/page.tsx:177-178 | the dropped prefix is all white space and what is left starts with a non-space (or is empty) |
| Text.Trim | medical-examination-assistant/src/app/page.tsx:177-178 | `trim` returns a contiguous slice of the input: everything before and after it is white space, and the slice is empty or starts and ends with a non-space |
| Text.TrimUnchanged | medical-examination-assistant/src/app/page.tsx:177-178 | a string with no white space at either end is its own trim |
| Text.ToLower | medical-examination-assistant/src/app/page.tsx:185 | `toLowerCase` keeps the length, and each character is mapped on its own through the fixed table of upper- to lower-case letters |
| Text.ToLowerIdempotent | medical-examination-assistant/src/app/page.tsx:185 | the table maps onto lower case only, so lower-casing twice is lower-casing once |
| Text.IndexFrom | medical-examination-assistant/src/app/page.tsx:175 | the search from a position finds an occurrence with none between the start and it, or reports that there is none from there on |
| Text.IndexOf | medical-examination-assistant/src/app/page.tsx:175 | `indexOf`: the index returned is an occurrence of the separator with none before it; None exactly when the separator occurs nowhere |
| Text.FirstOccurrence | medical-examination-assistant/src/app/page.tsx:175 | an occurrence with none before it is what `indexOf` returns |
| Text.Split | medical-examination-assistant/src/app/page.tsx:175 | `split` returns at least one piece; `JoinSplit`, `SplitPiecesFree`, `SplitNone` and `SplitFirstTwo` give its meaning |
| Text.JoinSplit | medical-examination-assistant/src/app/page.tsx:175 | joining the pieces of a split with the separator gives back the string |
| Text.SplitPiecesFree | medical-examination-assistant/src/app/page.tsx:175 | no piece of a split contains the separator |
| Text.SplitAfter | medical-examination-assistant/src/app/page.tsx:175 | a head with no character that could start the separator, followed by the separator, is the first piece, and the rest splits on its own |
| Text.SplitNone | medical-examination-assistant/src/app/page.tsx:175 | a string without the separator's first character splits into itself |
| Text.AbsentChar | medical-examination-assistant/src/app/page.tsx:186 | a string lacking any one character of a word does not contain the word |
| Text.PrefixBeforeFirst | medical-examination-assistant/src/app/page.tsx:175 | the part before the first occurrence contains no occurrence |
| Text.RejoinFirst | medical-examination-assistant/src/app/page.tsx:175 | re-joining the first piece with a separator-free second piece splits back into those two |
| Text.SplitFirstTwo | medical-examination-assistant/src/app/page.tsx:175-178 | pieces 0 and 1 of a split, re-joined, split back into exactly those two pieces |
| Text.LexLessIrreflexive | medical-examination-assistant/src/lib/services/patientService.ts:61 | no string sorts before itself in `ORDER BY` text order |
| Text.LexLessTransitive | medical-examination-assistant/src/lib/services/patientService.ts:61 | text order is transitive |
| Text.LexLessTotal | medical-examination-assistant/src/lib/services/patientService.ts:61 | any two distinct strings are ordered one way or the other |
| Text.LexLessAsymmetric | medical-examination-assistant/src/lib/services/patientService.ts:61 | text order is asymmetric |
| Text.LexLessCommonPrefix | medical-examination-assistant/src/lib/services/patientService.ts:60-61 | a shared prefix such as `BN-<year>-` does not change the order |
| Text.MaxLex | medical-examination-assistant/src/lib/services/patientService.ts:57-62 | `ORDER BY DESC LIMIT 1`: the id picked is stored and no stored id sorts after it |
| Text.MaxLexUnique | medical-examination-assistant/src/lib/services/patientService.ts:57-62 | the greatest id is the only one nothing exceeds |
| Decimal.DigitChar | medical-examination-assistant/src/lib/services/patientService.ts:74 | a digit value is written as the digit character of that value |
| Decimal.DigitsValue | medical-examination-assistant/src/lib/services/patientService.ts:69 | a numeral of k digits denotes a number below 10^k |
| Decimal.NatToDecimal | medical-examination-assistant/src/lib/services/patientService.ts:74 | `toString` of a natural number is a non-empty run of digits, with no leading zero unless the number is 0 |
| Decimal.NatToDecimalValue | medical-examination-assistant/src/lib/services/patientService.ts:74 | reading the numeral back gives the number |
| Decimal.NatToDecimalLength | medical-examination-assistant/src/lib/services/patientService.ts:74 | a number below 10^k has at most k digits |
| Decimal.DigitsValueLeadingZeros | medical-examination-assistant/src/lib/services/patientService.ts:74 | leading zeros do not change the value of a numeral |
| Decimal.PadStart | medical-examination-assistant/src/lib/services/patientService.ts:74 | `padStart` never truncates: the original is the suffix, the fill is on the left, the length is the larger of the two |
| Decimal.LeadingDigits | medical-examination-assistant/src/lib/services/patientService.ts:69 | the longest run of digits at the front |
| Decimal.ParseInt | medical-examination-assistant/src/lib/services/patientService.ts:69 | `parseInt(s, 10)`: white space, an optional sign and the leading digits; None for NaN. `ParseIntDigits` states that a plain numeral reads exactly |
| Decimal.ParseIntDigits | medical-examination-assistant/src/lib/services/patientService.ts:69 | `parseInt` reads a plain numeral exactly |
| DisplayIds.OfYear | medical-examination-assistant/src/lib/services/patientService.ts:57-60 | the `LIKE 'BN-<year>-%'` filter keeps exactly the ids with the year's prefix |
| DisplayIds.SequenceNumber | medical-examination-assistant/src/lib/services/patientService.ts:67-69 | `parseInt(id.split('-')[2], 10)`; `SequenceNumberRoundTrip` and `SequenceNumberOfDigits` give its meaning |
| DisplayIds.NextNumber | medical-examination-assistant/src/lib/services/patientService.ts:64-71 | the number of the next id; `FirstOfYear`, `NextAfterGreatest` and `NextNumberBelowBound` state what it is |
| DisplayIds.FormatNumber | medical-examination-assistant/src/lib/services/patientService.ts:74 | the padded number is at least six characters long |
| DisplayIds.NextDisplayId | medical-examination-assistant/src/lib/services/patientService.ts:52-76 | the generated id starts with `BN-<year>-` and has at least six characters after it; `NextIsFresh` and `CounterStallsPastCapacity` state when it is new |
| DisplayIds.FirstOfYear | medical-examination-assistant/src/lib/services/patientService.ts:64-75 | without an id of the year the result is `BN-<year>-000001` |
| DisplayIds.NextAfterGreatest | medical-examination-assistant/src/lib/services/patientService.ts:57-75 | otherwise the number is the parsed suffix of the greatest id of the year plus one, written padded |
| DisplayIds.SequenceNumberOfDigits | medical-examination-assistant/src/lib/services/patientService.ts:68-69 | field 2 of `BN-<year>-<digits>` parses to the value of the digits |
| DisplayIds.PaddedNumeral | medical-examination-assistant/src/lib/services/patientService.ts:74 | the padded numeral is all digits, of value n, and six long for n below 10^6 |
| DisplayIds.SequenceNumberRoundTrip | medical-examination-assistant/src/lib/services/patientService.ts:66-74 | parsing field 2 of a generated id gives back its number |
| DisplayIds.DigitsOrder | medical-examination-assistant/src/lib/services/patientService.ts:61 | equal-length numerals are in text order exactly when they are in numeric order |
| DisplayIds.NextNumberBelowBound | medical-examination-assistant/src/lib/services/patientService.ts:57-70 | with every id of the year well formed and below 999999, the next number is one more than the largest stored one |
| DisplayIds.BelowPrecedes | medical-examination-assistant/src/lib/services/patientService.ts:61 | a well-formed id of smaller value sorts before the id of n and parses to its value |
| DisplayIds.NextIsFresh | medical-examination-assistant/src/lib/services/patientService.ts:57-75 | under that bound the new id is well formed, greater than every stored id of the year in text and in number, and not already stored |
| DisplayIds.OverSortsFirst | medical-examination-assistant/src/lib/services/patientService.ts:61-74 | `BN-<year>-1000000` sorts before `BN-<year>-999999` |
| DisplayIds.NextAfterFull | medical-examination-assistant/src/lib/services/patientService.ts:57-75 | while `BN-<year>-999999` is the greatest id, the next id is `BN-<year>-1000000` |
| DisplayIds.CounterStallsPastCapacity | medical-examination-assistant/src/lib/services/patientService.ts:57-75 | past 999999 the generator returns `BN-<year>-1000000` again after storing it: it repeats ids |
| SessionSchema.ParseSessionStatus | medical-examination-assistant/src/lib/db/schema-session.ts:19-21 | only the three enum texts read as a session status, each as its own |
| SessionSchema.ParseRecordStatus | medical-examination-assistant/src/lib/db/schema-session.ts:55-57 | only `draft` and `final` read as a record status |
| SessionSchema.StatusTextRoundTrip | medical-examination-assistant/src/lib/db/schema-session.ts:19-57 | every status is stored as a text that reads back as that status |
| PatientService.Where | medical-examination-assistant/src/lib/services/patientService.ts:92-95 | a `WHERE` query returns exactly the stored rows satisfying the clause, no more rows than stored |
| PatientService.FirstWhere | medical-examination-assistant/src/lib/services/patientService.ts:216-222 | `LIMIT 1`: a stored satisfying row, or None exactly when no row satisfies |
| PatientService.IndexOfId | medical-examination-assistant/src/lib/services/patientService.ts:116-118 | the Map entry of an id, or none when the id is not a key yet |
| PatientService.UniqueById | medical-examination-assistant/src/lib/services/patientService.ts:116-118 | the Map of rows keyed by id is no longer than its input; `UniqueByIdFacts` states what it holds |
| PatientService.Duplicates | medical-examination-assistant/src/lib/services/patientService.ts:85-121 | no more duplicates than rows found by the two lookups; `DuplicatesExact` states which |
| PatientService.UniqueByIdFacts | medical-examination-assistant/src/lib/services/patientService.ts:116-118 | deduplicating through a Map keyed by id keeps every row once and adds none |
| PatientService.DuplicatesExact | medical-examination-assistant/src/lib/services/patientService.ts:85-121 | the duplicates are exactly the stored rows matching by phone or by name and birth date, no id twice |
| PatientService.DuplicatesEmptyCriteria | medical-examination-assistant/src/lib/services/patientService.ts:91-101 | with no truthy phone and not both name and birth date, there are no duplicates |
| PatientService.NewPatient | medical-examination-assistant/src/lib/services/patientService.ts:149-164 | the row registration stores; `NewPatientFields` states it field by field |
| PatientService.NewPatientFields | medical-examination-assistant/src/lib/services/patientService.ts:143-166 | a new row keeps the given ids and name; each of the nine optional fields is stored as given when truthy and as NULL otherwise; `createdAt == updatedAt` |
| PatientService.Merge | medical-examination-assistant/src/lib/services/patientService.ts:349-355 | an update keeps id, display id and `createdAt` and sets `updatedAt` to now |
| PatientService.MergeNothing | medical-examination-assistant/src/lib/services/patientService.ts:351-354 | an update without fields only touches `updatedAt` |
| PatientService.MergeIdempotent | medical-examination-assistant/src/lib/services/patientService.ts:349-355 | applying the same update twice equals applying it once |
| PatientService.MergeFields | medical-examination-assistant/src/lib/services/patientService.ts:351-354 | each of the ten updatable fields reads back as supplied when its key is present and as before when absent |
| PatientService.UpdateRows | medical-examination-assistant/src/lib/services/patientService.ts:349-355 | only the rows with that id change, and those by `Merge` |
| PatientService.PageSize | medical-examination-assistant/src/lib/services/patientService.ts:246 | `limit \|\| 20` is never 0 |
| PatientService.PagingDefaults | medical-examination-assistant/src/lib/services/patientService.ts:245-247 | absent or 0 page and limit give offset 0 and size 20; explicit ones give `(page-1)*limit` |
| PatientService.Window | medical-examination-assistant/src/lib/services/patientService.ts:268-269 | `LIMIT/OFFSET` returns at most `limit` rows, the slice from the offset |
| PatientService.Offset | medical-examination-assistant/src/lib/services/patientService.ts:247 | `(page - 1) * limit`; `PagingDefaults` states its values |
| PatientService.PageCount | medical-examination-assistant/src/lib/services/patientService.ts:324 | `Math.ceil(total / limit)`; `PageCountIsCeiling` states that it is the least page count holding every row |
| PatientService.PageCountIsCeiling | medical-examination-assistant/src/lib/services/patientService.ts:324 | `Math.ceil(total / limit)` is the least number of pages holding every row |
| PatientService.FirstPagesArePrefix | medical-examination-assistant/src/lib/services/patientService.ts:313-316 | the first n pages are exactly the first n·limit rows |
| PatientService.PagesCoverAllRows | medical-examination-assistant/src/lib/services/patientService.ts:313-324 | reading pages 1 to `pages` returns every row once, in order |
| PatientService.InsertByNewest | medical-examination-assistant/src/lib/services/patientService.ts:267 | inserting into a newest-first list keeps it newest first and adds exactly that row |
| PatientService.SortByNewest | medical-examination-assistant/src/lib/services/patientService.ts:267 | `ORDER BY created_at DESC` yields a newest-first permutation of the table |
| PatientService.SearchRows | medical-examination-assistant/src/lib/services/patientService.ts:281-285 | each result row carries the selected columns with zero visits and no last visit |
| PatientService.PageOfFacts | medical-examination-assistant/src/lib/services/patientService.ts:257-269 | a page holds at most `limit` rows, each made from a stored row |
| PatientService.WindowKeepsOrder | medical-examination-assistant/src/lib/services/patientService.ts:314-316 | a page taken from the newest-first order is newest first |
| PatientService.Registry.FindPossibleDuplicates | medical-examination-assistant/src/lib/services/patientService.ts:85-121 | returns every stored patient matching by phone or by name and birth date, and only those, each id once |
| PatientService.Registry.GenerateDisplayId | medical-examination-assistant/src/lib/services/patientService.ts:52-76 | the next display id for the stored ids; `BN-<year>-000001` when none is of that year |
| PatientService.Registry.Insert | medical-examination-assistant/src/lib/services/patientService.ts:166 | appends exactly the row and keeps ids unique |
| PatientService.Registry.CreatePatient | medical-examination-assistant/src/lib/services/patientService.ts:129-171 | with duplicates: `POSSIBLE_DUPLICATE` with the list, table unchanged; otherwise exactly the new row is appended |
| PatientService.Registry.ForceCreatePatient | medical-examination-assistant/src/lib/services/patientService.ts:186-210 | always appends exactly the new row |
| PatientService.Registry.GetPatientById | medical-examination-assistant/src/lib/services/patientService.ts:215-223 | the stored row with that id, None exactly when there is none |
| PatientService.Registry.GetPatientByDisplayId | medical-examination-assistant/src/lib/services/patientService.ts:228-236 | a stored row with that display id, None exactly when there is none |
| PatientService.Registry.UpdatePatient | medical-examination-assistant/src/lib/services/patientService.ts:343-358 | only the row with that id changes, by the supplied fields and `updatedAt`; returns it refreshed, None for an unknown id |
| PatientService.Registry.SearchPatients | medical-examination-assistant/src/lib/services/patientService.ts:241-291 | one newest-first page of the matching rows and their count; every row returned matches |
| PatientService.Registry.ListPatients | medical-examination-assistant/src/lib/services/patientService.ts:296-338 | one newest-first page, the table size and `ceil(total/limit)` pages, enough to hold every row |
| SessionService.HisDataOf | medical-examination-assistant/src/lib/services/sessionService.ts:66-72 | the HIS data the service goes on; `HisIgnoredUnlessConsulted` and `FailedHisReplyIsNoData` state when there is none |
| SessionService.NewSession | medical-examination-assistant/src/lib/services/sessionService.ts:75-84 | the session row `createSession` inserts; `NewSessionPrecedence` states it field by field |
| SessionService.NewSessionPrecedence | medical-examination-assistant/src/lib/services/sessionService.ts:75-84 | each of visit id, name, patient info and medical history is the truthy input value, else the HIS value, else its default (`null`, `Unknown`, `{}`, `null`); no empty string is stored; active, created and updated at once |
| SessionService.HisIgnoredUnlessConsulted | medical-examination-assistant/src/lib/services/sessionService.ts:66-72 | when a name is given and no visit id, the HIS reply makes no difference |
| SessionService.FailedHisReplyIsNoData | medical-examination-assistant/src/lib/services/sessionService.ts:69-71 | an unsuccessful or empty reply counts as no HIS data |
| SessionService.RouteValidatedName | medical-examination-assistant/src/app/api/session/create/route.ts:13 | behind the route's non-blank name check the given name is stored and the HIS is consulted only for a visit id |
| SessionService.NewRecord | medical-examination-assistant/src/lib/services/sessionService.ts:171-182 | the row a first save inserts; `NewRecordFields` states it field by field |
| SessionService.MergeRecord | medical-examination-assistant/src/lib/services/sessionService.ts:141-149 | the row a repeat save leaves; `MergeRecordFields` states it field by field |
| SessionService.NewRecordFields | medical-examination-assistant/src/lib/services/sessionService.ts:171-182 | a first save stores each of the four SOAP fields as given when truthy and as NULL otherwise, the ICD list or `[]`, the input status, equal timestamps |
| SessionService.MergeRecordFields | medical-examination-assistant/src/lib/services/sessionService.ts:141-149 | a repeat save keeps id, session and `createdAt`; each of the four SOAP fields is overwritten when supplied and kept when absent; ICD list, status and `updatedAt` are always written |
| SessionService.FinalRecordReopens | medical-examination-assistant/src/lib/services/sessionService.ts:147 | a draft save turns a final record back into a draft |
| SessionService.Payload | medical-examination-assistant/src/lib/services/sessionService.ts:223-229 | the body of `updateVisit`; `PayloadOfNewRecord` states what the HIS receives |
| SessionService.PayloadOfNewRecord | medical-examination-assistant/src/lib/services/sessionService.ts:223-229 | the HIS receives the typed SOAP text, `''` for each field left out, and the ICD list |
| SessionService.FindSession | medical-examination-assistant/src/lib/services/sessionService.ts:96-102 | a stored session with that id, None exactly when there is none |
| SessionService.FindRecord | medical-examination-assistant/src/lib/services/sessionService.ts:128-132 | a stored record of that session, None exactly when there is none |
| SessionService.FindRecordUnique | medical-examination-assistant/src/lib/services/sessionService.ts:128-132 | with one record per session, the record found is the only one |
| SessionService.SetStatus | medical-examination-assistant/src/lib/services/sessionService.ts:112-118 | only the session with that id changes, and only its status and `updatedAt` |
| SessionService.SetStatusKeepsTables | medical-examination-assistant/src/lib/services/sessionService.ts:108-119 | a status update keeps every table invariant |
| SessionService.NoTransitionGuard | medical-examination-assistant/src/lib/services/sessionService.ts:108-119 | any status may follow any status; an unknown id changes nothing |
| SessionService.SavedRecord | medical-examination-assistant/src/lib/services/sessionService.ts:136-186 | the saved record belongs to the input's session, with its status and `updatedAt` now; a first save's record has the new id and `createdAt` now |
| SessionService.Upsert | medical-examination-assistant/src/lib/services/sessionService.ts:136-184 | a repeat save keeps the record count; a first save appends exactly the new record |
| SessionService.RepeatSaveUpdatesInPlace | medical-examination-assistant/src/lib/services/sessionService.ts:136-150 | a repeat save updates the existing record in place, same id and `createdAt`, all others untouched |
| SessionService.SavedRecordStored | medical-examination-assistant/src/lib/services/sessionService.ts:152-159 | the record returned is the one the table holds afterwards |
| SessionService.UpsertKeepsTables | medical-examination-assistant/src/lib/db/schema-session.ts:36-43 | a save keeps unique ids, the reference to sessions and one record per session |
| SessionService.FinalizeCall | medical-examination-assistant/src/lib/services/sessionService.ts:219-232 | `updateVisit` is called exactly when the session exists and has a truthy visit id |
| SessionService.FinalizeCallFacts | medical-examination-assistant/src/lib/services/sessionService.ts:219-232 | the call goes to that session's visit id with the record's payload; none for an unknown session |
| SessionService.SessionStore.CreateSession | medical-examination-assistant/src/lib/services/sessionService.ts:61-90 | inserts exactly one session built from the input and the consulted HIS reply; records unchanged |
| SessionService.SessionStore.GetSession | medical-examination-assistant/src/lib/services/sessionService.ts:95-103 | the session with that id, None exactly when there is none |
| SessionService.SessionStore.UpdateSessionStatus | medical-examination-assistant/src/lib/services/sessionService.ts:108-119 | overwrites the status whatever it was and bumps `updatedAt`; records unchanged |
| SessionService.SessionStore.GetMedicalRecordBySession | medical-examination-assistant/src/lib/services/sessionService.ts:200-210 | the only record of that session, None exactly when there is none |
| SessionService.SessionStore.FinalizeRecord | medical-examination-assistant/src/lib/services/sessionService.ts:217-244 | the HIS call when there is a visit id, and the session completed in every case |
| SessionService.SessionStore.SaveMedicalRecord | medical-examination-assistant/src/lib/services/sessionService.ts:126-195 | the upsert of the session's record; a final save completes the session and makes the HIS call; a draft save touches no session; a first save for an unknown session fails on the foreign key and changes nothing |
| SessionService.SessionStore.HasSessionRow | medical-examination-assistant/src/lib/db/schema-session.ts:41-43 | the foreign-key check: a session row with that id exists |
| ExaminationPage.TransformCode | medical-examination-assistant/src/app/page.tsx:175-178 | one entry's pair; `GastritisEntry`, `EntryWithoutSeparator` and `ExtraPiecesDropped` state what it is |
| ExaminationPage.FromPieces | medical-examination-assistant/src/app/page.tsx:177-178 | the code is empty only for an empty entry, and a single piece has no description |
| ExaminationPage.TransformIcdCodes | medical-examination-assistant/src/app/page.tsx:173-181 | one pair per entry, same length and order |
| ExaminationPage.MatchingEngineCodes | medical-examination-assistant/src/app/page.tsx:458 | one code per entry |
| ExaminationPage.MatchingEngineSeesTheFormCodes | medical-examination-assistant/src/app/page.tsx:447-458 | the matching engine's code list equals the codes of the review form's pairs |
| ExaminationPage.CodeNeverEmpty | medical-examination-assistant/src/app/page.tsx:177 | the code is empty only for an empty entry |
| ExaminationPage.GastritisPieces | medical-examination-assistant/src/app/page.tsx:175 | `K29.7 - Viêm dạ dày` splits into `K29.7` and `Viêm dạ dày` |
| ExaminationPage.FromTrimmedPieces | medical-examination-assistant/src/app/page.tsx:177-178 | two trimmed pieces are the code and the description as they stand |
| ExaminationPage.GastritisEntry | medical-examination-assistant/src/app/page.tsx:171-178 | `K29.7 - Viêm dạ dày` maps to code `K29.7`, description `Viêm dạ dày` |
| ExaminationPage.EntryWithoutSeparator | medical-examination-assistant/src/app/page.tsx:177-178 | without ` - ` the description is empty and the code is the trimmed entry, or the entry when that is blank |
| ExaminationPage.ExtraPiecesDropped | medical-examination-assistant/src/app/page.tsx:175-178 | pieces after the second make no difference to the pair |
| ExaminationPage.GetSpeakerStyle | medical-examination-assistant/src/app/page.tsx:184-192 | the style is the doctor's, the patient's or the fallback for the role |
| ExaminationPage.NormalizeRole | medical-examination-assistant/src/app/page.tsx:185 | the normalized role is the lower-cased role with only white space removed at each end, and has none left at either end |
| ExaminationPage.SpeakerClassification | medical-examination-assistant/src/app/page.tsx:185-191 | doctor exactly when the lower-cased trimmed role contains `bác sĩ` or is `doctor`; patient exactly when not a doctor and it contains `bệnh nhân` or is `patient`; the fallback label is `💬 ` plus the original role |
| ExaminationPage.StyleDependsOnNormalizedRole | medical-examination-assistant/src/app/page.tsx:185 | roles that normalize alike and name a doctor or a patient get the same style |
| ExaminationPage.UpperCaseDoctor | medical-examination-assistant/src/app/page.tsx:185-187 | `BÁC SĨ` is a doctor |
| ExaminationPage.UpperCasePatient | medical-examination-assistant/src/app/page.tsx:185-189 | `BỆNH NHÂN` is a patient |
| ExaminationPage.PageState.constructor | medical-examination-assistant/src/app/page.tsx:38-49 | the initial values of the state hooks |
| ExaminationPage.PageState.HandleSessionCreated | medical-examination-assistant/src/app/page.tsx:75-82 | the new session is current; transcripts, full text, analysis and the saved flag are cleared; nothing else changes |
| ExaminationPage.PageState.HandleMedicalRecordSave | medical-examination-assistant/src/app/page.tsx:164-168 | a final save raises the saved flag, a draft save leaves it, it is never cleared; nothing else changes |

## Left out

- DisplayIds.NextIsFresh: freshness is proved only while every id of the year is below 999999. At 1,000,000 the generator repeats ids, and `CounterStallsPastCapacity` proves that.
- ExaminationPage.ExtraPiecesDropped: the whole pair is equal only when piece 0 is not blank. Otherwise the code falls back to the entry, which differs; only the description is equal in every case.
- The `label` field of a speaker style is named `labelText`, as `label` is a Dafny keyword.
- The `data` argument of `handleMedicalRecordSave` is not modelled, as the handler does not use it.
- `LIKE` is modelled without SQLite's ASCII case folding and without the `%`/`_` wildcards inside a pattern. In `searchPatients` it is a plain substring test. In `generateDisplayId` (`OfYear`) it is a case-exact prefix test, so a stored `bn-2024-000007` would match the query but not the model.
- `trim` and `toLowerCase` work on a fixed character set: the ECMAScript white space, and the ASCII, Latin-1 and Vietnamese letters. Other Unicode case mappings are not covered.
- `parseInt` covers signs and decimal digits with unbounded integers. JavaScript's floating-point rounding of huge numerals is not modelled.
- Timestamps are plain integers, one `now` per call. The two `new Date()` calls of `createSession` are taken as one instant, and the millisecond-to-second storage of the timestamp columns is not modelled.
- The `DATABASE_ERROR` outcome of `createPatient` (any exception thrown by the database) is not modelled. Neither is an exception thrown by the HIS client.
- The HIS client is an oracle and its transport is not modelled. Each of the two calls is modelled one way only. The reply of `getCurrentSession(true)` is a parameter of `CreateSession`, but whether the call was made is not an output (`ConsultsHis` says when it is). The call to `updateVisit` is an output of `FinalizeRecord` and `SaveMedicalRecord`, but its reply is not modelled, because the code only logs it.
- `hisData.patientInfo.name` is taken only when it is a JSON string. A non-string name, which JavaScript would store as is, is not modelled.
- The JSON encoding of the `icd_codes` and `patient_info` columns is not modelled. The columns hold the decoded values.
- `medical-examination-assistant/src/lib/db/schema-patient.ts` is not part of this model. The patients table is taken with `id` as its primary key.
- `ORDER BY created_at DESC` has no tie-breaker and SQLite promises no order among rows created at the same instant. `SortByNewest` keeps such rows in table order. `PagesCoverAllRows` (every row once across pages) rests on that choice, which holds only if SQLite returns the same tie order for every page.
- Concurrency is not modelled: calls are sequential. This leaves out the read-then-insert race of display-id generation.
- The HTTP route handlers are left out, except the non-blank name check of the create route, which is the precondition of `RouteValidatedName`.
- The dashboard service and page are left out. They are aggregate counts and local-time date arithmetic over columns outside the shown schema.
- `src/lib/db/schema-booking.ts` is left out. It declares tables and has no behaviour.
- The page's audio capture, its calls to the transcription and analysis services, its alerts and its rendering are left out.
