# NextGen web backend and typeahead: a verified model

This project models the request handlers of the NextGen web application's
Express backend. They cover conferences and their registrations, institution
reps and rep assignments, the hero-slide carousel, editable content blocks
and member sign-up. It also models the typeahead of the public registration
form. The SQLite database is the class `Schema.Database`. It has one
sequence of rows and one id counter per table. The `Valid` predicates keep
ids ascending and below the counter, and keep content section keys unique.
Each SQL statement is a function on a table value in `Tables` or in the
module of its route file:

- `Where` is a SELECT.
- `First` is `rows[0]` of a SELECT.
- `Update` rewrites every matching row.
- `Delete` removes every matching row.
- `OrderBy` is a sort that the lemmas prove sorted and a permutation.

Each handler is a method that reads and writes those fields, step by step,
in the order the handler does. It is proved against a specification
function of the old tables. Lemmas then state what the handler promises
about that function.

Request bodies are JavaScript values (`Values.Value`), so truthiness (`!x`,
`x || y`) is exact: `0`, `""`, `null`, `undefined` and `false` are all falsy.
`Bind` models what the driver stores for a parameter: `undefined` becomes NULL
and booleans become 1/0. `Matches` models `column = ?`, where NULL matches
nothing. The clock (`CURRENT_TIMESTAMP`, `Date.now()`), `Math.random()`,
`uuidv4()`, `toLocaleDateString` and `JSON.parse` of untrusted text are
parameters. `uuid(k)` is the k-th UUID drawn.

Modules, one file each:

- `Values`: JavaScript values and text helpers.
- `Tables`: rows, statements, ordering and the key invariant.
- `Schema`: row types and the database class.
- One module per route file: `Content`, `Members`, `HeroSlides`,
  `Conferences`, `Registrations`, `Reps`, `RepAssignments`.
- `Typeahead`: its closure state is the class `Typeahead.Typeahead`, and its
  handlers are specified by functions on the snapshot `View`.

Where the source's own comments promise more than its code does, the model
follows the code. This covers the "Generate unique referral code" comment
(backend/routes/reps.js:7) and the "Generate unique attendee code" comment
(backend/routes/registrations.js:52):

- The referral-code loop inserts the last code drawn after ten collisions
  (it does not fail).
- Neither the attendee code nor the referral code is guaranteed unique.
- A manual assignment rewrites every assignment of the registration. The
  register inserts its assignment without looking for an earlier one, so a
  registration can hold more than one assignment.

## Model

| member | source | states |
|---|---|---|
| Values.Or | backend/routes/content.js:55 | `a \|\| b` is truthy iff either operand is, and is `a` whenever `a` is truthy |
| Values.Flag | backend/routes/members.js:49 | `v ? 1 : 0` is 0 or 1, and 1 exactly for a truthy value |
| Values.Upper | backend/routes/reps.js:9 | upper-casing keeps the length and maps each character through the ASCII case map |
| Values.Lower | frontend/typeahead.js:57-59 | lower-casing keeps the length and maps each character through the ASCII case map |
| Values.Substr | backend/routes/registrations.js:53 | `substr(start, len)` is at most `len` long and is the slice when it fits |
| Values.Prefix | backend/routes/reps.js:9 | `substring(0, n)` is a prefix of length `min(n, \|s\|)` |
| Values.Join | backend/routes/conferences.js:29 | joining no parts is empty, one part is itself, two parts are joined by the separator |
| Tables.MapEach | backend/routes/conferences.js:103-107 | `rows.map(f)`: one result per row, the k-th being `f` of the k-th row; read-back lists are `MapEach(rows, Parsed)`, and the members export (members.js:107-110) is `MapEach(rows, Export)` |
| Content.ContentMapSpec | backend/routes/content.js:10-14 | a key is in the map iff some row has it, and it maps to the LAST row with that key |
| Content.ContentMapUniqueKeys | backend/routes/content.js:10-14 | with unique section keys every row is found under its own key |
| Content.GetAll | backend/routes/content.js:8-15 | the `forEach` loop builds exactly the map of the table |
| Content.GetOne | backend/routes/content.js:23-32 | answers a row of the table with the key, and not-found iff no row has it |
| Content.UpsertAbsent | backend/routes/content.js:45-51 | an absent key appends one row; falsy fields are stored as NULL, and every field holds a bound value (never `undefined`, never a boolean) |
| Content.UpsertPresent | backend/routes/content.js:45-56 | a present key keeps length and ids, changes only its row, takes truthy new values (as bound: `true` is stored as 1) and keeps old ones otherwise, so no truthy field is cleared; every field of the row holds a bound value |
| Content.PatchedAgain | backend/routes/content.js:50-55 | patching again with the same body changes no field, after an update or an insert |
| Content.UpsertIdempotent | backend/routes/content.js:45-56 | applying the same upsert twice leaves the same ids and field values as once |
| Content.Upsert | backend/routes/content.js:40-60 | the handler writes exactly the upsert's table, keeps keys unique, and answers the row with the key, whose fields are values as the driver binds them (booleans as 1/0) |
| Content.UpsertBound | backend/routes/content.js:45-56 | after the upsert every row with the key holds bound values in each written column |
| Members.Rejection | backend/routes/members.js:27-35 | missing fields iff a required field (age 0 included) is falsy; email taken iff the fields pass and a row has the email; accepted otherwise |
| Members.Register | backend/routes/members.js:11-54 | a rejection changes nothing; success appends exactly the normalised row |
| Members.RegisteredEmailBlocks | backend/routes/members.js:32-52 | once stored, an email rejects every later complete request with it; the stored flag is 0/1 and the age truthy |
| Members.NewestFirstTotal | backend/routes/members.js:64 | `ORDER BY created_at DESC` is a total preorder |
| Members.ListMembers | backend/routes/members.js:62-65 | the list is a permutation of the table, newest first |
| Members.Count | backend/routes/members.js:73-76 | the count equals the length of the member list |
| Members.Export | backend/routes/members.js:107-110 | the voter column reads "Yes" or "No", "Yes" iff the stored flag is non-zero |
| Members.ExportRoundTrip | backend/routes/members.js:107-110 | reading an exported record back gives the row for every 0/1 flag, so nothing else is altered |
| HeroSlides.MaxOrderIndex | backend/routes/hero-slides.js:8 | `MAX(order_index)` bounds every index and is attained |
| HeroSlides.NextOrderIndex | backend/routes/hero-slides.js:7-10 | 1 on an empty table, else one more than an existing index, and above all of them |
| HeroSlides.ButtonList | backend/routes/hero-slides.js:74 | the stored buttons are always a list |
| HeroSlides.WrittenSpec | backend/routes/hero-slides.js:116-131 | the six written columns depend on the request alone (rewriting is idempotent); buttons a list, the given one when it is an array; alignment defaults to 'left'; active flag 0/1; order, ownership and creation time kept |
| HeroSlides.ParsedSpec | backend/routes/hero-slides.js:94 | reading back changes only the buttons, never a list, and they end up truthy |
| HeroSlides.CreateSlide | backend/routes/hero-slides.js:58-96 | refused iff the title is falsy, with no change; otherwise appends one manual slide at the next order index and answers it read back |
| HeroSlides.RereadAfterOverwrite | backend/routes/hero-slides.js:118-139 | after the overwrite the re-read by id finds the rewritten row |
| HeroSlides.UpdateSlide | backend/routes/hero-slides.js:104-142 | the table is the full overwrite of the row with the id; not-found iff no such row, with no change |
| HeroSlides.DeleteSlide | backend/routes/hero-slides.js:150-159 | removes the row with the id (one row at most); not-found iff there was none |
| HeroSlides.Reordered | backend/routes/hero-slides.js:175-177 | the updates change only order indexes; ids and other columns are kept |
| HeroSlides.ReorderedUnnamed | backend/routes/hero-slides.js:175-177 | a slide no entry names keeps its row |
| HeroSlides.ReorderedNamed | backend/routes/hero-slides.js:175-177 | a named slide takes the order index of the last entry naming it |
| HeroSlides.Reorder | backend/routes/hero-slides.js:167-179 | refused iff the payload is not an array, with no change; otherwise the entries' updates are applied in order |
| HeroSlides.SlideOrderTotal | backend/routes/hero-slides.js:18 | `ORDER BY order_index, created_at` is a total preorder |
| HeroSlides.ParseAllSorted | backend/routes/hero-slides.js:15-25 | parsing keeps a sorted selection sorted |
| HeroSlides.ParseAllPermutation | backend/routes/hero-slides.js:15-25 | after the sort every selected row appears parsed and every listed row was selected |
| HeroSlides.ListActive | backend/routes/hero-slides.js:13-27 | the public list is sorted and holds exactly the active slides, each once |
| HeroSlides.ConferenceTitle | backend/routes/hero-slides.js:38-40 | the joined title is NULL when no conference has the id, else the title of one that does |
| HeroSlides.Views | backend/routes/hero-slides.js:38-48 | each slide carries the title of the conference it links to |
| HeroSlides.ListAll | backend/routes/hero-slides.js:35-50 | the admin list has one entry per slide |
| HeroSlides.ListAllSorted | backend/routes/hero-slides.js:37-41 | the admin list is in carousel order |
| HeroSlides.ListAllComplete | backend/routes/hero-slides.js:37-48 | every slide appears in the admin list |
| HeroSlides.ListAllSound | backend/routes/hero-slides.js:37-48 | every entry is a slide read back, with its conference's title |
| Conferences.StoredSpec | backend/routes/conferences.js:159-181 | absent optionals become NULL; status defaults to "draft" and is never empty; featured flag 0/1; read-back speakers and agenda are the request's, or `[]` |
| Conferences.OverwriteTwice | backend/routes/conferences.js:213-235 | an update is a full overwrite: repeating it changes nothing more |
| Conferences.Subtitle | backend/routes/conferences.js:22-29 | the subtitle is the formatted date and the venue, each only when present, joined by the separator; NULL when neither |
| Conferences.SyncHeroSlide | backend/routes/conferences.js:8-82 | the slide table becomes the sync's function of the old one; the id counter moves only on an insert |
| Conferences.SyncHidden | backend/routes/conferences.js:11-20 | unless featured and published, only this conference's system slides change, and they become inactive |
| Conferences.SyncInserted | backend/routes/conferences.js:43-62 | with no system slide, one active, left-aligned slide linked to the conference is appended, ordered after every slide |
| Conferences.SyncFirstRefreshed | backend/routes/conferences.js:63-77 | with system slides, the sync is the UPDATE of the first one's row |
| Conferences.SyncRefreshed | backend/routes/conferences.js:63-77 | the first system slide is rewritten and activated, keeping order, alignment and creation time; its image becomes the banner if truthy, else the old image; other rows kept |
| Conferences.SyncCounts | backend/routes/conferences.js:8-78 | only an insert changes any conference's number of system slides, by one, for a conference that had none |
| Conferences.SyncKeepsOneSystemSlide | backend/routes/conferences.js:8-78 | the sync never gives a conference a second system slide, and a showcased conference has one afterwards |
| Conferences.AdminOrderTotal | backend/routes/conferences.js:93 | `ORDER BY date DESC, created_at DESC` is a total preorder |
| Conferences.DateOrderTotal | backend/routes/conferences.js:96 | `ORDER BY date DESC` is a total preorder |
| Conferences.ListConferences | backend/routes/conferences.js:85-109 | one entry per selected row |
| Conferences.ListSorted | backend/routes/conferences.js:91-107 | the list is sorted by the order its `status` asks for |
| Conferences.ListDatesDescending | backend/routes/conferences.js:93-96 | either way dates never increase down the list |
| Conferences.ListPermutation | backend/routes/conferences.js:88-107 | every selected row is listed parsed, and every entry is a selected row |
| Conferences.ListScope | backend/routes/conferences.js:91-98 | `status=all` lists every conference; otherwise exactly the published ones |
| Conferences.GetConference | backend/routes/conferences.js:117-130 | not-found iff no row has the id; otherwise the row, parsed |
| Conferences.CreateConference | backend/routes/conferences.js:138-187 | refused iff title or date is falsy, with no change; otherwise appends the stored row, answers it read back, and syncs its slide; the slide counter moves by one exactly when the sync inserts |
| Conferences.RereadAfterOverwrite | backend/routes/conferences.js:213-238 | after the update the re-read by id finds the overwritten row |
| Conferences.OverwriteConference | backend/routes/conferences.js:213-238 | the UPDATE and re-read: nothing found iff no row had the id |
| Conferences.UpdateConference | backend/routes/conferences.js:195-246 | full overwrite with no validation; a missing id answers 500 and leaves the slides alone; otherwise the slide is synced, and the slide counter moves by one exactly when the sync inserts |
| Conferences.DeleteConference | backend/routes/conferences.js:254-265 | refused iff a registration names the conference, with no change; otherwise the row with the id is gone |
| Registrations.RejectionSpec | backend/routes/registrations.js:32-50 | the checks run in order: fields (age or date of birth), consent, published conference, same (conference, email); all four passed iff accepted |
| Registrations.CheckRequest | backend/routes/registrations.js:32-50 | the handler's checks give exactly that rejection |
| Registrations.AttendeeCodeSpec | backend/routes/registrations.js:53 | the code is "NG", the conference id, at least one digit, and at most five random characters, none lower-case |
| Registrations.NewRegistrationSpec | backend/routes/registrations.js:76-100 | the stored row has 0/1 flags, NULL for falsy optionals, the code and QR path, and is not checked in |
| Registrations.DuplicateRejected | backend/routes/registrations.js:47-50 | a stored (conference, email) pair rejects every later request for it that passes the earlier checks |
| Registrations.ResolutionSpec | backend/routes/registrations.js:103-125 | a referral match wins; the institution counts only without one, for a student with an institution; the first matching rep; never manual |
| Registrations.AssignRep | backend/routes/registrations.js:103-133 | inserts no assignment, or the one resolved, naming the registration |
| Registrations.InsertRegistration | backend/routes/registrations.js:79-100 | the INSERT appends one row under the next id |
| Registrations.ReadRegistration | backend/routes/registrations.js:135 | the re-read by id finds the row just inserted |
| Registrations.Register | backend/routes/registrations.js:12-140 | a rejection changes nothing; success appends exactly one registration and at most one assignment naming it |
| Registrations.NewestFirstTotal | backend/routes/registrations.js:161 | `ORDER BY created_at DESC` is a total preorder |
| Registrations.ListForConference | backend/routes/registrations.js:148-164 | the list is a permutation of the filtered rows, newest first |
| Registrations.ListForConferenceScope | backend/routes/registrations.js:153-161 | a row is listed iff it is the conference's and matches `checked_in` ("true" is 1, any other value 0) |
| Registrations.Checkin | backend/routes/registrations.js:172-201 | the answer and table are those of the check-in: falsy code, unknown code and already checked in are refused |
| Registrations.MarkCheckedIn | backend/routes/registrations.js:195-201 | the UPDATE and the re-read answer the row the check-in reports |
| Registrations.CheckinWrites | backend/routes/registrations.js:195-200 | the UPDATE keeps the keys and the re-read finds the checked-in row |
| Registrations.CheckinOnce | backend/routes/registrations.js:186-198 | only rows with the code change, gaining the flag and the time; a second check-in is refused with the first time and writes nothing |
| Registrations.Verify | backend/routes/registrations.js:209-231 | falsy data, unparseable text, a `null` payload and an unknown code each give their error; success answers a row with the payload's code |
| Registrations.VerifyFindsIssuedCode | backend/routes/registrations.js:224-231 | scanning a registration's QR payload finds a row with its attendee code |
| Reps.StripHyphensSpec | backend/routes/reps.js:9 | stripping never lengthens and leaves no hyphen |
| Reps.StripHyphensKeepsPrefix | backend/routes/reps.js:9 | a hyphen-free prefix survives unchanged |
| Reps.ReferralCodeSpec | backend/routes/reps.js:8-10 | a code is at most 8 characters, no hyphen or lower-case letter; for a UUID it is its first 8 hex digits upper-cased |
| Reps.CodeDrawSpec | backend/routes/reps.js:52-59 | at most ten redraws; every draw before the chosen one collided; a code chosen before the tenth redraw is free |
| Reps.ChosenCodeFresh | backend/routes/reps.js:52-63 | the inserted code is taken only if all ten redraws collided |
| Reps.DrawReferralCode | backend/routes/reps.js:52-59 | the loop yields the chosen draw's code |
| Reps.CreateRep | backend/routes/reps.js:43-67 | refused iff a field is falsy, with no change; otherwise appends the rep with the drawn code and answers it |
| Reps.GetRep | backend/routes/reps.js:28-35 | not-found iff no rep has the id; otherwise that rep |
| Reps.RepByCode | backend/routes/reps.js:128-135 | invalid iff no rep has the code; otherwise the first with it |
| Reps.RepForInstitution | backend/routes/reps.js:143-154 | not-found iff no rep of the conference has the institution; otherwise the first |
| Reps.CreatedRepFoundByCode | backend/routes/reps.js:52-66 | a rep created with a free code is what its code looks up |
| Reps.InstitutionThenNameTotal | backend/routes/reps.js:17 | `ORDER BY institution, name` is a total preorder |
| Reps.ListReps | backend/routes/reps.js:13-20 | the list is sorted and a permutation of the conference's reps |
| Reps.ListRepsScope | backend/routes/reps.js:17 | a rep is listed iff it belongs to the conference |
| Reps.UpdateRep | backend/routes/reps.js:75-94 | refused iff a field is falsy, with no change; otherwise the four contact columns of the rep are set; not-found iff no rep had the id |
| Reps.EditKeepsReferral | backend/routes/reps.js:84-87 | an edit keeps every rep's conference, code and creation time, so a code looks up the same rep |
| Reps.DeleteRep | backend/routes/reps.js:102-120 | refused iff an assignment names the rep, with no change; otherwise the rep goes; not-found iff there was none |
| RepAssignments.Upsert | backend/routes/rep-assignments.js:69-86 | rewrites every assignment of the registration if one exists, else inserts one; reports which |
| RepAssignments.UpsertSpec | backend/routes/rep-assignments.js:69-86 | afterwards the registration is assigned, only to the rep, as manual; an update adds no row; a create appends one; other registrations are kept |
| RepAssignments.Assign | backend/routes/rep-assignments.js:60-88 | refused iff either id is falsy, with no change; otherwise the upsert, with the assignment counter moved by one exactly when it creates |
| RepAssignments.DeleteAssignment | backend/routes/rep-assignments.js:96-105 | removes the assignment with the id; not-found iff there was none, with no change |
| RepAssignments.Bulk | backend/routes/rep-assignments.js:125-145 | one result per id processed |
| RepAssignments.BulkAssign | backend/routes/rep-assignments.js:113-147 | refused for a missing, non-array or empty list, then for a falsy rep id, with no change; otherwise the ids are upserted in order |
| RepAssignments.UpsertAll | backend/routes/rep-assignments.js:125-145 | the loop computes exactly the bulk upsert and its results |
| RepAssignments.BulkSnoc | backend/routes/rep-assignments.js:126-145 | one more id is one more upsert step |
| RepAssignments.StepResults | backend/routes/rep-assignments.js:137-143 | each step appends its id and action to the results |
| RepAssignments.BulkResultsInOrder | backend/routes/rep-assignments.js:125-145 | the results name the ids in order, after the ones already there |
| RepAssignments.BulkPrefix | backend/routes/rep-assignments.js:126-145 | the k-th result is the action taken on the table the earlier ids left |
| RepAssignments.UpsertAssigns | backend/routes/rep-assignments.js:69-86 | after an upsert a registration is assigned iff it was, or is the one upserted |
| RepAssignments.NamesSnoc | backend/routes/rep-assignments.js:126 | an id list names a registration iff its prefix or its last id does |
| RepAssignments.BulkAssigns | backend/routes/rep-assignments.js:125-145 | afterwards a registration is assigned iff it was, or an id names it |
| RepAssignments.BulkCreated | backend/routes/rep-assignments.js:132-144 | the k-th result is "created" iff the registration had no assignment and no earlier id names it |
| RepAssignments.BulkAllPointTo | backend/routes/rep-assignments.js:125-145 | afterwards every assignment of every listed registration names the rep, as manual |
| RepAssignments.StepPointsTo | backend/routes/rep-assignments.js:132-144 | one more upsert keeps earlier ids pointing to the rep and adds its own |
| RepAssignments.UpsertKeepsPointing | backend/routes/rep-assignments.js:76-85 | an upsert for the same rep keeps a registration pointing to it |
| RepAssignments.NullMatchesNothing | backend/routes/rep-assignments.js:70 | `registration_id = NULL` matches no row |
| Typeahead.TrimStartSpec | frontend/typeahead.js:68 | trimming the start drops exactly a leading run of white space |
| Typeahead.TrimEndSpec | frontend/typeahead.js:68 | trimming the end drops exactly a trailing run of white space |
| Typeahead.TrimSpec | frontend/typeahead.js:68 | the trimmed text is a slice with only white space outside it, and neither starts nor ends with white space |
| Typeahead.Visible | frontend/typeahead.js:60 | `slice(0, 10)` is a prefix of length `min(n, 10)` |
| Typeahead.MatchingSpec | frontend/typeahead.js:58-60 | the filter keeps exactly the items whose lower-case form contains the query |
| Typeahead.MatchingConcat | frontend/typeahead.js:58-60 | filtering keeps list order: filtering a concatenation concatenates the filtered parts |
| Typeahead.SuggestionsSpec | frontend/typeahead.js:50-60 | an empty query suggests nothing; otherwise the first ten matches in order |
| Typeahead.FilteredSpec | frontend/typeahead.js:50-64 | filtering resets the cursor to -1 and shows the dropdown iff something matched |
| Typeahead.KeyDownConsistent | frontend/typeahead.js:88-120 | every key keeps the cursor in [-1, n-1] and the state consistent |
| Typeahead.ArrowsUndo | frontend/typeahead.js:99-107 | ArrowUp undoes an ArrowDown that moved, and conversely |
| Typeahead.DownsSaturate | frontend/typeahead.js:99-103 | k ArrowDowns move the cursor to `min(i + k, n - 1)` |
| Typeahead.EnterChooses | frontend/typeahead.js:108-116 | Enter on a selected suggestion copies it into both inputs and closes; with no selection nothing changes |
| Typeahead.Typeahead.constructor | frontend/typeahead.js:3-12 | the widget starts hidden, with no suggestions and the cursor at -1 |
| Typeahead.Typeahead.HideDropdown | frontend/typeahead.js:20-23 | hiding closes the dropdown and resets the cursor |
| Typeahead.Typeahead.RenderDropdown | frontend/typeahead.js:25-36 | no suggestions hides; otherwise the first ten are shown |
| Typeahead.Typeahead.FilterData | frontend/typeahead.js:50-64 | the state becomes the filtered view of the query, and stays consistent |
| Typeahead.Typeahead.OnInput | frontend/typeahead.js:67-71 | filters by the trimmed text and copies it to the hidden input |
| Typeahead.Typeahead.OnFocus | frontend/typeahead.js:74-78 | filters again when the box holds text, else changes nothing |
| Typeahead.Typeahead.ClickItem | frontend/typeahead.js:40-46 | a click copies the item's value into both inputs and closes |
| Typeahead.Typeahead.OnKeyDown | frontend/typeahead.js:88-120 | the handler's new state is the key's transition of the old one |

## Left out

- Schema.Database.constructor: the tables start empty. The seeding of the admin user and the default content blocks is not modelled (bcrypt and SQLite I/O).
- Authentication: every admin handler is modelled for a caller `authenticateToken` has let through; the auth routes are not part of this model.
- Express routing: mounting, and which handler a path reaches, are not modelled. Each handler is its own operation. `PUT /reorder` is registered after `PUT /:id`, so Express would send it to the update handler; `HeroSlides.Reorder` models the reorder handler itself.
- The 500 answers of the `catch` blocks (database failures) are not modelled. The model's statements do not fail.
- The sync's swallowed errors are not modelled: its `try/catch` cannot be reached in the model.
- JSON: `JSON.stringify`/`JSON.parse` of speakers, agenda and buttons store and return the structured value itself; no text codec is modelled. `Registrations.Verify` takes `JSON.parse` of the QR text as a parameter.
- SQLite type affinity: route parameters are taken as integers. Body values are compared exactly (`"5"` does not match `5`), where SQLite would convert text to the column's INTEGER affinity. Stored values keep their JavaScript type after binding (`true` is stored as the number 1), where a TEXT column would hold the text `'1'` and an INTEGER column would convert numeric text.
- Integer widths: ids, order indexes and timestamps are unbounded integers. `CURRENT_TIMESTAMP` is an integer parameter.
- Conferences.Subtitle: `toLocaleDateString` is the parameter `formatDate`. The separator is the constant as spelled in the file, with its mis-decoded bytes.
- Reps.CreateRep, Registrations.Register: `uuidv4()`, `Date.now()` and `Math.random()` are parameters. Neither code is claimed unique; only the collision checks the source makes are modelled.
- QR image generation and its directory (registrations.js:62-74), and the registrations CSV export with its Yes/No columns (registrations.js:239-298): file I/O, not modelled.
- The members CSV export: writing, download and clean-up are not modelled. Only the Yes/No record mapping is (`Members.Export`).
- The rep-assignment listings (`GET /conference/:conferenceId` and `GET /rep/:repId`, rep-assignments.js:7-57): read-only joins, not modelled.
- HeroSlides.Reorder: the model applies the updates one after the other in list order; the source issues them concurrently, so for an id listed twice its result is not determined. The precondition admits only object entries whose `order_index` is a number, the shape `[{id, order_index}, ...]` the handler documents. In the source, an object entry's `order_index` is stored as given, and a missing one as NULL. A `null` entry throws, so the handler answers 500 after issuing the earlier entries' updates. Any other non-object entry updates nothing.
- Typeahead: only ASCII letters are case-folded. The DOM is reduced to the dropdown's visibility and item values. Not modelled: `innerHTML` escaping of `data-value`, `scrollIntoView`, the 200 ms blur delay (the blur is `HideDropdown`), the `change` event, the outside click (also `HideDropdown`), `initAllTypeaheads`, and the early returns of `initTypeahead` when an element is missing.
- Registrations.Register: the `assignedRepId` truthiness test is modelled on rep ids, which the key invariant keeps at 1 or more.
