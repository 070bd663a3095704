# School portal: the submission pipeline, in Dafny

This project models the one piece of logic in the school portal, the path a new
school takes from the "Add school" page to the `schools` table:

- The page's `zod` schema runs in the browser (module `AddSchoolForm`). It has
  length minimums on the text fields, a 7-15 digit contact, an e-mail check and
  a non-empty image. The page then picks the file to send and builds the
  multipart body.
- `POST /api/schools` (module `SchoolsRoute`) trims the six text fields and
  checks that they and the image are present. It derives a stored filename from
  8 random bytes and the original extension (modules `Hex`, `ImageStore`,
  `JsString`). It then creates the image directory, writes the file and inserts
  one row whose `image` column is the file's public path. It answers 201, 400 or
  500.
- `GET /api/schools` lists every row by descending id, or answers 500.
- Module `TrustBoundary` sets the two validations side by side. Neither implies
  the other:
  - the server checks presence only;
  - the browser checks format but never trims.

The route appears in two forms:
- a pure step function over an abstract `Store` (`PostStep`, `GetStep`). The
  store holds the image directory, its files by name, the table's rows and the
  next auto-increment id;
- a class `SchoolsApi` holding the same state in fields. Its `Post` and `Get`
  methods perform the handler's steps in order. Each method is proved to
  produce exactly the step function's store and response.

Parsing the body, `mkdir`, `writeFile`, the insert and the query can each throw,
and each takes the thrown value, if any, as a parameter. Reading the upload's
bytes (`image.arrayBuffer()`) can throw as well. It has no parameter of its own:
its failure is the `write` fault, since it has the same outcome (the directory
exists, no file is added, 500 with the message). The 8 random bytes are a
parameter too.

Strings are sequences of Unicode code points. `zod`'s `.min(n)` counts UTF-16
code units, so the model counts them too (`JsString.Utf16Length`). `trim`
removes the JavaScript WhiteSpace and LineTerminator characters.

## Model

| member | source | states |
|---|---|---|
| JsString.Trim | src/app/api/schools/route.ts:28-33 | the result has no whitespace at either end, and it is empty iff the input is all whitespace |
| JsString.TrimIdempotent | src/app/api/schools/route.ts:28-33 | trimming twice is trimming once |
| JsString.TrimUnpadded | src/app/api/schools/route.ts:28-33 | a string with no whitespace at either end is left unchanged |
| JsString.TrimInfix | src/app/api/schools/route.ts:28-33 | the result is a contiguous slice of the input with only whitespace outside it |
| JsString.TrimOfInfix | src/app/api/schools/route.ts:28-33 | conversely, a slice with only whitespace outside it and none at its ends is exactly what trim returns |
| JsString.Utf16Length | src/app/addSchool/page.tsx:9-15 | the length `.min` checks lies between the number of characters and twice that |
| JsString.Utf16LengthBmp | src/app/addSchool/page.tsx:9-15 | for Basic Multilingual Plane text that length is the number of characters |
| JsString.Split | src/app/api/schools/route.ts:42 | `split` yields at least one piece, and no piece contains the separator |
| JsString.JoinSplit | src/app/api/schools/route.ts:42 | joining the pieces with the separator gives back the string |
| JsString.SplitJoin | src/app/api/schools/route.ts:42 | splitting a join of separator-free pieces gives back the pieces |
| JsString.SplitAtSeparator | src/app/api/schools/route.ts:42 | splitting `a + sep + b` is splitting `a`, then splitting `b` |
| JsString.SplitNoSeparator | src/app/api/schools/route.ts:42 | a string without the separator splits into itself alone |
| JsString.LastSegment | src/app/api/schools/route.ts:42 | `pop()` of the split never contains the separator |
| JsString.LastSegmentAfterLast | src/app/api/schools/route.ts:42 | `pop()` is the text after the last separator |
| JsString.LastSegmentWhole | src/app/api/schools/route.ts:42 | with no separator, `pop()` is the whole string |
| Hex.HexDigit | src/app/api/schools/route.ts:41 | definition: the lowercase digit of one nibble; its properties are in `DigitValue` and `Encode` |
| Hex.DigitValue | src/app/api/schools/route.ts:41 | each lowercase hex digit has a value below 16 whose digit is that character |
| Hex.Encode | src/app/api/schools/route.ts:41 | `toString('hex')` gives two lowercase hex digits per byte |
| Hex.DecodeEncode | src/app/api/schools/route.ts:41 | the hex encoding decodes back to the same bytes |
| Hex.EncodeInjective | src/app/api/schools/route.ts:41 | different byte strings have different encodings |
| ImageStore.Extension | src/app/api/schools/route.ts:42 | the extension is never empty and never contains a dot |
| ImageStore.ExtensionAfterLastDot | src/app/api/schools/route.ts:42 | the extension is the text after the last dot, or `jpg` when that text is empty (as for `"x."`) |
| ImageStore.ExtensionOfUndotted | src/app/api/schools/route.ts:42 | a non-empty name with no dot is its own extension (`"logo"` gives `"logo"`); the empty name gives `jpg` |
| ImageStore.StoredFilename | src/app/api/schools/route.ts:41-43 | the stored name is longer than the 16 hex digits and the dot; its full shape is in `StoredFilenameShape` |
| ImageStore.ReferencePath | src/app/api/schools/route.ts:52 | the stored reference is `/schoolImages/` followed by the filename |
| ImageStore.StoredFilenameShape | src/app/api/schools/route.ts:41-43 | the stored name is 16 lowercase hex digits, a dot at index 16 (its only dot), then the extension |
| ImageStore.StoredFilenameKeepsExtension | src/app/api/schools/route.ts:41-43 | the text after the stored name's dot is the original's extension |
| ImageStore.StoredFilenameInjective | src/app/api/schools/route.ts:41-43 | different random bytes or extensions give different stored names |
| SchoolsRoute.FieldText | src/app/api/schools/route.ts:28-33 | definition: a missing field reads as `""`, a file part as `[object File]`; its properties are in `BodyFieldsTrimmed` and `FormBody` |
| SchoolsRoute.ImagePresent | src/app/api/schools/route.ts:34-36 | definition of `!image` failing: any file part or non-empty text part; its properties are in `PostSucceeds` and `PostTextImage` |
| SchoolsRoute.NewRow | src/app/api/schools/route.ts:50-52 | definition of the inserted values in column order; its properties are in `PostSucceeds` and `InsertRowPreservesValid` |
| SchoolsRoute.ServerError | src/app/api/schools/route.ts:19-21 | definition of the `catch` answer (also lines 56-58): 500 with the message; its properties are in `PostParseFailure`, `PostWriteFailure`, `PostInsertFailureOrphansFile` and `GetFailure` |
| SchoolsRoute.Present | src/app/api/schools/route.ts:36 | definition of the presence check; its properties are in `PostRejectsMissing` and `PostSucceeds` |
| SchoolsRoute.PostStep | src/app/api/schools/route.ts:25-60 | definition of everything `POST` does; its properties are in the `Post*` lemmas below |
| SchoolsRoute.Persist | src/app/api/schools/route.ts:45-55 | definition of directory, write, insert; its properties are in `PersistPreservesValid`, `PostWriteFailure` and `PostInsertFailureOrphansFile` |
| SchoolsRoute.GetStep | src/app/api/schools/route.ts:12-23 | definition of everything `GET` does; its properties are in `GetEmptyTable`, `GetFailure` and `SchoolsApi.Get` |
| SchoolsRoute.TrimmedFields | src/app/api/schools/route.ts:28-33 | every field read from the form is trimmed |
| SchoolsRoute.Admit | src/app/api/schools/route.ts:27-42 | a request goes on to storage only if it was parsed and passed the presence check with a file as its image; the fields it carries are the trimmed fields |
| SchoolsRoute.PostStatuses | src/app/api/schools/route.ts:25-60 | `POST` answers 201, 400 or 500 and nothing else |
| SchoolsRoute.PostRejectsMissing | src/app/api/schools/route.ts:28-38 | a parsed form gets 400 iff a trimmed field is empty or the image is absent; then the body says "Missing required fields" and the store is unchanged |
| SchoolsRoute.PostParseFailure | src/app/api/schools/route.ts:27 | a body that cannot be parsed gets 500 with the thrown error's message ("Unknown error" for a non-`Error` value), and the store is unchanged |
| SchoolsRoute.PostTextImage | src/app/api/schools/route.ts:42 | a complete form whose image is a text part gets 500 from the failed `split` of its missing `name`, and the store is unchanged |
| SchoolsRoute.PostSucceeds | src/app/api/schools/route.ts:41-55 | 201 iff the form is parsed, complete and has a file image, and no step throws. The file is then written under the stored name, and one row is appended with the next id: the trimmed fields in column order, `/schoolImages/` plus that same name as `image` |
| SchoolsRoute.PostAddsOneFileAndRow | src/app/api/schools/route.ts:45-55 | a successful `POST` adds exactly one row, and exactly one file unless the name was taken |
| SchoolsRoute.PostWriteFailure | src/app/api/schools/route.ts:45-58 | a failing `mkdir` or `writeFile` answers 500 with its message, and no row and no file are added |
| SchoolsRoute.PostInsertFailureOrphansFile | src/app/api/schools/route.ts:47-58 | a failing insert answers 500 with its message; the written file stays, with no row referring to it |
| SchoolsRoute.MakeDirectoryPreservesValid | src/app/api/schools/route.ts:45 | creating the directory keeps the store's invariant |
| SchoolsRoute.WriteFilePreservesValid | src/app/api/schools/route.ts:47 | writing a file into the existing directory keeps the invariant |
| SchoolsRoute.InsertRowPreservesValid | src/app/api/schools/route.ts:50-53 | appending a row under the next id keeps the invariant when its image file exists and its fields are non-empty and trimmed |
| SchoolsRoute.AdmittedFieldsNormal | src/app/api/schools/route.ts:28-38 | the fields of a request that passes the presence check are non-empty and trimmed |
| SchoolsRoute.PersistPreservesValid | src/app/api/schools/route.ts:45-55 | directory, write, insert keep the store's invariant: every row's image file exists, ids ascend, rows hold non-empty trimmed fields |
| SchoolsRoute.PostPreservesValid | src/app/api/schools/route.ts:25-60 | every `POST`, whatever it answers, keeps that invariant |
| SchoolsRoute.Listing | src/app/api/schools/route.ts:15-18 | the listing has the table's length, and its i-th row is the i-th from the end |
| SchoolsRoute.ListingSameRows | src/app/api/schools/route.ts:15-18 | the listing holds every row of the table, as often as it occurs there |
| SchoolsRoute.ListingDescending | src/app/api/schools/route.ts:15-18 | for a table in insertion order, the listing is in strictly descending id order |
| SchoolsRoute.DescendingUnique | src/app/api/schools/route.ts:16 | two strictly id-descending sequences of the same rows are equal, so `ORDER BY id DESC` fixes the answer |
| SchoolsRoute.ListingIsOrderByIdDesc | src/app/api/schools/route.ts:16 | any id-descending arrangement of the table's rows is the listing |
| SchoolsRoute.GetEmptyTable | src/app/api/schools/route.ts:15-18 | an empty table gives 200 and an empty list |
| SchoolsRoute.GetFailure | src/app/api/schools/route.ts:19-22 | a failing query gives 500 with the error's message and no rows |
| SchoolsRoute.ListingAfterPost | src/app/api/schools/route.ts:16 | after a successful `POST`, the new row, with the next id, is listed first, ahead of the earlier listing |
| SchoolsRoute.SchoolsApi.constructor | src/app/api/schools/route.ts:44-53 | a fresh directory and table start empty, with ids from 1 |
| SchoolsRoute.SchoolsApi.MakeImageDirectory | src/app/api/schools/route.ts:45 | the directory exists afterwards unless `mkdir` throws; nothing else changes; the invariant is kept |
| SchoolsRoute.SchoolsApi.WriteImage | src/app/api/schools/route.ts:47 | in the existing directory, exactly one file is created or replaced unless the write throws; the invariant is kept |
| SchoolsRoute.SchoolsApi.InsertRow | src/app/api/schools/route.ts:50-53 | exactly one row is appended, under the next id, unless the insert throws; given an existing image file and non-empty trimmed fields, the invariant is kept |
| SchoolsRoute.SchoolsApi.Save | src/app/api/schools/route.ts:45-58 | the three steps in order, stopping at the first that throws, give exactly `Persist`'s store and response, and keep the invariant for non-empty trimmed fields |
| SchoolsRoute.SchoolsApi.Post | src/app/api/schools/route.ts:25-60 | the handler yields exactly `PostStep`'s store and response, and keeps the store's invariant |
| SchoolsRoute.SchoolsApi.Get | src/app/api/schools/route.ts:12-23 | 500 with the message when the query throws; otherwise 200 with every row, in strictly descending id order |
| AddSchoolForm.SchemaAccepts | src/app/addSchool/page.tsx:8-28 | definition of the whole schema; its properties are in `FieldErrorsEmpty` and the `TrustBoundary` lemmas |
| AddSchoolForm.ContactOk | src/app/addSchool/page.tsx:13-16 | definition; its properties are in `ContactMinSubsumed`, `AcceptedContactUntouched` and `SchemaRejectsFormat` |
| AddSchoolForm.ImageOk | src/app/addSchool/page.tsx:18-27 | definition; its properties are in `SelectedFile` and `SchemaRejectsFormat` |
| AddSchoolForm.MinLength | src/app/addSchool/page.tsx:9-15 | definition of `.min(n)` on UTF-16 length; its properties are in `MinLengthBmp`, `MinLengthByCharacters` and `AstralCharacterCountsTwice` |
| AddSchoolForm.ShortFieldOk | src/app/addSchool/page.tsx:9-12 | definition of `.min(2)` for `name`, `city` and `state`; its properties are in `MinLengthBmp` and `TwoSpacesName` |
| AddSchoolForm.AddressOk | src/app/addSchool/page.tsx:10 | definition of `.min(5)` for `address`; its properties are in `MinLengthBmp` |
| AddSchoolForm.MatchesContactPattern | src/app/addSchool/page.tsx:16 | definition of the full-match 7-15 digit pattern; its properties are in `ContactMinSubsumed` and `ContactErrorMessage` |
| AddSchoolForm.ErrorMessage | src/app/addSchool/page.tsx:9-27 | definition: each field's message, the contact's depending on which check fails first; its properties are in `ContactErrorMessage` |
| AddSchoolForm.FieldErrors | src/app/addSchool/page.tsx:9-27 | definition of the message shown for each failing field; its properties are in `FieldErrorsEmpty`, `ContactErrorMessage` and `SchemaRejectsFormat` |
| AddSchoolForm.ContactErrorMessage | src/app/addSchool/page.tsx:13-16 | a contact shorter than 7 shows "Contact is required"; one long enough that fails the pattern shows "Contact must be a number with 7-15 digits"; an accepted contact shows none |
| AddSchoolForm.FieldErrorsEmpty | src/app/addSchool/page.tsx:8-28 | the schema accepts iff no field shows an error message |
| AddSchoolForm.MinLengthBmp | src/app/addSchool/page.tsx:9-12 | for ordinary text, `name`, `city` and `state` pass iff they have at least 2 characters, `address` iff at least 5 |
| AddSchoolForm.MinLengthByCharacters | src/app/addSchool/page.tsx:9-12 | any text with at least n characters, whitespace included, passes `.min(n)` |
| AddSchoolForm.AstralCharacterCountsTwice | src/app/addSchool/page.tsx:9 | any single character outside the Basic Multilingual Plane already passes `.min(2)` |
| AddSchoolForm.ContactMinSubsumed | src/app/addSchool/page.tsx:13-16 | `contact` passes iff it is 7 to 15 ASCII digits; `.min(7)` adds nothing to the pattern |
| AddSchoolForm.SelectedFile | src/app/addSchool/page.tsx:51-53 | the file sent is the `File` itself, or the first entry of the `FileList`, and it is never empty |
| AddSchoolForm.FormBody | src/app/addSchool/page.tsx:44-53 | the body carries exactly the seven keys; the server reads back each text field as typed, and the image part is the chosen file |
| AddSchoolForm.Submission | src/app/addSchool/page.tsx:41-53 | once the schema accepts, the image part is a non-empty file and every other part is text |
| TrustBoundary.BodyFieldsTrimmed | src/app/api/schools/route.ts:28-34 | the server reads back each field the page sent, trimmed, and the image file itself |
| TrustBoundary.ServerChecksPresenceOnly | src/app/api/schools/route.ts:36-38 | any body whose six fields are not blank is stored with 201 when no step throws, whatever its lengths, digits, e-mail or image size |
| TrustBoundary.SchemaRejectsFormat | src/app/addSchool/page.tsx:9-27 | each defect alone fails the schema and shows that field's error: a one-character name, a contact with a non-digit, an image that is a zero-byte `File`, an empty `FileList` or a `FileList` whose first file is empty |
| TrustBoundary.ServerAcceptsWhatClientRejects | src/app/api/schools/route.ts:36-55 | a non-blank form with any one of those defects (the image a `File`) fails the schema, yet the server stores it with 201 |
| TrustBoundary.BlankFieldRejectedByServer | src/app/api/schools/route.ts:28-38 | a form with a whitespace-only field gets 400 and the store is unchanged |
| TrustBoundary.TwoSpacesName | src/app/addSchool/page.tsx:9 | a name of two spaces passes `.min(2)` yet trims to nothing |
| TrustBoundary.ClientAcceptsWhatServerRejects | src/app/addSchool/page.tsx:8-53 | a form the schema accepts, with a whitespace-only name, is posted and refused with 400, changing nothing |
| TrustBoundary.AcceptedContactUntouched | src/app/addSchool/page.tsx:13-16 | a contact the schema accepts is non-empty and unchanged by the server's trim |
| TrustBoundary.ClientAcceptedIsStored | src/app/api/schools/route.ts:28-55 | a schema-accepted form with no blank field gets 201; the selected file is stored under the random name, and a row with the trimmed fields and the contact as typed is appended |

## Left out

- `src/lib/db.ts` (the lazily created MySQL pool) is not part of this model. The table is the abstract `Store`.
- Real file-system calls, SQL execution and `crypto.randomBytes`. Each I/O step's thrown value is a parameter, and the 8 random bytes are an input.
- The e-mail syntax of `z.string().email()`. Every lemma takes it as an arbitrary predicate `isEmail`.
- The regular expression's `g` flag and its `lastIndex` state. The pattern is modelled as a plain full match.
- Multipart parsing, `NextResponse` serialisation, HTTP transport, and `fetch`/`alert` on the page. A request is an already-parsed map from field to the first value sent under it, or the error parsing threw. The browser's multipart encoding is taken as exact. In fact it turns a lone CR or LF in a text value into CRLF, which a text input cannot hold. It also escapes `"`, CR and LF in a file name as `%22`, `%0D` and `%0A`. So a file named `x.p"g` is stored with the extension `p%22g`, where `ClientAcceptedIsStored` gives `p"g`.
- The React component, its rendering and its state hooks.
- Concurrent requests and the probability of a filename collision. A repeated name replaces the earlier file, as `writeFile` does.
- ImageStore.StoredFilename: the directory is a flat map from name to content. `path.join` is not flat: an upload named `a.b/c` has the extension `b/c`, so its stored name `<hex>.b/c` points into a sub-directory `<hex>.b` that does not exist. The real `writeFile` then throws and the route answers 500. The model writes a file under that name instead.
- SchoolsRoute.SchoolsApi.WriteImage: a write that throws part-way is modelled as writing nothing.
- SchoolsRoute.SchoolsApi.InsertRow: a failed insert does not advance the auto-increment counter in the model. MySQL may consume an id there, so ids stay strictly ascending but may have gaps.
- SchoolsRoute.SchoolsApi.Get: the descending order is proved for a table whose rows were appended by this model with ascending ids, not for arbitrary rows placed in the table by other means.
- Node's exact message for a text part sent in place of the image is taken as a constant (`SplitOfUndefinedMessage`).

## Notes

- For a file name with no dot, the extension step yields the whole name, not `jpg`. The code does this, and the model follows the code: `"logo"` gives the stored name `<hex>.logo`. Only an empty last piece, as in `""` or `"x."`, falls back to `jpg`.
- The server reads each field as `String(value || '')`. A file sent under a text field's name therefore reads as `[object File]` and passes the presence check. A non-empty text sent as `image` passes the presence check too, and then throws a `TypeError` when its name is split, giving 500.
