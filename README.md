# medease record stores in Dafny

medease is a small hospital-administration web application. It keeps two
collections: patients and rooms. This project models its record-keeping
rules. Each collection is an in-memory table from id to record, held by a
store class. The create, update and delete handlers are methods of that class.
Each returns an outcome (`Ok`, `MissingFields`, `Duplicate`, `NotFound`,
`SaveFailed` or `ServerError`) in place of a redirect and a flash message. The
get and list handlers are read-only functions of the class. Get returns the
stored record, or `None` when the id is unknown. List returns the sorted
listing.

Modules:

- `Text`: the JavaScript whitespace set, `String.prototype.trim`, plain
  code-point string order (how the database sorts a string field), and ASCII
  case folding with substring search.
- `Numbers`: `parseInt` called without a radix. This covers leading
  whitespace, one sign, the `0x` prefix and the longest digit run. `NaN` is
  `None`.
- `Forms`: the `Option` type and JavaScript truthiness of a submitted field
  (absent or `""` is missing). Also the `Outcome` type.
- `Listing`: a generic sorted query over a table. It returns exactly the
  matching records, each once, in ascending key order.
- `PatientModel` and `RoomModel`: the two schemas as validity predicates. They
  also hold the room defaults and the unique-number constraint.
- `PatientRoutes`: the class `PatientStore` with list/search, get, create and
  update. There is no delete.
- `RoomRoutes`: the class `RoomStore` with list, get, create, update and
  delete.

`RoomStore.Valid()` is the invariant that every method keeps. Room numbers are
pairwise distinct. They are also stored trimmed, and every stored room passes
the schema. `PatientStore.Valid()` only bounds the ids. The reason is that the
patient update handler calls `findByIdAndUpdate` without `runValidators`, so it
can write a record that a create would refuse. `UpdateAdmitsInvalidRecord`
exhibits such a record: `findByIdAndUpdate` runs no schema validators unless
`runValidators` is set.

## Model

| member | source | states |
|---|---|---|
| Text.Trim | models/patientModel.js:7-11 | the trimmed string is no longer than the input and starts and ends with non-whitespace |
| Text.TrimIsSlice | routes/patientRoutes.js:53-57 | trim returns a slice of its input with only whitespace on either side |
| Text.TrimEmptyIff | models/patientModel.js:7-11 | a string trims to nothing exactly when it is all whitespace |
| Text.TrimIdempotent | models/patientModel.js:10 | trimming twice equals trimming once, so the schema's trim setter leaves route-trimmed values alone |
| Text.StrLeTotal | routes/roomRoutes.js:23 | any two strings are comparable in the sort order |
| Text.StrLeTransitive | routes/roomRoutes.js:23 | the sort order is transitive |
| Text.StrLeAntisymmetric | routes/patientRoutes.js:26 | two strings each at most the other are equal |
| Numbers.ParseIntDecimal | routes/patientRoutes.js:54 | parseInt reads back the decimal form of every natural number, even with non-digit text after it; the one exception is a lone "0" followed by "x" or "X", which parseInt reads as the hexadecimal prefix |
| Numbers.ParseIntNegative | routes/patientRoutes.js:54 | a leading minus gives the negated value ("-0" gives 0) |
| Numbers.ParseIntSkipsWhitespace | routes/patientRoutes.js:112 | leading whitespace does not change what parseInt returns |
| Numbers.ParseIntNoDigits | routes/patientRoutes.js:54 | text that starts with no digit, sign or whitespace parses to NaN |
| Listing.Query | routes/patientRoutes.js:24-33 | the listing holds exactly the stored records that pass the filter, each id once, ascending by key |
| Listing.SortBy | routes/roomRoutes.js:23 | sorting gives an ascending permutation of its input and keeps ids distinct |
| PatientModel.ValidNameIff | models/patientModel.js:7-11 | a name is accepted exactly when it holds a non-whitespace character |
| PatientModel.AgeBoundary | models/patientModel.js:13-17 | age 0 is accepted and every negative age is rejected |
| PatientModel.GenderIsExact | models/patientModel.js:19-26 | the three listed genders are accepted; other case, added spaces and the empty string are not |
| PatientModel.ContactNumberLetters | models/patientModel.js:28-32 | one character outside digits, whitespace and plus anywhere in a contact number rejects it |
| PatientModel.ValidAddressIff | models/patientModel.js:34-38 | an address is accepted exactly when it holds a non-whitespace character |
| RoomModel.NewRoom | models/roomModel.js:15-23 | a new room keeps the given number and type, is occupied only when set so, and has no assigned patient |
| RoomModel.OccupancyUnconstrained | models/roomModel.js:15-23 | validity ignores occupancy and assignment, so an occupied room with nobody assigned is valid |
| RoomModel.BlankNumberRejected | models/roomModel.js:4-9 | a room whose number is empty or all whitespace is rejected |
| RoomModel.AddKeepsUnique | models/roomModel.js:7 | adding a room under a fresh id with an unused number keeps numbers unique |
| RoomModel.ReplaceKeepsUnique | models/roomModel.js:7 | replacing a room with one whose number no other room holds keeps numbers unique |
| RoomModel.RemoveKeepsUnique | models/roomModel.js:7 | removing a room keeps numbers unique |
| PatientRoutes.DraftFields | routes/patientRoutes.js:52-58 | the built record exists exactly when parseInt gives a number; its text fields are the trimmed inputs and already trimmed |
| PatientRoutes.BlankSearchKeepsAll | routes/patientRoutes.js:24-26 | a whitespace-only search term is truthy, trims to nothing and keeps every patient |
| PatientRoutes.PatientStore.constructor | models/patientModel.js:46 | a new store is empty and valid |
| PatientRoutes.PatientStore.Get | routes/patientRoutes.js:71-84 | get returns the stored record exactly when the id is stored, and None otherwise |
| PatientRoutes.PatientStore.List | routes/patientRoutes.js:20-40 | no term lists every patient; a term lists exactly the patients whose name contains the trimmed term, ignoring case; each once, ascending by name |
| PatientRoutes.PatientStore.Create | routes/patientRoutes.js:46-69 | MissingFields exactly when a field is falsy; SaveFailed exactly when the age is NaN or the built record fails the schema; Ok adds exactly the built record under an id never handed out before; otherwise nothing changes |
| PatientRoutes.PatientStore.Update | routes/patientRoutes.js:101-131 | MissingFields when a field is falsy; SaveFailed for a NaN age, before the id is looked up; NotFound for an unknown id; Ok replaces exactly the target record with no schema check; otherwise nothing changes |
| PatientRoutes.UpdateAdmitsInvalidRecord | routes/patientRoutes.js:108-118 | some form passes the update's checks and is written even though its record fails the schema |
| PatientRoutes.CreateExample | routes/patientRoutes.js:52-60 | a typical form builds the expected trimmed record with age 34, and the record passes every schema check |
| PatientRoutes.SearchExample | routes/patientRoutes.js:24-26 | the term "ali" matches "Alice Smith" and "Bob Alison" but not "Carol White", and the first two sort in that order |
| RoomRoutes.BuiltFields | routes/roomRoutes.js:42-46 | a created room has the trimmed number and type, is occupied exactly when the box sent "on", and has nobody assigned |
| RoomRoutes.EditedFields | routes/roomRoutes.js:83-85 | an edit sets the trimmed number and type and the checkbox flag, and keeps the assigned patient |
| RoomRoutes.OwnNumberIsFree | routes/roomRoutes.js:78 | no other room holds a room's own number, so resubmitting it is not a duplicate |
| RoomRoutes.RoomStore.constructor | models/roomModel.js:30 | a new store is empty and valid |
| RoomRoutes.RoomStore.Get | routes/roomRoutes.js:53-60 | get returns the stored room exactly when the id is stored, and None otherwise |
| RoomRoutes.RoomStore.List | routes/roomRoutes.js:22-25 | the listing holds every room, each once, ascending by room number |
| RoomRoutes.RoomStore.Create | routes/roomRoutes.js:31-51 | MissingFields exactly when number or type is falsy; Duplicate exactly when a stored room has the trimmed number; ServerError exactly when the built room fails the schema; Ok adds exactly the built room under an id never handed out before, so a deleted room's id is not reused; otherwise nothing changes; numbers stay unique |
| RoomRoutes.RoomStore.Update | routes/roomRoutes.js:71-90 | NotFound exactly for an unknown id; ServerError for a missing number, a missing type or a room that fails the schema; Duplicate exactly when another room holds the trimmed number; Ok replaces only that room with the edited one; otherwise nothing changes; numbers stay unique |
| RoomRoutes.RoomStore.Delete | routes/roomRoutes.js:92-101 | the room is removed and Ok returned when it existed, otherwise NotFound and nothing changes; a later get finds nothing |

## Left out

- index.js is not part of this model. It holds the Express wiring, sessions, flash exposure, the database connection and the 404/500 pages. The patient handlers set the flash keys `error`/`success`, but index.js exposes only `error_msg`/`success_msg`. That mismatch is not modelled either.
- public/darkmode.js is not part of this model. It only toggles the page theme.
- The Winston audit logging writes only to files and the console, and is left out.
- PatientRoutes.PatientStore.List: the search term is treated as a literal substring with ASCII-only case folding. The source builds a case-insensitive regular expression from the term, so terms with metacharacters and non-ASCII case pairs can behave differently.
- A failing database call is not modelled, because the in-memory table never fails. This covers the catch blocks of the patient list, create, get and update handlers (routes/patientRoutes.js:35-39, 64-68, 79-83, 126-130), apart from the validation and cast failures that `SaveFailed` models. It also covers the room handlers' database errors that reach the 500 handler.
- Ids are natural numbers drawn from a counter, not ObjectIds. Malformed-id cast errors are not modelled. For patients these give the generic error path, and for rooms the 500 handler.
- The `createdAt`/`updatedAt` timestamps depend on the clock and are left out.
- Concurrency is not modelled. The gap between the duplicate check and the save, and the unique index behind it, matter only under interleaving. The stores are sequential.
- Rendering, redirect targets and flash texts are reduced to the outcome.
- The pages that only show a form are not modelled: the new-record forms (routes/patientRoutes.js:42-44, routes/roomRoutes.js:27-29) render nothing from the store. The edit forms (routes/patientRoutes.js:86-99, routes/roomRoutes.js:62-69) look the record up exactly as get does.
- Form fields and the search term are modelled as optional strings. Arrays or objects that the body parser or the query-string parser can produce are left out. For example, a repeated `?search=` arrives as an array, and `trim` on it throws into the list handler's catch block.
- Numbers.ParseIntDecimal: ages are unbounded integers. Double-precision rounding of very long digit strings is not modelled.
- Listing.SortBy: the database's order among records with equal keys is unspecified, and the model promises none. Collations other than plain code-point order are not modelled.
- RoomRoutes.RoomStore.Delete returns the id of the removed room, not the removed document.
- Room update and create failures that the source sends to the 500 handler are all the single outcome `ServerError`. This covers a missing number or type on update and a failed schema check on save.
- A room's assigned patient is never set by these handlers. `assignedPatient` is carried through unchanged and not checked against the patients.
