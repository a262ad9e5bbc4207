# Notes API — a Dafny model of its controllers and note search

This project models the server core of a small notes application: a JSON API
where a visitor registers with an email and password, confirms the account
through a mailed link, logs in, and then manages their own categories and notes,
and searches their notes by text, status and category.

The model is split into one Dafny module per part of the program:

- `Base` — `Option` and the `byte` type.
- `Php` — the PHP semantics the controllers rely on:
  - `trim` and its character set;
  - `empty` and truthiness, where "0" is falsy;
  - `strlen` as a UTF-8 byte count;
  - `bin2hex`;
  - the `LIKE '%…%'` substring test;
  - the `(int)` cast of a query string.
- `Entities` — the user, category and note records, the note statuses, the
  email column width and the HTTP status codes.
- `Storage` — the relational store, as a `Store` class:
  - one table (`seq`) per entity and one auto-increment counter per table;
  - the clock used for timestamps;
  - a ghost log of the confirmation mails handed to the mail service;
  - the `findOneBy`-style lookups;
  - the invariant `Valid()` that every action keeps: ids issued by the
    counters, unique emails, unique pending tokens, verified exactly when no
    token is pending, category names unique per owner, and a note's category,
    while that category exists, owned by the note's owner.

  Each repository `save`/`remove` is one `Store` method.
- `Auth` — register, confirm, login and the current-user lookup.
- `Categories` — list, create, rename and delete of the caller's categories.
- `NoteSearch` — the note repository's `searchNotes` query: its conditions,
  its filtering and its newest-first ordering.
- `Notes` — the note controller:
  - the body validator;
  - show, list, create, update and delete;
  - the status list.

Each controller action that changes the store (register, confirm, category
create, update and delete, note create, update and delete) is a method that
takes the store and returns the HTTP status. Its `ensures` give the status for
every input, what the store holds afterwards, and that `Valid()` still holds.
The read-only actions (login, the current user, category list, note show and
list, and the status list) and the pure parts are functions. Their contracts,
or the lemmas beside them, say what they return in terms of the tables or of
an independent statement. Small helpers such as `Categories.ViewOf` are plain
definitions.

Things the program gets from outside are parameters:

- the signed-in identity;
- the password hasher;
- the email-format check;
- the entity validator;
- the 32 random bytes behind a token;
- the site root of the confirmation link;
- the current time.

## Model

| member | source | states |
|---|---|---|
| Php.TrimLeft | src/Controller/Api/AuthController.php:50 | the leading half of `trim`: the result is a suffix of the input, everything it drops is one of " \t\n\r\0\x0B", and it does not start with one |
| Php.TrimRight | src/Controller/Api/AuthController.php:50 | the trailing half of `trim`: the result is a prefix of the input, everything it drops is a trim character, and it does not end with one |
| Php.Trim | src/Controller/Api/AuthController.php:50 | `trim` returns the slice of its input that starts where the leading run of trim characters ends; every character before and after that slice is a trim character, and the slice neither starts nor ends with one. So it removes exactly the leading and trailing runs |
| Php.TrimFixedIff | src/Controller/Api/CategoryController.php:50 | `trim` leaves a string unchanged exactly when it neither starts nor ends with a trim character |
| Php.TrimIdempotent | src/Controller/Api/CategoryController.php:50-55 | trimming a trimmed value changes nothing, so a stored name or text is already in trimmed form |
| Php.TrimOfWhitespace | src/Controller/Api/CategoryController.php:50 | a value made only of whitespace trims to "" |
| Php.IsMissing | src/Controller/Api/CategoryController.php:50 | the "missing" test `!isset(x) \|\| empty(trim(x))` (also at CategoryController.php line 91 and NoteController.php lines 177 and 181): null, or a value whose trim is `empty`; its cases are stated by `MissingCases` |
| Php.MissingCases | src/Controller/Api/NoteController.php:177-182 | `!isset(x) \|\| empty(trim(x))` holds exactly for null, a value trimming to "", or a value trimming to "0"; whitespace-only values are always missing |
| Php.StrLen | src/Controller/Api/AuthController.php:57 | `strlen` counts UTF-8 bytes: between one and four per character |
| Php.StrLenOfAscii | src/Controller/Api/AuthController.php:57 | for ASCII text the byte count is the character count |
| Php.Bin2Hex | src/Controller/Api/AuthController.php:69 | `bin2hex` gives two lower-case hex digits per byte |
| Php.Bin2HexInjective | src/Controller/Api/AuthController.php:69 | different byte strings give different hex strings |
| Php.Contains | src/Repository/NoteRepository.php:51-52 | the `LIKE '%s%'` test, defined by scanning the text for a position where the needle is a prefix; `ContainsIff` relates it to occurrence at a position |
| Php.ContainsIff | src/Repository/NoteRepository.php:50-53 | the `LIKE '%s%'` test holds exactly when the needle occurs at some position of the text |
| Php.IntCast | src/Controller/Api/NoteController.php:42 | `(int)` of a string: after the leading whitespace and an optional sign, the magnitude is the value of the leading digit run; the result is negative exactly when a "-" sign is followed by a digit run of nonzero value |
| Php.IntCastOfDigits | src/Controller/Api/NoteController.php:42 | `(int)` of a non-empty digit string is its decimal value |
| Php.IntCastOfDecimal | src/Controller/Api/NoteController.php:42 | `(int)` of the decimal form of an id gives the id back, and a nonzero id is a truthy string |
| Php.IntCastOfNegatedDecimal | src/Controller/Api/NoteController.php:42 | `(int)` of "-" followed by the decimal form of a number is that number negated |
| Php.IntCastWithoutDigits | src/Controller/Api/NoteController.php:42 | `(int)` of a string with no sign or digit after leading whitespace is 0 |
| Storage.FindUserByEmail | src/Controller/Api/AuthController.php:61 | the lookup returns a row with that exact email, and returns nothing exactly when no user has it |
| Storage.FindUserByToken | src/Controller/Api/AuthController.php:104 | the lookup returns a row holding that pending token, and returns nothing exactly when no user holds it |
| Storage.FindCategory | src/Controller/Api/CategoryController.php:83 | the lookup returns a row with that id and that owner, and returns nothing exactly when the caller owns no such row |
| Storage.FindCategoryByName | src/Controller/Api/CategoryController.php:57 | the lookup returns a row of that owner with that name, and returns nothing exactly when the owner has no such row |
| Storage.FindNote | src/Controller/Api/NoteController.php:68 | the lookup returns a note with that id and that owner, and returns nothing exactly when the caller owns no such note |
| Storage.RemoveAt | src/Repository/NoteRepository.php:34-41 | `remove` drops exactly one row and keeps the others in order |
| Storage.Confirmed | src/Controller/Api/AuthController.php:114-115 | a confirmed row is verified with its token cleared; id, email and password are unchanged |
| Storage.AddUserKeepsTables | migrations/Version20240101000000.php:19-27 | a new unverified row with the next id, a fresh email that fits the column and a fresh token keeps the store invariant |
| Storage.ConfirmKeepsTables | src/Controller/Api/AuthController.php:114-116 | confirming any user row keeps the store invariant |
| Storage.AddCategoryKeepsTables | src/Controller/Api/CategoryController.php:62-66 | a new category of a stored user, with a name its owner does not use yet, keeps the invariant |
| Storage.RenameKeepsTables | src/Controller/Api/CategoryController.php:102-103 | renaming to a name no other category of the owner uses keeps the invariant, including every note's category link |
| Storage.RemoveCategoryKeepsTables | src/Controller/Api/CategoryController.php:126 | removing a category keeps the invariant; ids are never reused, so a dangling note link never reaches another owner's category |
| Storage.AddNoteKeepsTables | src/Repository/NoteRepository.php:25-32 | saving a valid new note with the next id and a later clock keeps the invariant |
| Storage.ReplaceNoteKeepsTables | src/Repository/NoteRepository.php:25-32 | saving an edited note with the same id and a later clock keeps the invariant |
| Storage.RemoveNoteKeepsTables | src/Repository/NoteRepository.php:34-41 | removing a note keeps the invariant |
| Storage.Store.constructor | migrations/Version20240101000000.php:19-53 | a fresh store is empty, its counters start at 1 and it is valid |
| Storage.Store.NoteRow | src/Controller/Api/NoteController.php:136-146 | every note row of a valid store links only to a category of its own owner |
| Storage.Store.InsertUser | migrations/Version20240101000000.php:21 | the insert succeeds exactly when the email fits 180 characters; then the row gets the next id; otherwise nothing changes |
| Storage.Store.SaveConfirmed | src/Controller/Api/AuthController.php:114-116 | only row `i` changes, to its confirmed form, and the store stays valid |
| Storage.Store.SendConfirmation | src/Controller/Api/AuthController.php:88 | exactly one mail is added to the outbox |
| Storage.Store.InsertCategory | src/Controller/Api/CategoryController.php:66 | the category is appended with the next id, and the store stays valid |
| Storage.Store.SaveCategoryName | src/Controller/Api/CategoryController.php:102-103 | only row `i`'s name changes, and the store stays valid |
| Storage.Store.RemoveCategory | src/Controller/Api/CategoryController.php:126 | exactly row `i` is removed, notes are untouched, and the store stays valid |
| Storage.Store.InsertNote | src/Repository/NoteRepository.php:25-32 | the note is appended with the next id, the clock moves to its timestamp, and the store stays valid |
| Storage.Store.SaveNote | src/Repository/NoteRepository.php:25-32 | only row `i` is replaced, and the store stays valid |
| Storage.Store.RemoveNote | src/Repository/NoteRepository.php:34-41 | exactly row `i` is removed, and the store stays valid |
| Auth.TokenOf | src/Controller/Api/AuthController.php:69 | the confirmation token is 64 hexadecimal characters |
| Auth.TokensDiffer | src/Controller/Api/AuthController.php:69 | different random draws give different tokens |
| Auth.NewUser | src/Controller/Api/AuthController.php:66-69 | a new user is unverified and holds the token |
| Auth.MailLinkCarriesToken | src/Controller/Api/AuthController.php:82-88 | the mailed confirmation link ends with, and so contains, the token |
| Auth.Register | src/Controller/Api/AuthController.php:42-97 | statuses in check order: 400 for a missing field, a bad trimmed email or a password under 6 bytes; 409 for a taken email; 400 for validator violations; 500 for an email over the column width; otherwise 201. Only 201 stores one unverified user (trimmed email, hashed password, fresh token) and sends one mail with that token. The reply carries only id and email |
| Auth.SaveAndMail | src/Controller/Api/AuthController.php:80-96 | 201 exactly when the insert succeeds; then the user and one mail with its token are added; on 500 nothing changes |
| Auth.ConfirmAccount | src/Controller/Api/AuthController.php:102-123 | 404 exactly when no user holds the token, and then nothing changes. Otherwise only the holder becomes verified and loses the token (200). Afterwards no user holds the token |
| Auth.ConfirmTwice | src/Controller/Api/AuthController.php:104-116 | a second confirmation with the same token is always 404 |
| Auth.Login | src/Controller/Api/AuthController.php:128-147 | 401 exactly when there is no identity; 403 exactly when it is unverified; 200 with only id and email exactly when it is verified |
| Auth.GetCurrentUser | src/Controller/Api/AuthController.php:160-175 | null exactly for an anonymous caller; otherwise the caller's id, email and verified flag |
| Auth.LoginGate | src/Controller/Api/AuthController.php:136-138 | a stored user may log in exactly when it no longer holds a confirmation token |
| Auth.ConfirmationOpensLogin | src/Controller/Api/AuthController.php:114-138 | an unverified user gets 403 and the same user once confirmed gets 200 |
| Categories.List | src/Controller/Api/CategoryController.php:28-40 | the list holds exactly the caller's categories |
| Categories.ListNamesDistinct | src/Controller/Api/CategoryController.php:31-39 | in a valid store a caller's list never shows one name or one id twice |
| Categories.ListRowsDistinct | src/Controller/Api/CategoryController.php:31 | filtering keeps rows pairwise distinct in id, and in name within one owner |
| Categories.ValidRowsDistinct | src/Controller/Api/CategoryController.php:57-60 | a valid category table has distinct ids and per-owner distinct names |
| Categories.NameHolderUnique | src/Controller/Api/CategoryController.php:97-98 | the name lookup finds a holder other than row `i` exactly when some other category of the owner has the name |
| Categories.OwnNameNoConflict | src/Controller/Api/CategoryController.php:97-100 | no other category of the owner has row `i`'s current name, so renaming to it never conflicts |
| Categories.SameIdSameRow | src/Controller/Api/CategoryController.php:98 | in a valid store a category id names one row |
| Categories.Create | src/Controller/Api/CategoryController.php:46-75 | 400 exactly for a missing name; 409 exactly when the caller (not another owner) already has the trimmed name; otherwise exactly one category is appended with the caller as owner, the trimmed name and the next id (201). Nothing else changes |
| Categories.Update | src/Controller/Api/CategoryController.php:80-112 | 404 exactly when the caller owns no category with the id, decided before the body is read; then 400 for a missing name; then 409 exactly when another category of the caller (different id) has the trimmed name; otherwise only that row is renamed (200). Nothing changes on an error |
| Categories.Rename | src/Controller/Api/CategoryController.php:97-103 | 409 exactly when a different category of the same owner has the name; otherwise only row `i` is renamed |
| Categories.Delete | src/Controller/Api/CategoryController.php:117-129 | 404 exactly when the caller owns no category with the id, and then nothing changes; otherwise exactly that row is removed (200) |
| Categories.CreatedIsListed | src/Controller/Api/CategoryController.php:62-66 | a created category appears in its owner's list |
| Categories.DeletedIsNotListed | src/Controller/Api/CategoryController.php:126 | after a delete the owner's list shows no category with the deleted id |
| Categories.RemovedIdGone | src/Controller/Api/CategoryController.php:126 | with distinct ids, no row with the removed id is left |
| NoteSearch.Conditions | src/Repository/NoteRepository.php:45-63 | the query always has the owner condition first; it has the text, status and category conditions exactly when that filter is truthy |
| NoteSearch.ConditionsMeanMatches | src/Repository/NoteRepository.php:45-63 | a note satisfies every condition of the query exactly when it matches the filter-by-filter specification, with the filters combined by AND |
| NoteSearch.Matches | src/Repository/NoteRepository.php:45-63 | the notes a search must return, filter by filter: the owner's, containing the search text in title or content when it is truthy, with exactly the status when it is truthy, in the category when it is nonzero; `ConditionsMeanMatches` ties it to the query's conditions |
| NoteSearch.Where | src/Repository/NoteRepository.php:46 | one `andWhere` keeps each row satisfying the condition as often as it occurs, and drops every other row |
| NoteSearch.WhereAll | src/Repository/NoteRepository.php:45-63 | applying the `andWhere` conditions in turn keeps only rows of the input and never adds rows |
| NoteSearch.WhereAllCounts | src/Repository/NoteRepository.php:45-63 | all conditions together keep a row exactly when it satisfies every condition |
| NoteSearch.InsertByUpdated | src/Repository/NoteRepository.php:48 | inserting into a newest-first sequence keeps it newest-first and adds exactly one element |
| NoteSearch.HeadStaysFirst | src/Repository/NoteRepository.php:48 | an older note inserted below a sorted head keeps the sequence sorted |
| NoteSearch.SortByUpdatedDesc | src/Repository/NoteRepository.php:48 | the order is non-increasing in `updatedAt` and is a permutation of the input |
| NoteSearch.SearchNotes | src/Repository/NoteRepository.php:43-66 | the result is sorted newest first, and holds every matching note exactly as often as the table does, and nothing else |
| NoteSearch.SearchComplete | src/Repository/NoteRepository.php:43-66 | a note is returned exactly when it is stored and matches; every result is the owner's; nothing matching gives an empty result |
| NoteSearch.FalsyFiltersIgnored | src/Repository/NoteRepository.php:50-63 | a null, "" or "0" search or status, and a 0 category, give the same result as no filter |
| NoteSearch.UnfilteredIsAllOwned | src/Repository/NoteRepository.php:45-47 | with no filter the result is exactly the owner's notes |
| Notes.ValidateNoteData | src/Controller/Api/NoteController.php:173-190 | a title message exactly when the title is missing; a content message exactly when the content is missing; a status message exactly when a given status is unknown; messages in title, content, status order; no message exactly when the body is valid |
| Notes.Collect | src/Controller/Api/NoteController.php:175-189 | the appends produce one message per failed rule, in rank order, and none when no rule fails |
| Notes.RankedAppend | src/Controller/Api/NoteController.php:177-187 | appending a message ranked after every collected one keeps the order |
| Notes.StatusList | src/Controller/Api/NoteController.php:55-60 | the list holds exactly the accepted statuses, which are "new", "todo", "done" as the form offers them |
| Notes.Show | src/Controller/Api/NoteController.php:65-75 | 404 exactly when the caller owns no note with the id; otherwise 200 with that stored note |
| Notes.List | src/Controller/Api/NoteController.php:31-50 | the reply is sorted newest first and holds exactly the caller's notes that pass every truthy filter; the category parameter is cast with `(int)` |
| Notes.CategoryFilter | src/Controller/Api/NoteController.php:42 | no category filter exactly when the query parameter is absent or falsy; otherwise the filter is the `(int)` cast of the parameter |
| Notes.ListByCategory | src/Controller/Api/NoteController.php:36-43 | filtering by the decimal form of a nonzero id returns exactly the caller's notes in that category |
| Notes.DecimalCategoryFilter | src/Controller/Api/NoteController.php:42 | a nonzero decimal id reaches the search unchanged |
| Notes.ListCategoryZero | src/Controller/Api/NoteController.php:42 | the category parameter "0" filters nothing |
| Notes.OwnedCategoryLink | src/Controller/Api/NoteController.php:97-101 | a category found for the caller is a valid link for the caller's note |
| Notes.ResolveCategory | src/Controller/Api/NoteController.php:136-146 | fails exactly when a truthy `categoryId` names no category of the caller. Otherwise: an absent key keeps the current link; null or 0 clears it; a truthy id sets it, and the link stays valid |
| Notes.ValidTextIsStored | src/Controller/Api/NoteController.php:91-92 | the trimmed title and content of a valid body are non-empty and trimmed |
| Notes.Create | src/Controller/Api/NoteController.php:80-110 | 400 exactly for an invalid body; then 404 exactly when a truthy `categoryId` is not the caller's; otherwise exactly one note is appended (201): next id, the caller as owner, trimmed title and content, the status or "new", both timestamps now, the category when given. Nothing changes on an error |
| Notes.SaveNew | src/Controller/Api/NoteController.php:90-104 | the new note is built from the body, appended, and the store stays valid |
| Notes.Update | src/Controller/Api/NoteController.php:115-154 | 404 when the caller owns no note with the id (before validation); 400 for an invalid body; 404 for a truthy `categoryId` not the caller's; otherwise only that note changes (200). It takes the trimmed text; the status or its old one; updatedAt = now; createdAt, id and owner unchanged; the category kept, cleared or replaced. Nothing changes on an error |
| Notes.EditNote | src/Controller/Api/NoteController.php:131-148 | the category check and the save of a valid edit on row `i`; 404 changes nothing |
| Notes.SaveEdit | src/Controller/Api/NoteController.php:131-134 | only row `i` is replaced by its edited form, and the store stays valid |
| Notes.Delete | src/Controller/Api/NoteController.php:159-171 | 404 exactly when the caller owns no note with the id, and then nothing changes; otherwise exactly that note is removed (200) |
| Notes.DeletedNoteIsGone | src/Controller/Api/NoteController.php:162-168 | after a delete the owner's `show` of that id is 404 |
| Notes.RemovedNoteGone | src/Controller/Api/NoteController.php:168 | with distinct ids, no note with the removed id is left |

## Left out

- `logout`: it only throws and is intercepted by the framework (src/Controller/Api/AuthController.php:152-155).
- The authenticator (`getUser`) and the password check at login are outside the controllers. The identity is an input, and every category and note action takes a caller that is a stored user.
- The email grammar (`filter_var`), password hashing, the entity validator's constraints, random bytes and URL generation are parameters. The entity classes and user repository are not part of this model.
- The mail service's file writes and HTML template: a sent mail is an entry (recipient, site root, token) in a ghost outbox.
- JSON decoding. In the model a body member is absent, null or a string (for `categoryId`: absent, null or an integer). No controller declares `strict_types`, so PHP coerces the other JSON types instead of rejecting them, and the model leaves these inputs out:
  - Numbers and booleans where a string is expected are converted: `trim(5)` is "5", `trim(true)` is "1", and `strlen(123456)` is 6, so a numeric password of six digits registers. The model has no non-string members, so it cannot show these conversions.
  - A boolean `status` of `true` passes the loose `in_array` check (src/Controller/Api/NoteController.php:185), because `true == "new"` in PHP. `setStatus` then receives `true`, and with a `string` parameter PHP stores "1" (lines 93 and 133; the entity class is not part of this model). That status is outside "new", "todo" and "done", so the source can store a note that breaks the `IsStatus` part of the note-row invariant the model proves.
  - Arrays or objects where a string is expected make `trim` or `strlen` throw a `TypeError`, which the framework turns into a server error.
  - An undecodable body: `json_decode` returns null. In register and the category actions, `isset` on it is false, so the answer is 400 (src/Controller/Api/AuthController.php:46, src/Controller/Api/CategoryController.php:50 and 91). That is the answer the model gives for a body with every member absent, so these actions behave as modelled. In the note actions, `validateNoteData(array $data)` (src/Controller/Api/NoteController.php:173) receives null and throws a `TypeError`, which the model does not represent.
- `serializeNote` and the response bodies: replies carry the stored rows or (id, name) views, not the JSON projection.
- `DateTime`: timestamps are a natural-number clock that never runs backwards.
- The `utf8mb4_unicode_ci` collation (migrations/Version20240101000000.php:28, 37 and 53): every string comparison the database makes is modelled as exact equality, not as the collation's case-, accent- and trailing-space-insensitive comparison. This covers the email lookups (`Storage.FindUserByEmail`, the unique email index), the category-name lookup (`Storage.FindCategoryByName`), the confirmation-token lookup (`Storage.FindUserByToken`, so `Auth.ConfirmAccount` answers 404 for an upper-cased token that the database would match) and the status filter (`NoteSearch.Holds` and `NoteSearch.Matches`, so `?status=DONE` finds nothing in the model but finds "done" notes in the database).
- Column widths other than the email's: the category name (VARCHAR(255), migrations/Version20240101000000.php:33), the note title (VARCHAR(255), line 43) and the note status (VARCHAR(20), line 45) are unbounded in the model. An over-long name or title, which the database would reject or cut, is stored whole.
- The `LIKE` pattern: it is a plain substring test, so `%` and `_` in a search are not wildcards, and case folding is not modelled.
- Php.IntCast: does not model 64-bit overflow, or PHP's reading of numeric strings with a fraction or exponent such as "1e3".
- Categories.Delete (with Storage.Store.RemoveCategory, the `remove` it calls): the note→category foreign key (migrations/Version20240101000000.php:52) has no ON DELETE clause, so InnoDB restricts the delete, and `remove` fails with a database error while a note references the category. The model does not model that failure: it removes the row and leaves those notes' category ids as they are. These dangling links exist only in the model. Ids are never reused, so no note ever points at another owner's category.
- Storage.Store.RemoveCategory: always removes row `i`; the database's refusal while a note references the category, described on the line above, is not modelled.
- Storage.Store.InsertUser: the insert does not check emails or tokens against the table. Register only saves after its own lookup has ruled out a taken email, and it requires the fresh token to be held by nobody. This stands in for the unique index and the randomness of a 64-hex-digit token.
- Ties in `updatedAt` are ordered by the insertion sort, not by the database's unspecified tie order.
- Concurrency between requests is not modelled: each action runs alone on the store.
- "Missing": a name, title or content that trims to "0" counts as missing, because `empty("0")` is true in PHP. This follows the code rather than the plainer reading "blank after trimming".
- Password length: it is measured in bytes with `strlen`, not in characters.
