# Lineas de profundización — a verified model of the core

The application keeps a catalogue of specialisation tracks ("líneas de profundización") of
a degree programme. Each track has a unique name, a description, a coordinator and their
e-mail, a knowledge area from a closed list, required credits, subjects and a state
(`activa`/`inactiva`). It has two halves.

- **Server.** A REST controller lists, reads, creates, updates, soft-deletes, searches and
  counts tracks. An account controller registers users, logs them in with a JWT and changes
  passwords. Both sit on two store schemas and one error middleware.
- **Browser.** A small client keeps the token and the user in local storage. An auth
  provider derives "signed in" and "admin" from them, and a route guard acts on those
  flags. The catalogue page holds filter state and draws the page-number control. The
  admin page validates and submits the track form.

## Modules

| file | what it models |
|---|---|
| `wrappers.dfy` | `Option` and `Result` |
| `text.dfy` | JavaScript `trim`, `toLowerCase`, case-insensitive comparison and substring, the e-mail pattern `^[^\s@]+@[^\s@]+\.[^\s@]+$`, the string order |
| `codec.dfy` | decimal numbers (`parseInt`), the escaped field encoding that stands for `JSON.stringify`/`JSON.parse` and base64 payloads, `split('.')` |
| `errors.dfy` | `AppError` and `errorHandler` |
| `crypto.dfy` | bcrypt hash/compare, and JWT sign/verify as `header.payload.mac` |
| `track.dfy` | the `LineaProfundizacion` schema |
| `query.dfy` | the query side of the track controller: filter, sort, pagination, search |
| `catalogue.dfy` | the write side: create, update, delete, lookups and statistics, over the class `TrackStore` |
| `user.dfy` | the `Usuario` schema, its pre-save hook and `compararPassword`, with the class `UsuarioDoc` |
| `accounts.dfy` | the account controller, over the class `UserStore` |
| `client_auth.dfy` | `utils/auth.ts`, over the class `BrowserStorage` |
| `auth_context.dfy` | `AuthContext.tsx`, with the class `AuthProvider` |
| `protected_route.dfy` | `ProtectedRoute.tsx` |
| `lineas_page.dfy` | `Lineas.tsx` |
| `admin_form.dfy` | `AdminLineas.tsx` |

## Modelling choices

**Store and clock**
- The document store is a `map<nat, Track>` (or `map<nat, StoredUser>`).
- Ids are handed out 0, 1, 2, … and never reused, since deletion only retires a track. The
  store's natural order is therefore id order.
- Every controller operation reads one snapshot and then either fails without writing or
  writes once.
- Times are integer parameters. The server clock counts seconds; the browser clock counts
  milliseconds.

**Store errors**
- A store-level failure is an error without a status, so `errorHandler` answers 500. This
  covers a schema violation on save and a duplicate key on the unique e-mail index.

**Libraries and encodings**
- bcrypt is idealised as a hash that records its salt and accepts exactly the plaintext it
  was made from. The library compares only the first 72 bytes of the UTF-8 plaintext; the
  lines under "Left out" name the members this affects.
- A JWT is `header.payload.mac`. The mac is an injective function of key and message, the
  payload carries `userId`, `iat`, `exp`, `iss` and `sub`, and verification fails exactly on
  a bad shape, a foreign key or `now >= exp`.
- `JSON.stringify`/`JSON.parse` and base64 are replaced by one escaped field encoding with a
  proved round trip.

**Browser**
- The browser's local storage is a `map<string, string>`.
- The server's answer to the profile request made at start-up is a boolean parameter.

**Where the code differs from its own documentation**
- `estaAutenticado` in `src/utils/auth.ts:58-60` is `!!obtenerToken()`: a stored empty token
  counts as signed out. The model follows the code, not "the key is present".
- The same holds in the auth provider, where signed in means a non-empty token and a user.
- `Lineas.tsx` always sends every filter. The empty area therefore reaches the server as an
  empty, falsy value, which selects every area.

## Model

| member | source | states |
|---|---|---|
| Text.Trim | src/controllers/lineasController.ts:160-163 | the result is the input without leading and trailing white space: it is a slice of the input, empty exactly when the input is all white space, and otherwise starts and ends with a non-space |
| Text.TrimmedIffFixed | src/models/LineaProfundizacion.ts:16-21 | a string is trimmed exactly when trimming leaves it unchanged, and a trimmed string is trimmed |
| Text.TrimIdempotent | src/models/Usuario.ts:13-17 | trimming twice is trimming once |
| Text.ToLower | src/controllers/authController.ts:38 | lower-casing keeps the length and lowers each character on its own |
| Text.LowerCharKeepsClass | src/controllers/authController.ts:218-221 | lower-casing does not change whether a character is white space, '@' or '.', which is what the e-mail pattern looks at |
| Text.ValidEmailNormalised | src/controllers/authController.ts:24-38 | an address the pattern accepts has no surrounding white space, and it still matches the pattern once lower-cased |
| Text.LowerKeepsEmailShape | src/controllers/authController.ts:24-38 | lower-casing keeps the '@' and the '.' where the pattern found them and adds no white space or '@', so the lowered address still matches |
| Text.IsSpace | src/controllers/authController.ts:219 | the white-space class of the e-mail pattern and of `trim`: JavaScript's white-space and line-terminator characters |
| Text.ValidEmail | src/controllers/authController.ts:218-221 | the e-mail pattern: a local part and a domain free of white space and '@', one '@' between them, and a '.' in the domain with characters on both sides |
| Text.LexLeqTotal | src/controllers/lineasController.ts:32 | any two names are ordered one way or the other |
| Text.LexLeqTransitive | src/controllers/lineasController.ts:32 | the name order is transitive |
| Codec.NatToString | src/controllers/authController.ts:226-235 | a number is written as a non-empty string of decimal digits |
| Codec.ParseNatToString | src/controllers/authController.ts:241-243 | reading back a written number gives that number |
| Codec.DigitPrefix | src/pages/AdminLineas.tsx:114 | the longest run of leading digits: all digits, followed by the end or by a non-digit |
| Codec.ParseIntPrefix | src/pages/AdminLineas.tsx:114 | `parseInt` skips leading white space and reads one optional sign and the leading digits; it yields no number on empty or all-white-space text |
| Codec.LeadingNumber | src/pages/AdminLineas.tsx:114 | there is a leading number exactly when the text starts with a digit |
| Codec.ParseSigned | src/pages/AdminLineas.tsx:114 | reading one optional sign and the digits that follow gives a number only for non-empty text |
| Codec.ParseIntPrefixAfterSpaces | src/pages/AdminLineas.tsx:114 | leading white space is skipped: the text reads as what follows it |
| Codec.ParseIntPrefixOfNumeral | src/pages/AdminLineas.tsx:114 | white space, an optional sign, a written number and a suffix not starting with a digit read as that number, negated after '-' |
| Codec.ParseIntPrefixNaN | src/pages/AdminLineas.tsx:114 | after white space and an optional sign, text starting with anything but a digit, a sign or a space gives no number |
| Codec.DecodeEncodeFields | src/utils/auth.ts:32-48 | decoding an encoded field list gives back exactly the list |
| Codec.Split | src/utils/auth.ts:79 | `split` always gives at least one part |
| Codec.SplitThree | src/utils/auth.ts:79 | three dot-free parts joined by dots split back into exactly those three |
| ErrorHandler.NewAppError | src/middleware/errorHandler.ts:3-14 | an `AppError` keeps its message; its status defaults to 500 and `isOperational` to true |
| ErrorHandler.Normalise | src/middleware/errorHandler.ts:22-30 | an `AppError` passes through unchanged; any other error becomes an `AppError` with its own status when that is present and not 0, or 500 otherwise, and its own message, or the generic one when it is empty |
| ErrorHandler.Handle | src/middleware/errorHandler.ts:16-40 | the response never reports success; its status and message are those of the normalised error; the error detail is present exactly when the environment is `development` |
| ErrorHandler.HandleNormalised | src/middleware/errorHandler.ts:24-34 | handling is the same before and after normalising, and an `AppError` answers with its own status and message |
| ErrorHandler.UnknownFailureIs500 | src/middleware/errorHandler.ts:25-26 | an error without a status answers 500, and one without a message answers the generic message |
| Crypto.CompareHash | src/models/Usuario.ts:44-55 | a hash accepts the plaintext it was made from and, in this idealised comparison, nothing else, whatever the salt |
| Crypto.DecodeEncodeClaims | src/controllers/authController.ts:226-235 | the claims written into a token payload read back unchanged |
| Crypto.MacInjective | src/controllers/authController.ts:241-243 | equal signatures mean equal key and equal signed text |
| Crypto.Verify | src/controllers/authController.ts:241-243 | whatever verification accepts is unexpired |
| Crypto.VerifySigned | src/controllers/authController.ts:226-247 | a signed token verifies under its own key and no other, exactly until its expiry, and gives back its claims |
| Crypto.PayloadOfSigned | src/utils/auth.ts:79-80 | reading the middle part of a signed token gives its encoded claims, which decode to the claims |
| Crypto.Hash | src/models/Usuario.ts:44-50 | the hash the pre-save hook stores, recording its salt |
| Crypto.Compare | src/models/Usuario.ts:53-55 | the idealised `bcrypt.compare`: a plaintext matches a hash made from that plaintext |
| Crypto.Sign | src/controllers/authController.ts:226-235 | `jwt.sign`: the header, the encoded claims and the mac of both under the key, joined by dots |
| TrackModel.Retired | src/controllers/lineasController.ts:299 | soft deletion leaves the state `inactiva` |
| TrackModel.RetiredValid | src/models/LineaProfundizacion.ts:15-58 | a valid track stays valid when retired, and only its state changes |
| TrackModel.ValidTrack | src/models/LineaProfundizacion.ts:15-59 | the schema: the four required strings are non-empty, the name is trimmed, the area is one of the enum, credits are at least 0, the state is `activa` or `inactiva` |
| TrackQuery.BuildFilter | src/controllers/lineasController.ts:15-23 | the filter built field by field selects exactly the tracks in the requested area (one value, or membership for an array; absent or empty imposes nothing) and in the requested state (absent or empty imposes nothing) |
| TrackQuery.Admits | src/controllers/lineasController.ts:15-23 | a record passes the query's filter: an absent or empty area selects every area, one value that area, an array its members; an absent or empty state every state, any other value that state |
| TrackQuery.Where | src/controllers/lineasController.ts:38-44 | the selection holds exactly the records that satisfy the condition, and only records of the input |
| TrackQuery.WhereOfDistinct | src/controllers/lineasController.ts:38 | selecting from distinct records gives distinct records |
| TrackQuery.EstadosPartition | src/controllers/lineasController.ts:349-352 | on records whose state is one of the two, the active and inactive counts add up to the total |
| TrackQuery.WherePartition | src/controllers/lineasController.ts:340-352 | two complementary conditions split the records between them |
| TrackQuery.ClampPage | src/controllers/lineasController.ts:12-26 | the page is at least 1, defaults to 1, and is the requested page when that is at least 1 |
| TrackQuery.ClampLimit | src/controllers/lineasController.ts:12-27 | the page size lies in 1..50, defaults to 10, is the requested size inside that range, and is 1 below it and 50 above it |
| TrackQuery.CeilDiv | src/controllers/lineasController.ts:48 | the page count covers every record with no empty page at the end, and is 0 exactly when there are no records |
| TrackQuery.PaginationFor | src/controllers/lineasController.ts:48-50 | the metadata echoes total, page and size; the page count is the ceiling of total over size; there is a next page exactly when the page is below the page count, and a previous one exactly when it is above 1 |
| TrackQuery.Skip | src/controllers/lineasController.ts:28 | page 1 skips no record, and the records skipped plus one page reach the end of the requested page |
| TrackQuery.HasNextIffMoreRecords | src/controllers/lineasController.ts:49 | there is a next page exactly when the records so far (page times size) are fewer than the total |
| TrackQuery.PageWindow | src/controllers/lineasController.ts:28-41 | skipping and limiting returns at most the page size, exactly as many as remain after the skip up to that size, and the records at those positions in order |
| TrackQuery.SortKeyFor | src/controllers/lineasController.ts:31-34 | the sort table: `nombre` by name, `fecha` by newest creation date, `creditos` by credits, anything else unsorted |
| TrackQuery.Before | src/controllers/lineasController.ts:31-34 | the order of each sort key: names ascending, creation dates descending, credits ascending |
| TrackQuery.BeforeTotal | src/controllers/lineasController.ts:31-34 | under every sort key any two tracks can be ordered |
| TrackQuery.BeforeTransitive | src/controllers/lineasController.ts:31-34 | every sort key orders transitively |
| TrackQuery.Insert | src/controllers/lineasController.ts:39 | insertion adds exactly one record and loses none |
| TrackQuery.SortBy | src/controllers/lineasController.ts:39 | sorting permutes the records |
| TrackQuery.InsertSorted | src/controllers/lineasController.ts:39 | inserting into a sorted sequence keeps it sorted |
| TrackQuery.SortBySorted | src/controllers/lineasController.ts:31-39 | the result is sorted by the key and is a permutation of the input |
| TrackQuery.SortedPairwise | src/controllers/lineasController.ts:31-34 | in a sorted sequence every earlier record may come before every later one, not just neighbours |
| TrackQuery.Admitted | src/controllers/lineasController.ts:38-44 | the records the query selects are exactly those of the store that satisfy both conditions |
| TrackQuery.WindowSorted | src/controllers/lineasController.ts:39-41 | a page cut from a sorted listing is sorted |
| TrackQuery.ListFrom | src/controllers/lineasController.ts:12-75 | the answer holds at most the page size of records and counts them; its pagination is computed from the number of matching records with the clamped page and size; its records are exactly the window of the sorted matching records that skips the earlier pages and keeps one page size; each satisfies the filter; the page is sorted by the requested key |
| TrackQuery.ListSorted | src/controllers/lineasController.ts:31-41 | any two records of a listing are in the order of the requested key |
| TrackQuery.TwentyFiveRecords | src/controllers/lineasController.ts:26-50 | 25 records at 10 per page: three pages, a next page from page 1 but none from page 3, 10 records on page 1 and 5 on page 3 |
| TrackQuery.SearchHits | src/controllers/lineasController.ts:399-411 | the hits are exactly the active tracks whose name, description, coordinator, area or one of whose subjects contains the term, ignoring case |
| TrackQuery.SearchMatch | src/controllers/lineasController.ts:399-411 | a track matches when it is active and the term occurs, ignoring case, in its name, description, coordinator, area or one of its subjects |
| TrackQuery.SearchCap | src/controllers/lineasController.ts:393-412 | the result cap defaults to 10, is the requested number when positive, its magnitude when negative, and no cap for 0 |
| TrackQuery.TakeAtMost | src/controllers/lineasController.ts:412 | at most the cap, a prefix of the input: all of it when the cap is absent or large enough, exactly the cap's number of records otherwise |
| Catalogue.InOrder | src/controllers/lineasController.ts:38 | the natural order lists each record once, at its id |
| Catalogue.TrimAll | src/controllers/lineasController.ts:166 | every subject is trimmed, and the list keeps its length and order |
| Catalogue.MissingRequired | src/controllers/lineasController.ts:137-139 | some required field is falsy: an empty string, or credits of 0 |
| Catalogue.NewTrack | src/controllers/lineasController.ts:159-169 | the record built from the body: trimmed text, a lower-case e-mail, trimmed subjects, active, created now, version 0 |
| Catalogue.NewTrackNormalised | src/controllers/lineasController.ts:159-169 | the new record has trimmed text fields; an accepted e-mail is kept lower-cased and still matches the pattern; it is active, at version 0, created now |
| Catalogue.CreateNameTakenAsWritten | src/controllers/lineasController.ts:150-152 | the name check as written: the name as submitted is compared, ignoring case |
| Catalogue.CreateNameTaken | src/controllers/lineasController.ts:150-160 | the name check as intended: the trimmed name that will be stored is compared, ignoring case |
| Catalogue.CreateNameCheckAsWrittenAdmitsDuplicate | src/controllers/lineasController.ts:150-160 | with "Datos" stored, the name check as written lets any body named " datos" through, and the store then holds two names equal ignoring case |
| Catalogue.CreateNameCheckKeepsNamesDistinct | src/controllers/lineasController.ts:149-156 | comparing the trimmed name keeps the store's names distinct ignoring case |
| Catalogue.Patched | src/controllers/lineasController.ts:235-246 | the supplied fields replace the stored ones (the name trimmed by the schema), a creation date in the body replaces the stored one too, every other field is kept, the id stays, and the version goes up by one |
| Catalogue.EmptyPatchBumpsVersion | src/controllers/lineasController.ts:237-240 | an empty update changes only the version |
| Catalogue.UpdateNameConflictAsWritten | src/controllers/lineasController.ts:222-227 | the update's name check as written: for a non-empty new name that differs exactly from the stored one, the name as submitted is compared with every other record, ignoring case |
| Catalogue.UpdateNameConflict | src/controllers/lineasController.ts:222-233 | the update's name check as intended: the same guard, with the trimmed new name compared with every other record, ignoring case |
| Catalogue.UpdateNameCheckAsWrittenAdmitsDuplicate | src/controllers/lineasController.ts:223-232 | with "Datos" and "Redes" stored, renaming "Redes" to "datos " passes the check as written and leaves two names equal ignoring case |
| Catalogue.UpdateNameCheckKeepsNamesDistinct | src/controllers/lineasController.ts:222-232 | comparing the trimmed name keeps the names distinct after an update that passes |
| Catalogue.StoreValidAdd | src/controllers/lineasController.ts:159-171 | adding a valid record under the next id, with its name distinct, keeps the store invariant |
| Catalogue.StoreValidReplace | src/controllers/lineasController.ts:235-246 | replacing a record by a valid one under the same id, with names distinct, keeps the store invariant |
| Catalogue.StoreValid | src/models/LineaProfundizacion.ts:15-59 | the store invariant: ids 0 to n-1 each under its own id, every record valid under the schema with an e-mail the pattern accepts, and names distinct ignoring case |
| Catalogue.SameNameKeepsDistinct | src/controllers/lineasController.ts:299 | a replacement that keeps the name keeps the names distinct |
| Catalogue.PatchedEmailValid | src/controllers/lineasController.ts:212-214 | an update the e-mail check lets through leaves an e-mail that matches the pattern |
| Catalogue.CreateOutcome | src/controllers/lineasController.ts:137-171 | with the corrected name check (the trimmed name is compared): the checks in order and their 400 answers: a falsy required field (credits of 0 included), negative credits, a bad e-mail, a taken name; success exactly when all pass and the schema accepts the record, which is then the normalised new record; the only other failure is the schema's 500 |
| Catalogue.CreateKeepsStoreValid | src/controllers/lineasController.ts:137-171 | with the corrected name check: a successful create keeps the store invariant, distinct names included |
| Catalogue.CreateRefusals | src/middleware/errorHandler.ts:24-32 | a refused create answers 400, or 500 only when the built record breaks the schema |
| Catalogue.UpdateOutcome | src/controllers/lineasController.ts:212-246 | with the corrected name check (the trimmed name is compared): a truthy e-mail failing the pattern is 400, an unknown id 404, a name conflict 400; success exactly when all pass and the patched record is valid, which is then the result; the only other failure is the schema's |
| Catalogue.UpdateKeepsStoreValid | src/controllers/lineasController.ts:212-246 | with the corrected name check: a successful update keeps the store invariant |
| Catalogue.TrackStore.Records | src/controllers/lineasController.ts:38 | one record per id handed out, each the one stored under its id |
| Catalogue.TrackStore.constructor | src/models/LineaProfundizacion.ts:15-60 | the store starts empty and valid |
| Catalogue.TrackStore.List | src/controllers/lineasController.ts:10-75 | the answer is the listing of the current records, and every record in it is the stored one |
| Catalogue.TrackStore.GetById | src/controllers/lineasController.ts:90-119 | found exactly when the id is stored, active or retired, with that record; otherwise 404 |
| Catalogue.TrackStore.Create | src/controllers/lineasController.ts:124-197 | with the corrected name check: the answer is the create outcome; on success exactly one record is added under the next id and nothing else changes; on failure nothing changes; the invariant is kept |
| Catalogue.TrackStore.Update | src/controllers/lineasController.ts:202-276 | with the corrected name check: the answer is the update outcome; on success only that record is replaced; on failure nothing changes; the invariant is kept |
| Catalogue.TrackStore.Delete | src/controllers/lineasController.ts:281-324 | succeeds exactly for a stored id, and then only that record's state becomes `inactiva`; an unknown id is 404 and changes nothing |
| Catalogue.TrackStore.Search | src/controllers/lineasController.ts:391-434 | a missing term or one shorter than 2 after trimming is 400; otherwise every result is an active stored track matching the term, there are at most the cap of them, and they are the first hits in natural order |
| Catalogue.TrackStore.Stats | src/controllers/lineasController.ts:329-369 | the total counts every record; the active and inactive counts are exact and add up to the total; the per-area object has an entry exactly for each area in use, holding its count |
| Catalogue.AreaCounts | src/controllers/lineasController.ts:343-367 | one entry per area in use, holding the number of records in it, at least 1 |
| UserModel.NormaliseEmail | src/models/Usuario.ts:18-24 | the stored e-mail is trimmed and lower case |
| UserModel.NormaliseValidEmail | src/controllers/authController.ts:24-38 | for an address the pattern accepts, normalising only lowers it, and the result is non-empty and still accepted |
| UserModel.ValidUserNotInactive | src/models/Usuario.ts:30-34 | no account valid under the schema has the role `inactivo` |
| UserModel.ValidUser | src/models/Usuario.ts:12-37 | the schema: the name is non-empty and trimmed, the e-mail non-empty, trimmed and lower case, the role `estudiante` or `admin` |
| UserModel.HookedPassword | src/models/Usuario.ts:40-50 | after the hook the password is a hash; a modified plaintext becomes a hash that accepts exactly that plaintext; an unmodified hash is kept |
| UserModel.UsuarioDoc.constructor | src/models/Usuario.ts:12-37 | a new document has the name trimmed, the e-mail lowered and trimmed, and the password as a fresh plaintext |
| UserModel.UsuarioDoc.Load | src/models/Usuario.ts:12-37 | a loaded document holds the stored account with its password unmodified |
| UserModel.UsuarioDoc.ValidationError | src/models/Usuario.ts:12-37 | validation passes exactly when name and e-mail are present, the role is in the enum, and a modified plaintext has at least 6 characters; its failure carries no status |
| UserModel.UsuarioDoc.PreSave | src/models/Usuario.ts:40-50 | the hook hashes the password only when it was modified and changes nothing else |
| UserModel.UsuarioDoc.CompararPassword | src/models/Usuario.ts:53-55 | when the stored hash was made from p, exactly p is accepted |
| UserModel.SavedPasswordCompares | src/models/Usuario.ts:44-55 | after saving plaintext p, the comparison accepts p and refuses every other plaintext |
| Accounts.Secret | src/controllers/authController.ts:229 | the signing key is `JWT_SECRET` when set and `secret_key` otherwise, never empty |
| Accounts.Ttl | src/controllers/authController.ts:231 | the lifetime is 24 hours when `JWT_EXPIRES_IN` is unset; a numeral setting counts milliseconds, and the lifetime is the whole seconds it spans |
| Accounts.TokenClaims | src/controllers/authController.ts:226-235 | the claims of a new token: the user id, issued now, expiring after the lifetime, with the issuer and the subject |
| Accounts.GenerarToken | src/controllers/authController.ts:226-235 | the token signed with the configured secret over those claims |
| Accounts.VerificarToken | src/controllers/authController.ts:241-247 | every verification failure answers 401 with the one message; what is accepted is unexpired |
| Accounts.IssuedTokenVerifies | src/controllers/authController.ts:226-247 | a token issued now verifies under the same settings exactly until its expiry, carrying the user id as payload and subject, the issuer, and an expiry of now plus the lifetime |
| Accounts.ForeignTokenRefused | src/controllers/authController.ts:241-247 | a token signed with another secret is refused with 401 |
| Accounts.FindByEmail | src/controllers/authController.ts:29 | the lookup finds an account with exactly this e-mail, or reports that none has it |
| Accounts.FindsTheAccount | src/models/Usuario.ts:18-24 | in a valid store, where e-mails are unique, the lookup by an account's e-mail finds that account |
| Accounts.RolOrDefault | src/controllers/authController.ts:40 | the role defaults to `estudiante` when none is given |
| Accounts.RegisterOutcome | src/controllers/authController.ts:13-43 | the checks in order and their 400 answers: a falsy field, a password under 6, a bad e-mail, an existing account with the normalised e-mail (the lookup goes through the schema's trim and lower-case setters); success exactly when these and the schema pass, with the normalised new account; the other failures are the store's, without status |
| Accounts.RegisterNeverDuplicateKey | src/controllers/authController.ts:29-43 | the unique index never refuses a registration: the lookup before the save has already found any account with that e-mail |
| Accounts.RegisterTakenAddress | src/models/Usuario.ts:18-24 | an address stored under any case or surrounding spaces is refused with the 400 "user exists" answer |
| Accounts.RegisterAccepted | src/controllers/authController.ts:16-41 | an accepted registration had a password of at least 6, a non-blank name, a non-empty normalised e-mail and a role from the enum |
| Accounts.NewUser | src/controllers/authController.ts:36-41 | the account built from the body: trimmed name, trimmed lower-case e-mail, the password hashed with the salt, the role given or `estudiante` |
| Accounts.UsersValid | src/models/Usuario.ts:12-37 | the account-store invariant: ids 0 to n-1 each under its own id, every account valid under the schema, and e-mails unique |
| Accounts.AddKeepsUsersValid | src/models/Usuario.ts:18-24 | adding a valid account under the next id with an unused e-mail keeps the store valid |
| Accounts.NewUserValid | src/controllers/authController.ts:36-41 | the account built from an accepted body satisfies the schema |
| Accounts.RegisterKeepsUsersValid | src/controllers/authController.ts:36-43 | a successful registration keeps the store valid |
| Accounts.PublicOf | src/controllers/authController.ts:55-60 | the answer carries id, name, e-mail and role, and has no password field |
| Accounts.LoginOutcome | src/controllers/authController.ts:81-102 | missing fields are 400; an unknown e-mail and a wrong password are both 401 with the same message; for present fields, a found account and a matching password, the answer is 403 for an `inactivo` account and success naming that account otherwise; success always names the account with the normalised e-mail whose password matches |
| Accounts.LoginFailuresAlike | src/controllers/authController.ts:86-97 | an unknown e-mail and a wrong password give the identical response, 401 |
| Accounts.LoginNeverForbidden | src/controllers/authController.ts:100-102 | on a valid store the inactive-account branch is never taken |
| Accounts.LoginFindsAccount | src/controllers/authController.ts:81-102 | in a valid store, an e-mail that normalises to an account's, with that account's password, logs in to that account |
| Accounts.RegisteredCanLogin | src/controllers/authController.ts:11-105 | an account that has just registered logs in with the e-mail and password it registered with |
| Accounts.ChangedPasswordLogsIn | src/controllers/authController.ts:187-196 | after a password change, login accepts the new password and refuses any other |
| Accounts.NormaliseEmailOfStored | src/controllers/authController.ts:86 | normalising a stored e-mail leaves it unchanged |
| Accounts.ChangePasswordOutcome | src/controllers/authController.ts:174-192 | the checks in order: missing fields 400, a new password under 6 is 400, an unknown user 404, a wrong current password 400 (not 401); success exactly when all pass |
| Accounts.SaveNewUser | src/controllers/authController.ts:36-43 | the document built from an accepted body passes validation and is saved through the hook as the account `NewUser` describes, whose hash accepts exactly the registered password |
| Accounts.ReplaceKeepsUsersValid | src/controllers/authController.ts:108-110 | replacing an account by a valid record with the same id and e-mail keeps the store valid |
| Accounts.UserStore.constructor | src/models/Usuario.ts:12-37 | the account store starts empty and valid |
| Accounts.UserStore.Register | src/controllers/authController.ts:11-71 | the answer follows the registration outcome; on success exactly one account is added, built by the document constructor and saved through the hook, with a token for its id and the public account; on failure nothing changes |
| Accounts.UserStore.Insert | src/controllers/authController.ts:43 | saving a valid account with the next id and an unused e-mail adds exactly that account and keeps the store valid |
| Accounts.UserStore.Login | src/controllers/authController.ts:76-135 | the answer follows the login outcome: its refusal, or a token for the account's id with the public account; the store is not changed, because the schema drops the last-login write |
| Accounts.UserStore.ChangePassword | src/controllers/authController.ts:169-213 | the answer follows the change outcome; on success only that account's password changes, to a hash of the new password; on failure nothing changes |
| Accounts.RehashKeepsUsersValid | src/controllers/authController.ts:195-196 | replacing a password hash keeps the store valid |
| ClientAuth.EncodeUser | src/utils/auth.ts:34 | a serialised user is never empty text |
| ClientAuth.DecodeEncodeUser | src/utils/auth.ts:32-48 | a saved user reads back unchanged |
| ClientAuth.KeysDiffer | src/utils/auth.ts:4-5 | the token and user keys are different |
| ClientAuth.TokenIn | src/utils/auth.ts:15-22 | `obtenerToken`: the token entry, or null |
| ClientAuth.UserIn | src/utils/auth.ts:40-48 | `obtenerUsuario`: the user entry when it is non-empty and parses, null otherwise |
| ClientAuth.AuthenticatedIn | src/utils/auth.ts:58-60 | `estaAutenticado`: a non-empty token entry |
| ClientAuth.AdminIn | src/utils/auth.ts:62-65 | `esAdmin`: the user entry parses and has the admin role |
| ClientAuth.TokenRoundTrip | src/utils/auth.ts:7-30 | saving a token reads it back, removing it reads null, and neither touches the user entry |
| ClientAuth.UserRoundTrip | src/utils/auth.ts:32-56 | saving a user reads it back, removing it reads null, and neither touches the token entry |
| ClientAuth.AuthenticationIgnoresUser | src/utils/auth.ts:58-60 | being signed in depends on the token entry alone |
| ClientAuth.SignedOutIn | src/utils/auth.ts:58-70 | with both entries removed the client is neither signed in nor an admin |
| ClientAuth.TokenValido | src/utils/auth.ts:73-86 | a token is valid exactly when it is non-empty, its payload is readable, and its expiry in milliseconds is after the clock |
| ClientAuth.SignedTokenValidity | src/utils/auth.ts:73-86 | a server-signed token is valid exactly while the clock is before its expiry times 1000, and invalid at that instant |
| ClientAuth.ClientExpiryAgreesWithServer | src/utils/auth.ts:73-86 | on a clock reading whole seconds, the client accepts an issued token exactly when the server's verification does |
| ClientAuth.BrowserStorage.constructor | src/utils/auth.ts:1-5 | the storage holds the given entries |
| ClientAuth.BrowserStorage.ObtenerToken | src/utils/auth.ts:15-22 | the token entry of the storage |
| ClientAuth.BrowserStorage.ObtenerUsuario | src/utils/auth.ts:40-48 | the user entry of the storage, read as `UserIn` reads it |
| ClientAuth.BrowserStorage.EstaAutenticado | src/utils/auth.ts:58-60 | signed in as `AuthenticatedIn` says of the storage |
| ClientAuth.BrowserStorage.EsAdmin | src/utils/auth.ts:62-65 | admin as `AdminIn` says of the storage |
| ClientAuth.BrowserStorage.TokenEsValido | src/utils/auth.ts:73-86 | the stored token checked by `TokenValido` |
| ClientAuth.BrowserStorage.GuardarToken | src/utils/auth.ts:7-13 | only the token entry is written, and reads back; the user is unchanged |
| ClientAuth.BrowserStorage.EliminarToken | src/utils/auth.ts:24-30 | only the token entry is removed; the client is signed out; the user is unchanged |
| ClientAuth.BrowserStorage.GuardarUsuario | src/utils/auth.ts:32-38 | only the user entry is written, and reads back; the token and the signed-in flag are unchanged; admin exactly when the user's role is admin |
| ClientAuth.BrowserStorage.EliminarUsuario | src/utils/auth.ts:50-56 | only the user entry is removed; not admin; the token is unchanged |
| ClientAuth.BrowserStorage.CerrarSesion | src/utils/auth.ts:67-70 | both entries are removed and nothing else; neither signed in nor admin |
| AuthContext.ValueOf | src/context/AuthContext.tsx:94-103 | the value echoes token, user and loading; signed in exactly when the token is non-empty and there is a user; admin exactly when there is a user with the admin role |
| AuthContext.AdminNeedsTokenToBeSignedIn | src/context/AuthContext.tsx:97-98 | admin without being signed in happens exactly when a user with the admin role is held with a missing or empty token |
| AuthContext.UseAuth | src/context/AuthContext.tsx:27-33 | outside a provider the hook fails with its message; inside it gives the provider's value |
| AuthContext.AuthProvider.constructor | src/context/AuthContext.tsx:40-42 | a new provider holds no user and no token and is loading |
| AuthContext.AuthProvider.Login | src/context/AuthContext.tsx:75-80 | both entries are written to storage and both pieces of state set, in agreement; signed in exactly when the token is non-empty; admin exactly for the admin role |
| AuthContext.AuthProvider.Logout | src/context/AuthContext.tsx:82-87 | both storage entries are removed and both pieces of state cleared; neither signed in nor admin |
| AuthContext.AuthProvider.ActualizarUsuario | src/context/AuthContext.tsx:89-92 | the user is replaced in storage and state; the token is unchanged in both |
| AuthContext.AuthProvider.VerificarAutenticacion | src/context/AuthContext.tsx:44-73 | a stored non-empty token with a stored user and an unexpired token is adopted, then dropped with logout if the server refuses; otherwise any stored entry is cleared with logout; loading ends; signing in from an empty state needs the storage to hold a valid token, left unchanged |
| ProtectedRoute.Decide | src/components/ProtectedRoute.tsx:11-33 | loading shows the spinner; signed out redirects to the login page carrying the location; a non-admin on an admin route is redirected home; the children render exactly when signed in and the route does not need admin or the user is admin |
| ProtectedRoute.AdminRouteNeedsAdmin | src/components/ProtectedRoute.tsx:27-32 | an admin route renders only for a user holding a non-empty token and the admin role |
| ProtectedRoute.LoggedOutNeverRenders | src/components/ProtectedRoute.tsx:18-25 | after logout no guarded route renders, and once loading is over the user is sent to the login page |
| LineasPage.HandleFiltroChange | src/pages/Lineas.tsx:73-79 | the changed key takes its value, any key but the page sends the page back to 1, and the other filters are kept |
| LineasPage.QueryOf | src/pages/Lineas.tsx:47-50 | the listing request the page sends: every filter and the page, as the server reads them |
| LineasPage.FilterChangeShowsFirstPage | src/pages/Lineas.tsx:73-79 | after changing a filter other than the page the server answers page 1, with no previous page, holding the whole page size of records (or all of them when fewer match), and these are the first records of the sorted matching listing |
| LineasPage.FirstPageListing | src/controllers/lineasController.ts:26-50 | a query for page 1 is answered with no previous page, with the whole page size of records (or all of them when fewer match), and these are the first records of the sorted matching listing |
| LineasPage.LimpiarFiltros | src/pages/Lineas.tsx:112-122 | the filters return to every area, active tracks, page 1, 9 per page, by name; the search term and the error are cleared; the rest of the page is kept |
| LineasPage.FiltrosActivos | src/pages/Lineas.tsx:288 | the badge condition: an area chosen, a state other than `activa`, or a sort other than by name |
| LineasPage.FiltrosActivosMeaning | src/pages/Lineas.tsx:288-292 | the badge is on exactly when the filters, ignoring page and size, differ from the reset ones; turning pages never changes it; with it off the listing asks for the active tracks of every area, by name |
| LineasPage.ReplyFor | src/pages/Lineas.tsx:93-106 | a successful search delivers its results and their count; a failure delivers the normalised error message |
| LineasPage.SearchPagination | src/pages/Lineas.tsx:96-103 | after a search the pagination is one page, the first, counting the results, with no previous or next page |
| LineasPage.HandleBuscar | src/pages/Lineas.tsx:85-110 | a term shorter than 2 after trimming only sets the error; otherwise results replace the list and collapse the pagination, an unsuccessful answer changes nothing but loading, and a failure sets its message or the fixed one |
| LineasPage.SearchShowsOnePage | src/pages/Lineas.tsx:85-103 | after a successful search the page shows exactly the results as one page counting them |
| LineasPage.RenderPaginacion | src/pages/Lineas.tsx:134-181 | nothing for one page or none; otherwise the previous button, the loop's items for pages 1 to the last, and the next button |
| LineasPage.NumberItemsSpec | src/pages/Lineas.tsx:151-169 | the loop emits, in increasing page order, a number exactly for page 1, the last page and the neighbours of the current page, active exactly on the current page, and an ellipsis exactly two pages away from the current one on pages not numbered |
| LineasPage.PageControlForListing | src/pages/Lineas.tsx:134-181 | for a listing answer with several pages: previous targets the page before and is disabled exactly on page 1; next targets the page after and is disabled exactly from the last page on; numbers and ellipses as the loop promises, increasing |
| AdminForm.LimpiarFormulario | src/pages/AdminLineas.tsx:69-82 | every text field is empty, the credits are 0, the subjects are one blank entry, the state is `activa`, and editing ends with no track selected |
| AdminForm.AbrirModalEditar | src/pages/AdminLineas.tsx:89-103 | the form holds a copy of every field of the track, subjects included, and the form edits that track |
| AdminForm.ValidarFormulario | src/pages/AdminLineas.tsx:144-170 | the first failing check in the fixed order gives its message: name, description and coordinator blank after trimming; e-mail blank or without '@'; no area; credits not above 0; each message is given exactly when the checks before it pass and its own fails; the form passes exactly when none fails |
| AdminForm.AgregarMateria | src/pages/AdminLineas.tsx:127-132 | exactly one blank subject is appended and the others are kept |
| AdminForm.WithoutIndex | src/pages/AdminLineas.tsx:136 | the entry at the index is removed and the rest kept in order; an index outside the list removes nothing |
| AdminForm.EliminarMateria | src/pages/AdminLineas.tsx:134-142 | only that entry is removed, and only when more than one is listed, so a non-empty list stays non-empty |
| AdminForm.HandleMateriaChange | src/pages/AdminLineas.tsx:118-125 | the list keeps its length, the entry at the index becomes the value, and every other entry is kept |
| AdminForm.SubjectListNeverEmpty | src/pages/AdminLineas.tsx:69-142 | the form starts with one subject, and adding and removing never empty the list |
| AdminForm.ParseCreditos | src/pages/AdminLineas.tsx:114 | text `parseInt` cannot read gives 0; otherwise its number |
| AdminForm.TypedCreditsRead | src/pages/AdminLineas.tsx:114 | a typed number followed by anything but a digit reads as that number |
| AdminForm.HandleInputChange | src/pages/AdminLineas.tsx:110-116 | only the named field changes: the credits take the parsed number, any other field the text verbatim; the subjects are kept |
| AdminForm.UnreadableCreditsRefused | src/pages/AdminLineas.tsx:114-168 | credits typed as unreadable text leave 0, which validation refuses |
| AdminForm.MateriasFiltradas | src/pages/AdminLineas.tsx:180 | the filtered list is never longer than the form's list |
| AdminForm.MateriasFiltradasKeeps | src/pages/AdminLineas.tsx:180 | the kept subjects are exactly those not blank after trimming |
| AdminForm.MateriasFiltradasInOrder | src/pages/AdminLineas.tsx:180 | the filter keeps order: filtering a concatenation concatenates the filtered parts |
| AdminForm.CreateBody | src/pages/AdminLineas.tsx:180-193 | the body a create sends: the form fields as typed, the credits, and the non-blank subjects |
| AdminForm.UpdatePatch | src/pages/AdminLineas.tsx:180-193 | the patch an update sends: every form field and the non-blank subjects, with no creation date |
| AdminForm.HandleSubmit | src/pages/AdminLineas.tsx:172-194 | a form that fails validation sends nothing and shows the message; otherwise an update for the track's id exactly when editing a track with an id, else a create, with the blank subjects dropped |
| AdminForm.SubmittedCreatePassesFieldChecks | src/pages/AdminLineas.tsx:144-194 | a create the form submits never trips the server's missing-field or negative-credit checks, and every subject the server stores is non-blank |
| AdminForm.FormEmailWeakerThanServer | src/pages/AdminLineas.tsx:157-160 | "a@b" passes the form's e-mail check but not the server's pattern |
| AdminForm.UnchangedEditKeepsName | src/pages/AdminLineas.tsx:89-194 | submitting an opened track unchanged sends an update for that track, and the server's name check finds no conflict |

## Left out

**Numbers, formats and strings**
- The average-credits statistic: it is floating point. `Catalogue.TrackStore.Stats` returns the counts only.
- `parseInt` on query strings that are not numbers. On the server, the NaN that `Math.max`/`Math.min` propagate is a JavaScript numeric quirk. The listing query therefore carries integers, or nothing for an absent value.
- Catalogue.TrackStore.Search: the same holds for `limite`, whose `parseInt`
  (`src/controllers/lineasController.ts:412`) passes NaN to `limit` for text that is not a
  number. The model's cap is an integer, or nothing for an absent value.
- Catalogue.CreateOutcome: the body's credits are an integer. The source reads them with
  `parseInt` (`src/controllers/lineasController.ts:165`) after the checks at lines 137 and
  141, so a body may carry a string or a fraction. The string "0" is truthy, passes both
  checks and is stored as 0 credits. A fraction such as 2.5 is stored as 2. Text that is not
  a number becomes NaN, which fails the schema's Number cast and answers 500. None of these
  is modelled.
- Catalogue.Patched: the patch's credits are an integer. The update spreads the body
  (`src/controllers/lineasController.ts:235-238`), and the schema
  (`src/models/LineaProfundizacion.ts:39-43`) asks only for a number of at least 0. A
  fractional value is therefore stored as sent, and numeric text is cast. Neither is
  modelled. The admin form sends only integers (`src/pages/AdminLineas.tsx:114`).
- Codec.ParseIntPrefix: the `0x` hexadecimal prefix that `parseInt` without a radix accepts is not modelled; such text reads as 0.
- Regular-expression metacharacters in the name checks and the search term. The checks are modelled as case-insensitive equality and substring.
- JSON and base64: the escaped field encoding stands for them.
- Unicode case mapping beyond the upper-case letters of ASCII and Latin-1 (U+00C0 to U+00DE, except U+00D7).
- Mongoose casting setters applied to query values.
- Lengths count characters. JavaScript's `.length` counts UTF-16 code units, so a character
  outside the Basic Multilingual Plane counts twice there. This affects the password minimum
  (`src/controllers/authController.ts:20,178`, `src/models/Usuario.ts:28`) and the search-term minimum
  (`src/controllers/lineasController.ts:395`, `src/pages/Lineas.tsx:86`).
- Accounts.RegisterOutcome: the password minimum counts characters, not UTF-16 code units.
- Accounts.ChangePasswordOutcome: the new-password minimum counts characters, not UTF-16 code units.
- UserModel.UsuarioDoc.ValidationError: lengths count characters, not UTF-16 code units.
- Catalogue.TrackStore.Search: the term minimum counts characters, not UTF-16 code units.
- LineasPage.HandleBuscar: the term minimum counts characters, not UTF-16 code units.
- Catalogue.TrackStore.GetById: ids are natural numbers, so the cast error a malformed
  ObjectId raises, which `errorHandler` answers with 500, cannot be expressed.
- Catalogue.TrackStore.Update: the same holds for a malformed id; the model answers 404 or
  succeeds.
- Catalogue.TrackStore.Delete: the same holds for a malformed id.
- Accounts.Ttl: `JWT_EXPIRES_IN` is modelled as unset or a plain numeral. A value with a time
  unit (such as `12h`) is not modelled; the default `24h` is, as 86400 seconds.
- Crypto.CompareHash: "nothing else" holds only for plaintexts of at most 72 UTF-8 bytes;
  bcrypt accepts any plaintext that shares the first 72 bytes.
- UserModel.UsuarioDoc.CompararPassword: "exactly p" holds only for plaintexts of at most
  72 UTF-8 bytes, for the same reason.
- UserModel.SavedPasswordCompares: the refusal of every other plaintext holds only for
  plaintexts of at most 72 UTF-8 bytes.
- Accounts.ChangedPasswordLogsIn: the refusal of any other password holds only for passwords
  of at most 72 UTF-8 bytes.
- Accounts.SaveNewUser: "exactly the registered password" holds only for passwords of at
  most 72 UTF-8 bytes.

**Concurrency and I/O**
- Concurrency: the reads that `Promise.all` issues in parallel are one snapshot. Races between a uniqueness check and the write are not modelled. The unique index's duplicate-key error, which only such a race reaches, is therefore never
  raised (`Accounts.RegisterNeverDuplicateKey`).
- TrackQuery.ListFrom: tied records are listed in natural order. The store leaves the order
  of ties open under `sort`, `skip` and `limit`, so in the source a record that ties across a
  page boundary can appear on two pages or on none. The model's pages are disjoint.
- Errors thrown by `localStorage` (the try/catch blocks of `src/utils/auth.ts`) are not modelled. The storage never fails.
- Logging (`src/utils/logger.ts`) and console output.
- The `createdAt`/`updatedAt` timestamps of both schemas. The `ultimoLogin` write of login
  (`src/controllers/authController.ts:107-110`) names a path the strict `Usuario` schema
  does not declare, so the store drops it; the model's login leaves the account unchanged.

**Outside this model**
- bcrypt's salt generation, cost and algorithm, and the signature algorithm of the JWT, beyond the properties stated.
- `obtenerPerfil`, whose answer the auth provider receives as a parameter.
- The HTTP client and its interceptors, including the 401 handler that signs the user out. `src/services/api.ts` is not part of this model.
- The server wiring, routes, database connection and the authentication middleware. The middleware is not part of this model.
- Unbound handlers. The routes pass the controllers' methods unbound
  (`src/routes/auth.ts:7-10`, `src/routes/lineas.ts:7-13`), and those methods call
  `this.validarEmail`, `this.generarToken` and `this.validarEmailCoordinador`
  (`src/controllers/authController.ts:24,46,105`, `src/controllers/lineasController.ts:145,212`).
  As wired, those calls would throw a `TypeError`, which `errorHandler` answers with 500. The
  model assumes the handlers are bound, so these calls reach the checks they name.
- Catalogue.CreateOutcome: models the corrected name check, which compares the trimmed name;
  the check as written is `Catalogue.CreateNameTakenAsWritten` (see "Findings").
- Catalogue.CreateKeepsStoreValid: holds for the corrected name check; as written, create can
  store a duplicate name (`Catalogue.CreateNameCheckAsWrittenAdmitsDuplicate`).
- Catalogue.TrackStore.Create: uses the corrected name check of `Catalogue.CreateOutcome`.
- Catalogue.UpdateOutcome: models the corrected name check, which compares the trimmed name;
  the check as written is `Catalogue.UpdateNameConflictAsWritten` (see "Findings").
- Catalogue.UpdateKeepsStoreValid: holds for the corrected name check; as written, update can
  store a duplicate name (`Catalogue.UpdateNameCheckAsWrittenAdmitsDuplicate`).
- Catalogue.TrackStore.Update: uses the corrected name check of `Catalogue.UpdateOutcome`.
- Rendering, hook scheduling and the `setTimeout` that delays clearing the admin form.
- The view-only pages and components, and the `lineaActual`/modal visibility beyond what submit reads.

## Findings

| source | as written | input that shows it | evidently intended | confidence | as-written member | corrected member |
|---|---|---|---|---|---|---|
| src/controllers/lineasController.ts:150-160 | the duplicate-name check of create compares the name as submitted, but the name stored is trimmed | "Datos" is stored; create with nombre " datos" passes the check and stores "datos" | compare the trimmed name, so no two names are equal ignoring case | not executed | Catalogue.CreateNameCheckAsWrittenAdmitsDuplicate | Catalogue.CreateNameCheckKeepsNamesDistinct |
| src/controllers/lineasController.ts:223-232 | the duplicate-name check of update compares the name as submitted, but the schema trims the name it stores | "Datos" and "Redes" are stored; renaming "Redes" to "datos " passes the check and stores "datos" | compare the trimmed name | not executed | Catalogue.UpdateNameCheckAsWrittenAdmitsDuplicate | Catalogue.UpdateNameCheckKeepsNamesDistinct |
