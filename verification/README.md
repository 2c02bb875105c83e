# User account lifecycle — a Dafny model

This project models the account-lifecycle decisions of the user controller
of a Node/Express back end (`src/controllers/user.controller.js`): user
registration, the login gate, and the step that issues an access/refresh
token pair and stores the refresh token in the account's single slot.

The account collection is an immutable `Store`: a sequence of `Account`
records in insertion order (a `findOne` is taken to return the earliest
matching record) plus a
counter that hands out fresh ids. Each controller step is a pure function.
It returns either the new store with a value, or the error the code throws.
That error is an `ApiError` with its HTTP status code and message, or an
`Uncaught` JavaScript runtime error that the step itself does not catch.

Collaborators outside the controller are parameters:

- the image upload service is a function `upload` from a local path (or
  `undefined`) to the URL of the stored image, or to nothing. The cover
  image is uploaded even when no cover file was sent. In that case the
  stored cover is "" only if `upload(undefined)` yields nothing; otherwise
  it is whatever that call returns;
- the password comparison is a predicate `passwordOk(account, plaintext)`;
- the signed tokens are opaque strings handed to the token step.

Modules:

- `Wrappers` (`wrappers.dfy`): `Option`, `Result`.
- `JsString` (`js_string.dfy`): `String.prototype.trim`, `toLowerCase`, and
  the truthiness of an optional string.
- `AccountStore` (`account_store.dfy`): `Account`, the redacted
  `PublicAccount`, `Store`, and the queries `findById` and
  `findOne({$or: [{userName}, {email}]})`. It also holds creation and the
  refresh-slot write.
- `UserController` (`user_controller.dfy`): `Register`, whose stages are
  `CheckIdentity`, `ResolveImages` and `CreateUser`; `Login`; and
  `GenerateAccessAndRefreshTokens`.
- `UserControllerProps` (`user_controller_props.dfy`): store invariants
  that registration and the token step preserve or break, and lemmas that
  chain several steps.

The model follows the code as written, including where it departs from
what its messages suggest:

- The blank check `field?.trim() === ""` does not reject an absent field.
- The conflict check compares the user name as supplied, but the record
  stores it lower-cased. In this model, which has no schema, "AnnL" can
  therefore be registered next to an existing "annl", and the store then
  holds two records named "annl" (`RegisterAdmitsCaseVariantOfUserName`).
  What the real database does here depends on the user schema (see
  "Left out").
- A multipart request without an avatar part makes
  `req.files?.avatar[0]` throw a TypeError, not the 400 at line 57.
- Login demands both `userName` and `email`, although its message says "or".
- A failed avatar upload is a 400, not a distinct upload error.
- `loginUser` stops after the password check. It issues no tokens and sets
  no cookies, so `Login` ends there too.

A `findOne` filter whose value is `undefined` is read as a null filter. A
null filter matches only records that lack the field. No record lacks a
`userName`, but `email` is stored as given and may be absent.

## Model

| member | source | states |
|---|---|---|
| JsString.Trim | src/controllers/user.controller.js:32-34 | `trim` keeps the piece of the string between a whitespace-only prefix and a whitespace-only suffix, and neither end of that piece is whitespace. The result is empty exactly when the string is all whitespace. |
| JsString.ToLower | src/controllers/user.controller.js:76 | `toLowerCase` keeps the length and maps each character on its own: an upper-case letter becomes its lower-case partner 0x20 code points above it, and every other character stays. The result has no upper-case letter. |
| JsString.ToLowerIdempotent | src/controllers/user.controller.js:76 | Lower-casing an already lower-cased name changes nothing. |
| JsString.ToLowerFixedPoint | src/controllers/user.controller.js:76 | Lower-casing leaves a string unchanged exactly when the string has no upper-case letter. |
| JsString.ToLowerMergesCase | src/controllers/user.controller.js:76 | "AnnL" and "annl" lower-case to the same name, so lower-casing is not injective. |
| AccountStore.FindOne | src/controllers/user.controller.js:40-42 | The lookup finds nothing exactly when no record matches the user name or the email. Otherwise it returns the earliest inserted matching record (the model's choice among several matches). |
| AccountStore.FindById | src/controllers/user.controller.js:10 | The lookup finds nothing exactly when no record has the id. Otherwise it returns a stored record with that id, and in a valid store that record is the only one. |
| AccountStore.RedactForgetsOnlySecrets | src/controllers/user.controller.js:81-83 | Two records have the same redacted view exactly when they agree on every field except `password` and `refreshToken`. |
| AccountStore.Create | src/controllers/user.controller.js:70-77 | Creation appends exactly one record with the given fields and an empty refresh slot. In a valid store the new id is fresh and the store stays valid. |
| AccountStore.SetRefreshToken | src/controllers/user.controller.js:10-15 | The write fails exactly when the id is absent. Otherwise reading the record back gives the old record with the new token in its slot, and no other record or field changes. |
| UserController.CheckIdentity | src/controllers/user.controller.js:32-46 | The step gives a 400 exactly when a present field is blank and a 409 exactly when no field is blank but a record has the same user name (as supplied) or the same email. Otherwise it lets the request through. |
| UserController.AvatarLocalPath | src/controllers/user.controller.js:49 | Reading the avatar path throws exactly when `req.files` exists without an avatar array. With no `req.files`, or an empty avatar array, it yields `undefined`. Otherwise it yields the first avatar entry's path. |
| UserController.CoverImageLocalPath | src/controllers/user.controller.js:51-54 | When the `coverImage` array is present and non-empty, the cover path is the first entry's path. Otherwise it is `undefined`. |
| UserController.CoverUrl | src/controllers/user.controller.js:73 | A missing or failed cover upload is stored as "". Otherwise the uploaded URL is stored. |
| UserController.ResolveImages | src/controllers/user.controller.js:49-67 | The avatar step throws exactly when the avatar array is missing. It gives a 400 exactly when the path is falsy or the avatar upload yields nothing. It succeeds exactly when the path is truthy and the avatar upload yields a URL, so the cover never causes a failure. On success the avatar URL is the upload's. With no cover file and nothing from `upload(undefined)`, the cover is "". |
| UserController.CreateUser | src/controllers/user.controller.js:70-87 | The step throws exactly when `userName` is undefined, and then the store is unchanged. Otherwise it succeeds and appends one record: `userName` lower-cased, the other fields as given, no refresh token. In a valid store it returns that record without secrets under a fresh id. |
| UserController.FetchCreated | src/controllers/user.controller.js:81-87 | The re-fetch gives a 500 exactly when no record has the id. Otherwise it returns a stored record with that id, redacted. |
| UserController.Register | src/controllers/user.controller.js:23-93 | The checks run in order: blank 400, conflict 409, avatar TypeError/400, `userName` TypeError. Each error arises exactly when every earlier check passed and its own check fails. A request that passes every check is registered. Every failure leaves the store unchanged. Success appends exactly one record built from the request and the uploads, and returns it redacted. |
| UserController.Login | src/controllers/user.controller.js:95-119 | The gate gives a 400 exactly when `userName` or `email` is falsy. It gives a 404 exactly when both are given and no record matches either. It gives a 401 exactly when the earliest match fails the password check. Otherwise it succeeds with that earliest match. |
| UserController.GenerateAccessAndRefreshTokens | src/controllers/user.controller.js:8-21 | The step gives a 500 exactly when no record has the id. Otherwise it returns the two tokens, the record's slot reads back as the returned refresh token, and no other record or field changes. |
| UserControllerProps.BlankMeansWhitespaceOnly | src/controllers/user.controller.js:32-34 | A field is blank exactly when it is present and all whitespace. An absent field is never blank. |
| UserControllerProps.RegisterLowerCasesUserName | src/controllers/user.controller.js:76 | After a successful registration the stored user name is the lower-cased input and has no upper-case letter. |
| UserControllerProps.RegisteredFieldsAreNotBlank | src/controllers/user.controller.js:32-37 | After a successful registration the requested user name, the stored (lower-cased) user name and every present stored text field hold a non-whitespace character. |
| UserControllerProps.RegisterNeverFailsRefetch | src/controllers/user.controller.js:81-87 | Registration never ends in the re-fetch 500, because the re-fetch looks up the record just created. |
| UserControllerProps.RegisteredRecord | src/controllers/user.controller.js:40-77 | Success appends one record that matched nothing before, under the lower-cased user name and the given email. |
| UserControllerProps.RegisterPreservesUniqueEmails | src/controllers/user.controller.js:40-46 | If emails were unique before a registration, they are unique after it. |
| UserControllerProps.RegisterPreservesUniqueUserNames | src/controllers/user.controller.js:40-46 | If user names were unique before a registration whose requested user name is already lower case, they are unique after it. |
| UserControllerProps.RegisterAdmitsCaseVariantOfUserName | src/controllers/user.controller.js:40-77 | With "annl" stored, registering "AnnL" succeeds, and the store then holds two records named "annl". |
| UserControllerProps.LoginChecksFirstMatch | src/controllers/user.controller.js:103-115 | With both identifiers given, only the earliest matching record's password check decides the login. |
| UserControllerProps.RegisterThenLogin | src/controllers/user.controller.js:70-115 | Right after a registration that supplied an email, a login with the same two identifiers finds the new record, whatever the casing of the user name. The password check alone decides the outcome. |
| UserControllerProps.RegisterThenIssueTokens | src/controllers/user.controller.js:8-21 | A freshly registered account can be issued tokens, and its slot then holds the refresh token. |
| UserControllerProps.IssueTwiceKeepsLatest | src/controllers/user.controller.js:14-15 | The refresh slot holds a single token. After two issues it holds the second one, and the first is gone. |
| UserControllerProps.IssuePreservesInvariants | src/controllers/user.controller.js:14-15 | Writing the refresh slot keeps the store valid and keeps emails and user names unique. |

## Left out

- Express routing and the multipart parser's field configuration (`src/routes/user.route.js`): wiring only. `req.files` is taken as already parsed.
- The image upload service (`uploadOnCloudinary`): a network call, modelled as the `upload` parameter.
- Password hashing and `isPasswordCorrect`, `generateAccessToken` and `generateRefreshToken`: these live in `src/models/user.model.js`, which is not part of this model. They are a predicate parameter and opaque token strings.
- The user schema in `src/models/user.model.js` is not part of this model either. Its validation, any trimming or lower-casing options, unique indexes and the password-hashing save hook are not modelled. Records store the fields as the controller passes them.
- UserController.GenerateAccessAndRefreshTokens: the only 500 it produces is the missing user. Signer failures and `save` failures are also turned into a 500 by the source, but are not modelled: the signers are opaque and the schema is not modelled. (The option is spelled `validationBeforeSave`, so validation still runs on save.)
- `asyncHandler`, `ApiError`/`ApiResponse` construction, `console.log` and the 201 JSON response: boundary plumbing. The model keeps each error's status code and message. How `asyncHandler` renders an `Uncaught` error is not modelled.
- Request bodies whose fields are not strings or `undefined` (numbers, objects, `null`) are not modelled. Neither is a missing `req.body`.
- JsString.ToLower: only ASCII and Latin-1 upper-case letters are lower-cased. JavaScript's full Unicode case mapping, including the mappings that change length, is not modelled. Characters are Unicode scalar values, not UTF-16 code units.
- UserControllerProps.RegisterAdmitsCaseVariantOfUserName: shows what the controller's logic does with the schema left out. With a unique index on `userName`, `User.create` would throw instead. With a `lowercase` option on `userName`, the database would lower-case the filter value as well, and the 409 would fire.
- AccountStore.FindOne: when several records match, MongoDB decides which one `findOne` returns, and it does not promise insertion order (an indexed `$or` may return a `userName` match before an earlier `email` match). The model takes the earliest inserted, and `Login` and `LoginChecksFirstMatch` inherit that choice.
- How MongoDB resolves a filter with an `undefined` value is an assumption here: it is read as a null filter.
- `refreshAccessToken` and `logoutUser`: the router imports them, but the controller does not define them. Cookies and token delivery at login are also left out, because `loginUser` stops before them.
- Async execution and concurrent requests: each step is one synchronous function over one store value.
