# Authentication middleware of battlegrounds-backend, modelled in Dafny

The backend is an Express app in front of Firebase. Every request behind the
middleware `validateToken` (`src/index.ts`) goes through the same flow:

1. take the bearer token out of the `Authorization` header with
   `header.split("Bearer ")[1]`;
2. have Firebase verify it (`admin.auth().verifyIdToken`), which yields the
   decoded identity (uid, email, name, email_verified, picture and the custom
   claim `isSuperAdmin`);
3. read `admins/{uid}` and set `req.user.isSuperAdmin` from it;
4. read `players/{uid}` (`getPlayerData`). If it is missing, write a new profile
   built from the identity and read it back. Attach the profile as
   `req.user.playerData`;
5. call `next()`.

Any failure in steps 1-4 ends the request with status 400 and the body
`{"message": "Authentication failed.", "error": ...}`.

The model has four modules:

- `JsSemantics` (`js.dfy`) gives the JavaScript meaning of what the middleware
  uses: truthiness, `a || b`, `indexOf`, `split` with a string separator, and
  `join`. It proves that joining the pieces of a split gives back the text,
  that no piece contains the separator, and which text is the second piece.
- `Store` (`store.dfy`) holds the two Firestore collections as maps inside a
  `Firestore` class. It has the admin lookup, `getPlayerData`, and the in-place
  `set` of a player document.
- `Middleware` (`middleware.dfy`) has `ExtractToken`, the admin-flag rule, the
  new-profile rule and the specification function `Validate`. `Validate` gives
  the outcome, the final `req.user` and the new `players` collection of one
  call. The imperative method `ValidateToken` follows the source step by step:
  it assigns `req.user`, then changes its `isSuperAdmin` and `playerData`
  fields, and writes into `players`. It is proved to produce exactly what
  `Validate` describes.
- `MiddlewareProperties` (`properties.dfy`) proves what the middleware
  promises, as lemmas about `Validate`.

Environment inputs are parameters. The token verifier is a map from each
accepted token to its decoded identity. `fault` names the one store call that
rejects on this request, if there is one. The first rejection aborts the
request, so this one value covers every failure sequence.

Three points where one might expect other behaviour, and what the code does:

- One might expect the header to have to start with `"Bearer "`. The code
  splits at the first `"Bearer "` wherever it is (`SeparatorAnywhere`). The
  token ends at the next `"Bearer "` (`TokenStopsAtNextSeparator`).
- One might expect the admin flag to be true only when the `admins` document
  exists and its flag is true. The code leaves the token's own claim in place
  when the document exists but its flag is falsy (`FalsyAdminDocKeepsClaim`).
- One might expect the stored `isSuperAdmin` to be a boolean. The code stores
  `isSuperAdmin || false`. So when an `admins/{uid}` document exists with a
  falsy flag, a truthy non-boolean claim is stored as given
  (`FalsyAdminDocKeepsClaim`, `Middleware.NewPlayerDoc`). In every other case
  src/index.ts:80 and src/index.ts:83 have already replaced the claim by `true`
  or `false`.

The new profile copies `email`, `name` and `picture` from the token, and any of
them may be absent (`undefined`). Unless the Firestore setting
`ignoreUndefinedProperties` is on, and `getFirestore()` leaves it off, `set`
refuses such a document. The model carries the setting as a field of the
database handle and derives the refusal (see "## Findings").

## Model

| member | source | states |
|---|---|---|
| `JsSemantics.JsValue.Truthy` | src/index.ts:67 | ECMAScript ToBoolean, the test behind `if (!token)` (line 67), `if (doc?.isSuperAdmin)` (line 79), `if (playerData)` (line 87) and the two `or false` defaults (lines 95, 97): `undefined`, `null`, `false`, zero and the empty string are falsy, everything else truthy; it has no contract of its own, and the contracts of `Or`, `AdminFlag` and `NewPlayerDoc` are stated through it |
| `JsSemantics.Or` | src/index.ts:95-97 | JavaScript's `or` (as in `email_verified or false`) is truthy iff one operand is; the result is the left operand when that is truthy and the right one otherwise |
| `JsSemantics.IndexOf` | src/index.ts:66 | `indexOf(pat, from)`: it returns an occurrence at or after `from`, with none between `from` and it; `None` means no occurrence at or after `from` |
| `JsSemantics.IndexOfFirst` | src/index.ts:66 | the first occurrence at or after `from` is exactly what `indexOf` returns |
| `JsSemantics.Split` | src/index.ts:66 | `split` always returns at least one piece |
| `JsSemantics.SplitJoin` | src/index.ts:66 | `Join(Split(s, sep), sep) == s` for every text and non-empty separator |
| `JsSemantics.SplitPiecesFree` | src/index.ts:66 | no piece of a split contains the separator |
| `JsSemantics.SplitNoSeparator` | src/index.ts:66 | text without the separator splits into itself alone, so index 1 is `undefined` |
| `JsSemantics.SplitSecondPiece` | src/index.ts:66 | piece 1 is the text between the first occurrence and the next one, or the end |
| `Store.Lookup` | src/index.ts:49-53 | a document read: some document exactly when the key is present, and it is the stored one |
| `Store.Firestore.constructor` | src/index.ts:72 | `getFirestore()`: the database handle starts with the given collections and with `ignoreUndefinedProperties` off |
| `Store.Firestore.GetAdmin` | src/index.ts:74 | `admins/{uid}` read: some document exactly when the key is present, and it is the stored one |
| `Store.Firestore.SetPlayer` | src/index.ts:91-98 | `set` refuses a document with an `undefined` field unless `ignoreUndefinedProperties` is on, else may be rejected by the server, else stores the document under the uid; only a stored write changes `players`, and then only at that uid |
| `Store.GetPlayerData` | src/index.ts:48-54 | the stored `players/{id}` document when it exists, null otherwise |
| `Middleware.Fail` | src/index.ts:103-109 | every failure reply has status 400 and message "Authentication failed.", and carries the thrown error |
| `Middleware.Request.constructor` | src/index.ts:22-28 | a request arrives with its header and no `user` |
| `Middleware.ExtractToken` | src/index.ts:65-69 | a token is never empty and never contains "Bearer "; no header gives no token |
| `Middleware.AdminFlag` | src/index.ts:74-84 | true when the admin document's flag is truthy, false when there is no admin document, the token's claim otherwise; truthy iff the document exists and its flag or the claim is truthy |
| `Middleware.NewPlayerDoc` | src/index.ts:91-98 | uid, email, name and picture come from the token; email_verified is true only for a `true` claim; isSuperAdmin keeps the flag's truthiness and is `false` when the flag is falsy |
| `Middleware.Validate` | src/index.ts:64-109 | the specification of one call: outcome, final `req.user` and `players`, following the branches of the source; it has no contract of its own, `ValidateToken` is proved equal to it and the `MiddlewareProperties` lemmas state what it guarantees |
| `Middleware.ValidateToken` | src/index.ts:56-110 | the step-by-step updates of `req.user` and `players` end in exactly the outcome, `req.user` and `players` that `Validate` gives for the handle's `ignoreUndefinedProperties` setting; `admins` is never written |
| `MiddlewareProperties.ExtractTokenNoSeparator` | src/index.ts:65-69 | a header without "Bearer " anywhere gives no token |
| `MiddlewareProperties.ExtractTokenFirstSegment` | src/index.ts:65-69 | the token is the text from the first "Bearer " to the next one or the end; an empty text gives no token |
| `MiddlewareProperties.BearerAloneFails` | src/index.ts:66-68 | the header "Bearer " gives no token |
| `MiddlewareProperties.SeparatorAnywhere` | src/index.ts:66 | "xBearer abc" gives the token "abc" |
| `MiddlewareProperties.TokenStopsAtNextSeparator` | src/index.ts:66 | "Bearer a Bearer b" gives the token "a " |
| `MiddlewareProperties.SchemeIsCaseSensitive` | src/index.ts:66-68 | "bearer abc" gives no token |
| `MiddlewareProperties.MissingTokenFails` | src/index.ts:65-69 | with no header, or no "Bearer " in it, the reply is the 400 failure; `req.user` and `players` do not change |
| `MiddlewareProperties.RejectedTokenFails` | src/index.ts:71 | a token the verifier rejects gives the 400 failure; `req.user` and `players` do not change |
| `MiddlewareProperties.NextOnlyWhenVerified` | src/index.ts:64-102 | `next()` is reached only with a verified token, with its identity in the context and `req.user` set to that context |
| `MiddlewareProperties.FailureReplyIsUniform` | src/index.ts:103-109 | every failure thrown inside the `try` block, whatever its cause, gets the same 400 reply |
| `MiddlewareProperties.FailureWritesNothing` | src/index.ts:86-109 | a failed call leaves `players` unchanged unless the failure comes after the write |
| `MiddlewareProperties.RereadFailureKeepsWrite` | src/index.ts:91-99 | when the read-back after the write fails, the reply is 400 but the new profile stays stored |
| `MiddlewareProperties.AdminFlagRule` | src/index.ts:74-84 | after the admin lookup `req.user` is the decoded token, and its flag follows the three cases |
| `MiddlewareProperties.FalsyAdminDocKeepsClaim` | src/index.ts:77-81 | an admin document with a falsy flag does not revoke a truthy claim in the token |
| `MiddlewareProperties.ExistingProfileAttached` | src/index.ts:86-88 | an existing profile is attached unchanged and `players` is not written |
| `MiddlewareProperties.UndefinedFieldRefused` | src/index.ts:89-98 | under the default settings a first-time caller whose token lacks an email, name or picture gets the 400 reply; nothing is stored and `req.user` has no profile |
| `MiddlewareProperties.NewProfileCreated` | src/index.ts:89-99 | when the token has all three optional fields or `ignoreUndefinedProperties` is on, a first-time caller gets exactly one new key, every other entry stays the same, and the new entry follows the copying and defaulting rules and is the one attached |
| `MiddlewareProperties.SuccessHasProfile` | src/index.ts:86-102 | after `next()` the caller's uid is in `players` and `playerData` is `players[uid]` |
| `MiddlewareProperties.NeverOverwrites` | src/index.ts:86-99 | no stored profile is removed or changed, and at most one is added |
| `MiddlewareProperties.SecondRequestWritesNothing` | src/index.ts:86-99 | a second call with the same token writes nothing; when its reads succeed it passes on the same context |
| `MiddlewareProperties.FirstSignInScenario` | src/index.ts:91-98 | under the default settings, a first sign-in of "u1" with a verified email, no name, no picture and no admin document gets the 400 reply and `players` stays empty |
| `MiddlewareProperties.FirstSignInIgnoringUndefined` | src/index.ts:91-98 | with `ignoreUndefinedProperties` on, the same sign-in stores `{uid:"u1", email:"a@b.com", email_verified:true, isSuperAdmin:false}`, attaches it and calls `next()` |

## Findings

| source | as written | input that shows it | evidently intended | confidence | as-written member | corrected member |
|---|---|---|---|---|---|---|
| src/index.ts:72, 91-98 | the new profile copies `email`, `name` and `picture` as they are, and `getFirestore()` keeps `ignoreUndefinedProperties` off, so `set` refuses the document when any of them is `undefined`; the caller gets the 400 reply on every request | a verified token for "u1" with email "a@b.com" and no name and no picture (`FirstSignInScenario`); in general `UndefinedFieldRefused` | a first sign-in stores the profile and calls `next()`, whichever optional fields the token has | medium, not executed | `MiddlewareProperties.FirstSignInScenario` | `MiddlewareProperties.FirstSignInIgnoringUndefined` |

The corrected behaviour is the same code against a handle with
`ignoreUndefinedProperties` on: `Validate` takes that setting, and
`NewProfileCreated` proves the profile is then stored for every first sign-in
whose store calls all succeed.

## Left out

- The logger (`src/logger.ts`) and the calls to it (src/index.ts:57-63, 104), which produce output only.
- A request-log line that throws. The model assumes the log line at src/index.ts:57-63 finishes without throwing. It runs before the `try` block, so a request body whose string conversion throws (a parsed JSON body such as `{"toString":1}`) ends the call outside the modelled outcomes: there is no `next()` and no 400 reply, and the rejected promise goes to Express. `Fail` and `FailureReplyIsUniform` cover only failures inside the `try` block, at src/index.ts:64-101.
- App setup: SDK initialisation from `SERVICE_ACCOUNT`, `PORT`, CORS, JSON parsing and `app.listen` (src/index.ts:9-39, 122-128). These are configuration and I/O.
- The `/hello` route (src/index.ts:112-116) and `src/routes/userRoutes.ts`. Each is a handler with no logic; `userRoutes.ts` reads `req.user?.playerData`, which `SuccessHasProfile` describes.
- The cryptography and token-expiry checks inside `verifyIdToken`. The verifier is a map from each accepted token to its decoded identity, fixed for the duration of one call.
- Concurrency. In the model each call runs to completion by itself. The race where two first requests both find no profile and both write it is not modelled.
- Firestore path syntax. Documents are addressed as `'players/' + uid`. In the model the uid is a plain key, so a uid containing `/` is not treated as a different path.
- Setting `ignoreUndefinedProperties` after the handle exists. Firestore fixes its settings before first use, so the model keeps the setting as a constant of the handle.
- How Firestore checks other values for `undefined`. The model checks only the three fields that may be absent from a decoded token (email, name, picture). The others are always defined (uid) or defaulted by `|| false`.
- Custom claims other than `isSuperAdmin` (for one, a claim named `playerData` that would sit in `req.user` until it is overwritten), and decoded-token fields the middleware does not read.
- The numeric value NaN: `JsValue` numbers are reals, so NaN, which is falsy, is not represented.
- The content of the thrown error in the reply body. It is reduced to the `AuthError` kind.
- The shape of documents already in `players`. They are assumed to have the fields that the middleware writes. An existing document's data is always truthy, so `if (playerData)` is modelled as "the document exists".
- The reply as an Express `Response` object. `res.status(400).json(...)` is modelled as the returned `Respond` outcome.
