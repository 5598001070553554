# Password manager: at-rest protection and credential stores

This project models the server-side core of a small password manager (a
Next.js application backed by MongoDB) and proves properties of that model.
The core has four parts.

* **Envelope codec** (`lib/utils.ts`). A protected field is stored as
  `hex(iv) + ":" + hex(ciphertext)`. Each field has its own random 16-byte
  IV. Decryption splits on `:` and hex-decodes both pieces. A stored number
  is shown as `"**** **** **** "` followed by its last four characters.
  AES-256-CBC is a foreign library call. It is modelled as a `Cipher` value
  with a total `update`, `final` and `decrypt`. The only assumption about it
  is the ghost predicate `Utils.Inverts`, which says deciphering undoes
  enciphering. The random IV is a parameter.
* **Card store** (`app/api/cards/route.ts`). `CardRoute.CardStore` is a class
  that holds the card collection as a sequence of records. POST, GET,
  DELETE and PATCH are its methods. Each method answers a
  `Response<T>`: `Ok(body)` or `Err(status, message)`, with statuses
  400/404/500.
* **Password store**. `PasswordRoute.PasswordStore` covers two handlers that
  share one collection:
  * the route file `app/api/passwords/route.ts`, which handles POST and list
    by website;
  * the route pasted into `app/components/AddPasswords.tsx`, which handles
    POST and reveal by id.
* **Card form schema** (`formSchema` in `app/components/AddCard.tsx`). It is
  modelled as pure predicates, issue lists and the card-number transform.

## How the model is built

Things outside the model's view become parameters or uninterpreted values:

* the environment variable `ENCRYPTION_KEY` (`KeyConfig.LoadKey` takes it as
  an `Option<string>`);
* the random IVs;
* the `_id` the database assigns (`newId`, required to be a valid id not yet
  in use);
* `mongoose.Types.ObjectId.isValid` (the field `validId: string -> bool`);
* the current date (for the form).

`createdAt` is a counter (`clock`) that each insertion advances. The database
queries (`find`, `sort`, `findOneAndDelete`, `findOneAndUpdate`, `findById`)
become recursive specification functions over the record sequence. The
handlers themselves have no loops, so the methods have none either.

Every store keeps an invariant, `Valid()`. Its main part says that every
stored envelope deciphers to the plaintext submitted for that record. The
submitted plaintexts are kept in ghost maps:

* `numbers` and `cvvs` for cards;
* `passwords` and `phones` for passwords.

The invariant also says that ids are valid and unique in both stores. For
the card store it also says that `createdAt` follows insertion order, which
is what the GET listing's sort relies on.

Modules, with one file each:

* `Wrappers`
* `Hex`
* `Text` (JavaScript `split(":")` and `join`)
* `KeyConfig`
* `Api` (responses and JavaScript field truthiness)
* `Utils`
* `CardRoute`
* `PasswordRoute`
* `CardForm`

Three behaviours of the source are worth stating up front, because the
model follows them as written:

* The route file's credential `create` does not return an id and a masked
  acknowledgment. As written it always answers 500 after validation (see
  Findings).
* The key guard measures the key with JavaScript's `length`, not in bytes.
* `lib/utils.ts` splits an envelope on every colon and uses the first two
  pieces. The pasted route glues all pieces after the first together.

## Model

| member | source | states |
|---|---|---|
| Hex.Encode | lib/utils.ts:25 | The hex text of `b` has length `2·|b|` and consists of lower-case hex digits only. |
| Hex.Decode | lib/utils.ts:30-31 | A successful decode yields exactly half as many bytes as the text has characters. |
| Hex.DecodeEncode | lib/utils.ts:25-31 | Decoding the hex of any byte sequence gives that byte sequence back. |
| Hex.EncodeAppend | app/api/cards/route.ts:21-23 | The hex of `update ++ final` is the hex of `update` followed by the hex of `final`, so per-chunk hex output equals the hex of the concatenated buffer. |
| Hex.EncodeInjective | lib/utils.ts:25 | Different byte sequences have different hex texts. |
| Hex.LowerHexHasNoColon | lib/utils.ts:25 | Hex text never contains the `:` separator. |
| Text.SplitOnColon | lib/utils.ts:29 | `split(":")` yields at least one piece, no piece contains a colon, and joining the pieces with `:` gives the input back. |
| Text.SplitColonFree | lib/utils.ts:29 | A colon-free string splits into itself alone. |
| Text.SplitAtFirstColon | lib/utils.ts:29 | `split(a + ":" + b)` is `[a]` followed by `split(b)` when `a` has no colon. |
| Text.RemoveColons | app/components/AddPasswords.tsx:131 | The result has no colon and is no longer than the input. |
| Text.ConcatSplit | app/components/AddPasswords.tsx:129-131 | `split(":")` followed by `join("")` deletes exactly the colons. |
| KeyConfig.LoadKey | app/api/cards/route.ts:10-12 | A route module loads if and only if `ENCRYPTION_KEY` is set with exactly 32 characters, and then the key is that value. Unset or empty is refused. The same guard appears at app/api/passwords/route.ts:13-15 and app/components/AddPasswords.tsx:114-116. |
| KeyConfig.UtilsKey | lib/utils.ts:12-13 | `lib/utils.ts` uses the variable when it is set and non-empty, and the fallback text otherwise. |
| KeyConfig.FallbackKeyIsRefused | lib/utils.ts:12-13 | The fallback key has 28 characters, and the route modules' guard would refuse it. |
| Utils.EncryptCard | lib/utils.ts:16-26 | `encryptCard`: hex IV, a colon, hex of `update ++ final`. Its meaning is stated by `Utils.EncryptCardShape` (the two-piece shape), `Utils.DecryptCardRoundTrip` (decryption inverts it) and `Utils.DistinctIvsGiveDistinctEnvelopes`. |
| Utils.OpenSegments | lib/utils.ts:30-39 | Hex-decode the IV and ciphertext pieces and decipher; a piece that is not hex, or an IV that is not 16 bytes, is `MalformedEnvelope`. Its meaning is stated by `Utils.DecryptCardRoundTrip` and `Utils.DecryptCardIgnoresExtraSegments`. |
| Utils.LastFour | lib/utils.ts:43 | `slice(-4)`. Its meaning is stated by the contract of `Utils.MaskCardNumber`: what follows the prefix has `min(4, |s|)` characters and is the suffix of `s` of that length. |
| Utils.DecryptCard | lib/utils.ts:28-40 | `decryptCard` can succeed only when the text has at least two colon-separated pieces. |
| Utils.DecryptPassword | lib/utils.ts:47-59 | Same as `decryptCard`: success needs at least two pieces. |
| Utils.MaskCardNumber | lib/utils.ts:42-45 | The mask is `"**** **** **** "` followed by the last `min(4, |x|)` characters of `x`, so its length is `15 + min(4, |x|)`. |
| Utils.MaskPasswordNumber | lib/utils.ts:61-64 | Same shape, length and tail as `maskCardNumber`. |
| Utils.EncryptCardShape | lib/utils.ts:16-26 | The envelope is a 32-character lower-case hex IV, one `:`, then the hex of `update ++ final`. It splits into exactly those two pieces, and its length is `33 + 2·|ciphertext|`. |
| Utils.DecryptCardRoundTrip | lib/utils.ts:16-40 | `decryptCard(encryptCard(p)) == p` for a cipher that inverts. |
| Utils.DecryptCardNeedsColon | lib/utils.ts:29-31 | A text without a colon fails as a malformed envelope, because the second piece is undefined. |
| Utils.DecryptCardIgnoresExtraSegments | lib/utils.ts:29 | Only the first two pieces are used. Anything after a second colon is ignored. |
| Utils.DecryptPasswordIsDecryptCard | lib/utils.ts:47-59 | `decryptPassword` computes the same function as `decryptCard`, so the round trip holds for it too. |
| Utils.DistinctIvsGiveDistinctEnvelopes | lib/utils.ts:16-25 | The same text under two different IVs gives two different envelopes. |
| Utils.MaskIdempotent | lib/utils.ts:42-45 | Masking a masked value returns it unchanged if and only if the original had at least four characters. |
| Utils.MaskPasswordIsMaskCard | lib/utils.ts:61-64 | `maskPasswordNumber` and `maskCardNumber` are the same function. |
| CardRoute.EncryptCard | app/api/cards/route.ts:14-24 | The route's own `encryptCard` appends hex of `update` and hex of `final`. It writes exactly the envelope of `lib/utils.ts`. |
| CardRoute.Owns | app/api/cards/route.ts:135-138 | The `{ _id: cardId, userId }` filter: the record's id and owner both equal the request's (ids compared as strings, see Left out). Used by `CardRoute.FindOwned`, whose contract states the first match. |
| CardRoute.StoredMask | app/api/cards/route.ts:86 | The mask GET and PATCH show: the mask of the second colon-separated piece of the stored number. `CardRoute.ListedMaskIsCiphertextTail` states that for a stored card this is the mask of the ciphertext hex. |
| CardRoute.Listing | app/api/cards/route.ts:80-89 | `find({ userId }).sort({ createdAt: -1 })` projected to summaries. Its meaning is stated by `CardRoute.ListingMembers` (exactly the owner's records) and `CardRoute.ListingNewestFirst` (strictly newest first). |
| CardRoute.FindOwned | app/api/cards/route.ts:135-138 | The `{ _id, userId }` filter finds the first record with both fields matching, or reports that no record matches. |
| CardRoute.ListingMembers | app/api/cards/route.ts:80-89 | A summary is listed if and only if it is the projection of some record of that owner. |
| CardRoute.ListingNewestFirst | app/api/cards/route.ts:80-82 | The listing is ordered by `createdAt`, strictly descending. |
| CardRoute.ListingCreatedBefore | app/api/cards/route.ts:80-88 | If every stored record was created before a bound, so was every listed entry. |
| CardRoute.ListedMaskIsCiphertextTail | app/api/cards/route.ts:86 | For a stored card, the GET/PATCH mask is the mask of the ciphertext hex (the second piece), and the visible tail is taken from the ciphertext hex, so it is lower-case hex. |
| CardRoute.TableAppend | app/api/cards/route.ts:42-47 | Inserting a fresh record whose envelopes decipher to the submitted values keeps the table invariant. |
| CardRoute.TableRemove | app/api/cards/route.ts:135-138 | Removing one record keeps the table invariant. |
| CardRoute.TableSetExpiry | app/api/cards/route.ts:174-178 | Replacing one record's expiry date keeps the table invariant. |
| CardRoute.CardStore.constructor | app/api/cards/route.ts:7-12 | The module, loaded with a guarded key, starts with an empty, valid collection. |
| CardRoute.CardStore.Post | app/api/cards/route.ts:26-65 | A missing or empty field gives 400 "Missing required fields" and nothing changes. Otherwise exactly one record is appended: number and CVV as separate envelopes under their own IVs, user id and expiry verbatim, `createdAt` the clock. The answer carries the id, the expiry and the mask of the plaintext number, with no CVV. The invariant is kept. |
| CardRoute.CardStore.Get | app/api/cards/route.ts:67-99 | A missing user id gives 400 "User ID is required". Otherwise the answer is that owner's summaries (id, ciphertext-tail mask, expiry, `createdAt`, no CVV), newest first. |
| CardRoute.CardStore.Delete | app/api/cards/route.ts:101-158 | The presence check (400), then the id-format check (400 "Invalid Card ID") happen before the table is read. Then the first record matching id and owner is removed, nothing else changes, and no record with that id remains. With no match the answer is 404 "Card not found" and nothing changes. |
| CardRoute.CardStore.Patch | app/api/cards/route.ts:161-205 | The presence check gives 400. A malformed id makes the query throw, which answers 500 "Failed to update card". The owner-matched record gets the new expiry date and nothing else changes; the answer masks its ciphertext tail. With no match the answer is 404 and nothing changes. |
| CardRoute.MaskScenario | app/api/cards/route.ts:49-89 | On a fresh store, POST answers with the mask of the typed number. The listing shows the mask of the ciphertext hex for the same card. |
| CardRoute.UpdateDeleteScenario | app/api/cards/route.ts:135-195 | On a fresh store, the owner's PATCH succeeds and another user's DELETE gets 404. The owner's DELETE succeeds, and the listing is then empty. |
| PasswordRoute.EncryptPassword | app/api/passwords/route.ts:17-27 | `encryptPassword` (same behaviour in both route files, which differ only in where the key buffer is built) writes the same envelope as `encryptCard` in `lib/utils.ts`. |
| PasswordRoute.DecryptPassword | app/components/AddPasswords.tsx:128-136 | The pasted `decryptPassword`: first piece as IV, the remaining pieces joined with `""` as ciphertext hex. Its meaning is stated by `PasswordRoute.DecryptPasswordRemovesColons`, `PasswordRoute.DecryptPasswordWithoutColon`, `PasswordRoute.DecryptPasswordAgreesOnEnvelopes` and `PasswordRoute.DecryptPasswordRoundTrip`. |
| PasswordRoute.DecryptPasswordRemovesColons | app/components/AddPasswords.tsx:128-136 | The pasted `decryptPassword` takes the first piece as IV and the rest, with every colon deleted, as ciphertext hex. |
| PasswordRoute.DecryptPasswordWithoutColon | app/components/AddPasswords.tsx:129-131 | Without a colon, the whole text is the IV and the ciphertext is empty. |
| PasswordRoute.DecryptPasswordAgreesOnEnvelopes | app/components/AddPasswords.tsx:128-136 | On a well-formed single-colon envelope it agrees with `decryptCard`. |
| PasswordRoute.DecryptPasswordRoundTrip | app/components/AddPasswords.tsx:120-136 | `decryptPassword(encryptPassword(p)) == p` for a cipher that inverts. |
| PasswordRoute.RouteFieldsPresent | app/api/passwords/route.ts:35 | The route file's presence check: website, username, password, phone and `QuestionName` all truthy. `PasswordRoute.FormBodyRejectedByRoute` and `PasswordRoute.PasswordStore.PostAsWritten` state its consequences. |
| PasswordRoute.PastedRouteFieldsPresent | app/components/AddPasswords.tsx:144 | The pasted route's presence check: the same fields with `question` in place of `QuestionName`. `PasswordRoute.PasswordStore.PostFromForm` states its consequences. |
| PasswordRoute.FormBodyRejectedByRoute | app/api/passwords/route.ts:33-35 | The body the form sends never passes the route file's presence check. The pasted route accepts it exactly when all five fields are non-empty. |
| PasswordRoute.FormBodyCorrectedAccepted | app/api/passwords/route.ts:33-35 | With the question sent as `QuestionName`, the route's check passes exactly when all five fields are non-empty. |
| PasswordRoute.WithWebsite | app/api/passwords/route.ts:83 | `find({ website })` returns exactly the stored records whose website matches. |
| PasswordRoute.WithWebsiteAppend | app/api/passwords/route.ts:83 | The query keeps stored order: it distributes over concatenation. |
| PasswordRoute.FindById | app/components/AddPasswords.tsx:190 | `findById` finds a record with that id, or reports that none has it. |
| PasswordRoute.TableAppend | app/components/AddPasswords.tsx:151-160 | Inserting a fresh record whose envelopes decipher to the submitted values keeps the table invariant. |
| PasswordRoute.PasswordStore.constructor | app/api/passwords/route.ts:10-15 | The module, loaded with a guarded key, starts with an empty, valid collection. |
| PasswordRoute.PasswordStore.PostAsWritten | app/api/passwords/route.ts:29-72 | As written: a missing or empty field of the five (with `QuestionName`) gives 400 "Missing required fields". Every complete body gives 500 "Failed to add password", and nothing is stored. |
| PasswordRoute.PasswordStore.Post | app/api/passwords/route.ts:29-72 | As intended: 400 on a missing field, with nothing changed. Otherwise one record is appended: password and phone as separate envelopes under their own IVs, the other fields verbatim. The answer is the new id and the mask of the raw password. The invariant is kept. |
| PasswordRoute.PasswordStore.PostFromForm | app/components/AddPasswords.tsx:138-174 | The pasted POST: 400 when any of the five fields (with `question`) is missing, with nothing stored. Otherwise one record with password and phone as envelopes and the other fields verbatim; the answer is the new id. |
| PasswordRoute.PasswordStore.Seal | app/components/AddPasswords.tsx:151-160 | `PasswordModel.create` with both secrets enciphered: exactly one record appended, plaintexts recorded, invariant kept. |
| PasswordRoute.PasswordStore.Get | app/api/passwords/route.ts:74-91 | A missing website id gives 400 "Website ID is required". Otherwise the answer is exactly that website's records as stored, with no decryption and no masking. |
| PasswordRoute.PasswordStore.Reveal | app/components/AddPasswords.tsx:176-207 | A missing or malformed id gives 400 "Invalid password ID". An absent id gives 404 "Password not found". Otherwise the answer is the plaintext submitted for that record's password; the phone is not deciphered and the store does not change. |
| PasswordRoute.ShadowedModelScenario | app/api/passwords/route.ts:33-63 | For any complete body, the route as written answers 500. The corrected POST answers the masked acknowledgment, and revealing the new id gives back the password. |
| PasswordRoute.QuestionKeyScenario | app/components/AddPasswords.tsx:22-26 | A completely filled-in form is refused with 400 as sent. Sent under `QuestionName`, the corrected POST (`PasswordRoute.PasswordStore.Post`) stores it; the route as written answers 500 for that body (see Findings). |
| CardForm.CardNumberIssues | app/components/AddCard.tsx:30-36 | A card number raises no issue if and only if its raw length is 13..19 and it is non-empty digits, white space (JavaScript `\s`) and hyphens. |
| CardForm.StripSeparators | app/components/AddCard.tsx:37 | The transform keeps exactly the characters that are not white space or hyphens, and never lengthens the input. |
| CardForm.StripIdempotent | app/components/AddCard.tsx:37 | Stripping twice is stripping once. |
| CardForm.CardNumberValue | app/components/AddCard.tsx:30-37 | An accepted card number yields its stripped form, which is all digits and no longer than the raw input. A refused one yields nothing. |
| CardForm.ShortNumberAccepted | app/components/AddCard.tsx:30-37 | The bounds apply before stripping: three groups of four digits joined by hyphens (`1234-5678-9012`) are accepted and yield only 12 digits. |
| CardForm.ExpiryMonth | app/components/AddCard.tsx:46-52 | The parsed month of a well-formed expiry is 1..12. |
| CardForm.ExpiryYear | app/components/AddCard.tsx:46-53 | The parsed year of a well-formed expiry is 0..99. |
| CardForm.ExpiryFormatIsRendering | app/components/AddCard.tsx:39-42 | `MM/YY` matches exactly the 5-character renderings of a month 1..12 and a two-digit year, and parsing reads them back. |
| CardForm.ExpiryIssues | app/components/AddCard.tsx:39-63 | The expiry raises no issue if and only if it matches `MM/YY` and either its year is after the current year mod 100, or it is the same year with a month no earlier than the current month. |
| CardForm.ExpiryAcceptedIff | app/components/AddCard.tsx:44-63 | In calendar terms, a rendered `MM/YY` is accepted if and only if, read in the current century, it is not before the current month. |
| CardForm.ExpiryBoundary | app/components/AddCard.tsx:55-58 | The current month is accepted and the previous month is refused as "Card has expired". |
| CardForm.NoCenturyWrap | app/components/AddCard.tsx:48-58 | There is no century wrap-around: in December 2099, `01/00` is refused as expired. |
| CardForm.CvvIssues | app/components/AddCard.tsx:65-69 | A CVV raises no issue if and only if it has 3 or 4 characters, all digits. |
| CardForm.ValidateForm | app/components/AddCard.tsx:29-70 | The schema accepts if and only if all three fields are accepted. It then yields the stripped card number and the other two values unchanged, all digits where required. Otherwise it yields a non-empty list of issues. |

## Left out

Not modelled at all:

* AES-256-CBC, PKCS#7 padding and `crypto.randomBytes`. These are library
  calls. The cipher is a parameter and the IVs are parameters.
* Padding and tamper errors on decryption. `Cipher.decrypt` is total.
* The leniency of Node's `Buffer` on malformed hex (it stops at the first bad
  pair) and UTF-8 conversion. `Hex.Decode` accepts well-formed hex only and
  refuses everything else, which gives `MalformedEnvelope`.
* Key length measured in UTF-8 bytes. A key whose JavaScript `length` is
  32 but which has non-ASCII characters would make `createCipheriv` throw.
  That case is not modelled.
* UTF-16 code units. Strings in the model are sequences of Unicode code
  points, and `|s|` counts code points. JavaScript's `length`, `slice(-4)` and
  zod's `min`/`max` count UTF-16 code units. The two differ on characters
  outside the Basic Multilingual Plane, such as emoji. On such input:
  * `Utils.LastFour`, `Utils.MaskCardNumber` and `Utils.MaskPasswordNumber`
    keep four code points where the source keeps four code units. For
    `"1234😀"` the source keeps `"34😀"` and the model keeps `"234😀"`.
  * `KeyConfig.LoadKey` refuses a key of sixteen emoji, which the source's
    guard accepts as length 32.
  * `CardForm.CardNumberIssues` and `CardForm.CvvIssues` measure the raw
    length in code points. A character outside the Basic Multilingual Plane
    is never a digit, white space or hyphen, so both the source and the model
    refuse such a value. Only the list of messages can differ.
* ObjectId equality. Mongoose casts an `_id` filter to an ObjectId before
  matching, and the hex case of a 24-digit id does not matter in that cast.
  `CardRoute.Owns`, `CardRoute.FindOwned` and `PasswordRoute.FindById`
  compare ids as plain strings. For example, a DELETE with
  `507F1F77BCF86CD799439011` for the stored record `507f1f77bcf86cd799439011`
  deletes the record in the source, but the model answers 404 "Card not
  found".
* The missing length check in `lib/utils.ts`. It passes its 28-character
  fallback key straight to `createCipheriv`, which would throw. The
  functions in `Utils` take a guarded 32-character `Key`.
  `KeyConfig.FallbackKeyIsRefused` only records that the fallback fails the
  guard.
* `connectDB`, JSON parsing, `NextResponse`, `console` logging and reading
  the environment. These are input and output plumbing.
* The `receivedParams` echo in DELETE's 400 body. It is debugging output.
* Request fields that are not strings. Every field is an `Option<string>`,
  and JavaScript truthiness is "present and non-empty".
* Storage failures. Timeouts, write errors and anything else that makes the
  database throw would answer 500 "Failed to add card", "Failed to fetch
  cards", "Failed to delete card", "Failed to update card", "Failed to get
  passwords", "Failed to add password" or "Error fetching password". The only database throw the model contains is the
  malformed-id cast in PATCH.
* Query atomicity and concurrency between requests.
* The card reveal route (`app/api/cards/[cardId]/reveal`), the password
  reveal route file (`app/api/passwords/[passwordId]/reveal/route.ts`),
  `actions/actions.ts` and every React component and layout. They are not
  part of this model.
* Which schema the pasted route writes to. It imports `@/lib/models/password`,
  and that file is not part of this model. Under `models/password.ts`,
  mongoose's strict mode would drop the `question` field. The model stores
  it in the record's `question` field.
* The route file's empty outer `catch` in GET, which would answer nothing.
  The model has no failure that reaches it.
* Zod's error messages for a malformed expiry beyond the format message.
  The refinement also runs on malformed input, where `parseInt` behaves in
  JavaScript-specific ways.

Modelled, but with weaker or narrower contracts:

* `CardRoute.CardStore.Get`: the 500 "Failed to fetch cards" path is
  excluded by the invariant, not modelled. The source takes that path when a
  stored card number has no colon. The invariant guarantees every stored
  number is an envelope.
* `PasswordRoute.PasswordStore.Reveal`: the 500 "Error fetching password"
  path is in the code but unreachable under the invariant. Its contract
  states only the reachable answers.
* `CardRoute.CardStore.Delete`: `mongoose.Types.ObjectId.isValid` is an
  uninterpreted predicate. The contract says nothing about which strings are
  valid ids.
* `CardRoute.CardStore.Patch`: the cast error that mongoose raises for a
  malformed id is approximated by the same `validId` predicate.
* `CardRoute.CardStore.Patch`: the 500 "Failed to update card" path for a
  stored card number without a colon is excluded by the invariant, not
  modelled. In the source, `split(":")[1].slice(-4)` throws after the new
  expiry has already been written. The invariant guarantees every stored
  number is an envelope.
* `CardRoute.UpdateDeleteScenario`: for PATCH, it states only the id and the
  new expiry. `CardRoute.CardStore.Patch` states the mask.

## Findings

| source | as written | input that shows it | evidently intended | confidence | as-written member | corrected member |
|---|---|---|---|---|---|---|
| app/api/passwords/route.ts:33 | The destructured `password` string shadows the model imported at line 8. `password.create(...)` at line 49 is then a call on a string, which throws, so every complete request ends in the catch and answers 500 "Failed to add password" with nothing stored. | Any body with all five fields non-empty, e.g. website `example.com`, username `alice`, password `hunter22`, phone `5550100`, QuestionName `first pet`. | Create the record with the imported model and answer the id with the mask of the raw password (`**** **** **** er22` for this input). | high; not executed | PasswordRoute.PasswordStore.PostAsWritten | PasswordRoute.PasswordStore.Post |
| app/components/AddPasswords.tsx:25 | The add-password form posts `{ website, username, password, phone, question }`. The route file reads and requires `QuestionName` (app/api/passwords/route.ts:33-35), so every form submission is refused with 400 "Missing required fields". | Any completely filled-in form. | Send the security question under the key the route reads. | high; not executed | PasswordRoute.FormBodyRejectedByRoute | PasswordRoute.FormBodyCorrectedAccepted |
