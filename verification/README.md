# AssetVerse server: state transitions of the route handlers

This project models the state-changing route handlers of the AssetVerse backend (`index.js`).
AssetVerse is an HR/asset-management API. HR accounts register and create asset inventories,
and employees register and log in. HR approves or rejects asset requests. An approval takes one
unit off the asset, records an assignment in `employeeAssets` and makes sure the employee has an
affiliation.

The MongoDB database becomes an immutable `Store` value with six collections: `hrCollections`,
`employeeCollections`, `assets`, `requests`, `employeeAssets` and `affiliations`. Each handler is
a pure function from a store and its inputs to an `Outcome`, which pairs a reply with the new
store. The reply kinds `Ok`, `BadRequest`, `NotFound` and `Unauthorized` replace HTTP 200/201,
400, 404 and 401. The three refusal kinds carry the source's messages. `Ok` carries the
created or fetched document, the new asset's id, or `()`.

Modules, leaf first:

- `JsValues` (`js_values.dfy`): decoded JSON scalars, JavaScript truthiness (`!v`), the `v || ""`
  default, and the driver's write of `undefined` as `null`.
- `Mongo` (`mongo.dfy`): the driver operations the handlers use. Collections are sequences in
  natural order, and an equality filter `{field: k}` picks documents. The model covers
  `findOne`, `deleteOne` and `updateOne` with `$setOnInsert` and `upsert: true`, plus lemmas on
  key uniqueness.
- `Documents` (`documents.dfy`): the document datatypes, the `Store`, the reply kinds and the
  `$inc` on an asset's two counters.
- `Accounts` (`accounts.dfy`): HR and employee registration, the two logins and employee removal.
- `Assets` (`assets.dfy`): asset creation and the `GET /assets` filter.
- `Requests` (`requests.dfy`): approval and rejection.
- `Workflow` (`workflow.dfy`): command sequences, with the laws every sequence keeps.

Modelling choices:

- An asset's `_id` is its position in the `assets` sequence. Insertion yields an id that no
  existing asset holds. It is not fresh among the ids that requests already hold: a request
  naming a position past the end would name the next asset created. `RequestsReferenceAssets`
  states that every request names an existing asset. Under it, `Workflow.NewAssetsNeverAssigned`
  shows that no assignment is ever written for an asset created later, and
  `Workflow.NewAssetUntouched` shows that such an asset's counters never move after its insert. Request ids are
  opaque keys of a map, because requests are created outside these handlers.
- Each handler runs as one atomic step, and calls are handled one after another.
- `new Date()` values are opaque `Time` parameters. Every `new Date()` call gets its own
  parameter. Approval makes three calls, so its approval date, assignment date and affiliation
  creation time are independent.
- JavaScript numbers are integers, exact at any size (see "## Left out").

The model follows the code. In particular:

- Approval has no status guard and no availability guard, so it is not idempotent. Approving
  twice appends two assignments and takes two units, and the available count can go below zero.
- Approval decrements `productQuantity` as well as `availableQuantity`. Their difference
  therefore never changes, and for assets created through the API the two counters stay equal.
- Rejection overwrites the status whatever it was before, and it reverses nothing.
- A reject on an unknown id answers success and changes nothing.
- Removal deletes the employee's account document and leaves affiliations and assignments as
  they are.

## Model

| member | source | states |
|---|---|---|
| Mongo.FindOne | index.js:116-117 | `findOne({email})` returns the first document holding the key, and nothing exactly when no document holds it |
| Mongo.DeleteOne | index.js:360-361 | `deleteOne` removes exactly the first matching document and keeps the rest in order. Its `deletedCount` is 0 exactly when nothing matched, and then nothing changes |
| Mongo.UpsertOnInsert | index.js:298-307 | the `$setOnInsert` upsert leaves a collection that already holds the key unchanged. Otherwise it adds exactly one document, the inserted one, at the end. Existing documents never change, and afterwards the key is present |
| Mongo.UpsertIdempotent | index.js:298-307 | repeating the `$setOnInsert` upsert leaves the collection as the first upsert left it |
| Mongo.UpsertPreservesUnique | index.js:298-307 | the upsert never creates a second document with the same key |
| Mongo.DeletePreservesUnique | index.js:360 | with distinct keys, `deleteOne` keeps keys distinct and leaves no document with the deleted key |
| Mongo.FindOneInUnique | index.js:116-126 | with distinct keys, `findOne` returns the only document holding the key |
| Documents.IncQuantities | index.js:274-277 | `$inc` of both counters changes only the addressed asset. It shifts `productQuantity - availableQuantity` by the difference of the deltas, and an unmatched id changes nothing |
| Accounts.RegisterHr | index.js:53-91 | any falsy required field gives BadRequest with the store unchanged, and so does a taken email. Otherwise exactly one HR document is appended with role "hr", packageLimit 5, currentEmployees 0, subscription "basic" and logo defaulting to "" |
| Accounts.RegisterEmployee | index.js:134-167 | any falsy required field gives BadRequest with the store unchanged, and so does a taken email. Otherwise exactly one employee document is appended with role "employee" |
| Accounts.Login | index.js:108-131 | a falsy email or password gives BadRequest, and an unknown email gives Unauthorized "User not found". When the email is taken, the first account holding it decides: an equal password gives Ok with that account, and otherwise Unauthorized "Wrong password". `POST /login/employee` (index.js:170-193) is the same handler on the employee collection |
| Accounts.LoginSucceedsIff | index.js:116-126 | with distinct emails, login succeeds if and only if both values are truthy and some account holds that exact email and password |
| Accounts.RegisterHrThenLogin | index.js:62-81 | after a successful HR registration, logging in with the same email and password returns the new account |
| Accounts.RegisterEmployeeThenLogin | index.js:142-157 | after a successful employee registration, logging in with the same email and password returns the new account |
| Accounts.RegisterHrTwice | index.js:62-66 | registering the same complete HR form twice refuses the second attempt with "Email already registered" and leaves the store unchanged |
| Accounts.RegisterEmployeeTwice | index.js:142-146 | the same holds for the employee form |
| Accounts.RegisterHrPreservesValid | index.js:62-81 | HR registration keeps HR emails distinct |
| Accounts.RegisterEmployeePreservesValid | index.js:142-157 | employee registration keeps employee emails distinct |
| Accounts.RemoveEmployee | index.js:357-372 | an email with no employee gives NotFound "Employee not found" with the store unchanged. Otherwise the first employee document holding the email is removed, the others keep their order, and no other collection changes |
| Accounts.RemoveThenLoginFails | index.js:357-365 | with distinct emails, a removed employee gets "User not found" at login, and a second removal gives NotFound |
| Accounts.RemovePreservesValid | index.js:360 | removal keeps emails distinct |
| Assets.CreateAsset | index.js:196-231 | a falsy name or type, or a quantity that is not a number, gives BadRequest with the store unchanged. Otherwise exactly one asset is appended with availableQuantity equal to productQuantity, image defaulting to "", and nothing else changes |
| Assets.ListAssets | index.js:233-248 | lists, in natural order, exactly the assets that equal every truthy query parameter, each with its id. With no truthy parameter it lists all assets |
| Requests.Approve | index.js:263-314 | an unknown id gives NotFound with every collection unchanged. Otherwise the referenced asset loses one from each counter, and its other fields and every other asset stay as they were. The request becomes "Approved" with processedBy its own hrEmail, and no other request changes. Exactly one assignment is appended, with the requester's email and name, the request's assetName and assetId, and its own dateAssigned. An existing affiliation is left untouched; otherwise one with the request's companyName and its own createdAt is appended |
| Requests.Reject | index.js:316-328 | always answers Ok. An existing request gets status "Rejected" and processedBy the body's hrEmail or "", whatever its prior status, and nothing else in the store changes |
| Requests.ApproveTwice | index.js:263-307 | approving the same request twice succeeds twice. It appends two assignments for the asset and takes two units off its available count, while the second affiliation upsert changes nothing |
| Requests.ApproveWithoutStock | index.js:274-277 | approving a request for an asset with no units available succeeds and leaves availableQuantity at -1 |
| Requests.RejectIdempotent | index.js:319-322 | rejecting twice with the same hrEmail equals rejecting once |
| Requests.RejectAfterApprove | index.js:316-322 | rejecting an approved request sets status "Rejected" but keeps the approval's asset decrement, assignment and affiliation |
| Requests.ApprovePreservesValid | index.js:298-307 | approval keeps affiliation emails distinct |
| Workflow.StepLedger | index.js:274-296 | for any single call, assignments are only appended, and each existing asset loses from each counter exactly the number of new assignments naming it |
| Workflow.LedgerConservation | index.js:274-296 | the same ledger law holds across any sequence of calls |
| Workflow.AssignmentsCountApprovals | index.js:263-296 | over any sequence of calls, the set of request ids stays the same, and the assignments grow by exactly the number of approve calls on existing requests, repeats included |
| Workflow.RunPreservesValid | index.js:53-372 | any sequence of serialized calls keeps HR emails, employee emails and affiliation emails each distinct |
| Workflow.AssignmentsNameRequestedAssets | index.js:274-296 | over any sequence of calls, the request ids and the asset id each request names stay the same. Assignments are only appended (existing ones stay as they were), and every new assignment names an asset id that some request names |
| Workflow.NewAssetsNeverAssigned | index.js:221-296 | if every request names an existing asset, this stays true, and no assignment written during any sequence of calls names an asset created during it |
| Workflow.RunAppend | index.js:53-372 | handling the calls `xs` and then `ys` gives the same store as handling `xs + ys` |
| Workflow.NewAssetUntouched | index.js:221-277 | if every request names an existing asset, an asset inserted during some calls keeps both counters through any later calls: no approval reaches it |
| Workflow.RunPreservesBalanced | index.js:206-277 | if every asset has productQuantity equal to availableQuantity, any sequence of calls keeps it so |

## Left out

- Express setup, CORS, dotenv, `app.listen` and the `/` health route (index.js:1-13, 380-383) are transport plumbing.
- The MongoDB connection, its URI and the error handling of `run()` (index.js:15-30, 374-377) are driver and network code.
- A 500 reply from any handler is not modelled. Ids are opaque keys, and every store step succeeds. The `catch` blocks answer a driver failure and a thrown `new ObjectId(id)`. They also answer any other exception in the handler body, such as one raised by a missing request body (next line).
- A request sent without a JSON body is modelled as a body whose fields are all `undefined`, which is what Express 4's `{}` gives. Under Express 5, `req.body` is `undefined`. Then the destructurings at index.js:55, 110, 136, 172 and 198 throw, and so does `req.body.hrEmail` at index.js:321, and each handler answers 500. In particular, a reject without a body then writes nothing, while `Requests.Reject` answers Ok and sets status "Rejected". The Express version is not visible in the source.
- Documents.IncQuantities: counters are exact only while their magnitude is at most 2^53. JavaScript numbers are IEEE doubles, and the driver stores integers outside the 32-bit range as doubles. Beyond 2^53, `$inc: -1` can round back to the same value. For example, a quantity of 2^54 stays 2^54 after an approval. There the source loses the decrement, and the ledger law of `Workflow.LedgerConservation` does not hold.
- Requests.Approve: a storage failure in the middle of an approval can leave the earlier updates committed. The model treats the four steps as one step that always succeeds.
- `GET /packages` (index.js:40-50, 94-105) and `GET /requests` (index.js:251-261) only pass a collection through.
- `GET /hr/employees/:companyName` (index.js:331-355) is a read-only fan-out that counts assignments per employee.
- JSON arrays and objects as body or query values are not modelled, and neither are non-integer numbers.
- Handlers are modelled as atomic, and calls as serialized. Interleaving at `await` points is not modelled. Two concurrent registrations with one email can both pass the `findOne` check (index.js:62, 142) before either inserts. Two concurrent approvals can both insert an affiliation (index.js:298-307). No unique index appears in the code.
- Success messages such as "HR registered successfully" and "Employee removed" (index.js:85, 161, 365) are not part of the `Ok` reply. The `success` flags are not modelled either.
- A request whose `assetId` names no asset ever created is excluded from the trace laws about new assets by `RequestsReferenceAssets`. Asset ids are positions, so the model cannot tell such an id apart from the next insert's id. MongoDB's `ObjectId` can tell them apart. Asset deletion is not part of these handlers.
- A request document without an `assetId` is not modelled. `new ObjectId(undefined)` would make a fresh id that matches no asset.
- Assets.ListAssets: the result is in insertion order. MongoDB promises no order without a sort.
- Documents that the handlers neither read nor write are not modelled, and neither are their fields. This covers fields of request documents that these handlers do not read, and asset documents written by other code with non-numeric counters.
