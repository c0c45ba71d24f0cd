# Catalog service: a Dafny model

This project models the core of the Polar Bookshop catalog service, a
Spring service that keeps a catalog of books keyed by ISBN and guards its
HTTP endpoints with role-based authorization derived from JWT bearer tokens.
Three pieces of the service carry logic, and each has its own module:

- `Catalog` (book_service.dfy) models `BookService`: listing, looking up,
  adding, removing and editing books. Its state is a `BookRepository`
  (module `Store`, book_repository.dfy), a class whose `books` field maps an
  ISBN to the stored `Book` (module `Books`, book.dfy). The service's methods
  change that field in place, just as the Java service changes its repository.
  The store's `save` is abstract: the record it persists and returns carries
  the client's fields of the record it was given, and the persistence layer
  may fill in the rest. A ghost log, `handed`, records every record the
  service hands to `save`, so the specification can say exactly what was
  asked to be written. Each service method is therefore proved against a
  function or a relation on the catalog's contents and the records handed
  to `save`: `Lookup`, `Adds`, `Remove`, `Merge` and `Edits`. Lemmas about them
  state the promised behaviour: the uniqueness guard, idempotent removal, the
  field-by-field merge and the create-or-replace fallback of edit.
- `Security` (security_config.dfy) models `SecurityConfig`. The filter chain's
  rules are an ordered table evaluated first-match (`FirstMatch`, `Evaluate`,
  `Decide`). The JWT converter is a map from the `roles` claim to
  `ROLE_`-prefixed authorities (`Prefixed`, `GrantedAuthorities`, `Convert`).
  The table is proved equal to a directly stated policy (`Policy`), and the
  decision matrix expected by the controller's web tests is proved from it.
  The stateless session policy is set against an illustrative
  session-keeping model of the other session creation policies, so that its
  effect (no authentication carried between requests) is something proved
  rather than built in.
- `Auditing` (data_config.dfy) models `DataConfig.auditorAware` as a chain of
  Option operations over an optional security context (`CurrentAuditor`).
  A principal name may be null (a verified token need not carry a `sub`
  claim), and the chain's last `map` then yields an empty auditor, so an
  admitted write is audited with the token's subject, or with no name.

Where the code departs from its commented-out variant, from its web tests or
from what its names suggest, the model follows the code:

- `viewBookDetails` returns `null` when no book is stored under the ISBN. It
  does not throw a not-found error: the throwing version is commented out
  (BookService.java:23-24). The model returns `None` in that case.
- When nothing is stored under the path ISBN, `editBookDetails` adds the
  patch under the patch's own ISBN (BookService.java:66). A later lookup by
  the path ISBN therefore finds nothing when the two ISBNs differ.
  `EditFallbackKeyedByPatchIsbn` states this.
- The service raises no concurrency conflict and no validation error of its
  own. Both would come from code that is not part of this model (the
  persistence layer and the `Book` record's constraints).

## Model

| member | source | states |
|---|---|---|
| `Store.BookRepository.FindAll` | src/main/java/com/polarbookshop/catalogservice/domain/BookService.java:19 | the store's `findAll`: lists every stored book exactly once (each listed book is the one stored under its ISBN, no ISBN twice, every stored ISBN present) |
| `Store.BookRepository.FindByIsbn` | src/main/java/com/polarbookshop/catalogservice/domain/BookService.java:26 | the store's `findByIsbn`: present exactly when a book is stored under the ISBN, and then that book |
| `Store.BookRepository.ExistsByIsbn` | src/main/java/com/polarbookshop/catalogservice/domain/BookService.java:39 | the store's `existsByIsbn`: true exactly when a book is stored under the ISBN |
| `Store.BookRepository.Save` | src/main/java/com/polarbookshop/catalogservice/domain/BookService.java:42 | the store's `save`: the persisted record carries the client's fields of the given record, is returned, and ends up under the book's ISBN; no other entry changes; one book per ISBN still holds; the given record is appended to the log of records handed to `save` |
| `Store.BookRepository.DeleteByIsbn` | src/main/java/com/polarbookshop/catalogservice/domain/BookService.java:46 | the store's `deleteByIsbn`: the entry under the ISBN is gone and nothing else changes, whether or not there was one; nothing is handed to `save` |
| `Catalog.BookService.constructor` | src/main/java/com/polarbookshop/catalogservice/domain/BookService.java:14-16 | the service runs against the repository it is given |
| `Catalog.BookService.ViewBookList` | src/main/java/com/polarbookshop/catalogservice/domain/BookService.java:18-20 | returns exactly the store's contents, each book once, and modifies nothing |
| `Catalog.BookService.ViewBookDetails` | src/main/java/com/polarbookshop/catalogservice/domain/BookService.java:22-36 | returns the book stored under the ISBN when there is one, `None` (null) when there is none, never fails and modifies nothing |
| `Catalog.BookService.AddBookToCatalog` | src/main/java/com/polarbookshop/catalogservice/domain/BookService.java:38-43 | result, new contents and the records handed to `save` are related to the old contents by `Adds`: BookAlreadyExists, no change and no save for a taken ISBN; otherwise exactly the given book is handed to `save`, and the record `save` returned is returned and stored under the ISBN |
| `Catalog.BookService.RemoveBookFromCatalog` | src/main/java/com/polarbookshop/catalogservice/domain/BookService.java:45-47 | new store contents are the old ones without the ISBN; nothing is handed to `save` |
| `Catalog.BookService.EditBookDetails` | src/main/java/com/polarbookshop/catalogservice/domain/BookService.java:49-67 | result, new contents and the records handed to `save` are related to the old ones by `Edits`; with a book stored under the ISBN exactly `Merge(stored, patch)` is handed to `save`, and the returned record keeps that ISBN and carries the patch's title, author, price and publisher |
| `Catalog.Lookup` | src/main/java/com/polarbookshop/catalogservice/domain/BookService.java:26-35 | present exactly when a book is stored under the ISBN, and then that book |
| `Catalog.Adds` | src/main/java/com/polarbookshop/catalogservice/domain/BookService.java:38-43 | a step of add fails exactly when the ISBN is taken (then nothing is saved and nothing changes); otherwise it hands the book itself to `save` and stores and returns the persisted record; something was saved exactly when it succeeded |
| `Catalog.Remove` | src/main/java/com/polarbookshop/catalogservice/domain/BookService.java:45-47 | the ISBNs afterwards are the old ones minus the removed one, and every remaining entry is unchanged |
| `Catalog.Merge` | src/main/java/com/polarbookshop/catalogservice/domain/BookService.java:52-63 | the merged record has the stored book's id, isbn, dates, audit names and version, and the patch's title, author, price and publisher |
| `Catalog.Edits` | src/main/java/com/polarbookshop/catalogservice/domain/BookService.java:49-67 | a step of edit on a stored ISBN hands one record to `save`, keeping the stored book's system fields, and succeeds with a record carrying the patch's content; on a free one it is a step of add of the patch |
| `Catalog.AddRejectsTakenIsbn` | src/main/java/com/polarbookshop/catalogservice/domain/BookService.java:39-41 | with the ISBN taken, add behaves as specified exactly when it fails with BookAlreadyExists(isbn), saves nothing and leaves the store unchanged |
| `Catalog.AddSavesUnderFreeIsbn` | src/main/java/com/polarbookshop/catalogservice/domain/BookService.java:42 | adding under a free ISBN hands exactly the book to `save`, succeeds with a record carrying the book's client fields, stores that record under the ISBN, adds no other key and changes no other entry |
| `Catalog.SecondAddFails` | src/main/java/com/polarbookshop/catalogservice/domain/BookService.java:38-43 | after a successful add, a second add with the same ISBN fails with BookAlreadyExists, saves nothing and changes nothing |
| `Catalog.AddThenView` | src/main/java/com/polarbookshop/catalogservice/domain/BookService.java:22-43 | after a successful add, viewing the book's ISBN returns the record the add returned, which equals the book in its client fields |
| `Catalog.RemoveIsIdempotent` | src/main/java/com/polarbookshop/catalogservice/domain/BookService.java:45-47 | after removal nothing is stored under the ISBN, every other ISBN looks up as before, and a second removal changes nothing |
| `Catalog.MergeKeepsSystemFields` | src/main/java/com/polarbookshop/catalogservice/domain/BookService.java:52-63 | the merged record keeps id, isbn, both dates, both audit names and version of the stored book, takes title, author, price and publisher from the patch, and ignores every other field of the patch |
| `Catalog.EditReplacesStoredBook` | src/main/java/com/polarbookshop/catalogservice/domain/BookService.java:50-64 | editing a stored book hands exactly `Merge(stored, patch)` to `save` (the stored book's id, ISBN, dates, audit names and version, the patch's content), returns the persisted form of the merged record (same ISBN, the patch's content) and stores it under the same ISBN, with the set of ISBNs unchanged |
| `Catalog.EditFallsBackToAdd` | src/main/java/com/polarbookshop/catalogservice/domain/BookService.java:66 | with nothing under the path ISBN, edit behaves exactly as add of the patch (including BookAlreadyExists when the patch's ISBN is taken) |
| `Catalog.EditFallbackKeyedByPatchIsbn` | src/main/java/com/polarbookshop/catalogservice/domain/BookService.java:66 | the fallback hands the patch itself to `save`, stores a record carrying the patch's client fields under the patch's ISBN, and nothing under the path ISBN when the two differ |
| `Catalog.OperationsKeepKeying` | src/main/java/com/polarbookshop/catalogservice/domain/BookService.java:38-67 | add, remove and edit all keep every stored book under its own ISBN (one book per ISBN) |
| `Security.Prefixed` | src/main/java/com/polarbookshop/catalogservice/config/SecurityConfig.java:39-41 | one authority per role, `ROLE_` + that role, in the roles' order |
| `Security.AuthoritiesAreTheRoles` | src/main/java/com/polarbookshop/catalogservice/config/SecurityConfig.java:37-47 | a token's authorities are exactly `ROLE_` + r for each r of its `roles` claim, in order, none without the claim; `ROLE_` + role is granted exactly when role is in the claim |
| `Security.GrantedAuthorities` | src/main/java/com/polarbookshop/catalogservice/config/SecurityConfig.java:39-41 | no authorities without a `roles` claim; otherwise one per role, `ROLE_` + that role, in order |
| `Security.Convert` | src/main/java/com/polarbookshop/catalogservice/config/SecurityConfig.java:37-47 | the authentication built from a token is named after the token's subject (null when the token has no `sub` claim) and holds its granted authorities |
| `Security.Authorize` | src/main/java/com/polarbookshop/catalogservice/config/SecurityConfig.java:25-28 | a rule's access allows exactly when it permits all or its authority is granted; a refusal is Unauthenticated without authentication and Forbidden with it |
| `Security.Evaluate` | src/main/java/com/polarbookshop/catalogservice/config/SecurityConfig.java:24-29 | first-match evaluation: without authentication a request is allowed exactly when its first matching rule permits all; Forbidden only with, Unauthenticated only without authentication; never Allow when no rule matches |
| `Security.Decide` | src/main/java/com/polarbookshop/catalogservice/config/SecurityConfig.java:22-29 | the decision of the service's rule table equals the directly stated policy `Policy` |
| `Security.DecideForToken` | src/main/java/com/polarbookshop/catalogservice/config/SecurityConfig.java:22-47 | the decision for a request with a verified token, or none, is the policy applied to the converted authentication; a request with a token is never Unauthenticated; one without is allowed exactly when it is public |
| `Security.FirstMatch` | src/main/java/com/polarbookshop/catalogservice/config/SecurityConfig.java:24-29 | finds a rule exactly when some rule matches, and then the access of the first matching rule |
| `Security.FirstMatchIsFirstMatching` | src/main/java/com/polarbookshop/catalogservice/config/SecurityConfig.java:24-29 | when rule i is the first that matches, its access is the one applied |
| `Security.FirstRuleMatches` | src/main/java/com/polarbookshop/catalogservice/config/SecurityConfig.java:25 | the `/actuator/**` rule matches exactly the paths whose first segment is `actuator`, for every method |
| `Security.SecondRuleMatches` | src/main/java/com/polarbookshop/catalogservice/config/SecurityConfig.java:26 | the second rule matches exactly GET on `/` and on paths whose first segment is `books` |
| `Security.FilterChainIsTotal` | src/main/java/com/polarbookshop/catalogservice/config/SecurityConfig.java:28 | the `anyRequest` rule makes the table match every request |
| `Security.DecideFollowsPolicy` | src/main/java/com/polarbookshop/catalogservice/config/SecurityConfig.java:22-35 | first-match evaluation of the rule table equals the policy: public routes Allow; otherwise Unauthenticated without authentication, Allow with `ROLE_employee`, Forbidden without it |
| `Security.ActuatorIsOpen` | src/main/java/com/polarbookshop/catalogservice/config/SecurityConfig.java:25 | every request under `/actuator` is allowed, whatever its method and authentication |
| `Security.BookReadsArePublic` | src/main/java/com/polarbookshop/catalogservice/config/SecurityConfig.java:26 | GET on `/` and under `/books` is allowed with or without a token |
| `Security.OtherRequestsNeedEmployee` | src/main/java/com/polarbookshop/catalogservice/config/SecurityConfig.java:28 | every other request is allowed if and only if `ROLE_employee` is granted; Unauthenticated without authentication, Forbidden with authentication but without the role |
| `Security.ProtectedRequestNeedsEmployeeRole` | src/main/java/com/polarbookshop/catalogservice/config/SecurityConfig.java:22-47 | with a verified token, a protected request is allowed if and only if `employee` is in the token's `roles` claim, and is never Unauthenticated |
| `Security.ControllerDecisions` | src/test/java/com/polarbookshop/catalogservice/web/BookControllerMvcTests.java:50-192 | the decisions behind the web tests: GET of a book allowed with or without a token; DELETE, POST and PUT allowed for an employee, Forbidden for a customer, Unauthenticated without a token |
| `Security.HandleRequest` | src/main/java/com/polarbookshop/catalogservice/config/SecurityConfig.java:31-32 | STATELESS decides on the request's own token and leaves the session as it was; in the illustrative session-keeping model of the other policies, a request with a token is decided on that token and NEVER does not write the session |
| `Security.Serve` | src/main/java/com/polarbookshop/catalogservice/config/SecurityConfig.java:31-32 | a stream of requests on one session gets one decision per request |
| `Security.StatelessHandlingIgnoresSession` | src/main/java/com/polarbookshop/catalogservice/config/SecurityConfig.java:31-32 | under the service's STATELESS policy a request is decided on its own token alone and the session is left as it was |
| `Security.StatelessServeDecidesEachAlone` | src/main/java/com/polarbookshop/catalogservice/config/SecurityConfig.java:31-32 | under STATELESS each decision in a stream is that request's own decision, whatever the session held at the start |
| `Security.StatelessIgnoresHistory` | src/main/java/com/polarbookshop/catalogservice/config/SecurityConfig.java:31-32 | under STATELESS, after any two histories and sessions, the same request gets the same decision |
| `Security.SessionWouldCarryAuthentication` | src/main/java/com/polarbookshop/catalogservice/config/SecurityConfig.java:31-32 | in the illustrative session-keeping model, a token-less DELETE after an employee's request would be allowed; under STATELESS it is Unauthenticated |
| `Auditing.CurrentAuditor` | src/main/java/com/polarbookshop/catalogservice/config/DataConfig.java:18-28 | empty without a context, empty when the context holds no authentication, empty when the authentication is not authenticated, otherwise exactly the authentication's name, which is empty when that name is null |
| `Auditing.ContextOf` | src/main/java/com/polarbookshop/catalogservice/config/DataConfig.java:20-22 | the security context of an admitted request holds an authentication exactly when the request had one, authenticated and named after its principal |
| `Auditing.AdmittedWriteHasAuditor` | src/main/java/com/polarbookshop/catalogservice/config/DataConfig.java:24-26 | a protected request admitted by the filter chain carries an authentication, so its auditor is exactly the principal's name (empty only when that name is null) |
| `Auditing.AdmittedTokenWriteAuditedBySubject` | src/main/java/com/polarbookshop/catalogservice/config/DataConfig.java:18-28 | for a verified token admitted to a protected route, the auditor is the token's `sub` claim, and empty when the token has none |
| `Auditing.NamelessEmployeeWriteHasNoAuditor` | src/main/java/com/polarbookshop/catalogservice/config/DataConfig.java:27 | an employee token without a `sub` claim is allowed to DELETE a book, and the auditor of that write is empty |

## Left out

- Spring wiring (configuration classes, beans, the `HttpSecurity` builder, enabling JDBC auditing) is not modelled; only the rules it encodes are.
- JWT decoding, signature verification and the key fetch from the identity provider are not modelled: the model starts from verified claims. A request with a token that fails verification is not modelled either.
- The roles claim is modelled as a list of strings; the converter's handling of a single space-separated string claim is not modelled.
- CSRF protection being switched off has no decision logic and is not modelled.
- Logging in `viewBookDetails` is not modelled; it has no behavioural content.
- `Store.BookRepository.Save`: the persistence layer's own behaviour (JDBC, id generation, the version increment and its optimistic-locking check, filling in audit dates and names) is not part of this model. `Save` promises only that the persisted record carries the client's fields of the record it was given.
- EditBookDetails: promises that id, isbn, dates, audit names and version are kept of the record it hands to `save` (`Catalog.Merge`, recorded in the `handed` log), not of the record `save` returns, whose system fields the persistence layer fills in.
- AddBookToCatalog: the record returned and stored equals the given book in its client fields only; its system fields are whatever the persistence layer filled in, which this model does not fix.
- AddSavesUnderFreeIsbn: the record returned and stored equals the given book in its client fields only; its system fields are whatever the persistence layer filled in, which this model does not fix.
- AddThenView: the record returned and stored equals the given book in its client fields only; its system fields are whatever the persistence layer filled in, which this model does not fix.
- EditReplacesStoredBook: the record returned and stored equals the merged record (the stored book's ISBN with the patch's title, author, price and publisher) in its client fields only; its system fields are whatever the persistence layer filled in, which this model does not fix.
- EditFallbackKeyedByPatchIsbn: the record returned and stored equals the given book in its client fields only; its system fields are whatever the persistence layer filled in, which this model does not fix.
- Validation of book fields (ISBN pattern, non-empty title, positive price) lives in the `Book` record, which is not part of this model.
- `price` is a `real` that is only copied, never computed on; floating-point behaviour is not modelled.
- Request paths are sequences of segments. Splitting a raw URI into segments, trailing slashes and URL decoding are not modelled.
- Unauthenticated requests are modelled as carrying no authentication. The framework's anonymous authentication token is not modelled, so `Auditing.ContextOf` gives such requests a context without an authentication.
- `Security.Evaluate` denies a request that no rule matches; the service's table never falls through (`FilterChainIsTotal`), so this choice is not observable.
- `Security.HandleRequest`: only the STATELESS policy follows the framework; ALWAYS, IF_REQUIRED and NEVER are an illustrative session-keeping model used as a contrast, not the framework's exact session handling (for instance, what NEVER does with a session that already exists).
- Concurrency between requests is not modelled: each operation runs alone on the store.
- The web tests' use of Mockito, MockMvc and JSON serialisation is not modelled; the tests serve only as the expected decision matrix.
