# Book service: the two-store write path

A Dafny model of the Book microservice's write path. Every Book lives in two
stores: the relational primary store (the JPA repository), which is the source
of truth, and a full-text index (the Elasticsearch repository) that mirrors it.
`BookServiceImpl.save` writes the primary store, builds its result from what the
primary store returned, then writes that same entity to the index under its id.
`delete` removes the id from the primary store, then from the index. `findOne`
and `findAll` read only the primary store; `search` reads only the index. The
REST controller `BookResource` chooses between create and update from the id in
the request body, and turns an absent `findOne` result into not-found.

Modules:

- `Books` (`books.dfy`): the `Book` record. The mapper copies every field, so
  one datatype serves as both entity and DTO. `KeyedBy` says every record sits
  under its own id.
- `BookServiceSpec` (`service_spec.dfy`): the service as a pure state machine
  over `Stores(primary, index, nextId)`. `SaveStep` and `DeleteStep` are the
  transitions, and `FindOne`, `FindAll` and `Search` are the reads. The lemmas
  state the size rules, the "nothing else changes" rules and the mirroring
  invariants.
- `BookService` (`service.dfy`): class `BookServiceImpl`, which holds the two
  stores and the id counter as fields. `Save` and `Delete` are imperative
  methods proved equal to `SaveStep` and `DeleteStep`. The reads have
  field-level frames: `reads this`primary` for `FindOne` and `FindAll`, and
  `reads this`index` for `Search`. Dafny therefore checks that each read
  depends on one store only.
- `BookRest` (`resource.dfy`): the controller's guards as the pure functions
  `CreateBookStep`, `UpdateBookStep` and `DeleteBookStep`, plus lemmas about
  which requests reach `save`. Class `BookResource` has handler methods proved
  equal to those functions. `DuneScenario` is a client that creates, finds,
  searches and deletes one book using only the contracts.

Failures are an input. Each write takes a `Fault`: `NoFault`, `PrimaryFault`
(the primary store's write throws) or `IndexFault` (the index write throws
after the primary write succeeded). Nothing catches either kind
(BookServiceImpl.java:51-53 and 91-92), so both propagate to the caller as
`Failed(...)`. A primary failure means the index write is never reached. An
index failure propagates after the primary write. The class is transactional,
and this model does not roll that primary write back (see "Transaction
rollback" under "## Left out"). The lemmas that describe the state after an
index failure (`SaveIndexFault`, `SaveKeepsAgreement`,
`SaveIndexFaultBreaksAgreement`, `DeleteIndexFault`) therefore describe this
model without rollback, not a divergence the running program is shown to have.

Two behaviours come from Spring Data, which is not part of this model. They
are modelled as the stores' observable contract:

- The primary store's save inserts a record under a fresh counter id when the
  record has no id or has an id the store does not hold. Otherwise it
  overwrites the record in place.
- The primary store's delete of an absent id throws. The model returns
  `NoSuchBook`, and the index delete is not reached.

## Model

| member | source | states |
|---|---|---|
| `BookServiceSpec.SaveStep` | src/main/java/org/jhipster/mymicroserviceapp/service/impl/BookServiceImpl.java:48-55 | save keeps the store invariant: every record is under its own id, and the counter is above every id. It returns normally exactly when no write fails. |
| `BookServiceSpec.DeleteStep` | src/main/java/org/jhipster/mymicroserviceapp/service/impl/BookServiceImpl.java:89-93 | delete keeps the store invariant. It returns normally exactly when no write fails and the id is stored. |
| `BookServiceSpec.FindOneById` | src/main/java/org/jhipster/mymicroserviceapp/service/impl/BookServiceImpl.java:77-82 | findOne yields absent exactly for ids missing from the primary store. Otherwise it yields the stored record, which carries that id. |
| `BookServiceSpec.FindAllCount` | src/main/java/org/jhipster/mymicroserviceapp/service/impl/BookServiceImpl.java:64-68 | findAll lists one record per stored id, so its size equals the primary store's size. The tests use that size as the database size. |
| `BookServiceSpec.SaveInserts` | src/main/java/org/jhipster/mymicroserviceapp/service/impl/BookServiceImpl.java:50-51 | a save without failure of a record with no known id inserts it under the next fresh id with the DTO's fields. No other record changes. The store and findAll both grow by one. |
| `BookServiceSpec.SaveOverwrites` | src/main/java/org/jhipster/mymicroserviceapp/service/impl/BookServiceImpl.java:51 | a save without failure of a record with a stored id overwrites its name, publishDate and author. The other ids' records, the set of ids, the size and the counter stay the same. |
| `BookServiceSpec.SaveMirrors` | src/main/java/org/jhipster/mymicroserviceapp/service/impl/BookServiceImpl.java:51-53 | a save with no failure returns the primary store's record, including its assigned id, and findOne finds it. The index then holds that same record under that id, and no other index entry changes. |
| `BookServiceSpec.SavePrimaryFault` | src/main/java/org/jhipster/mymicroserviceapp/service/impl/BookServiceImpl.java:51-53 | when the primary write fails, the index write is never reached: neither store changes and the failure is raised. |
| `BookServiceSpec.SaveIndexFault` | src/main/java/org/jhipster/mymicroserviceapp/service/impl/BookServiceImpl.java:51-54 | when the index write fails, the failure reaches the caller and the index is unchanged. In this model, which does not roll back the transaction, the primary store keeps the write. |
| `BookServiceSpec.SaveIdempotent` | src/main/java/org/jhipster/mymicroserviceapp/service/impl/BookServiceImpl.java:48-55 | saving the record that a save returned changes neither store and returns the same record. |
| `BookServiceSpec.SaveKeepsSync` | src/main/java/org/jhipster/mymicroserviceapp/service/impl/BookServiceImpl.java:48-55 | if the index equals the primary store before a save whose index write does not fail, it equals it afterwards. |
| `BookServiceSpec.SaveKeepsAgreement` | src/main/java/org/jhipster/mymicroserviceapp/service/impl/BookServiceImpl.java:48-55 | if the two stores agree on every shared id before a save, they agree afterwards. The one exception is an overwrite whose index write failed, where this model without rollback keeps the primary write. |
| `BookServiceSpec.SaveIndexFaultBreaksAgreement` | src/main/java/org/jhipster/mymicroserviceapp/service/impl/BookServiceImpl.java:51-53 | the exception in `SaveKeepsAgreement` is needed in this model without rollback: a concrete overwrite whose index write fails leaves the index serving the old record under an id the model's primary store has updated. |
| `BookServiceSpec.SaveThenSearch` | src/main/java/org/jhipster/mymicroserviceapp/service/impl/BookServiceImpl.java:102-106 | after a save with no failure, search returns the saved record exactly when the query matches it. |
| `BookServiceSpec.DeleteRemoves` | src/main/java/org/jhipster/mymicroserviceapp/service/impl/BookServiceImpl.java:89-93 | deleting a stored id leaves it in neither store, and findOne yields absent. The primary store and findAll shrink by one. Every other id's record is untouched in both stores. |
| `BookServiceSpec.DeleteAbsent` | src/main/java/org/jhipster/mymicroserviceapp/service/impl/BookServiceImpl.java:91 | deleting an id the primary store lacks raises and changes nothing. |
| `BookServiceSpec.DeleteIndexFault` | src/main/java/org/jhipster/mymicroserviceapp/service/impl/BookServiceImpl.java:91-92 | when the index delete fails, the failure reaches the caller and the index is unchanged. In this model, which does not roll back the transaction, the record stays gone from the primary store. |
| `BookServiceSpec.DeleteKeepsSync` | src/main/java/org/jhipster/mymicroserviceapp/service/impl/BookServiceImpl.java:89-93 | if the index equals the primary store before a delete whose index write does not fail, it equals it afterwards. |
| `BookServiceSpec.DeleteKeepsAgreement` | src/main/java/org/jhipster/mymicroserviceapp/service/impl/BookServiceImpl.java:89-93 | every delete, including one whose index write fails, keeps the two stores agreeing on shared ids. |
| `BookServiceSpec.DeleteThenSearch` | src/main/java/org/jhipster/mymicroserviceapp/service/impl/BookServiceImpl.java:102-106 | after a delete with no failure, no search returns a record with the deleted id. |
| `BookService.BookServiceImpl.FindOne` | src/main/java/org/jhipster/mymicroserviceapp/service/impl/BookServiceImpl.java:77-82 | findOne's frame is the primary store alone. It yields absent exactly for ids missing from that store, and otherwise the stored record, which carries the requested id. |
| `BookService.BookServiceImpl.FindAll` | src/main/java/org/jhipster/mymicroserviceapp/service/impl/BookServiceImpl.java:64-68 | findAll's frame is the primary store alone. It lists every stored record, one per id, so its size equals the store's size. |
| `BookService.BookServiceImpl.Search` | src/main/java/org/jhipster/mymicroserviceapp/service/impl/BookServiceImpl.java:102-106 | search's frame is the index alone. It returns exactly the indexed records the query matches. |
| `BookService.BookServiceImpl.Save` | src/main/java/org/jhipster/mymicroserviceapp/service/impl/BookServiceImpl.java:48-55 | the step-by-step save writes the primary store, then the index. Its new state and result are exactly `SaveStep` of the old state. It keeps the invariant. |
| `BookService.BookServiceImpl.Delete` | src/main/java/org/jhipster/mymicroserviceapp/service/impl/BookServiceImpl.java:89-93 | the step-by-step delete removes the id from the primary store, then from the index. Its new state and result are exactly `DeleteStep` of the old state. |
| `BookRest.CreateBookStep` | src/main/java/org/jhipster/mymicroserviceapp/web/rest/BookResource.java:50-58 | createBook answers bad-request exactly when the body has no name or already has an id. Otherwise it calls save once. |
| `BookRest.UpdateBookStep` | src/main/java/org/jhipster/mymicroserviceapp/web/rest/BookResource.java:72-80 | updateBook answers bad-request exactly when the body has no name. Otherwise it calls createBook (no id) or save. |
| `BookRest.DeleteBookStep` | src/main/java/org/jhipster/mymicroserviceapp/web/rest/BookResource.java:126-129 | deleteBook calls the service's delete once. When it returns normally, the reply is ok with no body. |
| `BookRest.NotFoundIfAbsent` | src/main/java/org/jhipster/mymicroserviceapp/web/rest/BookResource.java:110-115 | an absent result becomes not-found and a present one becomes ok. The body is the result. |
| `BookRest.InvalidBodyRejected` | src/main/java/org/jhipster/mymicroserviceapp/web/rest/BookResource.java:50 | a body without a name is refused by both handlers before save. Neither store changes, and findAll's size stays the same. |
| `BookRest.CreateWithIdRejected` | src/main/java/org/jhipster/mymicroserviceapp/web/rest/BookResource.java:52-53 | createBook with an id answers bad-request and never reaches save, so both stores stay unchanged. |
| `BookRest.CreateAddsOne` | src/main/java/org/jhipster/mymicroserviceapp/web/rest/BookResource.java:55-58 | createBook with a valid body and no id answers created with the stored record, which has the fresh id and the body's fields. The primary store gains exactly that record, the index holds it under that id, and findAll grows by one. |
| `BookRest.CreatedBodyIsStored` | src/main/java/org/jhipster/mymicroserviceapp/web/rest/BookResource.java:55-58 | whatever fails, a created reply carries a record whose id is non-null and which findOne returns. |
| `BookRest.UpdateWithoutIdIsCreate` | src/main/java/org/jhipster/mymicroserviceapp/web/rest/BookResource.java:74-75 | updateBook with a null id behaves exactly as createBook. |
| `BookRest.UpdateOverwrites` | src/main/java/org/jhipster/mymicroserviceapp/web/rest/BookResource.java:77-80 | updateBook with a stored id answers ok with the body and overwrites that record in both stores. The set of ids and findAll's size stay the same, so there is no duplicate. |
| `BookRest.WriteFailurePropagates` | src/main/java/org/jhipster/mymicroserviceapp/web/rest/BookResource.java:55-77 | a failure raised by save leaves both handlers as that same failure. |
| `BookRest.DeleteBookRemoves` | src/main/java/org/jhipster/mymicroserviceapp/web/rest/BookResource.java:126-129 | deleteBook of a stored id answers ok. Afterwards findOne yields absent, the index lacks the id, and findAll shrinks by one. |
| `BookRest.BookResource.CreateBook` | src/main/java/org/jhipster/mymicroserviceapp/web/rest/BookResource.java:50-59 | the handler's new state and reply are exactly `CreateBookStep`. A created reply's record has an id, and findOne returns it. |
| `BookRest.BookResource.UpdateBook` | src/main/java/org/jhipster/mymicroserviceapp/web/rest/BookResource.java:72-81 | the handler's new state and reply are exactly `UpdateBookStep`. With no id, it delegates to `CreateBook`. |
| `BookRest.BookResource.GetBook` | src/main/java/org/jhipster/mymicroserviceapp/web/rest/BookResource.java:108-116 | getBook reads the primary store only. It answers not-found with no body exactly when the id is absent, and otherwise ok with the stored record. |
| `BookRest.BookResource.DeleteBook` | src/main/java/org/jhipster/mymicroserviceapp/web/rest/BookResource.java:126-130 | the handler's new state and reply are exactly `DeleteBookStep`. |

## Left out

- Transaction rollback. The service class is transactional (BookServiceImpl.java:28), but rollback is the transaction manager's behaviour, which is not part of this model. After an index failure, the model keeps the primary write in place instead of rolling it back, so the states that `SaveIndexFault`, `SaveKeepsAgreement`, `SaveIndexFaultBreaksAgreement` and `DeleteIndexFault` describe after such a failure are those of the model without rollback.
- Paging, sorting and total counts. `FindAll` and `Search` return every qualifying record as one set, with no page size, order or count metadata.
- Query-string parsing (`queryStringQuery`). `Search` takes the match relation as an opaque predicate `matches` over index entries.
- Spring Data internals. `BookRepository.java` and `BookSearchRepository.java` are empty interfaces over library code, so the stores are plain maps. Insert versus overwrite, the fresh-id counter (starting at 1) and the failing delete of an absent id are modelled as the stores' contract. The library's id-generation strategy is not part of this model.
- 64-bit ids. Ids are unbounded naturals, so `Long` overflow of the counter is not modelled, and neither are negative request ids (GET, PUT or DELETE with an id below zero), which the code handles like any other absent id.
- `BookMapper` and `BookDTO` are not part of this model. The mapping is the identity on the field set.
- Bean validation. The DTO's annotations are not part of this model; only their observed effect is kept: a body without a name is refused with bad-request before `save`.
- HTTP plumbing. Headers, URIs, `HeaderUtil`/`PaginationUtil`, logging, metrics and dependency injection are left out. A raised failure is returned as `Failed(...)` rather than mapped to an HTTP 500 reply.
- `getAllBooks` and `searchBooks`. These handlers only pass the service's `findAll`/`search` result on with pagination headers. The service reads themselves are modelled.
- Failures are an input. The environment's failures are the `Fault` parameter, not exceptions raised by real I/O. Read failures (`findOne`, `findAll`, `search`) are not modelled.
- Concurrency. Concurrent saves of one id, and how each store serializes them, are not modelled. Each operation runs to completion.
