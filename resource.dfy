/**
 * BookResource: the REST controller's branching in front of the service. It
 * decides from the request body's id and name whether `save` is reached and
 * which status the reply carries, and turns an absent `findOne` result into
 * not-found. Headers, URIs and pagination are left out; only the status and
 * the body of each reply are kept. A failure the service raises propagates
 * out of the handler unchanged.
 */
module BookRest {
  import opened Books
  import opened BookServiceSpec
  import opened BookService

  datatype Status = Created | Ok | BadRequest | NotFound

  datatype Response = Response(status: Status, body: Option<Book>)

  /** The reply to a request body that is refused before the service is called. */
  const Rejected := Response(BadRequest, None)

  /** Bean validation of a request body: the name is required. */
  predicate PassesValidation(dto: Book)
  {
    dto.name.Some?
  }

  /** The reply carrying what `save` returned, or the failure `save` raised. */
  function Reply(saved: Outcome<Book>, status: Status): Outcome<Response>
  {
    match saved
    case Done(b) => Done(Response(status, Some(b)))
    case Failed(f) => Failed(f)
  }

  /**
   * POST /books: a body without a name, or with an id, is refused; any other
   * body is saved once and answered with created and the stored record.
   */
  function CreateBookStep(s: Stores, dto: Book, fault: Fault): (r: (Stores, Outcome<Response>))
    requires Valid(s)
    ensures Valid(r.0)
    ensures r.1 == Done(Rejected) <==> !PassesValidation(dto) || dto.id.Some?
  {
    if !PassesValidation(dto) || dto.id.Some? then (s, Done(Rejected))
    else
      var saved := SaveStep(s, dto, fault);
      (saved.0, Reply(saved.1, Created))
  }

  /**
   * PUT /books: a body without a name is refused; a body without an id is
   * handled as POST /books; any other body is saved once and answered with ok
   * and the stored record.
   */
  function UpdateBookStep(s: Stores, dto: Book, fault: Fault): (r: (Stores, Outcome<Response>))
    requires Valid(s)
    ensures Valid(r.0)
    ensures r.1 == Done(Rejected) <==> !PassesValidation(dto)
  {
    if !PassesValidation(dto) then (s, Done(Rejected))
    else if dto.id.None? then CreateBookStep(s, dto, fault)
    else
      var saved := SaveStep(s, dto, fault);
      (saved.0, Reply(saved.1, Ok))
  }

  /** DELETE /books/{id}: the service deletes the id once; the reply is ok with no body. */
  function DeleteBookStep(s: Stores, id: Id, fault: Fault): (r: (Stores, Outcome<Response>))
    requires Valid(s)
    ensures Valid(r.0)
    ensures r.1.Done? ==> r.1.value == Response(Ok, None)
  {
    var deleted := DeleteStep(s, id, fault);
    match deleted.1
    case Done(_) => (deleted.0, Done(Response(Ok, None)))
    case Failed(f) => (deleted.0, Failed(f))
  }

  /** GET /books/{id}: an absent record becomes not-found, a present one ok with that record. */
  function NotFoundIfAbsent(found: Option<Book>): (r: Response)
    ensures r.status == NotFound <==> found.None?
    ensures r.status == Ok <==> found.Some?
    ensures r.body == found
  {
    match found
    case Some(b) => Response(Ok, Some(b))
    case None => Response(NotFound, None)
  }

  // ---------------------------------------------------------------------
  // Which requests reach save, and what they do to the stores

  /** A body that fails validation is refused by both handlers and changes neither store. */
  lemma InvalidBodyRejected(s: Stores, dto: Book, fault: Fault)
    requires Valid(s) && !PassesValidation(dto)
    ensures CreateBookStep(s, dto, fault) == (s, Done(Rejected))
    ensures UpdateBookStep(s, dto, fault) == (s, Done(Rejected))
    ensures |FindAll(CreateBookStep(s, dto, fault).0.primary)| == |FindAll(s.primary)|
  {
  }

  /** POST with an id is refused and never reaches save: both stores stay as they were. */
  lemma CreateWithIdRejected(s: Stores, dto: Book, fault: Fault)
    requires Valid(s) && dto.id.Some?
    ensures CreateBookStep(s, dto, fault) == (s, Done(Rejected))
  {
  }

  /**
   * POST of a valid body without an id answers created with the stored record:
   * it carries the fresh id and the body's fields, the primary store holds it
   * as one more record, and the index holds the same record under that id.
   */
  lemma CreateAddsOne(s: Stores, dto: Book)
    requires Valid(s) && PassesValidation(dto) && dto.id.None?
    ensures var r := CreateBookStep(s, dto, NoFault);
      && r.1.Done? && r.1.value.status == Created && r.1.value.body.Some?
      && var b := r.1.value.body.value;
      && b.id == Some(s.nextId)
      && SameFields(b, dto)
      && s.nextId !in s.primary
      && r.0.primary == s.primary[s.nextId := b]
      && r.0.index[s.nextId] == b
      && |FindAll(r.0.primary)| == |FindAll(s.primary)| + 1
  {
    SaveInserts(s, dto);
    SaveMirrors(s, dto);
  }

  /** A created reply always carries a stored record with an id, whatever fails. */
  lemma CreatedBodyIsStored(s: Stores, dto: Book, fault: Fault)
    requires Valid(s)
    ensures var r := CreateBookStep(s, dto, fault);
      r.1.Done? && r.1.value.status == Created ==>
        && r.1.value.body.Some?
        && r.1.value.body.value.id.Some?
        && FindOne(r.0.primary, r.1.value.body.value.id.value) == r.1.value.body
  {
  }

  /** PUT without an id is exactly POST. */
  lemma UpdateWithoutIdIsCreate(s: Stores, dto: Book, fault: Fault)
    requires Valid(s) && dto.id.None?
    ensures UpdateBookStep(s, dto, fault) == CreateBookStep(s, dto, fault)
  {
  }

  /**
   * PUT of a valid body whose id is stored answers ok with that record and
   * overwrites it in both stores: the same ids, the same number of records,
   * no duplicate.
   */
  lemma UpdateOverwrites(s: Stores, dto: Book)
    requires Valid(s) && PassesValidation(dto) && dto.id.Some? && dto.id.value in s.primary
    ensures var r := UpdateBookStep(s, dto, NoFault); var k := dto.id.value;
      && r.1 == Done(Response(Ok, Some(dto)))
      && r.0.primary.Keys == s.primary.Keys
      && r.0.primary[k] == dto
      && r.0.index[k] == dto
      && |FindAll(r.0.primary)| == |FindAll(s.primary)|
  {
    SaveOverwrites(s, dto);
    SaveMirrors(s, dto);
  }

  /** A failure raised by save propagates out of both handlers as it is. */
  lemma WriteFailurePropagates(s: Stores, dto: Book, fault: Fault)
    requires Valid(s) && PassesValidation(dto) && fault != NoFault
    ensures dto.id.None? ==> CreateBookStep(s, dto, fault).1 == Failed(SaveStep(s, dto, fault).1.failure)
    ensures UpdateBookStep(s, dto, fault).1 == Failed(SaveStep(s, dto, fault).1.failure)
  {
  }

  /** DELETE of a stored id answers ok and leaves the id in neither store. */
  lemma DeleteBookRemoves(s: Stores, id: Id)
    requires Valid(s) && id in s.primary
    ensures var r := DeleteBookStep(s, id, NoFault);
      && r.1 == Done(Response(Ok, None))
      && FindOne(r.0.primary, id) == None
      && id !in r.0.index
      && |FindAll(r.0.primary)| == |FindAll(s.primary)| - 1
  {
    DeleteRemoves(s, id);
  }

  class BookResource {
    const service: BookServiceImpl

    constructor (service: BookServiceImpl)
      ensures this.service == service
    {
      this.service := service;
    }

    /** createBook */
    method CreateBook(dto: Book, fault: Fault) returns (r: Outcome<Response>)
      requires service.Valid()
      modifies service
      ensures service.Valid()
      ensures (service.State(), r) == CreateBookStep(old(service.State()), dto, fault)
      ensures r.Done? && r.value.status == Created ==>
        && r.value.body.Some? && r.value.body.value.id.Some?
        && service.FindOne(r.value.body.value.id.value) == r.value.body
    {
      CreatedBodyIsStored(service.State(), dto, fault);
      if !PassesValidation(dto) {
        return Done(Rejected);
      }
      if dto.id.Some? {
        return Done(Rejected);
      }
      var saved := service.Save(dto, fault);
      r := Reply(saved, Created);
    }

    /** updateBook */
    method UpdateBook(dto: Book, fault: Fault) returns (r: Outcome<Response>)
      requires service.Valid()
      modifies service
      ensures service.Valid()
      ensures (service.State(), r) == UpdateBookStep(old(service.State()), dto, fault)
    {
      if !PassesValidation(dto) {
        return Done(Rejected);
      }
      if dto.id.None? {
        r := CreateBook(dto, fault);
        return;
      }
      var saved := service.Save(dto, fault);
      r := Reply(saved, Ok);
    }

    /** getBook: reads the primary store through findOne; absent becomes not-found. */
    function GetBook(id: Id): (r: Response)
      reads service`primary
      requires KeyedBy(service.primary)
      ensures r.status == NotFound <==> id !in service.primary
      ensures id !in service.primary ==> r == Response(NotFound, None)
      ensures id in service.primary ==> r == Response(Ok, Some(service.primary[id]))
    {
      NotFoundIfAbsent(service.FindOne(id))
    }

    /** deleteBook */
    method DeleteBook(id: Id, fault: Fault) returns (r: Outcome<Response>)
      requires service.Valid()
      modifies service
      ensures service.Valid()
      ensures (service.State(), r) == DeleteBookStep(old(service.State()), id, fault)
    {
      var deleted := service.Delete(id, fault);
      match deleted
      case Done(_) => r := Done(Response(Ok, None));
      case Failed(f) => r := Failed(f);
    }
  }

  /**
   * A client of the contracts: create a book, find it by search and by id,
   * delete it, and see it gone from both.
   */
  method DuneScenario()
  {
    var service := new BookServiceImpl();
    var resource := new BookResource(service);
    var dune := Book(None, Some("Dune"), Some(LocalDate(1965, 8, 1)), Some("Herbert"));
    var isDune := (b: Book) => b.name == Some("Dune");

    var created := resource.CreateBook(dune, NoFault);
    assert created == Done(Response(Created, Some(dune.(id := Some(1)))));
    assert service.primary == map[1 := dune.(id := Some(1))];
    assert resource.GetBook(1) == Response(Ok, Some(dune.(id := Some(1))));
    SaveThenSearch(Stores(map[], map[], 1), dune, isDune);
    assert dune.(id := Some(1)) in service.Search(isDune);

    var deleted := resource.DeleteBook(1, NoFault);
    assert deleted == Done(Response(Ok, None));
    assert resource.GetBook(1).status == NotFound;
    assert service.index == map[];
    assert service.Search(isDune) == {};
  }
}
