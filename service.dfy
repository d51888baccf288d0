/**
 * BookServiceImpl: the service object holding the two repositories as map
 * fields. `Save` and `Delete` write the primary store first and the index
 * second, one step at a time, and are proved against `SaveStep` and
 * `DeleteStep`; the reads consult one store each, as their frames say.
 */
module BookService {
  import opened Books
  import opened BookServiceSpec

  class BookServiceImpl {
    var primary: map<Id, Book>  // the relational repository
    var index: map<Id, Book>    // the search-engine repository
    var nextId: Id              // the primary store's id generator

    function State(): Stores
      reads this
    {
      Stores(primary, index, nextId)
    }

    ghost predicate Valid()
      reads this
    {
      BookServiceSpec.Valid(State())
    }

    /** Empty stores; the id generator starts at 1. */
    constructor ()
      ensures Valid() && InSync(State())
      ensures primary == map[] && index == map[] && nextId == 1
    {
      primary, index, nextId := map[], map[], 1;
    }

    /** save: primary write, result built from the stored entity, then index write. */
    method Save(dto: Book, fault: Fault) returns (result: Outcome<Book>)
      requires Valid()
      modifies this
      ensures Valid()
      ensures (State(), result) == SaveStep(old(State()), dto, fault)
    {
      var book := dto;  // the mapper copies every field
      // the primary store's save
      if fault == PrimaryFault {
        return Failed(PrimaryWriteFailed);
      }
      var key: Id;
      if book.id.Some? && book.id.value in primary {
        key := book.id.value;
      } else {
        key := nextId;
        nextId := nextId + 1;
      }
      book := book.(id := Some(key));
      primary := primary[key := book];
      var stored := book;  // the DTO returned is built from the stored entity
      // the index's save of that same entity
      if fault == IndexFault {
        return Failed(IndexWriteFailed);
      }
      index := index[key := book];
      return Done(stored);
    }

    /** delete: remove the id from the primary store, then from the index. */
    method Delete(id: Id, fault: Fault) returns (result: Outcome<()>)
      requires Valid()
      modifies this
      ensures Valid()
      ensures (State(), result) == DeleteStep(old(State()), id, fault)
    {
      // the primary store's delete
      if fault == PrimaryFault {
        return Failed(PrimaryWriteFailed);
      }
      if id !in primary {
        return Failed(NoSuchBook);
      }
      primary := primary - {id};
      // the index's delete
      if fault == IndexFault {
        return Failed(IndexWriteFailed);
      }
      index := index - {id};
      return Done(());
    }

    /** findOne reads the primary store and nothing else. */
    function FindOne(id: Id): (r: Option<Book>)
      reads this`primary
      requires KeyedBy(primary)
      ensures r.None? <==> id !in primary
      ensures r.Some? ==> r.value == primary[id] && r.value.id == Some(id)
    {
      BookServiceSpec.FindOne(primary, id)
    }

    /** findAll reads the primary store and nothing else; it lists one record per stored id. */
    function FindAll(): (r: set<Book>)
      reads this`primary
      requires KeyedBy(primary)
      ensures |r| == |primary|
      ensures forall k :: k in primary ==> primary[k] in r
    {
      FindAllCount(primary);
      BookServiceSpec.FindAll(primary)
    }

    /** search reads the index and nothing else. */
    function Search(matches: Book -> bool): (r: set<Book>)
      reads this`index
      ensures forall b :: b in r ==> b in index.Values && matches(b)
      ensures forall k :: k in index && matches(index[k]) ==> index[k] in r
    {
      BookServiceSpec.Search(index, matches)
    }
  }
}
