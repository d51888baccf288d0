/**
 * The Book entity and its DTO. The mapper between the two copies every field
 * unchanged, so one datatype stands for both.
 */
module Books {

  datatype Option<+T> = None | Some(value: T)

  /** A persisted Book's identifier (a Java Long; the store hands out positive ones). */
  type Id = nat

  /** A calendar date (java.time.LocalDate), compared only for equality. */
  datatype LocalDate = LocalDate(year: int, month: int, day: int)

  /**
   * A Book as the request layer and the stores see it. `id` is None until the
   * primary store has persisted the record; `name` is None when the client
   * sent no name (bean validation rejects that before the service is called).
   */
  datatype Book = Book(
    id: Option<Id>,
    name: Option<string>,
    publishDate: Option<LocalDate>,
    author: Option<string>)

  /** Every record in a store sits under the id it carries. */
  ghost predicate KeyedBy(m: map<Id, Book>)
  {
    forall k :: k in m ==> m[k].id == Some(k)
  }

  /** The same record fields: name, publishDate and author agree. */
  predicate SameFields(a: Book, b: Book)
  {
    a.name == b.name && a.publishDate == b.publishDate && a.author == b.author
  }
}
