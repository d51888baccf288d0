/**
 * The Book service as a pure state machine over its two stores: the primary
 * (relational) store, which is the source of truth, and the full-text index
 * that mirrors it. `SaveStep` and `DeleteStep` are the specifications the
 * imperative service in module BookService is proved against; the lemmas
 * below state what the service promises about them.
 */
module BookServiceSpec {
  import opened Books

  /** Which write, if any, the environment makes fail during one operation. */
  datatype Fault = NoFault | PrimaryFault | IndexFault

  /** Why an operation raised instead of returning normally. */
  datatype Failure =
    | PrimaryWriteFailed  // the primary store's save or delete threw
    | IndexWriteFailed    // the index's save or delete threw after the primary write
    | NoSuchBook          // the primary store's delete found no record with that id

  datatype Outcome<+T> = Done(value: T) | Failed(failure: Failure)

  /** Both stores and the primary store's id counter. */
  datatype Stores = Stores(primary: map<Id, Book>, index: map<Id, Book>, nextId: Id)

  /** Every record sits under its own id, and the counter is above every id in use. */
  ghost predicate Valid(s: Stores)
  {
    && KeyedBy(s.primary)
    && KeyedBy(s.index)
    && (forall k :: k in s.primary ==> k < s.nextId)
    && (forall k :: k in s.index ==> k < s.nextId)
  }

  /** The index holds exactly the primary store's records. */
  predicate InSync(s: Stores)
  {
    s.index == s.primary
  }

  /** On every id present in both stores, the index holds the primary's record. */
  ghost predicate AgreeOnShared(s: Stores)
  {
    forall k :: k in s.primary && k in s.index ==> s.primary[k] == s.index[k]
  }

  /** Whether the primary store's save inserts `book` rather than overwriting a record. */
  predicate IsNew(primary: map<Id, Book>, book: Book)
  {
    book.id.None? || book.id.value !in primary
  }

  /**
   * BookServiceImpl.save: map the DTO to an entity, save it in the primary
   * store, build the result from what the primary store returned, then save
   * that same entity in the index under its id. The primary store inserts a
   * record without a known id under a fresh id and overwrites one with a known
   * id. A failure of the primary write skips the index write; nothing catches
   * a failure of the index write, so it propagates to the caller. This model
   * keeps the primary write in place after such a failure: it does not model
   * the rollback of the surrounding transaction.
   */
  function SaveStep(s: Stores, dto: Book, fault: Fault): (r: (Stores, Outcome<Book>))
    requires Valid(s)
    ensures Valid(r.0)
    ensures r.1.Done? <==> fault.NoFault?
  {
    if fault == PrimaryFault then (s, Failed(PrimaryWriteFailed))
    else
      var isNew := IsNew(s.primary, dto);
      var key := if isNew then s.nextId else dto.id.value;
      var stored := dto.(id := Some(key));
      var primary := s.primary[key := stored];
      var next := if isNew then s.nextId + 1 else s.nextId;
      if fault == IndexFault then (Stores(primary, s.index, next), Failed(IndexWriteFailed))
      else (Stores(primary, s.index[key := stored], next), Done(stored))
  }

  /**
   * BookServiceImpl.delete: delete the id from the primary store, then from
   * the index. The primary store's delete of an absent id throws, and so
   * does a failing primary write; either way the index is not touched.
   */
  function DeleteStep(s: Stores, id: Id, fault: Fault): (r: (Stores, Outcome<()>))
    requires Valid(s)
    ensures Valid(r.0)
    ensures r.1.Done? <==> fault.NoFault? && id in s.primary
  {
    if fault == PrimaryFault then (s, Failed(PrimaryWriteFailed))
    else if id !in s.primary then (s, Failed(NoSuchBook))
    else
      var primary := s.primary - {id};
      if fault == IndexFault then (s.(primary := primary), Failed(IndexWriteFailed))
      else (s.(primary := primary, index := s.index - {id}), Done(()))
  }

  /** BookServiceImpl.findOne: a lookup in the primary store alone. */
  function FindOne(primary: map<Id, Book>, id: Id): Option<Book>
  {
    if id in primary then Some(primary[id]) else None
  }

  /** BookServiceImpl.findAll: every record of the primary store (one unbounded page). */
  function FindAll(primary: map<Id, Book>): set<Book>
  {
    primary.Values
  }

  /**
   * BookServiceImpl.search: the indexed records the query matches; the
   * query language is left abstract as the predicate `matches`.
   */
  function Search(index: map<Id, Book>, matches: Book -> bool): set<Book>
  {
    set k | k in index && matches(index[k]) :: index[k]
  }

  // ---------------------------------------------------------------------
  // Reads

  /** findOne yields absent exactly for ids the primary store lacks, and otherwise the record with that id. */
  lemma FindOneById(primary: map<Id, Book>, id: Id)
    requires KeyedBy(primary)
    ensures FindOne(primary, id).None? <==> id !in primary
    ensures id in primary ==> FindOne(primary, id) == Some(primary[id])
    ensures FindOne(primary, id).Some? ==> FindOne(primary, id).value.id == Some(id)
  {
  }

  /** findAll lists one record per id: its size is the primary store's size. */
  lemma {:induction false} FindAllCount(primary: map<Id, Book>)
    requires KeyedBy(primary)
    ensures |FindAll(primary)| == |primary|
    decreases |primary|
  {
    if primary != map[] {
      var k :| k in primary;
      var rest := primary - {k};
      assert rest.Keys == primary.Keys - {k};
      assert |rest| == |primary| - 1 by {
        assert |rest.Keys| == |primary.Keys| - 1;
      }
      FindAllCount(rest);
      forall v | v in primary.Values
        ensures v in rest.Values || v == primary[k]
      {
        var j :| j in primary && primary[j] == v;
        if j != k {
          assert rest[j] == v;
        }
      }
      assert primary.Values == rest.Values + {primary[k]};
      // every record left in `rest` carries an id other than k
      assert forall j :: j in rest ==> rest[j].id != Some(k);
      assert primary[k] !in rest.Values;
    }
  }

  // ---------------------------------------------------------------------
  // save

  /**
   * A save without failure of a record without a known id inserts it under
   * the next fresh id with the DTO's fields; every other record stays; the
   * store and findAll grow by one.
   */
  lemma SaveInserts(s: Stores, dto: Book)
    requires Valid(s) && IsNew(s.primary, dto)
    ensures var r := SaveStep(s, dto, NoFault);
      && s.nextId !in s.primary
      && r.0.primary == s.primary[s.nextId := dto.(id := Some(s.nextId))]
      && r.0.nextId == s.nextId + 1
      && |r.0.primary| == |s.primary| + 1
      && |FindAll(r.0.primary)| == |FindAll(s.primary)| + 1
  {
    var r := SaveStep(s, dto, NoFault);
    FindAllCount(s.primary);
    FindAllCount(r.0.primary);
  }

  /**
   * A save without failure of a record whose id the primary store knows
   * overwrites that record in place: its name, publishDate and author become
   * the DTO's, no other id's record changes, and the store's size and
   * findAll's size stay the same.
   */
  lemma SaveOverwrites(s: Stores, dto: Book)
    requires Valid(s) && !IsNew(s.primary, dto)
    ensures var r := SaveStep(s, dto, NoFault); var k := dto.id.value;
      && r.0.primary.Keys == s.primary.Keys
      && r.0.primary[k] == dto
      && (forall j :: j in s.primary && j != k ==> r.0.primary[j] == s.primary[j])
      && r.0.nextId == s.nextId
      && |r.0.primary| == |s.primary|
      && |FindAll(r.0.primary)| == |FindAll(s.primary)|
  {
    var r := SaveStep(s, dto, NoFault);
    FindAllCount(s.primary);
    FindAllCount(r.0.primary);
  }

  /**
   * A save that does not fail returns the primary store's record, with its
   * assigned id and the DTO's fields; the index then holds that same record
   * under that id, findOne returns it, and no other index entry changes.
   */
  lemma SaveMirrors(s: Stores, dto: Book)
    requires Valid(s)
    ensures var r := SaveStep(s, dto, NoFault);
      && r.1.Done? && r.1.value.id.Some?
      && var k := r.1.value.id.value;
      && SameFields(r.1.value, dto)
      && (!IsNew(s.primary, dto) ==> k == dto.id.value)
      && k in r.0.primary && r.0.primary[k] == r.1.value
      && k in r.0.index && r.0.index[k] == r.0.primary[k]
      && FindOne(r.0.primary, k) == Some(r.1.value)
      && (forall j :: j != k ==> FindOne(r.0.index, j) == FindOne(s.index, j))
  {
  }

  /** A failing primary write changes neither store and raises. */
  lemma SavePrimaryFault(s: Stores, dto: Book)
    requires Valid(s)
    ensures SaveStep(s, dto, PrimaryFault) == (s, Failed(PrimaryWriteFailed))
  {
  }

  /**
   * A failing index write raises to the caller. In this model, which does not
   * roll the primary write back, the primary store keeps the write (findOne
   * sees it) while the index is left as it was.
   */
  lemma SaveIndexFault(s: Stores, dto: Book)
    requires Valid(s)
    ensures var r := SaveStep(s, dto, IndexFault); var ok := SaveStep(s, dto, NoFault);
      && r.1 == Failed(IndexWriteFailed)
      && r.0.primary == ok.0.primary
      && r.0.nextId == ok.0.nextId
      && r.0.index == s.index
  {
  }

  /** Saving what a save returned changes nothing and returns the same record. */
  lemma SaveIdempotent(s: Stores, dto: Book)
    requires Valid(s)
    ensures var r := SaveStep(s, dto, NoFault);
      SaveStep(r.0, r.1.value, NoFault) == r
  {
    var r := SaveStep(s, dto, NoFault);
    var v := r.1.value;
    var k := v.id.value;
    assert r.0.primary[k := v] == r.0.primary;
    assert r.0.index[k := v] == r.0.index;
  }

  /** A save that does not reach the index write keeps the index an exact mirror. */
  lemma SaveKeepsSync(s: Stores, dto: Book, fault: Fault)
    requires Valid(s) && InSync(s) && fault != IndexFault
    ensures InSync(SaveStep(s, dto, fault).0)
  {
  }

  /**
   * The index agrees with the primary store on shared ids after a save, unless
   * the index write of an overwrite failed (a case in which this model, having
   * no rollback, keeps the primary write).
   */
  lemma SaveKeepsAgreement(s: Stores, dto: Book, fault: Fault)
    requires Valid(s) && AgreeOnShared(s)
    requires fault != IndexFault || IsNew(s.primary, dto)
    ensures AgreeOnShared(SaveStep(s, dto, fault).0)
  {
  }

  /**
   * Why SaveKeepsAgreement excludes a failed index write of an overwrite: in
   * this model, which keeps the primary write instead of rolling the
   * transaction back, such a save leaves the index serving the old record for
   * an id the primary store has updated.
   */
  lemma SaveIndexFaultBreaksAgreement()
    ensures var dune := Book(Some(1), Some("Dune"), None, Some("Herbert"));
      var s := Stores(map[1 := dune], map[1 := dune], 2);
      var r := SaveStep(s, dune.(name := Some("Dune Messiah")), IndexFault);
      && Valid(s) && InSync(s)
      && !AgreeOnShared(r.0)
  {
  }

  /** After a save that does not fail, search finds the saved record exactly when the query matches it. */
  lemma SaveThenSearch(s: Stores, dto: Book, matches: Book -> bool)
    requires Valid(s)
    ensures var r := SaveStep(s, dto, NoFault);
      r.1.value in Search(r.0.index, matches) <==> matches(r.1.value)
  {
  }

  // ---------------------------------------------------------------------
  // delete

  /**
   * Deleting a stored id removes it from both stores: findOne then yields
   * absent, the primary store and findAll shrink by one, and every other id's
   * record is untouched in both stores.
   */
  lemma DeleteRemoves(s: Stores, id: Id)
    requires Valid(s) && id in s.primary
    ensures var r := DeleteStep(s, id, NoFault);
      && r.1 == Done(())
      && id !in r.0.primary && id !in r.0.index
      && FindOne(r.0.primary, id) == None
      && (forall j :: j != id ==> FindOne(r.0.primary, j) == FindOne(s.primary, j))
      && (forall j :: j != id ==> FindOne(r.0.index, j) == FindOne(s.index, j))
      && |r.0.primary| == |s.primary| - 1
      && |FindAll(r.0.primary)| == |FindAll(s.primary)| - 1
  {
    var r := DeleteStep(s, id, NoFault);
    var primary := s.primary - {id};
    assert r.0.primary == primary && r.0.index == s.index - {id};
    assert |primary| == |s.primary| - 1 by {
      assert primary.Keys == s.primary.Keys - {id};
    }
    FindAllCount(s.primary);
    FindAllCount(primary);
  }

  /** Deleting an id the primary store lacks raises and changes nothing. */
  lemma DeleteAbsent(s: Stores, id: Id, fault: Fault)
    requires Valid(s) && id !in s.primary
    ensures DeleteStep(s, id, fault).0 == s
    ensures DeleteStep(s, id, fault).1.Failed?
  {
  }

  /**
   * A failing index delete raises after the primary delete. In this model,
   * which does not roll the primary delete back, the record is gone from the
   * primary store while the index is left as it was.
   */
  lemma DeleteIndexFault(s: Stores, id: Id)
    requires Valid(s) && id in s.primary
    ensures var r := DeleteStep(s, id, IndexFault);
      && r.1 == Failed(IndexWriteFailed)
      && r.0.primary == DeleteStep(s, id, NoFault).0.primary
      && r.0.index == s.index
  {
  }

  /** A delete that does not reach the index write keeps the index an exact mirror. */
  lemma DeleteKeepsSync(s: Stores, id: Id, fault: Fault)
    requires Valid(s) && InSync(s) && fault != IndexFault
    ensures InSync(DeleteStep(s, id, fault).0)
  {
  }

  /** Agreement on shared ids survives every delete, even one whose index write fails. */
  lemma DeleteKeepsAgreement(s: Stores, id: Id, fault: Fault)
    requires Valid(s) && AgreeOnShared(s)
    ensures AgreeOnShared(DeleteStep(s, id, fault).0)
  {
  }

  /** After a delete that does not fail, no search returns a record with the deleted id. */
  lemma DeleteThenSearch(s: Stores, id: Id, matches: Book -> bool)
    requires Valid(s) && id in s.primary
    ensures forall b :: b in Search(DeleteStep(s, id, NoFault).0.index, matches) ==> b.id != Some(id)
  {
  }
}
