/** The collection store of sqlite_collection.go. Only the create runs in a
 *  transaction; update and delete are single statements or plain sequences
 *  of them. */
module CollectionRepo {
  import opened Entities
  import opened Links
  import opened Schema
  import OsLinks

  /** The tables after a successful `CreateCollectionSQLite` of `collection`,
   *  which already carries its fresh id and time stamps. The `INSERT` binds
   *  the struct's `DeletedAt` string, "" included, so `deleted_at` is never
   *  NULL in the new row. */
  function CollectionCreated(t: Tables, collection: Collection): Tables
  {
    t.(collections := t.collections[collection.id := CollectionRow(collection.name, collection.description, 0,
                                                                   collection.createdAt, collection.updatedAt, Some(Text(collection.deletedAt)))],
       lastCollectionId := collection.id,
       collectionOs := t.collectionOs + LinksFrom(collection.id, collection.os),
       commandCollections := t.commandCollections + LinksTo(collection.commandIds, collection.id))
  }

  /** A created collection gets a fresh id and exactly its listed labels and
   *  commands; other collections keep their links; the state stays one the
   *  engine can hold. No name is checked, so nothing stops two live
   *  collections from sharing one. */
  lemma {:induction false} CollectionCreatedExact(t: Tables, collection: Collection, q: Id)
    requires WellFormed(t) && collection.id == t.lastCollectionId + 1
    ensures collection.id !in t.collections
    ensures ChildrenOf(CollectionCreated(t, collection).collectionOs, q)
            == if q == collection.id then (set o | o in collection.os) else ChildrenOf(t.collectionOs, q)
    ensures OwnersOf(CollectionCreated(t, collection).commandCollections, q)
            == if q == collection.id then (set c | c in collection.commandIds) else OwnersOf(t.commandCollections, q)
    ensures CommandsExist(t, collection.commandIds) ==> WellFormed(CollectionCreated(t, collection))
  {
    var r := CollectionCreated(t, collection);
    forall o ensures o in ChildrenOf(r.collectionOs, q) <==> if q == collection.id then o in collection.os else (q, o) in t.collectionOs {
      assert (q, o) in LinksFrom(collection.id, collection.os) <==> q == collection.id && o in collection.os;
    }
    forall c ensures c in OwnersOf(r.commandCollections, q) <==> if q == collection.id then c in collection.commandIds else (c, q) in t.commandCollections {
      assert (c, q) in LinksTo(collection.commandIds, collection.id) <==> q == collection.id && c in collection.commandIds;
    }
  }

  /** Creating never looks at names: the new row may share the name of any
   *  existing collection, which keeps its row and stays live if it was. */
  lemma SameNameAllowed(t: Tables, collection: Collection, other: Id)
    requires WellFormed(t) && collection.id == t.lastCollectionId + 1
    requires other in t.collections && t.collections[other].name == collection.name
    ensures other != collection.id
    ensures LiveCollection(CollectionCreated(t, collection), other) == LiveCollection(t, other)
    ensures CollectionCreated(t, collection).collections[other].name == CollectionCreated(t, collection).collections[collection.id].name
  {
  }

  /** A created collection is never live: its `deleted_at` is the bound
   *  string, not NULL. So no live-row query lists it, `GetCollectionSQLite`
   *  and `DeleteCollectionSQLite` report it not found, and no command can be
   *  given it through `AddCollectionToCommandSQLite`; which other
   *  collections are live is unchanged. */
  lemma {:induction false} CreatedCollectionHidden(t: Tables, collection: Collection, q: Id, option: ListOption)
    requires WellFormed(t) && collection.id == t.lastCollectionId + 1
    ensures collection.id in CollectionCreated(t, collection).collections
    ensures !LiveCollection(CollectionCreated(t, collection), collection.id)
    ensures !CollectionMatches(CollectionCreated(t, collection), collection.id, option)
    ensures q != collection.id ==> (LiveCollection(CollectionCreated(t, collection), q) <==> LiveCollection(t, q))
  {
    assert CollectionCreated(t, collection).collections[collection.id].deletedAt == Some(Text(collection.deletedAt));
  }

  /** The loop of `INSERT OR IGNORE INTO collection_os` inside the create's
   *  transaction; it stops at the first failure. */
  method InsertCollectionOsEach(db: Database, id: Id, os: seq<string>) returns (err: Outcome)
    requires db.Valid()
    modifies db
    ensures db.Valid() && db.clock == old(db.clock)
    ensures err == Pass <==> os == [] || id in old(db.tables).collections
    ensures err == Pass ==> db.tables == old(db.tables).(collectionOs := old(db.tables).collectionOs + LinksFrom(id, os))
    ensures err != Pass ==> err == Fail(ForeignKeyViolation) && db.tables == old(db.tables)
  {
    var base := db.tables;
    var i := 0;
    while i < |os|
      invariant 0 <= i <= |os|
      invariant db.Valid() && db.clock == old(db.clock)
      invariant i > 0 ==> id in base.collections
      invariant db.tables == base.(collectionOs := base.collectionOs + LinksFrom(id, os[..i]))
    {
      LinksFromSnoc(id, os[..i], os[i]);
      assert os[..i + 1] == os[..i] + [os[i]];
      var e := OsLinks.AddOsToCollection(db, id, os[i]);
      if e.Fail? {
        return e;
      }
      i := i + 1;
    }
    assert os[..i] == os;
    err := Pass;
  }

  /** The loop of `INSERT OR IGNORE INTO command_collections` over a list of
   *  commands, stopping at the first foreign-key failure. */
  method InsertCommandCollectionEach(db: Database, ids: seq<Id>, collectionId: Id) returns (err: Outcome)
    requires db.Valid()
    modifies db
    ensures db.Valid() && db.clock == old(db.clock)
    ensures err == Pass <==> (ids == [] || collectionId in old(db.tables).collections) && CommandsExist(old(db.tables), ids)
    ensures err == Pass ==> db.tables == old(db.tables).(commandCollections := old(db.tables).commandCollections + LinksTo(ids, collectionId))
    ensures err != Pass ==> err == Fail(ForeignKeyViolation)
  {
    var base := db.tables;
    var k := 0;
    while k < |ids|
      invariant 0 <= k <= |ids|
      invariant db.Valid() && db.clock == old(db.clock)
      invariant CommandsExist(base, ids[..k]) && (k > 0 ==> collectionId in base.collections)
      invariant db.tables == base.(commandCollections := base.commandCollections + LinksTo(ids[..k], collectionId))
    {
      LinksToSnoc(ids[..k], collectionId, ids[k]);
      assert ids[..k + 1] == ids[..k] + [ids[k]];
      match InsertCommandCollection(db.tables, ids[k], collectionId)
      case None =>
        assert ids[k] in ids;
        return Fail(ForeignKeyViolation);
      case Some(t) =>
        db.tables := t;
      k := k + 1;
    }
    assert ids[..k] == ids;
    err := Pass;
  }

  /** `CreateCollectionSQLite`: stamps the struct, inserts the row and its
   *  links in one transaction, and rolls everything back when a command does
   *  not exist. The struct keeps the id the insert drew even then. */
  method CreateCollection(db: Database, collection: Collection) returns (created: Collection, err: Outcome)
    requires db.Valid()
    modifies db
    ensures db.Valid() && db.clock == old(db.clock) + 1
    ensures created == collection.(id := old(db.tables).lastCollectionId + 1, createdAt := db.clock, updatedAt := db.clock, searchCount := 0)
    ensures err == Pass <==> CommandsExist(old(db.tables), collection.commandIds)
    ensures err == Pass ==> db.tables == CollectionCreated(old(db.tables), created)
    ensures err != Pass ==> err == Fail(ForeignKeyViolation) && db.tables == old(db.tables)
  {
    var now := db.Tick();
    created := collection.(createdAt := now, updatedAt := now, searchCount := 0);
    var snapshot := db.tables;
    var id := db.tables.lastCollectionId + 1;
    db.tables := db.tables.(collections := db.tables.collections[id := CollectionRow(created.name, created.description, 0, now, now, Some(Text(created.deletedAt)))],
                            lastCollectionId := id);
    created := created.(id := id);
    var e := InsertCollectionOsEach(db, id, created.os);
    if e.Fail? {
      // the collection row exists by now, so no label insert can fail
      assert false;
    }
    e := InsertCommandCollectionEach(db, created.commandIds, id);
    if e.Fail? {
      // the deferred tx.Rollback()
      db.tables := snapshot;
      return created, e;
    }
    err := Pass;
  }

  /** `GetCollectionSQLite`: id 0 is refused; a missing or deleted collection
   *  is not found; otherwise the row with its OS labels. */
  method GetCollection(db: Database, id: Id) returns (r: Result<Collection>)
    ensures id == 0 ==> r == Failure(ZeroId)
    ensures id != 0 && !LiveCollection(db.tables, id) ==> r == Failure(NotFound)
    ensures id != 0 && LiveCollection(db.tables, id) ==>
              && r.Success?
              && r.value == CollectionOfRow(id, db.tables.collections[id]).(os := r.value.os)
              && (forall o :: o in r.value.os <==> (id, o) in db.tables.collectionOs)
              && Distinct(r.value.os)
  {
    if id == 0 {
      return Failure(ZeroId);
    }
    if !LiveCollection(db.tables, id) {
      return Failure(NotFound);
    }
    var collection := CollectionOfRow(id, db.tables.collections[id]);
    var osList := OsLinks.GetCollectionOss(db, id);
    r := Success(collection.(os := osList));
  }

  /** The conditions of `GetCollectionsSQLite` on the collection itself. */
  predicate CollectionMatches(t: Tables, id: Id, option: ListOption)
  {
    && LiveCollection(t, id)
    && (option.name == "" || Contains(t.collections[id].name, option.name))
    && (option.id == 0 || id == option.id)
  }

  /** The condition on the joined `collection_os` row. */
  function OsFilter(option: ListOption): Among<string>
  {
    if option.os == [] then Anything else OneOf(set o | o in option.os)
  }

  /** Every listed collection is the unhydrated row of a matching collection. */
  ghost predicate AllMatching(t: Tables, option: ListOption, collections: seq<Collection>)
  {
    forall k :: 0 <= k < |collections| ==>
      && collections[k].id in t.collections
      && collections[k] == CollectionOfRow(collections[k].id, t.collections[collections[k].id])
      && CollectionMatches(t, collections[k].id, option)
  }

  /** Appending the row of a matching collection keeps the list matching. */
  lemma AllMatchingSnoc(t: Tables, option: ListOption, collections: seq<Collection>, id: Id)
    requires AllMatching(t, option, collections)
    requires id in t.collections && CollectionMatches(t, id, option)
    ensures AllMatching(t, option, collections + [CollectionOfRow(id, t.collections[id])])
  {
  }

  /** Every matching collection occurs in `collections` once per row of
   *  `links` that joins it and passes the OS filter. */
  ghost predicate CountedAmong(t: Tables, option: ListOption, links: set<(Id, string)>, collections: seq<Collection>)
  {
    forall id :: id in t.collections && CollectionMatches(t, id, option) ==>
      multiset(collections)[CollectionOfRow(id, t.collections[id])]
      == |LinkedAmong(links, id, OsFilter(option))|
  }

  /** One more joined row keeps the count: the row's collection gains an
   *  occurrence exactly when it matches and the row passes the filter. */
  lemma {:induction false} CountedAmongStep(t: Tables, option: ListOption, done: set<(Id, string)>,
                                            p: (Id, string), collections: seq<Collection>)
    requires p !in done
    requires CountedAmong(t, option, done, collections)
    ensures CountedAmong(t, option, done + {p},
              if p.0 in t.collections && CollectionMatches(t, p.0, option) && OsFilter(option).Admits(p.1)
              then collections + [CollectionOfRow(p.0, t.collections[p.0])] else collections)
  {
    var filter := OsFilter(option);
    var next := if p.0 in t.collections && CollectionMatches(t, p.0, option) && filter.Admits(p.1)
                then collections + [CollectionOfRow(p.0, t.collections[p.0])] else collections;
    forall id | id in t.collections && CollectionMatches(t, id, option)
      ensures multiset(next)[CollectionOfRow(id, t.collections[id])] == |LinkedAmong(done + {p}, id, filter)|
    {
      LinkedAmongAdd(done, p, id, filter);
      if p.0 in t.collections && CollectionMatches(t, p.0, option) && filter.Admits(p.1) {
        assert multiset(next) == multiset(collections) + multiset{CollectionOfRow(p.0, t.collections[p.0])};
        assert CollectionOfRow(p.0, t.collections[p.0]) == CollectionOfRow(id, t.collections[id]) <==> p.0 == id;
      }
    }
  }

  /** `GetCollectionsSQLite`: `collections RIGHT JOIN collection_os` without
   *  `DISTINCT`, so a matching collection is listed once for every one of its
   *  label rows that passes the OS filter, and not at all without one. */
  method GetCollections(db: Database, option: ListOption) returns (collections: seq<Collection>)
    requires db.Valid()
    ensures forall k :: 0 <= k < |collections| ==>
              && collections[k].id in db.tables.collections
              && collections[k] == CollectionOfRow(collections[k].id, db.tables.collections[collections[k].id])
              && CollectionMatches(db.tables, collections[k].id, option)
    ensures forall id :: id in db.tables.collections && CollectionMatches(db.tables, id, option) ==>
              multiset(collections)[CollectionOfRow(id, db.tables.collections[id])]
              == |LinkedAmong(db.tables.collectionOs, id, OsFilter(option))|
  {
    var t := db.tables;
    var filter := OsFilter(option);
    collections := [];
    var rest := t.collectionOs;
    ghost var done: set<(Id, string)> := {};
    while rest != {}
      invariant done + rest == t.collectionOs && done !! rest
      invariant AllMatching(t, option, collections)
      invariant CountedAmong(t, option, done, collections)
      decreases rest
    {
      var p :| p in rest;
      CountedAmongStep(t, option, done, p, collections);
      if p.0 in t.collections && CollectionMatches(t, p.0, option) && filter.Admits(p.1) {
        AllMatchingSnoc(t, option, collections, p.0);
        collections := collections + [CollectionOfRow(p.0, t.collections[p.0])];
      }
      done := done + {p};
      rest := rest - {p};
    }
    assert done == t.collectionOs;
  }

  /** The tables after a successful `UpdateCollectionSQLite`: a live row gets
   *  the new name, description and search count, and the labels are
   *  replaced; the command links are left alone. */
  function CollectionUpdated(t: Tables, collection: Collection, now: nat): Tables
  {
    t.(collections := if LiveCollection(t, collection.id)
                      then t.collections[collection.id := t.collections[collection.id].(
                             name := collection.name, description := collection.description,
                             searchCount := collection.searchCount, updatedAt := now)]
                      else t.collections,
       collectionOs := ReplaceChildren(t.collectionOs, collection.id, collection.os))
  }

  /** After an update the collection has exactly the listed labels, other
   *  collections keep theirs, and no command link changes. */
  lemma CollectionUpdatedExact(t: Tables, collection: Collection, now: nat, q: Id)
    ensures ChildrenOf(CollectionUpdated(t, collection, now).collectionOs, q)
            == if q == collection.id then (set o | o in collection.os) else ChildrenOf(t.collectionOs, q)
    ensures CollectionUpdated(t, collection, now).commandCollections == t.commandCollections
    ensures q in t.collections && q != collection.id ==> CollectionUpdated(t, collection, now).collections[q] == t.collections[q]
  {
    ReplaceChildrenExact(t.collectionOs, collection.id, collection.os, q);
  }

  /** `UpdateCollectionSQLite`: no transaction and no check that the row
   *  exists. The statements run one after the other; the only one that can
   *  fail is a label insert for an id with no row, and by then the earlier
   *  statements have matched nothing, so a failure leaves the tables as they
   *  were. */
  method UpdateCollection(db: Database, collection: Collection) returns (updated: Collection, err: Outcome)
    requires db.Valid()
    modifies db
    ensures db.Valid() && db.clock == old(db.clock) + 1
    ensures updated == collection.(updatedAt := db.clock)
    ensures err == Pass <==> collection.os == [] || collection.id in old(db.tables).collections
    ensures err == Pass ==> db.tables == CollectionUpdated(old(db.tables), collection, db.clock)
    ensures err != Pass ==> err == Fail(ForeignKeyViolation) && db.tables == old(db.tables)
  {
    var now := db.Tick();
    updated := collection.(updatedAt := now);
    var id := collection.id;
    if LiveCollection(db.tables, id) {
      db.tables := db.tables.(collections := db.tables.collections[id := db.tables.collections[id].(
                                name := collection.name, description := collection.description,
                                searchCount := collection.searchCount, updatedAt := now)]);
    }
    var before := db.tables;
    OsLinks.RemoveAllOsFromCollection(db, id);
    if id !in before.collections {
      assert WithoutParent(before.collectionOs, id) == before.collectionOs;
    }
    // one `AddOSToCollectionSQLite` per label
    err := InsertCollectionOsEach(db, id, collection.os);
  }

  /** `DeleteCollectionSQLite`: no id guard; a soft delete that reports not
   *  found when no live row matched, which includes id 0. Links stay. */
  method DeleteCollection(db: Database, id: Id) returns (err: Outcome)
    requires db.Valid()
    modifies db
    ensures db.Valid() && db.clock == old(db.clock) + 1
    ensures err == Pass <==> LiveCollection(old(db.tables), id)
    ensures err == Pass ==> db.tables == old(db.tables).(collections := old(db.tables).collections[id :=
              old(db.tables).collections[id].(deletedAt := Some(Clock(db.clock)), updatedAt := db.clock)])
    ensures err != Pass ==> err == Fail(NotFound) && db.tables == old(db.tables)
  {
    var now := db.Tick();
    if !LiveCollection(db.tables, id) {
      // rowsAffected == 0
      return Fail(NotFound);
    }
    db.tables := db.tables.(collections := db.tables.collections[id := db.tables.collections[id].(deletedAt := Some(Clock(now)), updatedAt := now)]);
    err := Pass;
  }

  /** `GetCollectionIDAndNameSQLite`: the id and name of every live
   *  collection, once each. */
  method GetCollectionIdNames(db: Database) returns (collections: seq<IdName>)
    ensures forall x :: x in collections <==> LiveCollection(db.tables, x.id) && x.name == db.tables.collections[x.id].name
    ensures Distinct(collections)
  {
    var t := db.tables;
    collections := [];
    var rest := t.collections.Keys;
    while rest != {}
      invariant rest <= t.collections.Keys
      invariant forall x :: x in collections <==> LiveCollection(t, x.id) && x.id !in rest && x.name == t.collections[x.id].name
      invariant Distinct(collections)
      decreases rest
    {
      var id :| id in rest;
      if LiveCollection(t, id) {
        var x := IdName(id, t.collections[id].name);
        assert x !in collections;
        collections := collections + [x];
      }
      rest := rest - {id};
    }
  }
}
