/** The OS link helpers of sqlite.go: one insert, one delete-all and one
 *  reader per owner table (`tag_os`, `collection_os`, `command_os`).
 *  Storage-engine errors are not modelled, so only an insert can fail, and
 *  only on its foreign key. */
module OsLinks {
  import opened Entities
  import opened Links
  import opened Schema

  /** `AddOSToTagSQLite`: `INSERT OR IGNORE INTO tag_os` (run inside the
   *  caller's transaction). */
  method AddOsToTag(db: Database, tagId: Id, os: string) returns (err: Outcome)
    requires db.Valid()
    modifies db
    ensures db.Valid() && db.clock == old(db.clock)
    ensures match InsertTagOs(old(db.tables), tagId, os)
            case Some(t) => err == Pass && db.tables == t
            case None => err == Fail(ForeignKeyViolation) && db.tables == old(db.tables)
  {
    match InsertTagOs(db.tables, tagId, os)
    case Some(t) =>
      db.tables := t;
      err := Pass;
    case None =>
      err := Fail(ForeignKeyViolation);
  }

  /** `AddOSToCollectionSQLite` */
  method AddOsToCollection(db: Database, collectionId: Id, os: string) returns (err: Outcome)
    requires db.Valid()
    modifies db
    ensures db.Valid() && db.clock == old(db.clock)
    ensures match InsertCollectionOs(old(db.tables), collectionId, os)
            case Some(t) => err == Pass && db.tables == t
            case None => err == Fail(ForeignKeyViolation) && db.tables == old(db.tables)
  {
    match InsertCollectionOs(db.tables, collectionId, os)
    case Some(t) =>
      db.tables := t;
      err := Pass;
    case None =>
      err := Fail(ForeignKeyViolation);
  }

  /** `AddOSToCommandSQLite` */
  method AddOsToCommand(db: Database, commandId: Id, os: string) returns (err: Outcome)
    requires db.Valid()
    modifies db
    ensures db.Valid() && db.clock == old(db.clock)
    ensures match InsertCommandOs(old(db.tables), commandId, os)
            case Some(t) => err == Pass && db.tables == t
            case None => err == Fail(ForeignKeyViolation) && db.tables == old(db.tables)
  {
    match InsertCommandOs(db.tables, commandId, os)
    case Some(t) =>
      db.tables := t;
      err := Pass;
    case None =>
      err := Fail(ForeignKeyViolation);
  }

  /** `RemoveAllOSFromTagSQLite`: `DELETE FROM tag_os WHERE tag_id = ?`. */
  method RemoveAllOsFromTag(db: Database, tagId: Id)
    requires db.Valid()
    modifies db
    ensures db.Valid() && db.clock == old(db.clock)
    ensures db.tables == old(db.tables).(tagOs := WithoutParent(old(db.tables).tagOs, tagId))
  {
    db.tables := db.tables.(tagOs := WithoutParent(db.tables.tagOs, tagId));
  }

  /** `RemoveAllOSFromCollectionSQLite` */
  method RemoveAllOsFromCollection(db: Database, collectionId: Id)
    requires db.Valid()
    modifies db
    ensures db.Valid() && db.clock == old(db.clock)
    ensures db.tables == old(db.tables).(collectionOs := WithoutParent(old(db.tables).collectionOs, collectionId))
  {
    db.tables := db.tables.(collectionOs := WithoutParent(db.tables.collectionOs, collectionId));
  }

  /** `RemoveAllOSFromCommandSQLite` */
  method RemoveAllOsFromCommand(db: Database, commandId: Id)
    requires db.Valid()
    modifies db
    ensures db.Valid() && db.clock == old(db.clock)
    ensures db.tables == old(db.tables).(commandOs := WithoutParent(old(db.tables).commandOs, commandId))
  {
    db.tables := db.tables.(commandOs := WithoutParent(db.tables.commandOs, commandId));
  }

  /** `GetTagOSsSQLite`: the tag's labels, each once, in row order. */
  method GetTagOss(db: Database, tagId: Id) returns (osList: seq<string>)
    ensures forall o :: o in osList <==> (tagId, o) in db.tables.tagOs
    ensures Distinct(osList)
  {
    osList := CollectChildren(db.tables.tagOs, tagId);
  }

  /** `GetCollectionOSsSQLite` */
  method GetCollectionOss(db: Database, collectionId: Id) returns (osList: seq<string>)
    ensures forall o :: o in osList <==> (collectionId, o) in db.tables.collectionOs
    ensures Distinct(osList)
  {
    osList := CollectChildren(db.tables.collectionOs, collectionId);
  }

  /** `GetCommandOSsSQLite` */
  method GetCommandOss(db: Database, commandId: Id) returns (osList: seq<string>)
    ensures forall o :: o in osList <==> (commandId, o) in db.tables.commandOs
    ensures Distinct(osList)
  {
    osList := CollectChildren(db.tables.commandOs, commandId);
  }

  /** Adding a label is idempotent and makes the reader report it; removing
   *  all labels of an owner leaves it none and every other owner its own. */
  lemma OsLinkRoundTrip(t: Tables, owner: Id, os: string, other: Id)
    requires owner in t.tags
    ensures InsertTagOs(t, owner, os).Some?
    ensures ChildrenOf(InsertTagOs(t, owner, os).value.tagOs, owner) == ChildrenOf(t.tagOs, owner) + {os}
    ensures ChildrenOf(WithoutParent(t.tagOs, owner), owner) == {}
    ensures other != owner ==> ChildrenOf(WithoutParent(t.tagOs, owner), other) == ChildrenOf(t.tagOs, other)
  {
    WithoutParentExact(t.tagOs, owner, owner);
    WithoutParentExact(t.tagOs, owner, other);
  }
}
