/** The database of sqlite.go (`createTables`): three entity tables with soft
 *  delete and five link tables, held as one value so that a transaction's
 *  snapshot is a copy and a rollback an assignment.
 *
 *  Engine semantics the model relies on:
 *  - the connection enables foreign keys (`_foreign_keys=1`), so a link row
 *    must name existing rows; soft-deleted rows still exist and satisfy them;
 *    `INSERT OR IGNORE` skips only a duplicate key, never a foreign-key
 *    violation;
 *  - rows are never hard-deleted, so `ON DELETE CASCADE` never fires;
 *  - `AUTOINCREMENT` hands out one more than the largest id it ever gave, and
 *    its counter is rolled back with the transaction that used it.
 *
 *  Several statements of the program also read or write a legacy `os` column
 *  of `commands` and `collections` that `createTables` does not create (the
 *  migration queries assume an older schema that has it). On the schema that
 *  `createTables` makes those statements would fail; the model assumes the
 *  column exists and ignores its value. */
module Schema {
  import opened Entities
  import opened Links

  /** A row of `tags`. `deletedAt` is `deleted_at`: None while the row is live. */
  datatype TagRow = TagRow(
    name: string, description: string, searchCount: int,
    createdAt: nat, updatedAt: nat, deletedAt: Option<nat>)

  /** A non-NULL value of `collections.deleted_at`: the time a soft delete
   *  wrote, or the text the create bound from the struct's string field. */
  datatype Stamp = Clock(time: nat) | Text(text: string)

  /** A row of `collections` (the same columns as `tags`). `deletedAt` is
   *  None only while `deleted_at` is NULL. */
  datatype CollectionRow = CollectionRow(
    name: string, description: string, searchCount: int,
    createdAt: nat, updatedAt: nat, deletedAt: Option<Stamp>)

  /** A row of `commands`. */
  datatype CommandRow = CommandRow(
    name: string, content: string, description: string,
    copyCount: int, searchCount: int,
    createdAt: nat, updatedAt: nat, deletedAt: Option<nat>)

  /** All tables. The three `last...Id` fields are SQLite's `sqlite_sequence`
   *  counters behind `AUTOINCREMENT`. Link pairs are (command, tag),
   *  (command, collection) and (owner, os label). */
  datatype Tables = Tables(
    tags: map<Id, TagRow>,
    collections: map<Id, CollectionRow>,
    commands: map<Id, CommandRow>,
    commandTags: set<(Id, Id)>,
    commandCollections: set<(Id, Id)>,
    tagOs: set<(Id, string)>,
    collectionOs: set<(Id, string)>,
    commandOs: set<(Id, string)>,
    lastTagId: Id,
    lastCollectionId: Id,
    lastCommandId: Id)

  /** The freshly created schema. */
  function EmptyTables(): (t: Tables)
    ensures WellFormed(t)
    ensures t.tags == map[] && t.collections == map[] && t.commands == map[]
    ensures t.commandTags == {} && t.commandCollections == {}
    ensures t.tagOs == {} && t.collectionOs == {} && t.commandOs == {}
    ensures t.lastTagId == 0 && t.lastCollectionId == 0 && t.lastCommandId == 0
  {
    Tables(map[], map[], map[], {}, {}, {}, {}, {}, 0, 0, 0)
  }

  /** What the engine guarantees of every committed state: ids are positive
   *  and below the counters, and the foreign keys hold. */
  ghost predicate WellFormed(t: Tables)
  {
    && (forall id :: id in t.tags ==> 1 <= id <= t.lastTagId)
    && (forall id :: id in t.collections ==> 1 <= id <= t.lastCollectionId)
    && (forall id :: id in t.commands ==> 1 <= id <= t.lastCommandId)
    && (forall p :: p in t.commandTags ==> p.0 in t.commands && p.1 in t.tags)
    && (forall p :: p in t.commandCollections ==> p.0 in t.commands && p.1 in t.collections)
    && (forall p :: p in t.tagOs ==> p.0 in t.tags)
    && (forall p :: p in t.collectionOs ==> p.0 in t.collections)
    && (forall p :: p in t.commandOs ==> p.0 in t.commands)
  }

  /** `WHERE id = ? AND deleted_at IS NULL` finds a row. */
  predicate LiveTag(t: Tables, id: Id)
  {
    id in t.tags && t.tags[id].deletedAt.None?
  }

  predicate LiveCollection(t: Tables, id: Id)
  {
    id in t.collections && t.collections[id].deletedAt.None?
  }

  predicate LiveCommand(t: Tables, id: Id)
  {
    id in t.commands && t.commands[id].deletedAt.None?
  }

  /** `SELECT EXISTS(SELECT 1 FROM tags WHERE name = ? AND deleted_at IS NULL)` */
  predicate TagNameTaken(t: Tables, name: string)
  {
    exists id | id in t.tags :: t.tags[id].name == name && t.tags[id].deletedAt.None?
  }

  /** `SELECT EXISTS(SELECT 1 FROM commands WHERE name = ? AND deleted_at IS NULL)` */
  predicate CommandNameTaken(t: Tables, name: string)
  {
    exists id | id in t.commands :: t.commands[id].name == name && t.commands[id].deletedAt.None?
  }

  /** Every listed command has a row, deleted or not: what a loop of link
   *  inserts naming these commands needs to pass its foreign keys. */
  predicate CommandsExist(t: Tables, ids: seq<Id>)
  {
    forall c :: c in ids ==> c in t.commands
  }

  /** Every listed tag has a row, deleted or not. */
  predicate TagsExist(t: Tables, ids: seq<Id>)
  {
    forall g :: g in ids ==> g in t.tags
  }

  /** Every listed collection has a row, deleted or not. */
  predicate CollectionsExist(t: Tables, ids: seq<Id>)
  {
    forall c :: c in ids ==> c in t.collections
  }

  // `INSERT OR IGNORE INTO <link table> VALUES (?, ?)`: None is the foreign-key
  // error; a pair already present is ignored.

  function InsertTagOs(t: Tables, tagId: Id, os: string): Option<Tables>
  {
    if tagId in t.tags then Some(t.(tagOs := t.tagOs + {(tagId, os)})) else None
  }

  function InsertCollectionOs(t: Tables, collectionId: Id, os: string): Option<Tables>
  {
    if collectionId in t.collections then Some(t.(collectionOs := t.collectionOs + {(collectionId, os)})) else None
  }

  function InsertCommandOs(t: Tables, commandId: Id, os: string): Option<Tables>
  {
    if commandId in t.commands then Some(t.(commandOs := t.commandOs + {(commandId, os)})) else None
  }

  function InsertCommandTag(t: Tables, commandId: Id, tagId: Id): Option<Tables>
  {
    if commandId in t.commands && tagId in t.tags
    then Some(t.(commandTags := t.commandTags + {(commandId, tagId)}))
    else None
  }

  function InsertCommandCollection(t: Tables, commandId: Id, collectionId: Id): Option<Tables>
  {
    if commandId in t.commands && collectionId in t.collections
    then Some(t.(commandCollections := t.commandCollections + {(commandId, collectionId)}))
    else None
  }

  /** Link inserts are idempotent: repeating a successful insert changes
   *  nothing, so a pair is stored at most once. They succeed exactly when the
   *  rows they name exist, deleted or not. */
  lemma InsertLinkIdempotent(t: Tables, c: Id, g: Id, os: string)
    ensures InsertCommandTag(t, c, g).Some? <==> c in t.commands && g in t.tags
    ensures InsertCommandTag(t, c, g).Some? ==>
              InsertCommandTag(InsertCommandTag(t, c, g).value, c, g) == InsertCommandTag(t, c, g)
    ensures InsertCommandCollection(t, c, g).Some? <==> c in t.commands && g in t.collections
    ensures InsertCommandCollection(t, c, g).Some? ==>
              InsertCommandCollection(InsertCommandCollection(t, c, g).value, c, g) == InsertCommandCollection(t, c, g)
    ensures InsertTagOs(t, g, os).Some? <==> g in t.tags
    ensures InsertCollectionOs(t, g, os).Some? <==> g in t.collections
    ensures InsertCommandOs(t, c, os).Some? <==> c in t.commands
    ensures InsertTagOs(t, g, os).Some? ==> InsertTagOs(InsertTagOs(t, g, os).value, g, os) == InsertTagOs(t, g, os)
    ensures InsertCollectionOs(t, g, os).Some? ==>
              InsertCollectionOs(InsertCollectionOs(t, g, os).value, g, os) == InsertCollectionOs(t, g, os)
    ensures InsertCommandOs(t, c, os).Some? ==>
              InsertCommandOs(InsertCommandOs(t, c, os).value, c, os) == InsertCommandOs(t, c, os)
  {
  }

  // Scanning a row into the Go struct: associations left empty.

  function TagOfRow(id: Id, r: TagRow): Tag
  {
    Tag(id, r.name, r.description, r.searchCount, [], [], r.createdAt, r.updatedAt, r.deletedAt, [])
  }

  /** The collection getters scan only rows whose `deleted_at IS NULL`, so
   *  the `sql.NullTime` they read is never valid and `DeletedAt` stays "". */
  function CollectionOfRow(id: Id, r: CollectionRow): Collection
  {
    Collection(id, r.name, r.description, r.searchCount, [], [], r.createdAt, r.updatedAt, "")
  }

  function CommandOfRow(id: Id, r: CommandRow): Command
  {
    Command(id, r.name, r.content, r.description, r.copyCount, r.searchCount, [], [], [],
            r.createdAt, r.updatedAt, r.deletedAt)
  }

  /** The process-wide database handle: the tables and the clock that stands in
   *  for `time.Now()`. The clock only moves forward and is not part of any
   *  transaction. */
  class Database {
    var tables: Tables
    var clock: nat

    ghost predicate Valid()
      reads this
    {
      WellFormed(tables)
    }

    constructor ()
      ensures Valid() && tables == EmptyTables() && clock == 0
    {
      tables := EmptyTables();
      clock := 0;
    }

    /** `time.Now()`: a clock value later than every earlier one. */
    method Tick() returns (now: nat)
      modifies this
      ensures now == clock == old(clock) + 1
      ensures tables == old(tables)
    {
      clock := clock + 1;
      now := clock;
    }
  }
}
