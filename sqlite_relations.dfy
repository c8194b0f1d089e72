/** The command links of sqlite.go: adding and removing a command's tags and
 *  collections, reading them back one command at a time or in batches, and
 *  filling them into command structs. Each function is one statement (or one
 *  query) outside any transaction. */
module CommandLinks {
  import opened Entities
  import opened Links
  import opened Schema
  import TagRepo
  import CollectionRepo

  /** `AddTagToCommandSQLite`: both ids must be non-zero and the tag live
   *  (checked through `GetTagSQLite`); the insert then needs the command to
   *  exist, deleted or not. */
  method AddTagToCommand(db: Database, commandId: Id, tagId: Id) returns (err: Outcome)
    requires db.Valid()
    modifies db
    ensures db.Valid() && db.clock == old(db.clock)
    ensures commandId == 0 || tagId == 0 ==> err == Fail(ZeroId)
    ensures commandId != 0 && tagId != 0 && !LiveTag(old(db.tables), tagId) ==> err == Fail(NotFound)
    ensures commandId != 0 && tagId != 0 && LiveTag(old(db.tables), tagId) && commandId !in old(db.tables).commands ==>
              err == Fail(ForeignKeyViolation)
    ensures err == Pass <==> commandId != 0 && tagId != 0 && LiveTag(old(db.tables), tagId) && commandId in old(db.tables).commands
    ensures err == Pass ==> db.tables == old(db.tables).(commandTags := old(db.tables).commandTags + {(commandId, tagId)})
    ensures err != Pass ==> db.tables == old(db.tables)
  {
    if commandId == 0 || tagId == 0 {
      return Fail(ZeroId);
    }
    var found := TagRepo.GetTag(db, tagId);
    if found.Failure? {
      return Fail(NotFound);
    }
    match InsertCommandTag(db.tables, commandId, tagId)
    case None =>
      err := Fail(ForeignKeyViolation);
    case Some(t) =>
      db.tables := t;
      err := Pass;
  }

  /** `RemoveTagFromCommandSQLite`: both ids must be non-zero; the one pair
   *  goes, if it was there. */
  method RemoveTagFromCommand(db: Database, commandId: Id, tagId: Id) returns (err: Outcome)
    requires db.Valid()
    modifies db
    ensures db.Valid() && db.clock == old(db.clock)
    ensures err == Pass <==> commandId != 0 && tagId != 0
    ensures err == Pass ==> db.tables == old(db.tables).(commandTags := old(db.tables).commandTags - {(commandId, tagId)})
    ensures err != Pass ==> err == Fail(ZeroId) && db.tables == old(db.tables)
  {
    if commandId == 0 || tagId == 0 {
      return Fail(ZeroId);
    }
    db.tables := db.tables.(commandTags := db.tables.commandTags - {(commandId, tagId)});
    err := Pass;
  }

  /** `RemoveAllTagsFromCommandSQLite` */
  method RemoveAllTagsFromCommand(db: Database, commandId: Id) returns (err: Outcome)
    requires db.Valid()
    modifies db
    ensures db.Valid() && db.clock == old(db.clock)
    ensures err == Pass <==> commandId != 0
    ensures err == Pass ==> db.tables == old(db.tables).(commandTags := WithoutParent(old(db.tables).commandTags, commandId))
    ensures err != Pass ==> err == Fail(ZeroId) && db.tables == old(db.tables)
  {
    if commandId == 0 {
      return Fail(ZeroId);
    }
    db.tables := db.tables.(commandTags := WithoutParent(db.tables.commandTags, commandId));
    err := Pass;
  }

  /** `AddCollectionToCommandSQLite`: as for tags, through
   *  `GetCollectionSQLite`. */
  method AddCollectionToCommand(db: Database, commandId: Id, collectionId: Id) returns (err: Outcome)
    requires db.Valid()
    modifies db
    ensures db.Valid() && db.clock == old(db.clock)
    ensures commandId == 0 || collectionId == 0 ==> err == Fail(ZeroId)
    ensures commandId != 0 && collectionId != 0 && !LiveCollection(old(db.tables), collectionId) ==> err == Fail(NotFound)
    ensures commandId != 0 && collectionId != 0 && LiveCollection(old(db.tables), collectionId) && commandId !in old(db.tables).commands ==>
              err == Fail(ForeignKeyViolation)
    ensures err == Pass <==> commandId != 0 && collectionId != 0 && LiveCollection(old(db.tables), collectionId)
                             && commandId in old(db.tables).commands
    ensures err == Pass ==> db.tables == old(db.tables).(commandCollections := old(db.tables).commandCollections + {(commandId, collectionId)})
    ensures err != Pass ==> db.tables == old(db.tables)
  {
    if commandId == 0 || collectionId == 0 {
      return Fail(ZeroId);
    }
    var found := CollectionRepo.GetCollection(db, collectionId);
    if found.Failure? {
      return Fail(NotFound);
    }
    match InsertCommandCollection(db.tables, commandId, collectionId)
    case None =>
      err := Fail(ForeignKeyViolation);
    case Some(t) =>
      db.tables := t;
      err := Pass;
  }

  /** `RemoveCollectionFromCommandSQLite` */
  method RemoveCollectionFromCommand(db: Database, commandId: Id, collectionId: Id) returns (err: Outcome)
    requires db.Valid()
    modifies db
    ensures db.Valid() && db.clock == old(db.clock)
    ensures err == Pass <==> commandId != 0 && collectionId != 0
    ensures err == Pass ==> db.tables == old(db.tables).(commandCollections := old(db.tables).commandCollections - {(commandId, collectionId)})
    ensures err != Pass ==> err == Fail(ZeroId) && db.tables == old(db.tables)
  {
    if commandId == 0 || collectionId == 0 {
      return Fail(ZeroId);
    }
    db.tables := db.tables.(commandCollections := db.tables.commandCollections - {(commandId, collectionId)});
    err := Pass;
  }

  /** `RemoveAllCollectionsFromCommandSQLite` */
  method RemoveAllCollectionsFromCommand(db: Database, commandId: Id) returns (err: Outcome)
    requires db.Valid()
    modifies db
    ensures db.Valid() && db.clock == old(db.clock)
    ensures err == Pass <==> commandId != 0
    ensures err == Pass ==> db.tables == old(db.tables).(commandCollections := WithoutParent(old(db.tables).commandCollections, commandId))
    ensures err != Pass ==> err == Fail(ZeroId) && db.tables == old(db.tables)
  {
    if commandId == 0 {
      return Fail(ZeroId);
    }
    db.tables := db.tables.(commandCollections := WithoutParent(db.tables.commandCollections, commandId));
    err := Pass;
  }

  /** Removing one pair removes exactly that pair; removing all of a command's
   *  links leaves the command none and every other command its own. */
  lemma RemovalExact(links: set<(Id, Id)>, commandId: Id, target: Id, q: Id)
    ensures ChildrenOf(links - {(commandId, target)}, q) == if q == commandId then ChildrenOf(links, q) - {target} else ChildrenOf(links, q)
    ensures ChildrenOf(WithoutParent(links, commandId), q) == if q == commandId then {} else ChildrenOf(links, q)
  {
    WithoutParentExact(links, commandId, q);
  }

  /** `GetCollectionIDsByCommandIDSQLite`: id 0 is refused; otherwise the
   *  command's collections, each once, deleted ones included. */
  method GetCollectionIdsByCommandId(db: Database, commandId: Id) returns (r: Result<seq<Id>>)
    ensures commandId == 0 <==> r == Failure(ZeroId)
    ensures commandId != 0 ==> r.Success?
    ensures r.Success? ==> (forall c :: c in r.value <==> (commandId, c) in db.tables.commandCollections) && Distinct(r.value)
  {
    if commandId == 0 {
      return Failure(ZeroId);
    }
    var ids := CollectChildren(db.tables.commandCollections, commandId);
    r := Success(ids);
  }

  /** `?` and `,` alternating, starting and ending with `?`: the placeholder
   *  list of an `IN (...)` with `n` parameters. */
  function Placeholders(n: nat): (r: string)
    ensures |r| == if n == 0 then 0 else 2 * n - 1
    ensures forall k :: 0 <= k < |r| ==> r[k] == if k % 2 == 0 then '?' else ','
  {
    if n == 0 then "" else if n == 1 then "?" else Placeholders(n - 1) + ",?"
  }

  function Occurrences(s: string, c: char): nat
  {
    if |s| == 0 then 0 else Occurrences(s[..|s| - 1], c) + if s[|s| - 1] == c then 1 else 0
  }

  /** The list holds exactly `n` placeholders and `n - 1` commas. */
  lemma {:induction false} PlaceholderCounts(n: nat)
    requires n > 0
    ensures Occurrences(Placeholders(n), '?') == n
    ensures Occurrences(Placeholders(n), ',') == n - 1
  {
    var p := Placeholders(n);
    if n == 1 {
      assert p[..0] == [];
    } else {
      PlaceholderCounts(n - 1);
      var q := Placeholders(n - 1) + ",";
      assert p[..|p| - 1] == q;
      assert q[..|q| - 1] == Placeholders(n - 1);
    }
  }

  /** The query text of the batch getters: the prefix, one `?` per id
   *  separated by commas, and `)`; the ids are the arguments, in order. */
  method BuildInQuery(prefix: string, ids: seq<Id>) returns (query: string, args: seq<Id>)
    ensures query == prefix + Placeholders(|ids|) + ")"
    ensures args == ids
    ensures |ids| > 0 ==> Occurrences(query[|prefix|..|query| - 1], '?') == |args|
  {
    query := prefix;
    args := [];
    var i := 0;
    while i < |ids|
      invariant 0 <= i <= |ids|
      invariant query == prefix + Placeholders(i) && args == ids[..i]
    {
      if i > 0 {
        query := query + ",";
      }
      query := query + "?";
      args := args + [ids[i]];
      i := i + 1;
    }
    assert ids[..i] == ids;
    query := query + ")";
    if |ids| > 0 {
      PlaceholderCounts(|ids|);
      assert query[|prefix|..|query| - 1] == Placeholders(|ids|);
    }
  }

  /** `GetTagIDsByCommandIDsSQLite`: for each listed command that has tags,
   *  its tags; no entry for the others, and none at all for no ids. */
  method GetTagIdsByCommandIds(db: Database, commandIds: seq<Id>) returns (result: map<Id, seq<Id>>)
    ensures commandIds == [] ==> result == map[]
    ensures forall c :: c in result ==> c in commandIds && result[c] != [] && Distinct(result[c])
    ensures forall c, v :: c in result && v in result[c] <==> c in commandIds && (c, v) in db.tables.commandTags
  {
    if |commandIds| == 0 {
      return map[];
    }
    var prefix := "SELECT command_id, tag_id FROM command_tags WHERE command_id IN (";
    var query, args := BuildInQuery(prefix, commandIds);
    // one placeholder for each argument the statement binds
    assert Occurrences(query[|prefix|..|query| - 1], '?') == |args|;
    result := CollectBatch(db.tables.commandTags, args);
  }

  /** `GetCollectionIDsByCommandIDsSQLite` */
  method GetCollectionIdsByCommandIds(db: Database, commandIds: seq<Id>) returns (result: map<Id, seq<Id>>)
    ensures commandIds == [] ==> result == map[]
    ensures forall c :: c in result ==> c in commandIds && result[c] != [] && Distinct(result[c])
    ensures forall c, v :: c in result && v in result[c] <==> c in commandIds && (c, v) in db.tables.commandCollections
  {
    if |commandIds| == 0 {
      return map[];
    }
    var prefix := "SELECT command_id, collection_id FROM command_collections WHERE command_id IN (";
    var query, args := BuildInQuery(prefix, commandIds);
    // one placeholder for each argument the statement binds
    assert Occurrences(query[|prefix|..|query| - 1], '?') == |args|;
    result := CollectBatch(db.tables.commandCollections, args);
  }

  /** `GetCommandOSsByCommandIDsSQLite` */
  method GetCommandOssByCommandIds(db: Database, commandIds: seq<Id>) returns (result: map<Id, seq<string>>)
    ensures commandIds == [] ==> result == map[]
    ensures forall c :: c in result ==> c in commandIds && result[c] != [] && Distinct(result[c])
    ensures forall c, v :: c in result && v in result[c] <==> c in commandIds && (c, v) in db.tables.commandOs
  {
    if |commandIds| == 0 {
      return map[];
    }
    var prefix := "SELECT command_id, os FROM command_os WHERE command_id IN (";
    var query, args := BuildInQuery(prefix, commandIds);
    // one placeholder for each argument the statement binds
    assert Occurrences(query[|prefix|..|query| - 1], '?') == |args|;
    result := CollectBatch(db.tables.commandOs, args);
  }

  /** `tagMap[cmd.ID]`: the entry, or nil when there is none. */
  function Lookup<V>(m: map<Id, seq<V>>, id: Id): seq<V>
  {
    if id in m then m[id] else []
  }

  /** What a batch getter returns for `ids` over one link table. */
  ghost predicate BatchOf<V(!new)>(links: set<(Id, V)>, ids: seq<Id>, m: map<Id, seq<V>>)
  {
    && (forall c :: c in m ==> c in ids && m[c] != [] && Distinct(m[c]))
    && (forall c, v :: c in m && v in m[c] <==> c in ids && (c, v) in links)
  }

  /** Looking a listed command up in a batch gives exactly its linked values,
   *  each once; a command without links gets the empty list. */
  lemma LookupExact<V(!new)>(links: set<(Id, V)>, ids: seq<Id>, m: map<Id, seq<V>>, id: Id)
    requires BatchOf(links, ids, m) && id in ids
    ensures forall v :: v in Lookup(m, id) <==> (id, v) in links
    ensures Distinct(Lookup(m, id))
  {
  }

  /** A command's associations as the tables hold them, each value once. */
  ghost predicate Hydrated(t: Tables, c: Command)
  {
    && (forall v :: v in c.tagIds <==> (c.id, v) in t.commandTags)
    && (forall v :: v in c.collectionIds <==> (c.id, v) in t.commandCollections)
    && (forall o :: o in c.os <==> (c.id, o) in t.commandOs)
    && Distinct(c.tagIds) && Distinct(c.collectionIds) && Distinct(c.os)
  }

  /** `after` is `before` with its three association lists filled in from
   *  the tables, and nothing else changed. */
  ghost predicate Filled(t: Tables, before: Command, after: Command)
  {
    && after == before.(tagIds := after.tagIds, collectionIds := after.collectionIds, os := after.os)
    && Hydrated(t, after)
  }

  /** `FillCommandRelations`: writes each command's tag ids, collection ids
   *  and labels through its pointer, from three batch queries, and changes
   *  nothing else. */
  method FillCommandRelations(db: Database, commands: array<Command>)
    modifies commands
    ensures forall i :: 0 <= i < commands.Length ==>
              && commands[i] == old(commands[i]).(tagIds := commands[i].tagIds, collectionIds := commands[i].collectionIds, os := commands[i].os)
              && Hydrated(db.tables, commands[i])
  {
    if commands.Length == 0 {
      return;
    }
    var commandIds := [];
    var i := 0;
    while i < commands.Length
      invariant 0 <= i <= commands.Length && |commandIds| == i
      invariant forall k :: 0 <= k < i ==> commandIds[k] == commands[k].id
    {
      commandIds := commandIds + [commands[i].id];
      i := i + 1;
    }
    var tagMap := GetTagIdsByCommandIds(db, commandIds);
    var collectionMap := GetCollectionIdsByCommandIds(db, commandIds);
    var osMap := GetCommandOssByCommandIds(db, commandIds);
    assert BatchOf(db.tables.commandTags, commandIds, tagMap);
    assert BatchOf(db.tables.commandCollections, commandIds, collectionMap);
    assert BatchOf(db.tables.commandOs, commandIds, osMap);
    var j := 0;
    while j < commands.Length
      invariant 0 <= j <= commands.Length
      invariant forall k :: 0 <= k < commands.Length ==> commands[k].id == old(commands[k]).id
      invariant forall k :: j <= k < commands.Length ==> commands[k] == old(commands[k])
      invariant forall k :: 0 <= k < j ==> Filled(db.tables, old(commands[k]), commands[k])
    {
      var c := commands[j];
      assert commandIds[j] == c.id;
      LookupExact(db.tables.commandTags, commandIds, tagMap, c.id);
      LookupExact(db.tables.commandCollections, commandIds, collectionMap, c.id);
      LookupExact(db.tables.commandOs, commandIds, osMap, c.id);
      var filled := c.(tagIds := Lookup(tagMap, c.id), collectionIds := Lookup(collectionMap, c.id), os := Lookup(osMap, c.id));
      assert Filled(db.tables, c, filled);
      commands[j] := filled;
      j := j + 1;
    }
    assert forall k :: 0 <= k < commands.Length ==> Filled(db.tables, old(commands[k]), commands[k]);
  }
}
