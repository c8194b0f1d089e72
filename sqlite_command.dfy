/** The command store of sqlite_command.go. Only the create runs in a
 *  transaction; the update is a plain sequence of statements and helper calls
 *  that stops at the first failure and keeps what it already did. */
module CommandRepo {
  import opened Entities
  import opened Links
  import opened Schema
  import InArgs
  import OsLinks
  import CollectionRepo
  import CommandLinks

  /** The tables after a successful `CreateCommandSQLite` of `command`, which
   *  already carries its fresh id and time stamps. The insert leaves
   *  `deleted_at` unset and both counters at zero. */
  function CommandCreated(t: Tables, command: Command): Tables
  {
    t.(commands := t.commands[command.id := CommandRow(command.name, command.content, command.description, 0, 0,
                                                       command.createdAt, command.updatedAt, None)],
       lastCommandId := command.id,
       commandTags := t.commandTags + LinksFrom(command.id, command.tagIds),
       commandCollections := t.commandCollections + LinksFrom(command.id, command.collectionIds),
       commandOs := t.commandOs + LinksFrom(command.id, command.os))
  }

  /** A created command gets a fresh id and exactly its listed tags,
   *  collections and labels; other commands keep theirs; the state stays one
   *  the engine can hold when every listed tag and collection exists. */
  lemma {:induction false} CommandCreatedExact(t: Tables, command: Command, q: Id)
    requires WellFormed(t) && command.id == t.lastCommandId + 1
    ensures command.id !in t.commands
    ensures ChildrenOf(CommandCreated(t, command).commandTags, q)
            == if q == command.id then (set g | g in command.tagIds) else ChildrenOf(t.commandTags, q)
    ensures ChildrenOf(CommandCreated(t, command).commandCollections, q)
            == if q == command.id then (set c | c in command.collectionIds) else ChildrenOf(t.commandCollections, q)
    ensures ChildrenOf(CommandCreated(t, command).commandOs, q)
            == if q == command.id then (set o | o in command.os) else ChildrenOf(t.commandOs, q)
    ensures TagsExist(t, command.tagIds) && CollectionsExist(t, command.collectionIds) ==> WellFormed(CommandCreated(t, command))
  {
    var r := CommandCreated(t, command);
    forall g ensures g in ChildrenOf(r.commandTags, q) <==> if q == command.id then g in command.tagIds else (q, g) in t.commandTags {
      assert (q, g) in LinksFrom(command.id, command.tagIds) <==> q == command.id && g in command.tagIds;
    }
    forall c ensures c in ChildrenOf(r.commandCollections, q) <==> if q == command.id then c in command.collectionIds else (q, c) in t.commandCollections {
      assert (q, c) in LinksFrom(command.id, command.collectionIds) <==> q == command.id && c in command.collectionIds;
    }
    forall o ensures o in ChildrenOf(r.commandOs, q) <==> if q == command.id then o in command.os else (q, o) in t.commandOs {
      assert (q, o) in LinksFrom(command.id, command.os) <==> q == command.id && o in command.os;
    }
  }

  /** What `GetCommandSQLite` reads back for a created command: a live row
   *  with the caller's name, content and description, zero counters, and no
   *  associations, since the read does not fetch them. */
  lemma CreatedCommandReadBack(t: Tables, command: Command)
    requires WellFormed(t) && command.id == t.lastCommandId + 1
    ensures LiveCommand(CommandCreated(t, command), command.id)
    ensures CommandOfRow(command.id, CommandCreated(t, command).commands[command.id])
            == command.(copyCounts := 0, searchCount := 0, os := [], tagIds := [], collectionIds := [], deletedAt := None)
  {
  }

  /** The loop of `INSERT OR IGNORE INTO command_tags` inside the create's
   *  transaction, stopping at the first foreign-key failure. A deleted tag
   *  still has its row, so it is accepted. */
  method InsertTagLinksEach(db: Database, id: Id, tagIds: seq<Id>) returns (err: Outcome)
    requires db.Valid()
    modifies db
    ensures db.Valid() && db.clock == old(db.clock)
    ensures err == Pass <==> (tagIds == [] || id in old(db.tables).commands) && TagsExist(old(db.tables), tagIds)
    ensures err == Pass ==> db.tables == old(db.tables).(commandTags := old(db.tables).commandTags + LinksFrom(id, tagIds))
    ensures err != Pass ==> err == Fail(ForeignKeyViolation)
  {
    var base := db.tables;
    var i := 0;
    while i < |tagIds|
      invariant 0 <= i <= |tagIds|
      invariant db.Valid() && db.clock == old(db.clock)
      invariant TagsExist(base, tagIds[..i]) && (i > 0 ==> id in base.commands)
      invariant db.tables == base.(commandTags := base.commandTags + LinksFrom(id, tagIds[..i]))
    {
      LinksFromSnoc(id, tagIds[..i], tagIds[i]);
      assert tagIds[..i + 1] == tagIds[..i] + [tagIds[i]];
      match InsertCommandTag(db.tables, id, tagIds[i])
      case None =>
        assert tagIds[i] in tagIds;
        return Fail(ForeignKeyViolation);
      case Some(t) =>
        db.tables := t;
      i := i + 1;
    }
    assert tagIds[..i] == tagIds;
    err := Pass;
  }

  /** The loop of `INSERT OR IGNORE INTO command_collections` inside the
   *  create's transaction. */
  method InsertCollectionLinksEach(db: Database, id: Id, collectionIds: seq<Id>) returns (err: Outcome)
    requires db.Valid()
    modifies db
    ensures db.Valid() && db.clock == old(db.clock)
    ensures err == Pass <==> (collectionIds == [] || id in old(db.tables).commands) && CollectionsExist(old(db.tables), collectionIds)
    ensures err == Pass ==> db.tables == old(db.tables).(commandCollections := old(db.tables).commandCollections + LinksFrom(id, collectionIds))
    ensures err != Pass ==> err == Fail(ForeignKeyViolation)
  {
    var base := db.tables;
    var i := 0;
    while i < |collectionIds|
      invariant 0 <= i <= |collectionIds|
      invariant db.Valid() && db.clock == old(db.clock)
      invariant CollectionsExist(base, collectionIds[..i]) && (i > 0 ==> id in base.commands)
      invariant db.tables == base.(commandCollections := base.commandCollections + LinksFrom(id, collectionIds[..i]))
    {
      LinksFromSnoc(id, collectionIds[..i], collectionIds[i]);
      assert collectionIds[..i + 1] == collectionIds[..i] + [collectionIds[i]];
      match InsertCommandCollection(db.tables, id, collectionIds[i])
      case None =>
        assert collectionIds[i] in collectionIds;
        return Fail(ForeignKeyViolation);
      case Some(t) =>
        db.tables := t;
      i := i + 1;
    }
    assert collectionIds[..i] == collectionIds;
    err := Pass;
  }

  /** The loop of `INSERT OR IGNORE INTO command_os` over a command's labels:
   *  written out inside the create's transaction, and as calls of
   *  `AddOSToCommandSQLite` in the update, to the same effect. */
  method InsertCommandOsEach(db: Database, id: Id, os: seq<string>) returns (err: Outcome)
    requires db.Valid()
    modifies db
    ensures db.Valid() && db.clock == old(db.clock)
    ensures err == Pass <==> os == [] || id in old(db.tables).commands
    ensures err == Pass ==> db.tables == old(db.tables).(commandOs := old(db.tables).commandOs + LinksFrom(id, os))
    ensures err != Pass ==> err == Fail(ForeignKeyViolation) && db.tables == old(db.tables)
  {
    var base := db.tables;
    var i := 0;
    while i < |os|
      invariant 0 <= i <= |os|
      invariant db.Valid() && db.clock == old(db.clock)
      invariant i > 0 ==> id in base.commands
      invariant db.tables == base.(commandOs := base.commandOs + LinksFrom(id, os[..i]))
    {
      LinksFromSnoc(id, os[..i], os[i]);
      assert os[..i + 1] == os[..i] + [os[i]];
      var e := OsLinks.AddOsToCommand(db, id, os[i]);
      if e.Fail? {
        return e;
      }
      i := i + 1;
    }
    assert os[..i] == os;
    err := Pass;
  }

  /** `CreateCommandSQLite`. The caller's struct gets its stamps and zero
   *  counters before the name check; its id is the one the insert drew, also
   *  when the transaction was then rolled back. A tag or collection that does
   *  not exist fails the whole create. */
  method CreateCommand(db: Database, command: Command) returns (created: Command, err: Outcome)
    requires db.Valid()
    modifies db
    ensures db.Valid() && db.clock == old(db.clock) + 1
    ensures created == command.(id := created.id, createdAt := db.clock, updatedAt := db.clock, copyCounts := 0, searchCount := 0)
    ensures CommandNameTaken(old(db.tables), command.name) ==> err == Fail(Duplicate) && created.id == command.id
    ensures !CommandNameTaken(old(db.tables), command.name) ==> created.id == old(db.tables).lastCommandId + 1
    ensures err == Pass <==> && !CommandNameTaken(old(db.tables), command.name)
                             && TagsExist(old(db.tables), command.tagIds)
                             && CollectionsExist(old(db.tables), command.collectionIds)
    ensures err == Pass ==> db.tables == CommandCreated(old(db.tables), created)
    ensures err != Pass ==> db.tables == old(db.tables)
    ensures err != Pass && !CommandNameTaken(old(db.tables), command.name) ==> err == Fail(ForeignKeyViolation)
  {
    var now := db.Tick();
    created := command.(createdAt := now, updatedAt := now, copyCounts := 0, searchCount := 0);
    if CommandNameTaken(db.tables, command.name) {
      return created, Fail(Duplicate);
    }
    var snapshot := db.tables;
    // INSERT INTO commands ...; LastInsertId
    var id := db.tables.lastCommandId + 1;
    db.tables := db.tables.(commands := db.tables.commands[id := CommandRow(created.name, created.content, created.description, 0, 0, now, now, None)],
                            lastCommandId := id);
    created := created.(id := id);
    var e := InsertTagLinksEach(db, id, created.tagIds);
    if e.Fail? {
      // the deferred tx.Rollback()
      db.tables := snapshot;
      return created, e;
    }
    e := InsertCollectionLinksEach(db, id, created.collectionIds);
    if e.Fail? {
      db.tables := snapshot;
      return created, e;
    }
    e := InsertCommandOsEach(db, id, created.os);
    if e.Fail? {
      // the command row exists by now, so no label insert can fail
      assert false;
    }
    err := Pass;
  }

  /** `GetCommandSQLite`: id 0 is refused; a missing or deleted command is not
   *  found; otherwise the row alone, with no tags, collections or labels. */
  method GetCommand(db: Database, id: Id) returns (r: Result<Command>)
    ensures id == 0 ==> r == Failure(ZeroId)
    ensures id != 0 && !LiveCommand(db.tables, id) ==> r == Failure(NotFound)
    ensures id != 0 && LiveCommand(db.tables, id) ==> r == Success(CommandOfRow(id, db.tables.commands[id]))
    ensures r.Success? ==> r.value.id == id && r.value.deletedAt.None? && r.value.tagIds == r.value.collectionIds == []
  {
    if id == 0 {
      return Failure(ZeroId);
    }
    if !LiveCommand(db.tables, id) {
      return Failure(NotFound);
    }
    r := Success(CommandOfRow(id, db.tables.commands[id]));
  }

  /** `commands INNER JOIN <links> WHERE deleted_at IS NULL AND <target> IN
   *  (...)`, without `DISTINCT`: a live command is listed once for every one
   *  of its links whose target is among `ids`. Deleted targets still count. */
  method LinkedLiveCommands(t: Tables, links: set<(Id, Id)>, ids: seq<Id>) returns (commands: seq<Command>)
    ensures forall k :: 0 <= k < |commands| ==>
              LiveCommand(t, commands[k].id) && commands[k] == CommandOfRow(commands[k].id, t.commands[commands[k].id])
    ensures forall id :: LiveCommand(t, id) ==>
              multiset(commands)[CommandOfRow(id, t.commands[id])] == |LinkedAmong(links, id, OneOf(set x | x in ids))|
  {
    var filter := OneOf(set x | x in ids);
    commands := [];
    var rest := links;
    while rest != {}
      invariant rest <= links
      invariant forall k :: 0 <= k < |commands| ==>
                  LiveCommand(t, commands[k].id) && commands[k] == CommandOfRow(commands[k].id, t.commands[commands[k].id])
      invariant forall id :: LiveCommand(t, id) ==>
                  multiset(commands)[CommandOfRow(id, t.commands[id])] == |LinkedAmong(links - rest, id, filter)|
      decreases rest
    {
      var p :| p in rest;
      var done := links - rest;
      assert links - (rest - {p}) == done + {p};
      forall id | LiveCommand(t, id)
        ensures |LinkedAmong(done + {p}, id, filter)| == |LinkedAmong(done, id, filter)| + if p.0 == id && filter.Admits(p.1) then 1 else 0
      {
        LinkedAmongAdd(done, p, id, filter);
      }
      if LiveCommand(t, p.0) && filter.Admits(p.1) {
        commands := commands + [CommandOfRow(p.0, t.commands[p.0])];
      }
      rest := rest - {p};
    }
    assert links - rest == links;
  }

  /** `GetCommandsByTagIDs`: no ids, no commands; otherwise every live
   *  command once per tag of the list it carries, without its associations.
   *  The `IN` list is the text `SQL_Slice_To_In_Args` renders from the ids. */
  method GetCommandsByTagIds(db: Database, ids: seq<Id>) returns (commands: seq<Command>)
    ensures ids == [] ==> commands == []
    ensures forall k :: 0 <= k < |commands| ==>
              LiveCommand(db.tables, commands[k].id) && commands[k] == CommandOfRow(commands[k].id, db.tables.commands[commands[k].id])
    ensures forall id :: LiveCommand(db.tables, id) ==>
              multiset(commands)[CommandOfRow(id, db.tables.commands[id])]
              == |LinkedAmong(db.tables.commandTags, id, OneOf(set x | x in ids))|
  {
    if |ids| == 0 {
      return [];
    }
    var inList, e := InArgs.SliceToInArgs(InArgs.Uint64s(ids));
    // The list cannot fail to render, and the engine reads back from its
    // text exactly the ids, which is the set the join filters on.
    InArgs.RenderedParenthesised(InArgs.Uint64s(ids));
    InArgs.Uint64sRoundTrip(ids);
    assert e == Pass && InArgs.ParseAll(InArgs.SplitComma(inList[1..|inList| - 1])) == ids;
    commands := LinkedLiveCommands(db.tables, db.tables.commandTags, ids);
  }

  /** `GetCommandByCollectionIds`: the same join over `command_collections`. */
  method GetCommandsByCollectionIds(db: Database, ids: seq<Id>) returns (commands: seq<Command>)
    ensures ids == [] ==> commands == []
    ensures forall k :: 0 <= k < |commands| ==>
              LiveCommand(db.tables, commands[k].id) && commands[k] == CommandOfRow(commands[k].id, db.tables.commands[commands[k].id])
    ensures forall id :: LiveCommand(db.tables, id) ==>
              multiset(commands)[CommandOfRow(id, db.tables.commands[id])]
              == |LinkedAmong(db.tables.commandCollections, id, OneOf(set x | x in ids))|
  {
    if |ids| == 0 {
      return [];
    }
    var inList, e := InArgs.SliceToInArgs(InArgs.Uint64s(ids));
    // The list cannot fail to render, and the engine reads back from its
    // text exactly the ids, which is the set the join filters on.
    InArgs.RenderedParenthesised(InArgs.Uint64s(ids));
    InArgs.Uint64sRoundTrip(ids);
    assert e == Pass && InArgs.ParseAll(InArgs.SplitComma(inList[1..|inList| - 1])) == ids;
    commands := LinkedLiveCommands(db.tables, db.tables.commandCollections, ids);
  }

  /** A command that occurs twice in the list of tag ids' join is listed
   *  twice: the join has no `DISTINCT`. */
  lemma {:induction false} ListedPerLink(links: set<(Id, Id)>, id: Id, ids: seq<Id>, a: Id, b: Id)
    requires (id, a) in links && (id, b) in links && a in ids && b in ids && a != b
    ensures |LinkedAmong(links, id, OneOf(set x | x in ids))| >= 2
  {
    var r := LinkedAmong(links, id, OneOf(set x | x in ids));
    assert {a, b} <= r;
    assert |{a, b}| == 2;
    assert |r| == |{a, b}| + |r - {a, b}|;
  }

  /** The conditions of `GetCommandsSQLite` on the command itself. */
  predicate CommandMatches(t: Tables, id: Id, option: ListOption)
  {
    && LiveCommand(t, id)
    && (option.name == "" || Contains(t.commands[id].name, option.name))
    && (option.id == 0 || id == option.id)
  }

  /** `FROM commands c JOIN command_os cs` has no `ON`: the join pairs every
   *  command with every label row of every command, so the OS filter only
   *  decides whether any row at all survives. */
  predicate AnyOsRowPasses(t: Tables, option: ListOption)
  {
    exists p | p in t.commandOs :: CollectionRepo.OsFilter(option).Admits(p.1)
  }

  /** The ids of a list of commands, in order. */
  function IdsOf(commands: seq<Command>): (r: seq<Id>)
    ensures |r| == |commands|
    ensures forall k :: 0 <= k < |r| ==> r[k] == commands[k].id
  {
    if |commands| == 0 then [] else IdsOf(commands[..|commands| - 1]) + [commands[|commands| - 1].id]
  }

  /** `found` lists, once each, the matching live commands among the ids
   *  in `seen`, as the rows scan them. */
  ghost predicate MatchedAmong(t: Tables, option: ListOption, seen: set<Id>, found: seq<Command>)
  {
    && (forall k :: 0 <= k < |found| ==>
          CommandMatches(t, found[k].id, option) && found[k] == CommandOfRow(found[k].id, t.commands[found[k].id]))
    && (forall id :: id in IdsOf(found) <==> CommandMatches(t, id, option) && id in seen)
    && Distinct(IdsOf(found))
  }

  /** Scanning one more id keeps `MatchedAmong`. */
  lemma MatchedAmongStep(t: Tables, option: ListOption, seen: set<Id>, found: seq<Command>, id: Id)
    requires MatchedAmong(t, option, seen, found) && id !in seen
    ensures CommandMatches(t, id, option) ==>
              MatchedAmong(t, option, seen + {id}, found + [CommandOfRow(id, t.commands[id])])
    ensures !CommandMatches(t, id, option) ==> MatchedAmong(t, option, seen + {id}, found)
  {
    if CommandMatches(t, id, option) {
      var next := found + [CommandOfRow(id, t.commands[id])];
      assert IdsOf(next) == IdsOf(found) + [id];
      assert id !in IdsOf(found);
    }
  }

  /** The rows of `SELECT DISTINCT` over the cross join when some label row
   *  passes the OS filter: each matching live command once. */
  method MatchingCommands(t: Tables, option: ListOption) returns (found: seq<Command>)
    ensures forall k :: 0 <= k < |found| ==>
              CommandMatches(t, found[k].id, option) && found[k] == CommandOfRow(found[k].id, t.commands[found[k].id])
    ensures forall id :: id in IdsOf(found) <==> CommandMatches(t, id, option)
    ensures Distinct(IdsOf(found))
  {
    found := [];
    var rest := t.commands.Keys;
    ghost var seen: set<Id> := {};
    while rest != {}
      invariant seen + rest == t.commands.Keys && seen !! rest
      invariant MatchedAmong(t, option, seen, found)
      decreases rest
    {
      var id :| id in rest;
      MatchedAmongStep(t, option, seen, found, id);
      if CommandMatches(t, id, option) {
        found := found + [CommandOfRow(id, t.commands[id])];
      }
      seen := seen + {id};
      rest := rest - {id};
    }
    assert seen == t.commands.Keys;
  }

  /** `GetCommandsSQLite`: `SELECT DISTINCT` over the cross join, then
   *  `FillCommandRelations`. Every matching live command is listed once, with
   *  all its associations, when some label row of any command passes the OS
   *  filter, and none is listed otherwise; the order is unspecified. */
  method GetCommands(db: Database, option: ListOption) returns (commands: seq<Command>)
    ensures forall k :: 0 <= k < |commands| ==>
              && CommandMatches(db.tables, commands[k].id, option)
              && commands[k] == CommandOfRow(commands[k].id, db.tables.commands[commands[k].id]).(
                                  tagIds := commands[k].tagIds, collectionIds := commands[k].collectionIds, os := commands[k].os)
              && CommandLinks.Hydrated(db.tables, commands[k])
    ensures forall id :: id in IdsOf(commands) <==> CommandMatches(db.tables, id, option) && AnyOsRowPasses(db.tables, option)
    ensures Distinct(IdsOf(commands))
  {
    if option.os != [] {
      var inList, e := InArgs.SliceToInArgs(InArgs.Strings(option.os));
      // The list cannot fail to render; labels without a comma are read
      // back from its text exactly, the labels `AnyOsRowPasses` admits.
      InArgs.StringsReadBack(option.os);
      assert e == Pass;
    }
    var found: seq<Command> := [];
    if AnyOsRowPasses(db.tables, option) {
      found := MatchingCommands(db.tables, option);
    }
    var rows := new Command[|found|](k requires 0 <= k < |found| => found[k]);
    CommandLinks.FillCommandRelations(db, rows);
    commands := rows[..];
    FilledRows(db.tables, option, found, commands);
  }

  /** Filling in the associations of the listed rows keeps their ids, so the
   *  list still names each matching command once. */
  lemma FilledRows(t: Tables, option: ListOption, found: seq<Command>, commands: seq<Command>)
    requires |commands| == |found|
    requires forall k :: 0 <= k < |found| ==>
               CommandMatches(t, found[k].id, option) && found[k] == CommandOfRow(found[k].id, t.commands[found[k].id])
    requires forall k :: 0 <= k < |commands| ==>
               commands[k] == found[k].(tagIds := commands[k].tagIds, collectionIds := commands[k].collectionIds, os := commands[k].os)
    ensures IdsOf(commands) == IdsOf(found)
    ensures forall k :: 0 <= k < |commands| ==>
              && CommandMatches(t, commands[k].id, option)
              && commands[k] == CommandOfRow(commands[k].id, t.commands[commands[k].id]).(
                                  tagIds := commands[k].tagIds, collectionIds := commands[k].collectionIds, os := commands[k].os)
  {
    assert forall k :: 0 <= k < |commands| ==> IdsOf(commands)[k] == IdsOf(found)[k];
  }

  /** The statement `UPDATE commands SET ... WHERE id = ? AND deleted_at IS
   *  NULL`: a live row takes the new name, content, description and counters;
   *  a missing or deleted one is left alone. */
  function RowUpdated(t: Tables, command: Command, now: nat): Tables
  {
    t.(commands := if LiveCommand(t, command.id)
                   then t.commands[command.id := t.commands[command.id].(
                          name := command.name, content := command.content, description := command.description,
                          copyCount := command.copyCounts, searchCount := command.searchCount, updatedAt := now)]
                   else t.commands)
  }

  /** The two kinds of target `UpdateCommandSQLite` links through
   *  `AddTagToCommandSQLite` and `AddCollectionToCommandSQLite`. */
  datatype LinkKind = TagLink | CollectionLink

  /** Why adding the link from a non-zero command to `target` fails, if it
   *  does: a zero target id, a target that is not live, or a command without
   *  a row, checked in that order. */
  function LinkFault(t: Tables, kind: LinkKind, commandId: Id, target: Id): Option<Fault>
  {
    if target == 0 then Some(ZeroId)
    else if !(match kind case TagLink => LiveTag(t, target) case CollectionLink => LiveCollection(t, target)) then Some(NotFound)
    else if commandId !in t.commands then Some(ForeignKeyViolation)
    else None
  }

  /** How many targets, from the front of the list, are linked before the
   *  first that fails. */
  function Accepted(t: Tables, kind: LinkKind, commandId: Id, targets: seq<Id>): (n: nat)
    ensures n <= |targets|
    ensures forall j :: 0 <= j < n ==> LinkFault(t, kind, commandId, targets[j]).None?
    ensures n < |targets| ==> LinkFault(t, kind, commandId, targets[n]).Some?
  {
    if |targets| == 0 || LinkFault(t, kind, commandId, targets[0]).Some? then 0
    else 1 + Accepted(t, kind, commandId, targets[1..])
  }

  /** `Accepted` is the first refused position: every target before `i` is
   *  accepted and the one at `i`, if any, refused. */
  lemma {:induction false} AcceptedAt(t: Tables, kind: LinkKind, commandId: Id, targets: seq<Id>, i: nat)
    requires i <= |targets|
    requires forall j :: 0 <= j < i ==> LinkFault(t, kind, commandId, targets[j]).None?
    requires i < |targets| ==> LinkFault(t, kind, commandId, targets[i]).Some?
    ensures Accepted(t, kind, commandId, targets) == i
  {
    if i > 0 {
      assert LinkFault(t, kind, commandId, targets[0]).None?;
      assert forall j :: 0 <= j < i - 1 ==> targets[1..][j] == targets[j + 1];
      AcceptedAt(t, kind, commandId, targets[1..], i - 1);
    }
  }

  /** The loop of `AddTagToCommandSQLite` calls in the update: the tags before
   *  the first refused one are linked, and the refusal is returned. */
  method AddTagsEach(db: Database, commandId: Id, tagIds: seq<Id>) returns (err: Outcome)
    requires db.Valid() && commandId != 0
    modifies db
    ensures db.Valid() && db.clock == old(db.clock)
    ensures var n := Accepted(old(db.tables), TagLink, commandId, tagIds);
            && db.tables == old(db.tables).(commandTags := old(db.tables).commandTags + LinksFrom(commandId, tagIds[..n]))
            && err == if n == |tagIds| then Pass else Fail(LinkFault(old(db.tables), TagLink, commandId, tagIds[n]).value)
  {
    var base := db.tables;
    var i := 0;
    while i < |tagIds|
      invariant 0 <= i <= |tagIds|
      invariant db.Valid() && db.clock == old(db.clock)
      invariant forall j :: 0 <= j < i ==> LinkFault(base, TagLink, commandId, tagIds[j]).None?
      invariant db.tables == base.(commandTags := base.commandTags + LinksFrom(commandId, tagIds[..i]))
    {
      LinksFromSnoc(commandId, tagIds[..i], tagIds[i]);
      assert tagIds[..i + 1] == tagIds[..i] + [tagIds[i]];
      var e := CommandLinks.AddTagToCommand(db, commandId, tagIds[i]);
      if e.Fail? {
        AcceptedAt(base, TagLink, commandId, tagIds, i);
        return e;
      }
      i := i + 1;
    }
    AcceptedAt(base, TagLink, commandId, tagIds, i);
    assert tagIds[..i] == tagIds;
    err := Pass;
  }

  /** The loop of `AddCollectionToCommandSQLite` calls in the update. */
  method AddCollectionsEach(db: Database, commandId: Id, collectionIds: seq<Id>) returns (err: Outcome)
    requires db.Valid() && commandId != 0
    modifies db
    ensures db.Valid() && db.clock == old(db.clock)
    ensures var n := Accepted(old(db.tables), CollectionLink, commandId, collectionIds);
            && db.tables == old(db.tables).(commandCollections := old(db.tables).commandCollections + LinksFrom(commandId, collectionIds[..n]))
            && err == if n == |collectionIds| then Pass else Fail(LinkFault(old(db.tables), CollectionLink, commandId, collectionIds[n]).value)
  {
    var base := db.tables;
    var i := 0;
    while i < |collectionIds|
      invariant 0 <= i <= |collectionIds|
      invariant db.Valid() && db.clock == old(db.clock)
      invariant forall j :: 0 <= j < i ==> LinkFault(base, CollectionLink, commandId, collectionIds[j]).None?
      invariant db.tables == base.(commandCollections := base.commandCollections + LinksFrom(commandId, collectionIds[..i]))
    {
      LinksFromSnoc(commandId, collectionIds[..i], collectionIds[i]);
      assert collectionIds[..i + 1] == collectionIds[..i] + [collectionIds[i]];
      var e := CommandLinks.AddCollectionToCommand(db, commandId, collectionIds[i]);
      if e.Fail? {
        AcceptedAt(base, CollectionLink, commandId, collectionIds, i);
        return e;
      }
      i := i + 1;
    }
    AcceptedAt(base, CollectionLink, commandId, collectionIds, i);
    assert collectionIds[..i] == collectionIds;
    err := Pass;
  }

  /** Which targets are refused depends only on the tags, the collections
   *  and which commands have rows. */
  lemma {:induction false} AcceptedFrame(t: Tables, u: Tables, kind: LinkKind, commandId: Id, targets: seq<Id>)
    requires t.tags == u.tags && t.collections == u.collections && t.commands.Keys == u.commands.Keys
    ensures Accepted(t, kind, commandId, targets) == Accepted(u, kind, commandId, targets)
  {
    if |targets| > 0 {
      AcceptedFrame(t, u, kind, commandId, targets[1..]);
    }
  }

  /** `RemoveAllTagsFromCommandSQLite` and the loop of
   *  `AddTagToCommandSQLite`: the command's tags become the listed ones
   *  before the first refused tag. */
  method ReplaceTagLinks(db: Database, commandId: Id, tagIds: seq<Id>) returns (err: Outcome)
    requires db.Valid() && commandId != 0
    modifies db
    ensures db.Valid() && db.clock == old(db.clock)
    ensures var n := Accepted(old(db.tables), TagLink, commandId, tagIds);
            && db.tables == old(db.tables).(commandTags := ReplaceChildren(old(db.tables).commandTags, commandId, tagIds[..n]))
            && err == if n == |tagIds| then Pass else Fail(LinkFault(old(db.tables), TagLink, commandId, tagIds[n]).value)
  {
    var t := db.tables;
    var e := CommandLinks.RemoveAllTagsFromCommand(db, commandId);
    assert e == Pass;
    AcceptedFrame(t, db.tables, TagLink, commandId, tagIds);
    err := AddTagsEach(db, commandId, tagIds);
  }

  /** `RemoveAllCollectionsFromCommandSQLite` and the loop of
   *  `AddCollectionToCommandSQLite`. */
  method ReplaceCollectionLinks(db: Database, commandId: Id, collectionIds: seq<Id>) returns (err: Outcome)
    requires db.Valid() && commandId != 0
    modifies db
    ensures db.Valid() && db.clock == old(db.clock)
    ensures var n := Accepted(old(db.tables), CollectionLink, commandId, collectionIds);
            && db.tables == old(db.tables).(commandCollections := ReplaceChildren(old(db.tables).commandCollections, commandId, collectionIds[..n]))
            && err == if n == |collectionIds| then Pass else Fail(LinkFault(old(db.tables), CollectionLink, commandId, collectionIds[n]).value)
  {
    var t := db.tables;
    var e := CommandLinks.RemoveAllCollectionsFromCommand(db, commandId);
    assert e == Pass;
    AcceptedFrame(t, db.tables, CollectionLink, commandId, collectionIds);
    err := AddCollectionsEach(db, commandId, collectionIds);
  }

  /** The link phases of `UpdateCommandSQLite` on tables `u`: the
   *  command's tags replaced by those listed before the first refused one;
   *  then, if none was refused, its collections likewise. */
  function LinkPhases(u: Tables, command: Command): (Tables, Outcome)
  {
    var id := command.id;
    var n := Accepted(u, TagLink, id, command.tagIds);
    var withTags := u.(commandTags := ReplaceChildren(u.commandTags, id, command.tagIds[..n]));
    if n < |command.tagIds| then
      (withTags, Fail(LinkFault(u, TagLink, id, command.tagIds[n]).value))
    else
      var m := Accepted(u, CollectionLink, id, command.collectionIds);
      (withTags.(commandCollections := ReplaceChildren(u.commandCollections, id, command.collectionIds[..m])),
       if m < |command.collectionIds| then Fail(LinkFault(u, CollectionLink, id, command.collectionIds[m]).value) else Pass)
  }

  /** The tables after the row update and the label replacement. */
  function WithOsReplaced(t: Tables, command: Command, now: nat): Tables
  {
    RowUpdated(t, command, now).(commandOs := ReplaceChildren(t.commandOs, command.id, command.os))
  }

  /** The tables and the error after `UpdateCommandSQLite` of a command with
   *  a non-zero id: the row update, the labels replaced, then the tags, then
   *  the collections, each phase stopping at its first failure and keeping
   *  the phases before it. */
  function CommandUpdated(t: Tables, command: Command, now: nat): (Tables, Outcome)
  {
    if command.os != [] && command.id !in t.commands then
      // the first label insert fails; the row update and the delete matched nothing
      (t, Fail(ForeignKeyViolation))
    else
      LinkPhases(WithOsReplaced(t, command, now), command)
  }

  /** The row update and the label replacement leave the link phases as
   *  they would be on the original tables: they read only the tags, the
   *  collections and which commands exist. */
  lemma WithOsFrame(t: Tables, command: Command, now: nat)
    ensures var u := WithOsReplaced(t, command, now);
            && Accepted(u, TagLink, command.id, command.tagIds) == Accepted(t, TagLink, command.id, command.tagIds)
            && Accepted(u, CollectionLink, command.id, command.collectionIds)
               == Accepted(t, CollectionLink, command.id, command.collectionIds)
            && u.commandTags == t.commandTags && u.commandCollections == t.commandCollections
            && u.commands.Keys == t.commands.Keys && u.tags == t.tags && u.collections == t.collections
  {
    var u := WithOsReplaced(t, command, now);
    AcceptedFrame(t, u, TagLink, command.id, command.tagIds);
    AcceptedFrame(t, u, CollectionLink, command.id, command.collectionIds);
  }

  /** `UpdateCommandSQLite`: a nil command and id 0 are refused before
   *  anything happens; otherwise no transaction guards the statements, so a
   *  refused tag or collection leaves the earlier changes in place. Neither a
   *  missing nor a deleted row is reported. */
  method UpdateCommand(db: Database, command: Option<Command>) returns (updated: Option<Command>, err: Outcome)
    requires db.Valid()
    modifies db
    ensures db.Valid()
    ensures command.None? ==> err == Fail(NilArgument) && updated == command && unchanged(db)
    ensures command.Some? && command.value.id == 0 ==> err == Fail(ZeroId) && updated == command && unchanged(db)
    ensures command.Some? && command.value.id != 0 ==>
              && db.clock == old(db.clock) + 1
              && updated == Some(command.value.(updatedAt := db.clock))
              && (db.tables, err) == CommandUpdated(old(db.tables), command.value, db.clock)
  {
    if command.None? {
      return command, Fail(NilArgument);
    }
    var c := command.value;
    if c.id == 0 {
      return command, Fail(ZeroId);
    }
    var now := db.Tick();
    updated := Some(c.(updatedAt := now));
    err := UpdateRowAndOs(db, c, now);
    if err.Fail? {
      return;
    }
    err := ReplaceCommandLinks(db, c);
  }

  /** The first statements of `UpdateCommandSQLite`: the row update, then
   *  `RemoveAllOSFromCommandSQLite` and one `AddOSToCommandSQLite` per label.
   *  Only a label insert for a command without a row fails, and by then the
   *  other two statements have matched nothing. */
  method UpdateRowAndOs(db: Database, c: Command, now: nat) returns (err: Outcome)
    requires db.Valid() && c.id != 0
    modifies db
    ensures db.Valid() && db.clock == old(db.clock)
    ensures c.os != [] && c.id !in old(db.tables).commands ==>
              err == Fail(ForeignKeyViolation) && db.tables == old(db.tables)
    ensures !(c.os != [] && c.id !in old(db.tables).commands) ==>
              && err == Pass
              && db.tables == WithOsReplaced(old(db.tables), c, now)
  {
    var t := db.tables;
    if LiveCommand(db.tables, c.id) {
      db.tables := RowUpdated(db.tables, c, now);
    }
    assert db.tables == RowUpdated(t, c, now);
    OsLinks.RemoveAllOsFromCommand(db, c.id);
    if c.id !in t.commands {
      assert WithoutParent(t.commandOs, c.id) == t.commandOs;
    }
    err := InsertCommandOsEach(db, c.id, c.os);
  }

  /** The rest of `UpdateCommandSQLite`: the command's tags replaced, then,
   *  if every tag was accepted, its collections, each phase stopping at its
   *  first refusal. */
  method ReplaceCommandLinks(db: Database, c: Command) returns (err: Outcome)
    requires db.Valid() && c.id != 0
    modifies db
    ensures db.Valid() && db.clock == old(db.clock)
    ensures (db.tables, err) == LinkPhases(old(db.tables), c)
  {
    var t := db.tables;
    err := ReplaceTagLinks(db, c.id, c.tagIds);
    if err.Fail? {
      return;
    }
    AcceptedFrame(t, db.tables, CollectionLink, c.id, c.collectionIds);
    err := ReplaceCollectionLinks(db, c.id, c.collectionIds);
  }

  /** An update succeeds exactly when every listed tag and collection is
   *  live and non-zero and, unless there is nothing to link, the command has
   *  a row; a deleted command still has one. */
  lemma UpdatePassIff(t: Tables, command: Command, now: nat)
    ensures CommandUpdated(t, command, now).1 == Pass <==>
              && (command.id in t.commands || (command.os == [] && command.tagIds == [] && command.collectionIds == []))
              && (forall g :: g in command.tagIds ==> g != 0 && LiveTag(t, g))
              && (forall c :: c in command.collectionIds ==> c != 0 && LiveCollection(t, c))
  {
    WithOsFrame(t, command, now);
    var tags, collections := command.tagIds, command.collectionIds;
    var n := Accepted(t, TagLink, command.id, tags);
    var m := Accepted(t, CollectionLink, command.id, collections);
    if n == |tags| {
      forall g | g in tags ensures LinkFault(t, TagLink, command.id, g).None? {
        var j :| 0 <= j < |tags| && tags[j] == g;
      }
    }
    if m == |collections| {
      forall c | c in collections ensures LinkFault(t, CollectionLink, command.id, c).None? {
        var j :| 0 <= j < |collections| && collections[j] == c;
      }
    }
    if n < |tags| {
      assert tags[n] in tags;
    }
    if m < |collections| {
      assert collections[m] in collections;
    }
  }

  /** After a successful update the command has exactly the listed labels,
   *  tags and collections, every other command keeps its own, and the state
   *  stays one the engine can hold. */
  lemma {:induction false} UpdateExact(t: Tables, command: Command, now: nat, q: Id)
    requires WellFormed(t) && command.id != 0
    requires CommandUpdated(t, command, now).1 == Pass
    ensures var r := CommandUpdated(t, command, now).0;
            && ChildrenOf(r.commandOs, q) == (if q == command.id then (set o | o in command.os) else ChildrenOf(t.commandOs, q))
            && ChildrenOf(r.commandTags, q) == (if q == command.id then (set g | g in command.tagIds) else ChildrenOf(t.commandTags, q))
            && ChildrenOf(r.commandCollections, q)
               == (if q == command.id then (set c | c in command.collectionIds) else ChildrenOf(t.commandCollections, q))
            && (q in t.commands && q != command.id ==> r.commands[q] == t.commands[q])
            && WellFormed(r)
  {
    UpdatedShape(t, command, now);
    ReplaceChildrenExact(t.commandOs, command.id, command.os, q);
    ReplaceChildrenExact(t.commandTags, command.id, command.tagIds, q);
    ReplaceChildrenExact(t.commandCollections, command.id, command.collectionIds, q);
    UpdatedWellFormed(t, command, now);
  }

  /** A successful update has replaced the row, the labels, the tags and the
   *  collections of the command, each by the full list. */
  lemma {:induction false} UpdatedShape(t: Tables, command: Command, now: nat)
    requires WellFormed(t) && command.id != 0
    requires CommandUpdated(t, command, now).1 == Pass
    ensures command.os != [] ==> command.id in t.commands
    ensures CommandUpdated(t, command, now).0 == WithOsReplaced(t, command, now).(
              commandTags := ReplaceChildren(t.commandTags, command.id, command.tagIds),
              commandCollections := ReplaceChildren(t.commandCollections, command.id, command.collectionIds))
    ensures WithOsReplaced(t, command, now).commandOs == ReplaceChildren(t.commandOs, command.id, command.os)
    ensures forall g :: g in command.tagIds ==> g in t.tags
    ensures forall c :: c in command.collectionIds ==> c in t.collections
    ensures command.tagIds != [] || command.collectionIds != [] ==> command.id in t.commands
  {
    var tags, collections := command.tagIds, command.collectionIds;
    UpdatePassIff(t, command, now);
    WithOsFrame(t, command, now);
    assert tags[..|tags|] == tags && collections[..|collections|] == collections;
    assert Accepted(t, TagLink, command.id, tags) == |tags|;
    assert Accepted(t, CollectionLink, command.id, collections) == |collections|;
  }

  /** A successful update leaves tables the engine can hold. */
  lemma {:induction false} UpdatedWellFormed(t: Tables, command: Command, now: nat)
    requires WellFormed(t) && command.id != 0
    requires CommandUpdated(t, command, now).1 == Pass
    ensures WellFormed(CommandUpdated(t, command, now).0)
  {
    var tags, collections := command.tagIds, command.collectionIds;
    UpdatedShape(t, command, now);
    var r := CommandUpdated(t, command, now).0;
    forall p | p in r.commandTags ensures p.0 in r.commands && p.1 in r.tags {
      if p.0 == command.id {
        assert p.1 in tags;
      }
    }
    forall p | p in r.commandCollections ensures p.0 in r.commands && p.1 in r.collections {
      if p.0 == command.id {
        assert p.1 in collections;
      }
    }
  }

  /** The update is not atomic: when a tag is refused, the row and the labels
   *  have already been replaced, and the command has lost every tag from
   *  the refused one on. */
  lemma {:induction false} UpdateKeepsEarlierPhases(t: Tables, command: Command, now: nat, k: nat)
    requires command.os == [] || command.id in t.commands
    requires k < |command.tagIds| && LinkFault(t, TagLink, command.id, command.tagIds[k]).Some?
    ensures CommandUpdated(t, command, now).1 != Pass
    ensures ChildrenOf(CommandUpdated(t, command, now).0.commandOs, command.id) == set o | o in command.os
    ensures CommandUpdated(t, command, now).0.commands == RowUpdated(t, command, now).commands
    ensures ChildrenOf(CommandUpdated(t, command, now).0.commandTags, command.id) <= set g | g in command.tagIds[..k]
  {
    WithOsFrame(t, command, now);
    var n := Accepted(t, TagLink, command.id, command.tagIds);
    assert n <= k;
    ReplaceChildrenExact(t.commandOs, command.id, command.os, command.id);
    ReplaceChildrenExact(t.commandTags, command.id, command.tagIds[..n], command.id);
    assert command.tagIds[..n] == command.tagIds[..k][..n];
  }

  /** The soft delete of `DeleteCommandSQLite`. */
  function CommandDeleted(t: Tables, id: Id, now: nat): Tables
    requires id in t.commands
  {
    t.(commands := t.commands[id := t.commands[id].(deletedAt := Some(now), updatedAt := now)])
  }

  /** Deleting hides exactly the one command from every live-row query,
   *  keeps its row and links, and a second delete finds nothing. */
  lemma CommandDeletedExact(t: Tables, id: Id, now: nat, q: Id)
    requires WellFormed(t) && id in t.commands
    ensures !LiveCommand(CommandDeleted(t, id, now), id)
    ensures q != id ==> (LiveCommand(CommandDeleted(t, id, now), q) <==> LiveCommand(t, q))
    ensures CommandDeleted(t, id, now).commandTags == t.commandTags
    ensures CommandDeleted(t, id, now).commandCollections == t.commandCollections
    ensures CommandDeleted(t, id, now).commandOs == t.commandOs
    ensures WellFormed(CommandDeleted(t, id, now))
  {
  }

  /** `DeleteCommandSQLite`: id 0 is refused before the clock is read; a soft
   *  delete that reports not found when no live row matched. */
  method DeleteCommand(db: Database, id: Id) returns (err: Outcome)
    requires db.Valid()
    modifies db
    ensures db.Valid()
    ensures id == 0 ==> err == Fail(ZeroId) && unchanged(db)
    ensures id != 0 ==> db.clock == old(db.clock) + 1
    ensures id != 0 && !LiveCommand(old(db.tables), id) ==> err == Fail(NotFound) && db.tables == old(db.tables)
    ensures id != 0 && LiveCommand(old(db.tables), id) ==> err == Pass && db.tables == CommandDeleted(old(db.tables), id, db.clock)
  {
    if id == 0 {
      return Fail(ZeroId);
    }
    var now := db.Tick();
    if !LiveCommand(db.tables, id) {
      // rowsAffected == 0
      return Fail(NotFound);
    }
    db.tables := CommandDeleted(db.tables, id, now);
    err := Pass;
  }

  /** `GetAllCommandsIDAndNameSQLite`: the id and name of every live
   *  command, once each. */
  method GetAllCommandsIdNames(db: Database) returns (commands: seq<IdName>)
    ensures forall x :: x in commands <==> LiveCommand(db.tables, x.id) && x.name == db.tables.commands[x.id].name
    ensures Distinct(commands)
  {
    var t := db.tables;
    commands := [];
    var rest := t.commands.Keys;
    while rest != {}
      invariant rest <= t.commands.Keys
      invariant forall x :: x in commands <==> LiveCommand(t, x.id) && x.id !in rest && x.name == t.commands[x.id].name
      invariant Distinct(commands)
      decreases rest
    {
      var id :| id in rest;
      if LiveCommand(t, id) {
        var x := IdName(id, t.commands[id].name);
        assert x !in commands;
        commands := commands + [x];
      }
      rest := rest - {id};
    }
  }
}
