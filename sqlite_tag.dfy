/** The tag store of sqlite_tag.go. Create, update and delete run in one
 *  transaction each: the model takes a snapshot of the tables when the
 *  transaction begins and restores it when a statement fails. */
module TagRepo {
  import opened Entities
  import opened Links
  import opened Schema
  import OsLinks

  /** The tables after a successful `CreateTagSQLite` of `tag`, which already
   *  carries its fresh id and its time stamps. The row keeps the caller's
   *  `deletedAt`, which the insert passes through. */
  function TagCreated(t: Tables, tag: Tag): Tables
  {
    t.(tags := t.tags[tag.id := TagRow(tag.name, tag.description, 0, tag.createdAt, tag.updatedAt, tag.deletedAt)],
       lastTagId := tag.id,
       tagOs := t.tagOs + LinksFrom(tag.id, tag.os),
       commandTags := t.commandTags + LinksTo(tag.commandIds, tag.id))
  }

  /** A created tag gets a fresh id, exactly its listed labels and commands,
   *  and leaves every other tag's links alone; the result is a state the
   *  engine can hold. */
  lemma {:induction false} TagCreatedExact(t: Tables, tag: Tag, q: Id)
    requires WellFormed(t) && tag.id == t.lastTagId + 1
    ensures tag.id !in t.tags
    ensures ChildrenOf(TagCreated(t, tag).tagOs, q) == if q == tag.id then (set o | o in tag.os) else ChildrenOf(t.tagOs, q)
    ensures OwnersOf(TagCreated(t, tag).commandTags, q) == if q == tag.id then (set c | c in tag.commandIds) else OwnersOf(t.commandTags, q)
    ensures CommandsExist(t, tag.commandIds) ==> WellFormed(TagCreated(t, tag))
  {
    var r := TagCreated(t, tag);
    forall o ensures o in ChildrenOf(r.tagOs, q) <==> if q == tag.id then o in tag.os else (q, o) in t.tagOs {
      assert (q, o) in LinksFrom(tag.id, tag.os) <==> q == tag.id && o in tag.os;
    }
    forall c ensures c in OwnersOf(r.commandTags, q) <==> if q == tag.id then c in tag.commandIds else (c, q) in t.commandTags {
      assert (c, q) in LinksTo(tag.commandIds, tag.id) <==> q == tag.id && c in tag.commandIds;
    }
  }

  /** The loop of `INSERT OR IGNORE INTO tag_os (tag_id, os)` over a list of
   *  labels. It stops at the first foreign-key failure and leaves what it
   *  inserted to the caller's rollback. */
  method InsertTagOsEach(db: Database, id: Id, os: seq<string>) returns (err: Outcome)
    requires db.Valid()
    modifies db
    ensures db.Valid() && db.clock == old(db.clock)
    ensures err == Pass <==> os == [] || id in old(db.tables).tags
    ensures err == Pass ==> db.tables == old(db.tables).(tagOs := old(db.tables).tagOs + LinksFrom(id, os))
    ensures err != Pass ==> err == Fail(ForeignKeyViolation)
  {
    var base := db.tables;
    var i := 0;
    while i < |os|
      invariant 0 <= i <= |os|
      invariant db.Valid() && db.clock == old(db.clock)
      invariant i > 0 ==> id in base.tags
      invariant db.tables == base.(tagOs := base.tagOs + LinksFrom(id, os[..i]))
    {
      LinksFromSnoc(id, os[..i], os[i]);
      assert os[..i + 1] == os[..i] + [os[i]];
      var e := OsLinks.AddOsToTag(db, id, os[i]);
      if e.Fail? {
        return e;
      }
      i := i + 1;
    }
    assert os[..i] == os;
    err := Pass;
  }

  /** The loop of `DELETE FROM tag_os WHERE tag_id = ? AND os = ?` over the
   *  old labels that are not kept. */
  method DeleteStaleTagOs(db: Database, id: Id, olds: seq<string>, keep: seq<string>)
    requires db.Valid()
    modifies db
    ensures db.Valid() && db.clock == old(db.clock)
    ensures db.tables == old(db.tables).(tagOs := old(db.tables).tagOs - StaleFrom(id, olds, keep))
  {
    var base := db.tables;
    var j := 0;
    while j < |olds|
      invariant 0 <= j <= |olds|
      invariant db.Valid() && db.clock == old(db.clock)
      invariant db.tables == base.(tagOs := base.tagOs - StaleFrom(id, olds[..j], keep))
    {
      StaleFromSnoc(id, olds, keep, j);
      if olds[j] !in keep {
        db.tables := db.tables.(tagOs := db.tables.tagOs - {(id, olds[j])});
      }
      j := j + 1;
    }
    assert olds[..j] == olds;
  }

  /** The loop of `INSERT OR IGNORE INTO command_tags (command_id, tag_id)`
   *  over a list of commands, stopping at the first foreign-key failure. */
  method InsertCommandTagEach(db: Database, ids: seq<Id>, tagId: Id) returns (err: Outcome)
    requires db.Valid()
    modifies db
    ensures db.Valid() && db.clock == old(db.clock)
    ensures err == Pass <==> (ids == [] || tagId in old(db.tables).tags) && CommandsExist(old(db.tables), ids)
    ensures err == Pass ==> db.tables == old(db.tables).(commandTags := old(db.tables).commandTags + LinksTo(ids, tagId))
    ensures err != Pass ==> err == Fail(ForeignKeyViolation)
  {
    var base := db.tables;
    var k := 0;
    while k < |ids|
      invariant 0 <= k <= |ids|
      invariant db.Valid() && db.clock == old(db.clock)
      invariant CommandsExist(base, ids[..k]) && (k > 0 ==> tagId in base.tags)
      invariant db.tables == base.(commandTags := base.commandTags + LinksTo(ids[..k], tagId))
    {
      LinksToSnoc(ids[..k], tagId, ids[k]);
      assert ids[..k + 1] == ids[..k] + [ids[k]];
      match InsertCommandTag(db.tables, ids[k], tagId)
      case None =>
        assert ids[k] in ids;
        return Fail(ForeignKeyViolation);
      case Some(t) =>
        db.tables := t;
      k := k + 1;
    }
    assert ids[..k] == ids;
    err := Pass;
  }

  /** The loop of `DELETE FROM command_tags WHERE tag_id = ? AND
   *  command_id = ?` over the old commands that are not kept. */
  method DeleteStaleCommandTags(db: Database, olds: seq<Id>, tagId: Id, keep: seq<Id>)
    requires db.Valid()
    modifies db
    ensures db.Valid() && db.clock == old(db.clock)
    ensures db.tables == old(db.tables).(commandTags := old(db.tables).commandTags - StaleTo(olds, tagId, keep))
  {
    var base := db.tables;
    var m := 0;
    while m < |olds|
      invariant 0 <= m <= |olds|
      invariant db.Valid() && db.clock == old(db.clock)
      invariant db.tables == base.(commandTags := base.commandTags - StaleTo(olds[..m], tagId, keep))
    {
      StaleToSnoc(olds, tagId, keep, m);
      if olds[m] !in keep {
        db.tables := db.tables.(commandTags := db.tables.commandTags - {(olds[m], tagId)});
      }
      m := m + 1;
    }
    assert olds[..m] == olds;
  }

  /** `CreateTagSQLite`. The caller's struct gets its stamps and zero search
   *  count before the name check, so even a refused tag comes back with them;
   *  its id is the one the insert drew, also when the transaction was then
   *  rolled back. */
  method CreateTag(db: Database, tag: Tag) returns (created: Tag, err: Outcome)
    requires db.Valid()
    modifies db
    ensures db.Valid() && db.clock == old(db.clock) + 1
    ensures created == tag.(id := created.id, createdAt := db.clock, updatedAt := db.clock, searchCount := 0)
    ensures TagNameTaken(old(db.tables), tag.name) ==> err == Fail(Duplicate) && created.id == tag.id
    ensures !TagNameTaken(old(db.tables), tag.name) ==> created.id == old(db.tables).lastTagId + 1
    ensures err == Pass <==> !TagNameTaken(old(db.tables), tag.name) && CommandsExist(old(db.tables), tag.commandIds)
    ensures err == Pass ==> db.tables == TagCreated(old(db.tables), created)
    ensures err != Pass ==> db.tables == old(db.tables)
    ensures err != Pass && !TagNameTaken(old(db.tables), tag.name) ==> err == Fail(ForeignKeyViolation)
  {
    var now := db.Tick();
    created := tag.(createdAt := now, updatedAt := now, searchCount := 0);
    if TagNameTaken(db.tables, tag.name) {
      return created, Fail(Duplicate);
    }
    var snapshot := db.tables;
    // INSERT INTO tags ...; LastInsertId
    var id := db.tables.lastTagId + 1;
    db.tables := db.tables.(tags := db.tables.tags[id := TagRow(created.name, created.description, 0, now, now, created.deletedAt)],
                            lastTagId := id);
    created := created.(id := id);
    var e := InsertTagOsEach(db, id, created.os);
    if e.Fail? {
      // the tag row exists by now, so no label insert can fail
      assert false;
    }
    e := InsertCommandTagEach(db, created.commandIds, id);
    if e.Fail? {
      // tx.Rollback()
      db.tables := snapshot;
      return created, e;
    }
    err := Pass;
  }

  /** `SELECT command_id, name FROM command_tags LEFT JOIN commands ...`: the
   *  commands linked to the tag with their names, deleted commands included. */
  ghost predicate CommandIdNamesOf(t: Tables, tagId: Id, names: seq<IdName>)
  {
    && (forall x :: x in names <==> (x.id, tagId) in t.commandTags && x.id in t.commands && x.name == t.commands[x.id].name)
    && Distinct(names)
  }

  /** `GetCommandIDsByTagIDSQLite`: the join has no `deleted_at` filter. */
  method GetCommandIdNamesByTagId(db: Database, tagId: Id) returns (names: seq<IdName>)
    requires db.Valid()
    ensures CommandIdNamesOf(db.tables, tagId, names)
  {
    var t := db.tables;
    names := [];
    var rest := t.commandTags;
    while rest != {}
      invariant rest <= t.commandTags
      invariant forall x :: x in names <==>
                  (x.id, tagId) in t.commandTags && (x.id, tagId) !in rest && x.id in t.commands && x.name == t.commands[x.id].name
      invariant Distinct(names)
      decreases rest
    {
      var p :| p in rest;
      if p.1 == tagId {
        var x := IdName(p.0, t.commands[p.0].name);
        assert x !in names;
        names := names + [x];
      }
      rest := rest - {p};
    }
  }

  /** `GetTagSQLite`: id 0 is refused; a missing or deleted tag is not found;
   *  otherwise the row with its OS labels. */
  method GetTag(db: Database, id: Id) returns (r: Result<Tag>)
    ensures id == 0 ==> r == Failure(ZeroId)
    ensures id != 0 && !LiveTag(db.tables, id) ==> r == Failure(NotFound)
    ensures id != 0 && LiveTag(db.tables, id) ==>
              && r.Success?
              && r.value == TagOfRow(id, db.tables.tags[id]).(os := r.value.os)
              && (forall o :: o in r.value.os <==> (id, o) in db.tables.tagOs)
              && Distinct(r.value.os)
  {
    if id == 0 {
      return Failure(ZeroId);
    }
    if !LiveTag(db.tables, id) {
      return Failure(NotFound);
    }
    var tag := TagOfRow(id, db.tables.tags[id]);
    var osList := OsLinks.GetTagOss(db, id);
    r := Success(tag.(os := osList));
  }

  /** The `WHERE` of `GetTagsSQLite`: live, the name contains the fragment,
   *  the id matches, and some label of the tag is among the requested ones
   *  (the `RIGHT JOIN tag_os` with `tos.os IN (...)`). Every `tag_os` row has
   *  its tag, so the right join adds no row without one. */
  predicate TagMatches(t: Tables, id: Id, option: ListOption)
  {
    && LiveTag(t, id)
    && (option.name == "" || Contains(t.tags[id].name, option.name))
    && (option.id == 0 || id == option.id)
    && (option.os == [] || exists o :: o in option.os && (id, o) in t.tagOs)
  }

  /** One element of the listing: the row's columns, no OS labels, and the
   *  linked commands. */
  ghost predicate ListedTag(t: Tables, x: Tag)
  {
    && x.id in t.tags
    && x == TagOfRow(x.id, t.tags[x.id]).(commandIdNames := x.commandIdNames)
    && CommandIdNamesOf(t, x.id, x.commandIdNames)
  }

  /** A finite non-empty set of tags has one created no earlier than the rest. */
  lemma {:induction false} LatestExists(tags: map<Id, TagRow>, s: set<Id>)
    requires s != {} && s <= tags.Keys
    ensures exists m :: m in s && forall j :: j in s ==> tags[j].createdAt <= tags[m].createdAt
  {
    var x :| x in s;
    if s != {x} {
      LatestExists(tags, s - {x});
      var m :| m in s - {x} && forall j :: j in s - {x} ==> tags[j].createdAt <= tags[m].createdAt;
      if tags[x].createdAt <= tags[m].createdAt {
        assert forall j :: j in s ==> tags[j].createdAt <= tags[m].createdAt;
      } else {
        assert forall j :: j in s ==> tags[j].createdAt <= tags[x].createdAt;
      }
    } else {
      assert forall j :: j in s ==> tags[j].createdAt <= tags[x].createdAt;
    }
  }

  /** `GetTagsSQLite`: every matching tag exactly once (`DISTINCT`), newest
   *  first (`ORDER BY created_at DESC`, ties in any order). The engine's sort
   *  is modelled by taking a latest remaining row each turn. The Go function
   *  asks for each tag's commands while its own rows still hold the single
   *  pooled connection, so it waits on the first matching row; the model
   *  returns the list that call is written to build. */
  method GetTags(db: Database, option: ListOption) returns (tags: seq<Tag>)
    requires db.Valid()
    ensures forall k :: 0 <= k < |tags| ==> ListedTag(db.tables, tags[k]) && TagMatches(db.tables, tags[k].id, option)
    ensures forall id :: id in db.tables.tags && TagMatches(db.tables, id, option) ==>
              exists k :: 0 <= k < |tags| && tags[k].id == id
    ensures forall k, l :: 0 <= k < l < |tags| ==> tags[k].id != tags[l].id && tags[k].createdAt >= tags[l].createdAt
  {
    var t := db.tables;
    var candidates := set id | id in t.tags && TagMatches(t, id, option);
    var order := LatestFirst(t.tags, candidates);
    tags := [];
    var i := 0;
    while i < |order|
      invariant 0 <= i <= |order| && |tags| == i
      invariant forall k :: 0 <= k < i ==> tags[k].id == order[k] && ListedTag(t, tags[k])
      invariant forall k :: 0 <= k < i ==> TagMatches(t, tags[k].id, option)
    {
      assert order[i] in candidates;
      var names := GetCommandIdNamesByTagId(db, order[i]);
      tags := tags + [TagOfRow(order[i], t.tags[order[i]]).(commandIdNames := names)];
      i := i + 1;
    }
    forall id | id in t.tags && TagMatches(t, id, option) ensures exists k :: 0 <= k < |tags| && tags[k].id == id {
      assert id in candidates;
      var k :| 0 <= k < |order| && order[k] == id;
      assert tags[k].id == id;
    }
  }

  /** `ORDER BY created_at DESC` over a set of tag ids: each id once, latest
   *  first, ties in any order. */
  method LatestFirst(tags: map<Id, TagRow>, ids: set<Id>) returns (order: seq<Id>)
    requires ids <= tags.Keys
    ensures forall id :: id in order <==> id in ids
    ensures forall k, l :: 0 <= k < l < |order| ==> order[k] != order[l] && tags[order[k]].createdAt >= tags[order[l]].createdAt
  {
    order := [];
    var rest := ids;
    while rest != {}
      invariant rest <= ids
      invariant forall id :: id in order <==> id in ids && id !in rest
      invariant forall k, l :: 0 <= k < l < |order| ==> order[k] != order[l] && tags[order[k]].createdAt >= tags[order[l]].createdAt
      invariant forall k, j :: 0 <= k < |order| && j in rest ==> tags[order[k]].createdAt >= tags[j].createdAt
      decreases rest
    {
      LatestExists(tags, rest);
      var id :| id in rest && forall j :: j in rest ==> tags[j].createdAt <= tags[id].createdAt;
      order := order + [id];
      rest := rest - {id};
    }
  }

  /** Whether the link inserts of an update all pass their foreign keys: any
   *  link row names the tag, so the tag must exist (deleted or not) unless
   *  there are none, and every listed command must exist. */
  predicate UpdateTagAdmissible(t: Tables, tag: Tag)
  {
    && ((tag.os != [] || tag.commandIds != []) ==> tag.id in t.tags)
    && CommandsExist(t, tag.commandIds)
  }

  /** The tables after a successful `UpdateTagSQLite`: the row changes only
   *  while it is live, the links are replaced in any case. */
  function TagUpdated(t: Tables, tag: Tag, now: nat): Tables
  {
    t.(tags := if LiveTag(t, tag.id)
               then t.tags[tag.id := t.tags[tag.id].(name := tag.name, description := tag.description, updatedAt := now)]
               else t.tags,
       tagOs := ReplaceChildren(t.tagOs, tag.id, tag.os),
       commandTags := ReplaceOwners(t.commandTags, tag.id, tag.commandIds))
  }

  /** After an update the tag has exactly the listed labels and commands;
   *  other tags keep their rows and links, and no search count changes. */
  lemma TagUpdatedExact(t: Tables, tag: Tag, now: nat, q: Id)
    ensures ChildrenOf(TagUpdated(t, tag, now).tagOs, q) == if q == tag.id then (set o | o in tag.os) else ChildrenOf(t.tagOs, q)
    ensures OwnersOf(TagUpdated(t, tag, now).commandTags, q) == if q == tag.id then (set c | c in tag.commandIds) else OwnersOf(t.commandTags, q)
    ensures TagUpdated(t, tag, now).tags.Keys == t.tags.Keys
    ensures q in t.tags ==> TagUpdated(t, tag, now).tags[q].searchCount == t.tags[q].searchCount
    ensures q in t.tags && q != tag.id ==> TagUpdated(t, tag, now).tags[q] == t.tags[q]
  {
    ReplaceChildrenExact(t.tagOs, tag.id, tag.os, q);
    ReplaceOwnersExact(t.commandTags, tag.id, tag.commandIds, q);
  }

  /** `UpdateTagSQLite`: reads the old links, updates the row if it is live
   *  (rows affected are not checked), inserts the new links and deletes the
   *  old ones not listed, all in one transaction. The caller's struct gets
   *  its new `UpdatedAt` whatever happens. */
  method UpdateTag(db: Database, tag: Tag) returns (updated: Tag, err: Outcome)
    requires db.Valid()
    modifies db
    ensures db.Valid() && db.clock == old(db.clock) + 1
    ensures updated == tag.(updatedAt := db.clock)
    ensures err == Pass <==> UpdateTagAdmissible(old(db.tables), tag)
    ensures err == Pass ==> db.tables == TagUpdated(old(db.tables), tag, db.clock)
    ensures err != Pass ==> err == Fail(ForeignKeyViolation) && db.tables == old(db.tables)
  {
    var snapshot := db.tables;
    var now := db.Tick();
    updated := tag.(updatedAt := now);
    var id := tag.id;
    var osList := OsLinks.GetTagOss(db, id);
    var commandIdList := CollectOwners(db.tables.commandTags, id);
    if LiveTag(db.tables, id) {
      db.tables := db.tables.(tags := db.tables.tags[id := db.tables.tags[id].(name := tag.name, description := tag.description, updatedAt := now)]);
    }
    var base := db.tables;
    var e := InsertTagOsEach(db, id, tag.os);
    if e.Fail? {
      db.tables := snapshot;
      return updated, e;
    }
    DeleteStaleTagOs(db, id, osList, tag.os);
    ReconcileChildren(base.tagOs, id, osList, tag.os);
    var withOs := db.tables;
    e := InsertCommandTagEach(db, tag.commandIds, id);
    if e.Fail? {
      db.tables := snapshot;
      return updated, e;
    }
    DeleteStaleCommandTags(db, commandIdList, id, tag.commandIds);
    ReconcileOwners(withOs.commandTags, id, commandIdList, tag.commandIds);
    err := Pass;
  }

  /** The tables after `DeleteTagSQLite` of a non-zero id: a live row is
   *  marked deleted, and all of the tag's links go, whether or not the row
   *  was live or even existed. */
  function TagDeleted(t: Tables, id: Id, now: nat): Tables
  {
    t.(tags := if LiveTag(t, id) then t.tags[id := t.tags[id].(deletedAt := Some(now), updatedAt := now)] else t.tags,
       tagOs := WithoutParent(t.tagOs, id),
       commandTags := WithoutTarget(t.commandTags, id))
  }

  /** `DeleteTagSQLite`: id 0 is refused; every other id succeeds. */
  method DeleteTag(db: Database, id: Id) returns (err: Outcome)
    requires db.Valid()
    modifies db
    ensures db.Valid()
    ensures id == 0 ==> err == Fail(ZeroId) && db.tables == old(db.tables) && db.clock == old(db.clock)
    ensures id != 0 ==> err == Pass && db.clock == old(db.clock) + 1 && db.tables == TagDeleted(old(db.tables), id, db.clock)
  {
    if id == 0 {
      return Fail(ZeroId);
    }
    var now := db.Tick();
    if LiveTag(db.tables, id) {
      db.tables := db.tables.(tags := db.tables.tags[id := db.tables.tags[id].(deletedAt := Some(now), updatedAt := now)]);
    }
    OsLinks.RemoveAllOsFromTag(db, id);
    db.tables := db.tables.(commandTags := WithoutTarget(db.tables.commandTags, id));
    err := Pass;
  }

  /** A deleted tag is no longer live and has no links; every other tag is
   *  untouched; deleting again changes nothing but the clock. */
  lemma TagDeletedExact(t: Tables, id: Id, now: nat, q: Id)
    ensures !LiveTag(TagDeleted(t, id, now), id)
    ensures ChildrenOf(TagDeleted(t, id, now).tagOs, id) == {} && OwnersOf(TagDeleted(t, id, now).commandTags, id) == {}
    ensures q != id ==> ChildrenOf(TagDeleted(t, id, now).tagOs, q) == ChildrenOf(t.tagOs, q)
    ensures q != id ==> OwnersOf(TagDeleted(t, id, now).commandTags, q) == OwnersOf(t.commandTags, q)
    ensures q != id && q in t.tags ==> TagDeleted(t, id, now).tags[q] == t.tags[q]
    ensures TagDeleted(TagDeleted(t, id, now), id, now + 1) == TagDeleted(t, id, now)
  {
    WithoutParentExact(t.tagOs, id, id);
    WithoutParentExact(t.tagOs, id, q);
    var d := TagDeleted(t, id, now);
    assert WithoutParent(d.tagOs, id) == d.tagOs;
    assert WithoutTarget(d.commandTags, id) == d.commandTags;
  }

  /** `GetTagIDAndNameSQLite`: the id and name of every live tag, once each. */
  method GetTagIdNames(db: Database) returns (tags: seq<IdName>)
    ensures forall x :: x in tags <==> LiveTag(db.tables, x.id) && x.name == db.tables.tags[x.id].name
    ensures Distinct(tags)
  {
    var t := db.tables;
    tags := [];
    var rest := t.tags.Keys;
    while rest != {}
      invariant rest <= t.tags.Keys
      invariant forall x :: x in tags <==> LiveTag(t, x.id) && x.id !in rest && x.name == t.tags[x.id].name
      invariant Distinct(tags)
      decreases rest
    {
      var id :| id in rest;
      if LiveTag(t, id) {
        var x := IdName(id, t.tags[id].name);
        assert x !in tags;
        tags := tags + [x];
      }
      rest := rest - {id};
    }
  }
}
