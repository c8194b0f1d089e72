/** The tag handlers of the front-end binding (app_tag.go). `CreateTag`
 *  guards the name and forwards to the store; `UpdateTag` works only on the
 *  application's in-memory list of tags and never reaches the database;
 *  `DeleteTag` does nothing. */
module AppTags {
  import opened Entities
  import opened Schema
  import TagRepo

  /** The position of the first live tag with the given id, or the length of
   *  the list when there is none. */
  function FirstLive(tags: seq<Tag>, id: Id): (k: nat)
    ensures k <= |tags|
    ensures forall j :: 0 <= j < k ==> !(tags[j].id == id && tags[j].deletedAt.None?)
    ensures k < |tags| ==> tags[k].id == id && tags[k].deletedAt.None?
  {
    if |tags| == 0 || (tags[0].id == id && tags[0].deletedAt.None?) then 0
    else 1 + FirstLive(tags[1..], id)
  }

  /** The list after `UpdateTag(tag)` at clock `now`: the first live entry with
   *  the tag's id takes its name, description and a new update time, or, when
   *  there is none, the tag itself is appended with that update time. */
  function Upserted(tags: seq<Tag>, tag: Tag, now: nat): seq<Tag>
  {
    var k := FirstLive(tags, tag.id);
    if k < |tags| then tags[k := tags[k].(name := tag.name, description := tag.description, updatedAt := now)]
    else tags + [tag.(updatedAt := now)]
  }

  /** An upsert either edits one entry in place, keeping the length, or grows
   *  the list by exactly one; every other entry stays as it was. */
  lemma UpsertedShape(tags: seq<Tag>, tag: Tag, now: nat)
    ensures var k := FirstLive(tags, tag.id);
            && |Upserted(tags, tag, now)| == (if k < |tags| then |tags| else |tags| + 1)
            && (forall j :: 0 <= j < |tags| && j != k ==> Upserted(tags, tag, now)[j] == tags[j])
            && (k < |tags| ==> Upserted(tags, tag, now)[k] == tags[k].(name := tag.name, description := tag.description, updatedAt := now))
            && (k == |tags| ==> Upserted(tags, tag, now)[k] == tag.(updatedAt := now))
  {
  }

  /** A live tag can be found after its upsert, with the name and description
   *  it was given, at the same place the search would have found it before,
   *  or at the end. */
  lemma {:induction false} UpsertedFinds(tags: seq<Tag>, tag: Tag, now: nat)
    requires tag.deletedAt.None?
    ensures var r := Upserted(tags, tag, now);
            && FirstLive(r, tag.id) == FirstLive(tags, tag.id)
            && FirstLive(r, tag.id) < |r|
            && r[FirstLive(r, tag.id)].name == tag.name
            && r[FirstLive(r, tag.id)].description == tag.description
            && r[FirstLive(r, tag.id)].updatedAt == now
  {
    var k := FirstLive(tags, tag.id);
    var r := Upserted(tags, tag, now);
    assert forall j :: 0 <= j < k ==> r[j] == tags[j];
    assert r[k].id == tag.id && r[k].deletedAt.None?;
    var m := FirstLive(r, tag.id);
    assert m == k;
  }

  /** Repeating an upsert of a live tag at the same clock changes nothing. */
  lemma UpsertedIdempotent(tags: seq<Tag>, tag: Tag, now: nat)
    requires tag.deletedAt.None?
    ensures Upserted(Upserted(tags, tag, now), tag, now) == Upserted(tags, tag, now)
  {
    UpsertedFinds(tags, tag, now);
    var k := FirstLive(tags, tag.id);
    var r := Upserted(tags, tag, now);
    assert r[k].name == tag.name && r[k].description == tag.description && r[k].updatedAt == now;
    assert r[k].(name := tag.name, description := tag.description, updatedAt := now) == r[k];
  }

  /** The application object, holding the in-memory tag list that
   *  `UpdateTag` edits. */
  class App {
    var tags: seq<Tag>

    constructor ()
      ensures tags == []
    {
      tags := [];
    }

    /** `App.CreateTag`: an empty name is refused before the store is
     *  touched; otherwise the result is exactly that of `CreateTagSQLite`. */
    method CreateTag(db: Database, tag: Tag) returns (created: Tag, err: Outcome)
      requires db.Valid()
      modifies db
      ensures db.Valid()
      ensures tag.name == "" ==> err == Fail(EmptyName) && created == tag && unchanged(db)
      ensures tag.name != "" ==>
                && db.clock == old(db.clock) + 1
                && created == tag.(id := created.id, createdAt := db.clock, updatedAt := db.clock, searchCount := 0)
                && (TagNameTaken(old(db.tables), tag.name) ==> err == Fail(Duplicate) && created.id == tag.id)
                && (!TagNameTaken(old(db.tables), tag.name) ==> created.id == old(db.tables).lastTagId + 1)
                && (err != Pass && !TagNameTaken(old(db.tables), tag.name) ==> err == Fail(ForeignKeyViolation))
                && (err == Pass <==> !TagNameTaken(old(db.tables), tag.name) && CommandsExist(old(db.tables), tag.commandIds))
                && (err == Pass ==> db.tables == TagRepo.TagCreated(old(db.tables), created))
                && (err != Pass ==> db.tables == old(db.tables))
    {
      if tag.name == "" {
        return tag, Fail(EmptyName);
      }
      created, err := TagRepo.CreateTag(db, tag);
    }

    /** `App.UpdateTag`: a loop to the first live entry with the tag's id,
     *  edited in place; without one the tag, stamped with `now`, is appended
     *  and the caller's struct carries the stamp too. It never fails and
     *  touches no database. */
    method UpdateTag(tag: Tag, now: nat) returns (updated: Tag, err: Outcome)
      modifies this
      ensures tags == Upserted(old(tags), tag, now)
      ensures updated == if FirstLive(old(tags), tag.id) < |old(tags)| then tag else tag.(updatedAt := now)
      ensures err == Pass
    {
      var i := 0;
      while i < |tags|
        invariant 0 <= i <= |tags| && tags == old(tags)
        invariant forall j :: 0 <= j < i ==> !(tags[j].id == tag.id && tags[j].deletedAt.None?)
      {
        if tags[i].id == tag.id && tags[i].deletedAt.None? {
          tags := tags[i := tags[i].(name := tag.name, description := tag.description, updatedAt := now)];
          return tag, Pass;
        }
        i := i + 1;
      }
      updated := tag.(updatedAt := now);
      tags := tags + [updated];
      err := Pass;
    }

    /** `App.DeleteTag`: does nothing and reports success. */
    method DeleteTag(id: Id) returns (err: Outcome)
      ensures err == Pass
    {
      err := Pass;
    }
  }
}
