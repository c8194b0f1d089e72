/** The values the store exchanges with its callers: the `Tag`, `Command`,
 *  `Collection` and `Option` structs of the Go program, the error kinds the
 *  store reports, and the OS labels the front end uses. */
module Entities {

  /** A row id: SQLite's `INTEGER PRIMARY KEY AUTOINCREMENT`, read into a
   *  `uint64`. The engine never assigns 0, which is why 0 serves as "no id". */
  type Id = nat

  datatype Option<T> = None | Some(value: T)

  /** The kinds of error the store reports. Engine faults (prepare, scan,
   *  commit) are not modelled. */
  datatype Fault =
    | NilArgument          // a nil pointer was passed
    | ZeroId               // an id guard rejected 0
    | EmptyName            // the name guard of the façade
    | Duplicate            // a non-deleted row with the same name exists
    | NotFound             // no non-deleted row with that id, or zero rows affected
    | ForeignKeyViolation  // a link row names a row that does not exist
    | UnsupportedType      // the IN-list renderer got a slice type it does not know

  /** A Go `error` return: nil or an error of some kind. */
  datatype Outcome = Pass | Fail(fault: Fault)

  /** A Go `(value, error)` return. */
  datatype Result<T> = Success(value: T) | Failure(fault: Fault)

  /** An `(id, name)` pair: `CommandIDName`, and the light-weight listings. */
  datatype IdName = IdName(id: Id, name: string)

  /** The `Tag` struct. Timestamps are clock values. `commandIdNames` is the
   *  list the listing fills in (the Go code assigns it to a field the struct
   *  does not declare). */
  datatype Tag = Tag(
    id: Id, name: string, description: string, searchCount: int,
    os: seq<string>, commandIds: seq<Id>,
    createdAt: nat, updatedAt: nat, deletedAt: Option<nat>,
    commandIdNames: seq<IdName>)

  /** The `Command` struct. */
  datatype Command = Command(
    id: Id, name: string, content: string, description: string,
    copyCounts: int, searchCount: int,
    os: seq<string>, tagIds: seq<Id>, collectionIds: seq<Id>,
    createdAt: nat, updatedAt: nat, deletedAt: Option<nat>)

  /** The `Collection` struct. Unlike the other two, its `DeletedAt` is a
   *  plain string, "" when unset, never nil. */
  datatype Collection = Collection(
    id: Id, name: string, description: string, searchCount: int,
    os: seq<string>, commandIds: seq<Id>,
    createdAt: nat, updatedAt: nat, deletedAt: string)

  /** The listing filter (`Option` in app.go): a name fragment ("" for none),
   *  OS labels ([] for none) and an id (0 for none). Its `Type` and `Sort`
   *  fields are never read by the store, so they are not modelled. */
  datatype ListOption = ListOption(name: string, os: seq<string>, id: Id)

  /** The OS labels of the front end (app.go). */
  const Windows: string := "windows"
  const Mac: string := "mac"
  const Linux: string := "linux"

  /** No element occurs twice. */
  predicate Distinct<T(==)>(s: seq<T>)
  {
    forall i, j :: 0 <= i < j < |s| ==> s[i] != s[j]
  }

  /** `term` occurs in `s` as a contiguous piece. This stands in for the SQL
   *  filter `LIKE '%term%'`, leaving out that `%` and `_` are wildcards and
   *  that ASCII letters compare case-insensitively. */
  predicate Contains(s: string, term: string)
  {
    term <= s || (|s| > 0 && Contains(s[1..], term))
  }
}
