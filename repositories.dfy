/** The two JPA repositories as objects holding their table; both controllers and the registration
    service share the same user repository. */
module Repositories {
  import opened Wrappers
  import opened Entities

  class UserRepository {
    var rows: map<int, User>
    var nextId: int

    ghost predicate Valid()
      reads this
    {
      WellFormed(Snapshot()) && UniqueUsernames(rows)
    }

    function Snapshot(): Table<User>
      reads this
    {
      Table(rows, nextId)
    }

    constructor ()
      ensures Valid() && rows == map[]
    {
      rows, nextId := map[], 1;
    }

    /** `findByUsername`. */
    method FindByUsername(name: string) returns (r: Option<int>)
      requires Valid()
      ensures r.Some? ==> r.value in rows && rows[r.value].username == name
      ensures r.None? <==> forall id :: id in rows ==> rows[id].username != name
      ensures r == UserIdOf(rows, name)
    {
      if exists id :: id in rows && rows[id].username == name {
        var id :| id in rows && rows[id].username == name;
        UserIdOfUnique(rows, id);
        r := Some(id);
      } else {
        r := None;
      }
    }

    /** `save` of a new user: the unique constraint rejects a name that is present (None), otherwise the
        row is stored under a fresh id. */
    method Save(user: User) returns (r: Option<int>)
      requires Valid()
      modifies this
      ensures Valid()
      ensures r.None? <==> UserIdOf(old(rows), user.username).Some?
      ensures r.None? ==> Snapshot() == old(Snapshot())
      ensures r.Some? ==> Snapshot() == Insert(old(Snapshot()), user) && r.value == old(nextId)
    {
      if exists id :: id in rows && rows[id].username == user.username {
        r := None;
      } else {
        r := Some(nextId);
        rows, nextId := rows[nextId := user], nextId + 1;
      }
    }
  }

  class ImageRepository {
    var rows: map<int, Image>
    var nextId: int

    ghost predicate Valid()
      reads this
    {
      WellFormed(Snapshot())
    }

    function Snapshot(): Table<Image>
      reads this
    {
      Table(rows, nextId)
    }

    constructor ()
      ensures Valid() && rows == map[]
    {
      rows, nextId := map[], 1;
    }

    /** `findById`. */
    method FindById(id: int) returns (r: Option<Image>)
      ensures r.Some? <==> id in rows
      ensures r.Some? ==> r.value == rows[id]
    {
      r := if id in rows then Some(rows[id]) else None;
    }

    /** `findByDeleteHash`: the one row with that hash, none, or an error when several match. */
    method FindByDeleteHash(deleteHash: string) returns (r: Lookup)
      ensures r == Entities.FindByDeleteHash(rows, deleteHash)
    {
      var m := set id | id in rows && rows[id].deleteHash == deleteHash;
      if m == {} {
        r := NoMatch;
      } else {
        assert (forall y :: y !in m) ==> m == {};
        var id :| id in m;
        if m - {id} == {} {
          r := Match(id);
          assert forall j :: j in m ==> j !in m - {id};
        } else {
          r := NonUnique;
          assert (forall y :: y !in m - {id}) ==> m - {id} == {};
          assert exists other :: other in m - {id};
        }
      }
    }

    /** `save` of a new image: stored under a fresh id. */
    method Save(image: Image) returns (id: int)
      requires Valid()
      modifies this
      ensures Valid()
      ensures Snapshot() == Insert(old(Snapshot()), image) && id == old(nextId)
    {
      id := nextId;
      rows, nextId := rows[nextId := image], nextId + 1;
    }

    /** `delete`: removes the row with that id and nothing else. */
    method Delete(id: int)
      requires Valid()
      modifies this
      ensures Valid()
      ensures rows == old(rows) - {id} && nextId == old(nextId)
    {
      rows := rows - {id};
    }
  }
}
