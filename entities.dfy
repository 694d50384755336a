/** The two tables (User.java, Image.java) and the repository queries over them. */
module Entities {
  import opened Wrappers

  newtype byte = x | 0 <= x < 256

  type Bytes = seq<byte>

  /** A row of `users`; the row's id is its key in the table. The profile columns are nullable. */
  datatype User = User(
    username: string,
    password: string,
    firstName: Option<string>,
    lastName: Option<string>,
    email: Option<string>)

  /** A row of `images`: the remote link, the remote delete hash and the id of the owning user. */
  datatype Image = Image(link: string, deleteHash: string, ownerId: int)

  /** A table with an identity column: ids are handed out from `nextId` upwards, starting at 1,
      and are never handed out twice. */
  datatype Table<T> = Table(rows: map<int, T>, nextId: int)

  ghost predicate WellFormed<T>(t: Table<T>) {
    1 <= t.nextId && forall id :: id in t.rows ==> 1 <= id < t.nextId
  }

  function EmptyTable<T>(): (t: Table<T>)
    ensures WellFormed(t) && t.rows == map[]
  {
    Table(map[], 1)
  }

  /** `save` of a new entity: the row gets an id that no row has had before. */
  function Insert<T>(t: Table<T>, row: T): (r: Table<T>)
    requires WellFormed(t)
    ensures WellFormed(r) && r.nextId > t.nextId
    ensures t.nextId !in t.rows && r.rows == t.rows[t.nextId := row]
  {
    Table(t.rows[t.nextId := row], t.nextId + 1)
  }

  // ---------------------------------------------------------------------------------------------
  // Users

  /** The unique constraint on `users.username`. */
  ghost predicate UniqueUsernames(users: map<int, User>) {
    forall i, j :: i in users && j in users && users[i].username == users[j].username ==> i == j
  }

  /** `findByUsername`: the id of a user with that name, if there is one. */
  ghost function UserIdOf(users: map<int, User>, name: string): (r: Option<int>)
    ensures r.Some? ==> r.value in users && users[r.value].username == name
    ensures r.None? <==> forall id :: id in users ==> users[id].username != name
  {
    if exists id :: id in users && users[id].username == name then
      var id :| id in users && users[id].username == name;
      Some(id)
    else
      None
  }

  /** With unique usernames the lookup finds exactly the user with that name. */
  lemma UserIdOfUnique(users: map<int, User>, id: int)
    requires UniqueUsernames(users) && id in users
    ensures UserIdOf(users, users[id].username) == Some(id)
  {
  }

  // ---------------------------------------------------------------------------------------------
  // Images

  /** The result of a single-result query: no row, one row, or more than one (which Spring Data
      reports by throwing). */
  datatype Lookup = NoMatch | Match(id: int) | NonUnique

  function HashMatches(rows: map<int, Image>, deleteHash: string): set<int> {
    set id | id in rows && rows[id].deleteHash == deleteHash
  }

  /** `findByDeleteHash`: exact match on the delete hash, which the table does not declare unique. */
  ghost function FindByDeleteHash(rows: map<int, Image>, deleteHash: string): (r: Lookup)
    ensures r.NoMatch? <==> forall id :: id in rows ==> rows[id].deleteHash != deleteHash
    ensures r.Match? ==> r.id in rows && rows[r.id].deleteHash == deleteHash
    ensures r.Match? ==> forall id :: id in rows && rows[id].deleteHash == deleteHash ==> id == r.id
    ensures r.NonUnique? <==>
      exists i, j :: i in rows && j in rows && i != j && rows[i].deleteHash == deleteHash && rows[j].deleteHash == deleteHash
  {
    var m := HashMatches(rows, deleteHash);
    if m == {} then
      assert forall id :: id in rows ==> id !in m ==> rows[id].deleteHash != deleteHash;
      NoMatch
    else
      var id := Member(m);
      if m - {id} == {} then
        assert forall j :: j in rows && rows[j].deleteHash == deleteHash ==> j == id by {
          forall j | j in rows && rows[j].deleteHash == deleteHash ensures j == id {
            assert j in m;
            assert j !in m - {id};
          }
        }
        Match(id)
      else
        assert (forall y :: y !in m - {id}) ==> m - {id} == {};
        assert exists other :: other in m - {id};
        NonUnique
  }

  /** Some element of a non-empty set. */
  ghost function Member(m: set<int>): (x: int)
    requires m != {}
    ensures x in m
  {
    assert (forall y :: y !in m) ==> m == {};
    var x :| x in m;
    x
  }
}
