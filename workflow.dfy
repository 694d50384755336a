/** The application as a whole: both tables, the four endpoints, and what holds across any sequence of
    requests. Registration goes through the `@Valid` check of UserController before the service. */
module Workflow {
  import opened Wrappers
  import opened Entities
  import opened Http
  import opened Imgur
  import RegistrationForm
  import Users
  import Images

  datatype Db = Db(users: Table<User>, images: Table<Image>)

  /** The database invariants: ids from identity columns, unique usernames, and an owner for every image. */
  ghost predicate Consistent(db: Db) {
    && WellFormed(db.users)
    && WellFormed(db.images)
    && UniqueUsernames(db.users.rows)
    && forall id :: id in db.images.rows ==> db.images.rows[id].ownerId in db.users.rows
  }

  function EmptyDb(): (db: Db)
    ensures Consistent(db)
  {
    Db(EmptyTable(), EmptyTable())
  }

  /** An HTTP request, with the caller's authenticated name and the remote service's answer where the
      endpoint contacts it. */
  datatype Request =
    | RegisterUser(form: RegistrationForm.Form)
    | UploadImage(username: string, bytes: Bytes, upload: UploadOutcome)
    | ViewImage(username: string, id: int)
    | DeleteImage(username: string, deleteHash: string, delete: DeleteOutcome)

  datatype Served = Served(response: Response, db: Db)

  /** The response to one request and the database afterwards. */
  ghost function Serve(db: Db, encode: string -> string, request: Request): (s: Served)
    requires Consistent(db)
    ensures Consistent(s.db)
    // users are never changed or removed
    ensures forall id :: id in db.users.rows ==> id in s.db.users.rows && s.db.users.rows[id] == db.users.rows[id]
    // a row that appears has an id never handed out before
    ensures s.db.images.nextId >= db.images.nextId
    ensures forall id :: id in s.db.images.rows && id !in db.images.rows ==> id >= db.images.nextId
    // `@Valid` answers an invalid body with 400 and its violations, before the service runs
    ensures request.RegisterUser? && !RegistrationForm.Valid(request.form) ==>
      s == Served(Response(400, Invalid(RegistrationForm.Violations(request.form))), db)
    // a valid body reaches the service, whose table is the new user table
    ensures request.RegisterUser? && RegistrationForm.Valid(request.form) ==>
      s.db == Db(Users.Register(db.users, encode, request.form).users, db.images)
    // the image endpoints leave the user table alone
    ensures !request.RegisterUser? ==> s.db.users == db.users
  {
    match request
    case RegisterUser(form) =>
      if !RegistrationForm.Valid(form) then
        RegistrationForm.ValidIffNoViolations(form);
        Served(Response(400, Invalid(RegistrationForm.Violations(form))), db)
      else
        var r := Users.Register(db.users, encode, form);
        Users.RegisterKeepsUsernamesUnique(db.users, encode, form);
        Users.RegisterKeepsRows(db.users, encode, form);
        var response := match r.result
          case Success(id) => Response(200, UserSaved(id, r.users.rows[id]))
          case Failure(cause) => Response(500, Error(cause));
        Served(response, Db(r.users, db.images))
    case UploadImage(username, bytes, upload) =>
      var o := Images.Upload(db.users.rows, db.images, username, bytes, upload);
      Served(o.response, Db(db.users, o.images))
    case ViewImage(username, id) =>
      Served(Images.View(db.users.rows, db.images.rows, username, id), db)
    case DeleteImage(username, deleteHash, delete) =>
      var o := Images.Delete(db.users.rows, db.images, username, deleteHash, delete);
      Served(o.response, Db(db.users, o.images))
  }

  /** The database after serving `requests` in order. */
  ghost function Run(db: Db, encode: string -> string, requests: seq<Request>): (r: Db)
    requires Consistent(db)
    ensures Consistent(r)
    ensures r.images.nextId >= db.images.nextId
    ensures forall id :: id in db.users.rows ==> id in r.users.rows && r.users.rows[id] == db.users.rows[id]
    decreases |requests|
  {
    if requests == [] then db
    else Run(Serve(db, encode, requests[0]).db, encode, requests[1..])
  }

  /** An image id that is gone stays gone: identity ids are never reused, so no later request brings
      a row back under that id. */
  lemma {:induction false} DeletedStaysDeleted(db: Db, encode: string -> string, requests: seq<Request>, id: int)
    requires Consistent(db)
    requires id < db.images.nextId && id !in db.images.rows
    ensures id !in Run(db, encode, requests).images.rows
    decreases |requests|
  {
    if requests != [] {
      var next := Serve(db, encode, requests[0]).db;
      DeletedStaysDeleted(next, encode, requests[1..], id);
    }
  }

  /** Round trip: after a successful upload, the uploader viewing the new id gets exactly the link the
      remote service returned. */
  lemma UploadThenView(db: Db, encode: string -> string, username: string, bytes: Bytes, upload: UploadOutcome)
    requires Consistent(db)
    requires Serve(db, encode, UploadImage(username, bytes, upload)).response.status == 200
    ensures var s := Serve(db, encode, UploadImage(username, bytes, upload));
      Serve(s.db, encode, ViewImage(username, s.response.body.id)).response == Response(200, ImageLink(upload.link))
  {
  }

  /** Any other registered user viewing the new image is refused with 403 and gets no link. */
  lemma UploadThenViewByOther(db: Db, encode: string -> string, owner: string, other: string, bytes: Bytes, upload: UploadOutcome)
    requires Consistent(db)
    requires Serve(db, encode, UploadImage(owner, bytes, upload)).response.status == 200
    requires other != owner && UserIdOf(db.users.rows, other).Some?
    ensures var s := Serve(db, encode, UploadImage(owner, bytes, upload));
      Serve(s.db, encode, ViewImage(other, s.response.body.id)).response == Response(403, Error(AccessDenied))
  {
  }

  /** After the owner deletes an image, no later request sequence makes that image viewable again. */
  lemma DeleteThenViewNeverSucceeds(db: Db, encode: string -> string, username: string, deleteHash: string,
                                    later: seq<Request>, viewer: string)
    requires Consistent(db)
    requires Serve(db, encode, DeleteImage(username, deleteHash, Deleted)).response.status == 200
    ensures var id := FindByDeleteHash(db.images.rows, deleteHash).id;
      var s := Serve(db, encode, DeleteImage(username, deleteHash, Deleted));
      var end := Run(s.db, encode, later);
      Serve(end, encode, ViewImage(viewer, id)).response.status != 200
  {
    var id := FindByDeleteHash(db.images.rows, deleteHash).id;
    var s := Serve(db, encode, DeleteImage(username, deleteHash, Deleted));
    DeletedStaysDeleted(s.db, encode, later, id);
  }

  function Alice(): RegistrationForm.Form {
    RegistrationForm.Form(Some("alice"), Some("secret123"), Some("Alice"), Some("Liddell"), Some("alice@example.com"))
  }

  function Bob(): RegistrationForm.Form {
    RegistrationForm.Form(Some("bob"), Some("hunter22"), Some("Bob"), Some("Builder"), Some("bob@example.com"))
  }

  /** The database once alice (id 1) and bob (id 2) are registered. */
  function TwoUsers(encode: string -> string): Db {
    Db(Table(map[1 := Users.NewUser(Alice(), encode), 2 := Users.NewUser(Bob(), encode)], 3), EmptyTable())
  }

  /** A session from an empty database: alice registers, registers again, bob registers, alice uploads,
      bob tries to view alice's image, alice deletes it, and alice looks for it again. */
  lemma Session(encode: string -> string)
    ensures
      var s1 := Serve(EmptyDb(), encode, RegisterUser(Alice()));
      var s2 := Serve(s1.db, encode, RegisterUser(Alice()));
      var s3 := Serve(s2.db, encode, RegisterUser(Bob()));
      var s4 := Serve(s3.db, encode, UploadImage("alice", [], Uploaded("dh1", "https://host/1")));
      var s5 := Serve(s4.db, encode, ViewImage("bob", 1));
      var s6 := Serve(s5.db, encode, DeleteImage("alice", "dh1", Deleted));
      var s7 := Serve(s6.db, encode, ViewImage("alice", 1));
      && s1.response.status == 200 && s1.db.users.rows[1].password == encode("secret123")
      && s2.response == Response(500, Error(UsernameTaken)) && s2.db == s1.db
      && s4.response == Response(200, ImageSaved(1, "dh1", "https://host/1"))
      && s5.response == Response(403, Error(AccessDenied))
      && s6.response == Response(200, ImageDeleted) && s6.db.images.rows == map[]
      && s7.response == Response(500, Error(ImageNotFound))
  {
    SessionRegistrations(encode);
    SessionImages(encode);
  }

  lemma SessionRegistrations(encode: string -> string)
    ensures
      var s1 := Serve(EmptyDb(), encode, RegisterUser(Alice()));
      var s2 := Serve(s1.db, encode, RegisterUser(Alice()));
      var s3 := Serve(s2.db, encode, RegisterUser(Bob()));
      && s1.response.status == 200 && s1.db.users.rows[1].password == encode("secret123")
      && s2.response == Response(500, Error(UsernameTaken)) && s2.db == s1.db
      && s3.db == TwoUsers(encode)
  {
    var alice, bob := Alice(), Bob();
    assert !RegistrationForm.Blank("alice"[0]) && !RegistrationForm.Blank("secret123"[0]) && !RegistrationForm.Blank("Alice"[0]);
    assert !RegistrationForm.Blank("Liddell"[0]) && !RegistrationForm.Blank("alice@example.com"[0]);
    assert !RegistrationForm.Blank("bob"[0]) && !RegistrationForm.Blank("hunter22"[0]) && !RegistrationForm.Blank("Bob"[0]);
    assert !RegistrationForm.Blank("Builder"[0]) && !RegistrationForm.Blank("bob@example.com"[0]);
    assert RegistrationForm.Valid(alice) && RegistrationForm.Valid(bob);

    var s1 := Serve(EmptyDb(), encode, RegisterUser(alice));
    assert s1.db.users.rows == map[1 := Users.NewUser(alice, encode)];
    UserIdOfUnique(s1.db.users.rows, 1);
    var s2 := Serve(s1.db, encode, RegisterUser(alice));
    assert s2.db == s1.db;
    assert UserIdOf(s2.db.users.rows, "bob").None?;
  }

  lemma SessionImages(encode: string -> string)
    ensures
      var s4 := Serve(TwoUsers(encode), encode, UploadImage("alice", [], Uploaded("dh1", "https://host/1")));
      var s5 := Serve(s4.db, encode, ViewImage("bob", 1));
      var s6 := Serve(s5.db, encode, DeleteImage("alice", "dh1", Deleted));
      var s7 := Serve(s6.db, encode, ViewImage("alice", 1));
      && s4.response == Response(200, ImageSaved(1, "dh1", "https://host/1"))
      && s5.response == Response(403, Error(AccessDenied))
      && s6.response == Response(200, ImageDeleted) && s6.db.images.rows == map[]
      && s7.response == Response(500, Error(ImageNotFound))
  {
    var s3 := TwoUsers(encode);
    assert Consistent(s3);
    UserIdOfUnique(s3.users.rows, 1);
    UserIdOfUnique(s3.users.rows, 2);
    var s4 := Serve(s3, encode, UploadImage("alice", [], Uploaded("dh1", "https://host/1")));
    assert s4.db.images.rows == map[1 := Image("https://host/1", "dh1", 1)];
    var s5 := Serve(s4.db, encode, ViewImage("bob", 1));
    assert FindByDeleteHash(s5.db.images.rows, "dh1") == Match(1);
    var s6 := Serve(s5.db, encode, DeleteImage("alice", "dh1", Deleted));
    assert s6.db.images.rows == map[];
  }
}
