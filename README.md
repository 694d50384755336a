# imgur-app: a Dafny model of registration and the image handlers

The application is a Spring Boot backend. Users register with a username and a password, and the
password is stored encoded. Authenticated users then upload images to a remote image host, view the
link of an image they own, and delete it. Two tables are kept:

- `users`: id, username (unique), encoded password and nullable profile fields.
- `images`: id, remote link, remote delete hash and the owning user's id.

This project models:

- the registration request body and its declared constraints (`RegistrationForm`);
- the tables, their identity ids, and the repository queries used on them (`Entities`, `Repositories`);
- the remote image host as seen by the controller (`Imgur`);
- `UserService.registerUser` (`Users`);
- the three handlers of `ImageController` (`Images`);
- all endpoints together, and what holds across any sequence of requests (`Workflow`).

Each handler has two forms:

- A ghost function (`Users.Register`, `Images.Upload`, `Images.View`, `Images.Delete`). It maps the old
  tables, the request and the remote service's answer to a response, the new table and the remote
  requests sent. Its contract states the handler's promises.
- A method of a class (`Users.UserService.RegisterUser` and the three methods of
  `Images.ImageController`). It makes the source's repository and client calls in the source's order,
  with one exception. `UserService.java:21` looks the username up even when it is null. The model skips
  that lookup, because a null name matches no row. Its postcondition ties the response and the new
  state to the function.

External parts become inputs:

- The remote service's answer is a parameter of each handler. `Imgur.ImgurClient` records each request
  sent to it.
- The password encoder is a parameter of the service: any function from the raw password to a string.
- The authenticated username is a plain string argument.

Choices where the source leaves room:

- **Identity ids.** A table hands out ids from a counter that starts at 1, so an id is never reused.
  `Workflow.DeletedStaysDeleted` depends on this.
- **Delete hash lookup.** `images.delete_hash` is not declared unique. `findByDeleteHash` is a
  single-result query, so it returns the row when exactly one row matches. When several rows match, the
  query throws. The handler catches that and answers 500, with cause `NonUniqueResult`.
- **Username uniqueness.** It is a table invariant, because of the unique column. A save that would
  break it is refused (`Repositories.UserRepository.Save`).
- **Null fields.** A null field of the request body is `None`. If `registerUser` is called with a null
  password, the encoder throws (`NullPassword`). With a null username, the NOT NULL column refuses the
  save (`NullUsername`). Neither writes anything. In the running application, `@Valid` rejects such a
  body first (`Workflow.Serve`).
- **Blank characters.** `@NotBlank` is modelled as the validator implements it: after trimming every
  character up to U+0020, at least one character must remain.
- **Statuses.** Each handler's response is a status plus a message kind. Registration statuses are the
  framework defaults:
  - 400 when validation fails;
  - 500 when the service throws, a duplicate username included;
  - 200 with the saved user otherwise.

Points where the model follows the main code over other parts of the repository:

- `UserController` (`UserController.java:21-24`) does not catch the service's exception, so a duplicate
  registration is answered with 500. The repository's own test
  (`ImgurAppApplicationTests.java:94-103`) expects 400.
- The registration response is the saved `User`, encoded password included.
- The image entity calls its column `url` (`Image.java:18`), but the controller uses `link`
  (`ImageController.java:41`, `:68`). The model has one `link` field.

## Model

| member | source | states |
|---|---|---|
| RegistrationForm.Set | src/main/java/com/example/imgur_app/dto/UserRegistrationDTO.java:27-65 | a setter makes its own getter return the new value and leaves the other four getters unchanged |
| RegistrationForm.GetReturnsLastSet | src/main/java/com/example/imgur_app/dto/UserRegistrationDTO.java:27-65 | after any sequence of setter calls, each getter returns the value passed to the last call of the matching setter, or the initial value if that setter was never called |
| RegistrationForm.Violations | src/main/java/com/example/imgur_app/dto/UserRegistrationDTO.java:9-25 | the validator reports a (field, constraint) pair exactly when that constraint is declared on the field and the field's value breaks it: NotBlank rejects null and all-blank strings; Size(3,20) on username and Size(6,100) on password accept null |
| RegistrationForm.ValidIffNoViolations | src/main/java/com/example/imgur_app/dto/UserRegistrationDTO.java:9-25 | a form has no violations exactly when the username is non-blank with 3 to 20 characters, the password is non-blank with 6 to 100 characters, and the first name, last name and email are non-blank |
| RegistrationForm.NewFormRejected | src/main/java/com/example/imgur_app/dto/UserRegistrationDTO.java:9-25 | a freshly constructed form (all fields null) breaks NotBlank on all five fields and no Size constraint |
| Entities.UserIdOf | src/main/java/com/example/imgur_app/service/UserService.java:21 | a username lookup yields a user with that name, and yields nothing exactly when no user has that name |
| Entities.UserIdOfUnique | src/main/java/com/example/imgur_app/entity/User.java:19-20 | with unique usernames, looking up a user's name yields that user's id |
| Entities.FindByDeleteHash | src/main/java/com/example/imgur_app/repository/ImageRepository.java:9 | the delete-hash query reports no match exactly when no row has the hash, the one matching id when exactly one row has it, and a non-unique result exactly when two distinct rows have it |
| Repositories.UserRepository.FindByUsername | src/main/java/com/example/imgur_app/controller/ImageController.java:31-33 | the repository lookup returns a user id with that name, or nothing exactly when there is none; the result agrees with Entities.UserIdOf |
| Repositories.UserRepository.Save | src/main/java/com/example/imgur_app/service/UserService.java:31 | saving refuses a username that is present and leaves the table unchanged; otherwise it stores the row under a fresh id and keeps usernames unique |
| Repositories.ImageRepository.FindById | src/main/java/com/example/imgur_app/controller/ImageController.java:60-61 | returns the row with that id, or nothing exactly when there is none |
| Repositories.ImageRepository.FindByDeleteHash | src/main/java/com/example/imgur_app/controller/ImageController.java:83-84 | the imperative lookup agrees with Entities.FindByDeleteHash |
| Repositories.ImageRepository.Save | src/main/java/com/example/imgur_app/controller/ImageController.java:43 | stores the image under a fresh id that is returned, and changes no other row |
| Repositories.ImageRepository.Delete | src/main/java/com/example/imgur_app/controller/ImageController.java:95 | removes exactly the row with that id and keeps the id counter |
| Imgur.ImgurClient.UploadImage | src/main/java/com/example/imgur_app/service/ImgurClient.java:21-51 | an upload sends exactly one upload request carrying the image bytes and yields the service's answer |
| Imgur.ImgurClient.DeleteImage | src/main/java/com/example/imgur_app/service/ImgurClient.java:91-107 | a delete sends exactly one delete request for that hash and yields the service's answer |
| Users.Register | src/main/java/com/example/imgur_app/service/UserService.java:20-32 | a taken username fails with UsernameTaken; a failure writes nothing; success happens exactly when the name is free and neither username nor password is null; success adds exactly one row under a fresh id, with the username, first name, last name and email copied and the password equal to encode(raw password) |
| Users.RegisterKeepsRows | src/main/java/com/example/imgur_app/service/UserService.java:20-32 | existing user rows are neither changed nor removed by a registration, whether it succeeds or fails |
| Users.RegisterKeepsUsernamesUnique | src/main/java/com/example/imgur_app/service/UserService.java:21-31 | if usernames are unique before a registration, they are unique after it |
| Users.RegisterThenFind | src/main/java/com/example/imgur_app/service/UserService.java:25-31 | after a successful registration, looking up the new username returns the saved id, whose row holds the copied profile and the encoded password |
| Users.RegisterTwiceFails | src/main/java/com/example/imgur_app/service/UserService.java:21-23 | a second registration with the same username fails with UsernameTaken and leaves the table unchanged |
| Users.UserService.RegisterUser | src/main/java/com/example/imgur_app/service/UserService.java:20-32 | the service method checks, encodes and saves in the source's order; its result and the new user table are those of Users.Register, and the table invariant is kept |
| Images.Upload | src/main/java/com/example/imgur_app/controller/ImageController.java:27-51 | an unknown caller gets 500 UserNotFound, no remote call and no change; a known caller causes exactly one upload request; a remote failure gives 500 and saves nothing; status is 200 exactly when the caller is known and the upload succeeded; then exactly one row is added under a fresh id, holding the remote link and delete hash with the caller as owner, and the body carries that id, hash and link |
| Images.View | src/main/java/com/example/imgur_app/controller/ImageController.java:53-72 | the checks run in order: unknown caller gives 500 UserNotFound, then a missing id gives 500 ImageNotFound, then another owner gives 403 AccessDenied; 200 exactly when the caller owns the image, with exactly the stored link; no other response carries a link; it has no table or remote effect |
| Images.Delete | src/main/java/com/example/imgur_app/controller/ImageController.java:74-101 | the checks run in order: unknown caller (500), then no row with the hash (500), then more than one row (500), then another owner (403); each refusal sends no remote request and leaves the table unchanged; a delete request for that hash is sent exactly when all checks pass; a remote failure after the checks is answered with 500 RemoteFailure and keeps the row; every non-200 outcome keeps the table; 200 exactly when the checks pass and the remote delete succeeded, and then exactly the matched row is removed |
| Images.ImageController.UploadImage | src/main/java/com/example/imgur_app/controller/ImageController.java:27-51 | the handler's response, image table and remote requests are those of Images.Upload; the user table is not touched; the invariant that every image has an existing owner is kept |
| Images.ImageController.ViewImage | src/main/java/com/example/imgur_app/controller/ImageController.java:53-72 | the handler's response is that of Images.View and it modifies nothing |
| Images.ImageController.DeleteImage | src/main/java/com/example/imgur_app/controller/ImageController.java:74-101 | the handler's response, image table and remote requests are those of Images.Delete, and the invariant is kept |
| Workflow.Serve | src/main/java/com/example/imgur_app/controller/UserController.java:20-24 | any request keeps the database consistent (identity ids, unique usernames, an existing owner for every image); it never changes or removes a user; a new image row always has an id never handed out before; a registration body that fails validation is answered with 400 and its violations, with no change; a valid body's new user table is the one Users.Register gives; the image endpoints leave the user table unchanged |
| Workflow.Run | src/main/java/com/example/imgur_app/entity/Image.java:13-15 | any sequence of requests keeps the database consistent, never lowers the image id counter and keeps every existing user |
| Workflow.DeletedStaysDeleted | src/main/java/com/example/imgur_app/entity/Image.java:13-15 | an image id that was handed out and is now absent stays absent after any further sequence of requests |
| Workflow.UploadThenView | src/main/java/com/example/imgur_app/controller/ImageController.java:39-68 | after a successful upload, the uploader viewing the returned id gets 200 with exactly the link the remote service returned |
| Workflow.UploadThenViewByOther | src/main/java/com/example/imgur_app/controller/ImageController.java:64-65 | after a successful upload, any other registered user viewing that id gets 403 AccessDenied |
| Workflow.DeleteThenViewNeverSucceeds | src/main/java/com/example/imgur_app/controller/ImageController.java:92-97 | after the owner's successful delete, no later sequence of requests lets anyone view that image id with status 200 |
| Workflow.Session | src/main/java/com/example/imgur_app/controller/ImageController.java:27-101 | from an empty database: alice registers (200, password stored encoded); registering alice again gives 500 UsernameTaken and changes nothing; bob registers; alice uploads (200 with id 1, hash and link); bob's view of id 1 gets 403; alice's delete gives 200 and empties the image table; a later view of id 1 gets 500 ImageNotFound |

## Left out

- HTTP transport, JSON bodies, multipart parsing and Spring Security are not modelled. The
  authenticated username is an input. Requests without credentials are refused with 401 by the
  framework, and that is not modelled.
- The remote client's HTTP calls, its `Client-ID` header and its JSON parsing are not modelled. A
  malformed or failed reply is the `UploadFailed` / `DeleteFailed` answer. `ImageMetadata` discards the
  remote image id, and so does the model. The client's `viewImage` is never called by the handlers and
  is not modelled.
- `MultipartFile.getBytes` can fail with an I/O error, which leads to a 500 before the remote call.
  The image bytes are an input, so this case is not modelled.
- `@Email` is not modelled. Its format rules belong to the validation library; only `@NotBlank` on
  the email field is checked.
- `@Size` counts UTF-16 code units. The model counts Dafny characters (Unicode scalar values), so the
  two differ for characters outside the Basic Multilingual Plane.
- The password encoder is a fixed function parameter. BCrypt salts randomly, so two encodings of one
  password differ; the model does not capture that.
- The `Long` id counter's overflow is not modelled: ids are unbounded integers.
- Cascade and orphan removal of a user's images is not modelled: no operation in scope deletes a user.
- Images.Upload, Images.Delete, Repositories.ImageRepository.Save, Repositories.ImageRepository.Delete
  and Repositories.UserRepository.Save assume that database reads and writes succeed. The only failures
  modelled are the unique-username refusal and the non-unique delete-hash result. In the source, any
  other failure of `imageRepository.save` (`ImageController.java:43`) or `imageRepository.delete`
  (`:95`) is caught and answered with 500. In particular, if the remote delete succeeds and the local
  delete then fails, the source answers 500 and keeps the row although the remote image is gone. The
  model does not capture that path.
- Concurrent requests are not modelled, including two deletes racing on one hash. The model is
  sequential.
- Exact response texts are not modelled. Each error carries its kind (`Http.Cause`).
- `User.getFirstName(String)` / `getLastName(String)` return their argument, and a `User` has no email
  getter. These are not modelled: the model reads the stored fields directly.
