/** The image handlers (ImageController): resolve the caller, find the image, check ownership, call the
    remote service, then write the image table. Each handler maps the old tables, the request and the
    remote service's answer to a response, the new image table and the remote requests it sent. */
module Images {
  import opened Wrappers
  import opened Entities
  import opened Http
  import opened Imgur
  import Repositories

  datatype Outcome = Outcome(response: Response, images: Table<Image>, calls: seq<RemoteRequest>)

  /** The ownership check: the image's owner is the caller. */
  predicate OwnedBy(image: Image, callerId: int) {
    image.ownerId == callerId
  }

  /** `uploadImage`. */
  ghost function Upload(users: map<int, User>, images: Table<Image>, username: string, bytes: Bytes, remote: UploadOutcome): (o: Outcome)
    requires WellFormed(images)
    ensures WellFormed(o.images)
    // an unknown caller is refused before the remote service is contacted
    ensures UserIdOf(users, username).None? ==> o == Outcome(Response(500, Error(UserNotFound)), images, [])
    ensures UserIdOf(users, username).Some? ==> o.calls == [UploadRequest(bytes)]
    // a remote failure saves nothing
    ensures remote.UploadFailed? ==> o.images == images && o.response.status == 500
    ensures o.response.status == 200 <==> UserIdOf(users, username).Some? && remote.Uploaded?
    // success adds exactly one row, under a fresh id, holding the remote metadata and the caller as owner
    ensures o.response.status == 200 ==>
      && o.response.body.ImageSaved?
      && o.response.body == ImageSaved(o.response.body.id, remote.deleteHash, remote.link)
      && o.response.body.id !in images.rows
      && o.images.rows == images.rows[o.response.body.id := Image(remote.link, remote.deleteHash, UserIdOf(users, username).value)]
  {
    match UserIdOf(users, username)
    case None => Outcome(Response(500, Error(UserNotFound)), images, [])
    case Some(owner) =>
      match remote
      case UploadFailed => Outcome(Response(500, Error(RemoteFailure)), images, [UploadRequest(bytes)])
      case Uploaded(deleteHash, link) =>
        Outcome(Response(200, ImageSaved(images.nextId, deleteHash, link)),
                Insert(images, Image(link, deleteHash, owner)),
                [UploadRequest(bytes)])
  }

  /** `viewImage`; it changes nothing and contacts nothing. */
  ghost function View(users: map<int, User>, images: map<int, Image>, username: string, id: int): (r: Response)
    ensures UserIdOf(users, username).None? ==> r == Response(500, Error(UserNotFound))
    ensures UserIdOf(users, username).Some? && id !in images ==> r == Response(500, Error(ImageNotFound))
    ensures UserIdOf(users, username).Some? && id in images && !OwnedBy(images[id], UserIdOf(users, username).value) ==>
      r == Response(403, Error(AccessDenied))
    ensures r.status == 200 <==>
      UserIdOf(users, username).Some? && id in images && OwnedBy(images[id], UserIdOf(users, username).value)
    // the owner gets exactly the stored link; nobody else gets a link at all
    ensures r.status == 200 ==> r.body == ImageLink(images[id].link)
    ensures r.status != 200 ==> !r.body.ImageLink?
  {
    match UserIdOf(users, username)
    case None => Response(500, Error(UserNotFound))
    case Some(caller) =>
      if id !in images then Response(500, Error(ImageNotFound))
      else if !OwnedBy(images[id], caller) then Response(403, Error(AccessDenied))
      else Response(200, ImageLink(images[id].link))
  }

  /** The row a delete request may remove: the caller is known, exactly one row has the hash, and the
      caller owns it. */
  ghost predicate Deletable(users: map<int, User>, images: map<int, Image>, username: string, deleteHash: string) {
    && UserIdOf(users, username).Some?
    && FindByDeleteHash(images, deleteHash).Match?
    && OwnedBy(images[FindByDeleteHash(images, deleteHash).id], UserIdOf(users, username).value)
  }

  /** `deleteImage`. */
  ghost function Delete(users: map<int, User>, images: Table<Image>, username: string, deleteHash: string, remote: DeleteOutcome): (o: Outcome)
    requires WellFormed(images)
    ensures WellFormed(o.images) && o.images.nextId == images.nextId
    // the checks run in order: caller, then image, then owner; each refusal happens before the remote call
    ensures UserIdOf(users, username).None? ==> o == Outcome(Response(500, Error(UserNotFound)), images, [])
    ensures UserIdOf(users, username).Some? && FindByDeleteHash(images.rows, deleteHash).NoMatch? ==>
      o == Outcome(Response(500, Error(ImageNotFound)), images, [])
    ensures (UserIdOf(users, username).Some? && FindByDeleteHash(images.rows, deleteHash).Match? &&
             !Deletable(users, images.rows, username, deleteHash)) ==>
      o == Outcome(Response(403, Error(AccessDenied)), images, [])
    ensures UserIdOf(users, username).Some? && FindByDeleteHash(images.rows, deleteHash).NonUnique? ==>
      o == Outcome(Response(500, Error(NonUniqueResult)), images, [])
    // the remote service is contacted only once every check passed, and only about this hash
    ensures o.calls != [] <==> Deletable(users, images.rows, username, deleteHash)
    ensures o.calls != [] ==> o.calls == [DeleteRequest(deleteHash)]
    // every failure, including a remote one, leaves the table as it was
    ensures o.response.status != 200 ==> o.images == images
    // a remote failure after every check passed is answered with 500
    ensures Deletable(users, images.rows, username, deleteHash) && remote.DeleteFailed? ==>
      o == Outcome(Response(500, Error(RemoteFailure)), images, [DeleteRequest(deleteHash)])
    ensures o.response.status == 200 <==> Deletable(users, images.rows, username, deleteHash) && remote.Deleted?
    // success removes exactly the caller's row with that hash
    ensures o.response.status == 200 ==>
      o.response.body == ImageDeleted && o.images.rows == images.rows - {FindByDeleteHash(images.rows, deleteHash).id}
  {
    match UserIdOf(users, username)
    case None => Outcome(Response(500, Error(UserNotFound)), images, [])
    case Some(caller) =>
      match FindByDeleteHash(images.rows, deleteHash)
      case NoMatch => Outcome(Response(500, Error(ImageNotFound)), images, [])
      case NonUnique => Outcome(Response(500, Error(NonUniqueResult)), images, [])
      case Match(id) =>
        if !OwnedBy(images.rows[id], caller) then Outcome(Response(403, Error(AccessDenied)), images, [])
        else
          match remote
          case DeleteFailed => Outcome(Response(500, Error(RemoteFailure)), images, [DeleteRequest(deleteHash)])
          case Deleted => Outcome(Response(200, ImageDeleted), Table(images.rows - {id}, images.nextId), [DeleteRequest(deleteHash)])
  }

  class ImageController {
    const client: ImgurClient
    const users: Repositories.UserRepository
    const images: Repositories.ImageRepository

    /** Both tables are well formed and every image's owner is a user. */
    ghost predicate Valid()
      reads this, users, images
    {
      && users.Valid()
      && images.Valid()
      && forall id :: id in images.rows ==> images.rows[id].ownerId in users.rows
    }

    constructor (client: ImgurClient, users: Repositories.UserRepository, images: Repositories.ImageRepository)
      requires users.Valid() && images.Valid()
      requires forall id :: id in images.rows ==> images.rows[id].ownerId in users.rows
      ensures this.client == client && this.users == users && this.images == images
      ensures Valid()
    {
      this.client := client;
      this.users := users;
      this.images := images;
    }

    method UploadImage(username: string, bytes: Bytes, remote: UploadOutcome) returns (response: Response)
      requires Valid()
      modifies images, client
      ensures Valid()
      ensures var o := Upload(users.rows, old(images.Snapshot()), username, bytes, remote);
        && response == o.response
        && images.Snapshot() == o.images
        && client.requests == old(client.requests) + o.calls
    {
      var caller := users.FindByUsername(username);
      if caller.None? {
        return Response(500, Error(UserNotFound));
      }
      var metadata := client.UploadImage(bytes, remote);
      if metadata.UploadFailed? {
        return Response(500, Error(RemoteFailure));
      }
      var id := images.Save(Image(metadata.link, metadata.deleteHash, caller.value));
      response := Response(200, ImageSaved(id, metadata.deleteHash, metadata.link));
    }

    method ViewImage(username: string, id: int) returns (response: Response)
      requires Valid()
      ensures response == View(users.rows, images.rows, username, id)
    {
      var caller := users.FindByUsername(username);
      if caller.None? {
        return Response(500, Error(UserNotFound));
      }
      var image := images.FindById(id);
      if image.None? {
        return Response(500, Error(ImageNotFound));
      }
      if !OwnedBy(image.value, caller.value) {
        return Response(403, Error(AccessDenied));
      }
      response := Response(200, ImageLink(image.value.link));
    }

    method DeleteImage(username: string, deleteHash: string, remote: DeleteOutcome) returns (response: Response)
      requires Valid()
      modifies images, client
      ensures Valid()
      ensures var o := Delete(users.rows, old(images.Snapshot()), username, deleteHash, remote);
        && response == o.response
        && images.Snapshot() == o.images
        && client.requests == old(client.requests) + o.calls
    {
      var caller := users.FindByUsername(username);
      if caller.None? {
        return Response(500, Error(UserNotFound));
      }
      var found := images.FindByDeleteHash(deleteHash);
      if found.NoMatch? {
        return Response(500, Error(ImageNotFound));
      }
      if found.NonUnique? {
        return Response(500, Error(NonUniqueResult));
      }
      if !OwnedBy(images.rows[found.id], caller.value) {
        return Response(403, Error(AccessDenied));
      }
      var answer := client.DeleteImage(deleteHash, remote);
      if answer.DeleteFailed? {
        return Response(500, Error(RemoteFailure));
      }
      images.Delete(found.id);
      response := Response(200, ImageDeleted);
    }
  }
}
