/** What a handler answers: a status code and a body. Message texts are modelled by their kind. */
module Http {
  import opened Entities
  import RegistrationForm

  /** The exception (or the refusal) behind an error response. */
  datatype Cause =
    | UserNotFound      // the authenticated name matches no user
    | ImageNotFound     // no image with that id or delete hash
    | AccessDenied      // the image belongs to another user
    | RemoteFailure     // the remote image service reported an error
    | NonUniqueResult   // more than one image has that delete hash
    | UsernameTaken     // registration of a name that exists
    | NullPassword      // the password encoder was given null
    | NullUsername      // the NOT NULL username column was given null

  datatype Body =
    | ImageSaved(id: int, deleteHash: string, link: string)
    | ImageLink(link: string)
    | ImageDeleted
    | UserSaved(id: int, user: User)
    | Invalid(violations: set<RegistrationForm.Violation>)
    | Error(cause: Cause)

  datatype Response = Response(status: int, body: Body)
}
