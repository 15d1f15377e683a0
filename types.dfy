/** Identifiers, request context and HTTP outcomes shared by every component. */
module Types {

  type UserId = nat
  type RecipeId = nat
  type TagId = nat
  type IngredientId = nat

  datatype Option<+T> = None | Some(value: T)

  datatype Result<+R, +E> = Ok(value: R) | Err(error: E)

  /** The user attached to a request: the anonymous user or a registered one. */
  datatype Requester = Anonymous | Member(id: UserId)

  /** HTTP request methods the API receives. */
  datatype Method = GET | HEAD | OPTIONS | POST | PUT | PATCH | DELETE

  /** The serializer context: either no request at all, or the current request. */
  datatype Context = NoRequest | Request(verb: Method, user: Requester)

  /** HTTP response statuses produced by the views. */
  datatype Status =
    | OK | Created | NoContent
    | BadRequest | Unauthorized | Forbidden | NotFound
    | ServerError
  {
    function Code(): (c: int)
      ensures 200 <= c < 600
      ensures c < 300 <==> (this == OK || this == Created || this == NoContent)
    {
      match this
      case OK => 200
      case Created => 201
      case NoContent => 204
      case BadRequest => 400
      case Unauthorized => 401
      case Forbidden => 403
      case NotFound => 404
      case ServerError => 500
    }
  }
}
