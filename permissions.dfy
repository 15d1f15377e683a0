/**
 * `IsOwnerOrReadOnly`: anyone may read a recipe; only its author may change
 * or delete it. A refusal answers 401 to an anonymous requester and 403 to
 * an authenticated one, as the framework's `permission_denied` does.
 */
module Permissions {
  import opened Types

  /** The framework's safe methods. */
  predicate IsSafe(m: Method) {
    m == GET || m == HEAD || m == OPTIONS
  }

  /** `has_object_permission`, a function of the method, the object's author
      and the requester alone. */
  function HasObjectPermission(m: Method, author: UserId, user: Requester): (ok: bool)
    ensures IsSafe(m) ==> ok
    ensures user == Member(author) ==> ok
    ensures !IsSafe(m) && user.Anonymous? ==> !ok
    ensures !IsSafe(m) && user.Member? && user.id != author ==> !ok
  {
    IsSafe(m) || user == Member(author)
  }

  /** The status of a denied request. */
  function DeniedStatus(user: Requester): (s: Status)
    ensures s == Unauthorized || s == Forbidden
  {
    if user.Anonymous? then Unauthorized else Forbidden
  }

  /** The object-level check: `None` when the request may go on, otherwise
      the error status it ends with. */
  function ObjectAccess(m: Method, author: UserId, user: Requester): (r: Option<Status>)
    ensures r.None? <==> HasObjectPermission(m, author, user)
    ensures r.Some? ==> (r.value == Unauthorized <==> user.Anonymous?)
    ensures r.Some? ==> (r.value == Forbidden <==> user.Member?)
  {
    if HasObjectPermission(m, author, user) then None else Some(DeniedStatus(user))
  }

  // ---------------------------------------------------------------------------
  // Properties
  // ---------------------------------------------------------------------------

  /** Reading is always permitted, whoever asks. */
  lemma SafeAlwaysPermitted(m: Method, author: UserId, user: Requester)
    requires IsSafe(m)
    ensures ObjectAccess(m, author, user) == None
  {
  }

  /** A change is permitted exactly to the object's author. */
  lemma UnsafeOnlyForAuthor(m: Method, author: UserId, user: Requester)
    requires !IsSafe(m)
    ensures ObjectAccess(m, author, user) == None <==> user == Member(author)
  {
  }

  /** A change by someone else ends with 401 when anonymous and 403 when
      authenticated. */
  lemma DeniedChange(m: Method, author: UserId, user: Requester)
    requires !IsSafe(m) && user != Member(author)
    ensures ObjectAccess(m, author, user) == Some(if user.Anonymous? then Unauthorized else Forbidden)
  {
  }
}
