/** What a server-rendered view answers, and the access decorators and mixins
    that run before a view body. */
module Web {
  import opened Wrappers
  import opened Auth

  datatype Method = GET | HEAD | OPTIONS | POST | PUT | PATCH | DELETE

  /** The methods that only read (`SAFE_METHODS` of the REST framework). */
  predicate IsSafe(m: Method) {
    m == GET || m == HEAD || m == OPTIONS
  }

  datatype Response =
    | Page(template: string)          // 200: a rendered template
    | Body(text: string)              // 200: a literal response body
    | FormErrors(messages: seq<string>) // 200: the form shown again with its errors
    | Redirect(route: string)         // 302 to a named route
    | LoginRedirect                   // 302 to the login page
    | Forbidden                       // 403
    | NotFound                        // 404
    | MethodNotAllowed                // 405
    | AllowHeader                     // 200: the answer to OPTIONS
    | ServerError                     // 500: an exception the view does not catch

  /** A response together with the store the request leaves behind. */
  datatype Outcome<S> = Outcome(response: Response, store: S)

  /** How a generic class-based view routes a request method. */
  datatype Handler = Show | Submit | Options | Unsupported

  /** `CreateView`/`UpdateView`: `get` (and `head`), `post` and `put`. */
  function FormViewHandler(m: Method): Handler {
    match m
    case GET => Show
    case HEAD => Show
    case POST => Submit
    case PUT => Submit
    case OPTIONS => Options
    case _ => Unsupported
  }

  /** `DeleteView`: `get` (and `head`), `post` and `delete`. */
  function DeleteViewHandler(m: Method): Handler {
    match m
    case GET => Show
    case HEAD => Show
    case POST => Submit
    case DELETE => Submit
    case OPTIONS => Options
    case _ => Unsupported
  }

  /** The response for a handler that does not touch the store. */
  function PassiveResponse(h: Handler, template: string): Response
    requires h != Submit
  {
    match h
    case Show => Page(template)
    case Options => AllowHeader
    case Unsupported => MethodNotAllowed
  }

  /** `@permission_required(perm, raise_exception=...)`; `None` lets the view body run. */
  function PermissionRequired(u: User, perm: string, raiseException: bool): Option<Response> {
    if HasPerm(u, perm) then None
    else if raiseException then Some(Forbidden)
    else Some(LoginRedirect)
  }

  /** `@user_passes_test(test)`: a failed test sends the user to the login page. */
  function UserPassesTest(passed: bool): Option<Response> {
    if passed then None else Some(LoginRedirect)
  }

  /** `LoginRequiredMixin` followed by `UserPassesTestMixin` whose `test_func`
      fetches the object (`author` is `None` when no row has the key) and
      compares its author with the requester. */
  function OwnerOnly(u: User, author: Option<nat>): Option<Response> {
    if !u.Registered? then Some(LoginRedirect)
    else if author.None? then Some(NotFound)
    else if !IsUser(u, author.value) then Some(Forbidden)
    else None
  }
}
