/**
 * Permission classes: the project's IsAdminOrEditor and the three framework
 * classes the views use (AllowAny, IsAdminUser, IsAuthenticatedOrReadOnly),
 * and how a view's list of permission classes becomes one decision.
 */
module Permissions {
  import opened Accounts

  datatype HttpMethod = GET | HEAD | OPTIONS | POST | PUT | PATCH | DELETE

  /** The methods the framework treats as read-only. */
  const SafeMethods: set<HttpMethod> := {GET, HEAD, OPTIONS}

  datatype Request = Request(verb: HttpMethod, user: Actor)

  /** The viewset that asks; passed to every permission check. */
  datatype View = CategoryView | ArticleView | PublicArticleView | ReviewView

  datatype Permission = AllowAny | IsAdminUser | IsAuthenticatedOrReadOnly | IsAdminOrEditor

  /** A denied request is answered "not authenticated" when nobody is signed in, "forbidden" otherwise. */
  datatype Decision = Allow | NotAuthenticated | Forbidden

  /** IsAdminOrEditor.has_permission: a signed-in user whose role is ADMIN or EDITOR. */
  function AdminOrEditor(request: Request, view: View): (allowed: bool)
    ensures allowed ==> request.user.IsAuthenticated()
    ensures request.user.Member? ==> (allowed <==> request.user.role == ADMIN || request.user.role == EDITOR)
  {
    request.user.IsAuthenticated() && request.user.role in [ADMIN, EDITOR]
  }

  function HasPermission(p: Permission, request: Request, view: View): bool
  {
    match p
    case AllowAny => true
    case IsAdminUser => request.user.IsStaff()
    case IsAuthenticatedOrReadOnly => request.verb in SafeMethods || request.user.IsAuthenticated()
    case IsAdminOrEditor => AdminOrEditor(request, view)
  }

  /**
   * The framework's check_permissions: every class must allow; the first one
   * that refuses decides the kind of refusal.
   */
  function CheckPermissions(perms: seq<Permission>, request: Request, view: View): (d: Decision)
    ensures d == Allow <==> forall i :: 0 <= i < |perms| ==> HasPermission(perms[i], request, view)
    ensures d == NotAuthenticated ==> !request.user.IsAuthenticated()
    ensures d == Forbidden ==> request.user.IsAuthenticated()
  {
    if perms == [] then Allow
    else if !HasPermission(perms[0], request, view) then
      (if request.user.IsAuthenticated() then Forbidden else NotAuthenticated)
    else
      CheckPermissions(perms[1..], request, view)
  }

  /** Nobody who is not signed in passes IsAdminOrEditor. */
  lemma AdminOrEditorDeniesAnonymous(verb: HttpMethod, view: View)
    ensures !AdminOrEditor(Request(verb, Anonymous), view)
  {
  }

  /** A signed-in user with role ADMIN or EDITOR passes, whatever its staff flag. */
  lemma AdminOrEditorAllowsBothRoles(verb: HttpMethod, id: nat, isStaff: bool, role: Role, view: View)
    requires role == ADMIN || role == EDITOR
    ensures AdminOrEditor(Request(verb, Member(id, isStaff, role)), view)
  {
  }

  /** Any other role (SUBSCRIBER, a lower-case spelling, the empty role) is refused, even for staff. */
  lemma AdminOrEditorDeniesOtherRoles(verb: HttpMethod, id: nat, isStaff: bool, role: Role, view: View)
    requires role != ADMIN && role != EDITOR
    ensures !AdminOrEditor(Request(verb, Member(id, isStaff, role)), view)
  {
  }

  /** The decision depends on the user alone: neither the method nor the view matters. */
  lemma AdminOrEditorIgnoresViewAndMethod(r1: Request, r2: Request, v1: View, v2: View)
    requires r1.user == r2.user
    ensures AdminOrEditor(r1, v1) == AdminOrEditor(r2, v2)
  {
  }
}
