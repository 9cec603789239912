/** The role predicates `is_admin` / `is_librarian` / `is_member` and the
    dashboards they gate, written identically in both `relationship_app`s. */
module Roles {
  import opened Wrappers
  import opened Auth
  import opened Web

  datatype Role = Admin | Librarian | Member

  /** The text stored in `UserProfile.role` for each role. */
  function RoleName(r: Role): string {
    match r
    case Admin => "Admin"
    case Librarian => "Librarian"
    case Member => "Member"
  }

  /** `hasattr(user, 'userprofile') and user.userprofile.role == RoleName(r)`:
      the anonymous user and a user without a profile have no role. */
  predicate HasRole(u: User, r: Role) {
    u.Registered? && u.profile.Some? && u.profile.value.role == RoleName(r)
  }

  predicate IsAdmin(u: User) {
    HasRole(u, Admin)
  }

  predicate IsLibrarian(u: User) {
    HasRole(u, Librarian)
  }

  predicate IsMember(u: User) {
    HasRole(u, Member)
  }

  /** An independent reading of the stored role: decode the profile text, if any. */
  function RoleOf(u: User): (r: Option<Role>)
    ensures u.Anonymous? || u.profile.None? ==> r.None?
    ensures r.Some? ==> u.Registered? && u.profile.Some? && RoleName(r.value) == u.profile.value.role
  {
    if u.Anonymous? || u.profile.None? then None
    else if u.profile.value.role == "Admin" then Some(Admin)
    else if u.profile.value.role == "Librarian" then Some(Librarian)
    else if u.profile.value.role == "Member" then Some(Member)
    else None
  }

  /** Each role predicate holds exactly when the decoded role is that role. */
  lemma {:induction false} HasRoleIffRoleOf(u: User, r: Role)
    ensures HasRole(u, r) <==> RoleOf(u) == Some(r)
  {
    if HasRole(u, r) {
      match r
      case Admin =>
      case Librarian =>
        assert u.profile.value.role != "Admin" by {
          assert u.profile.value.role[0] == 'L';
        }
      case Member =>
        assert u.profile.value.role != "Admin" by {
          assert u.profile.value.role[0] == 'M';
        }
        assert u.profile.value.role != "Librarian" by {
          assert u.profile.value.role[0] == 'M';
        }
    }
  }

  /** No user satisfies two different role predicates. */
  lemma AtMostOneRole(u: User, r1: Role, r2: Role)
    requires HasRole(u, r1) && HasRole(u, r2)
    ensures r1 == r2
  {
    HasRoleIffRoleOf(u, r1);
    HasRoleIffRoleOf(u, r2);
  }

  /** Without a profile all three role predicates are false. */
  lemma NoProfileNoRole(u: User)
    requires u.Anonymous? || u.profile.None?
    ensures !IsAdmin(u) && !IsLibrarian(u) && !IsMember(u)
  {
  }

  function DashboardTemplate(r: Role): string {
    match r
    case Admin => "relationship_app/admin_view.html"
    case Librarian => "relationship_app/librarian_view.html"
    case Member => "relationship_app/member_view.html"
  }

  /** `admin_view` / `librarian_view` / `member_view` behind `@user_passes_test(is_<role>)`. */
  function RoleView(required: Role, u: User): (r: Response)
    ensures r.Page? <==> RoleOf(u) == Some(required)
    ensures !r.Page? ==> r == LoginRedirect
  {
    HasRoleIffRoleOf(u, required);
    match UserPassesTest(HasRole(u, required))
    case Some(denied) => denied
    case None => Page(DashboardTemplate(required))
  }
}
