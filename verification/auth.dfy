/** The requesting user, as Django's authentication layer hands it to a view,
    and the permission test of the default model backend. */
module Auth {
  import opened Wrappers

  /** The `UserProfile` row attached one-to-one to a user; `role` is the stored text. */
  datatype Profile = Profile(role: string)

  /** `request.user`: the anonymous user or a stored user account. */
  datatype User =
    | Anonymous
    | Registered(id: nat, isActive: bool, isStaff: bool, isSuperuser: bool,
                 perms: set<string>, profile: Option<Profile>)

  /** `user.has_perm(perm)` with the model backend: an active superuser holds
      every permission, an inactive or anonymous user holds none. */
  predicate HasPerm(u: User, perm: string) {
    u.Registered? && u.isActive && (u.isSuperuser || perm in u.perms)
  }

  /** `request.user == obj.author`: users compare by primary key, and the
      anonymous user equals no stored user. */
  predicate IsUser(u: User, id: nat) {
    u.Registered? && u.id == id
  }
}
