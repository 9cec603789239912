/** The stand-alone librarian page module of the `django-models` app: a
    role-gated `librarian_view` that a second, ungated definition of the same
    name replaces when the module is loaded. */
module LibrarianPage {
  import opened Auth
  import opened Web
  import opened Roles

  const WelcomeText := "Welcome, Librarian! This view is restricted to Librarian users."
  const ProfilesTemplate := "relationship_app/librarian_view.html"

  /** The first `librarian_view`, behind `@user_passes_test(is_librarian)`. */
  function ShadowedView(u: User): (r: Response)
    ensures r == Body(WelcomeText) <==> IsLibrarian(u)
    ensures !IsLibrarian(u) ==> r == LoginRedirect
  {
    match UserPassesTest(IsLibrarian(u))
    case Some(denied) => denied
    case None => Body(WelcomeText)
  }

  /** What the view renders: the response and the profile rows in its context. */
  datatype ProfilesPage = ProfilesPage(response: Response, profiles: seq<Profile>)

  /** The second `librarian_view`, which is the one the name refers to:
      it lists every `UserProfile` row and checks no role at all. */
  function EffectiveView(u: User, profiles: seq<Profile>): (r: ProfilesPage)
    ensures r.response == Page(ProfilesTemplate) && r.profiles == profiles
  {
    ProfilesPage(Page(ProfilesTemplate), profiles)
  }

  /** The exported view answers every user alike, so the role gate is gone. */
  lemma EffectiveViewIgnoresUser(u1: User, u2: User, profiles: seq<Profile>)
    ensures EffectiveView(u1, profiles) == EffectiveView(u2, profiles)
  {
  }

  /** Every user the decorated definition turns away (anonymous, or signed
      in without the Librarian role) gets the profile page from the one that
      replaced it. */
  lemma RoleGateDropped(u: User, profiles: seq<Profile>)
    requires !IsLibrarian(u)
    ensures ShadowedView(u) == LoginRedirect
    ensures EffectiveView(u, profiles) == ProfilesPage(Page(ProfilesTemplate), profiles)
  {
  }
}
