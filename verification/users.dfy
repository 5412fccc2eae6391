/** Users, projects and the project access rule. */
module Users {

  type UserId = nat
  type NetworkId = nat

  /** A user row, with the login state the web layer attaches to it. Users compare equal when
      their e-mail addresses do (`User.__eq__`). */
  datatype User = User(id: UserId, email: string, authenticated: bool, roles: set<string>)

  const AdminRole := "admin"

  predicate IsAdmin(u: User) {
    AdminRole in u.roles
  }

  /** A project: a named group of users sharing a set of networks. */
  datatype Project = Project(id: nat, name: string, users: seq<User>, networks: seq<NetworkId>)

  /** `Project.has_user`: membership is decided by user id, not by e-mail. */
  predicate HasUser(p: Project, u: User) {
    exists i :: 0 <= i < |p.users| && p.users[i].id == u.id
  }

  /** `User.has_project_rights`: only a logged-in user has rights, and then an administrator
      has rights to every project and anyone else only to projects listing them. */
  function HasProjectRights(u: User, p: Project): (r: bool)
    ensures r ==> u.authenticated
    ensures u.authenticated && IsAdmin(u) ==> r
    ensures u.authenticated && (exists i :: 0 <= i < |p.users| && p.users[i].id == u.id) ==> r
    ensures r && !IsAdmin(u) ==> exists i :: 0 <= i < |p.users| && p.users[i].id == u.id
  {
    u.authenticated && (IsAdmin(u) || HasUser(p, u))
  }
}
