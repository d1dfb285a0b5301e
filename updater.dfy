/** The database updater of the XPO application module: creating a user
    behind a chain of guards, getting or creating the two built-in roles,
    and seeding the demonstration users (the non-release build). */
module DatabaseUpdate {
  import opened Wrappers
  import opened Collections
  import opened Text

  const AdministratorsRoleName := "Administrators"
  const DefaultRoleName := "Default"
  /** The password the seeded users start with. */
  const EmptyPassword := ""

  /** A role; its permission lists are not modelled. */
  datatype PermissionPolicyRole = PermissionPolicyRole(name: string, isAdministrative: bool)

  /** A user; `roles` holds indices into the object space's roles. */
  datatype ApplicationUser = ApplicationUser(userName: string, email: Option<string>, password: string, roles: set<nat>)

  datatype CreateUserError = NameOrEmailNotSpecified | DuplicateUserName | DuplicateEmail | CreationFailed

  function RoleByName(roles: seq<PermissionPolicyRole>, name: string): Option<nat> {
    FirstIndex(roles, (r: PermissionPolicyRole) => r.name == name)
  }

  /** `UserManager.FindUserByName`. */
  function UserByName(users: seq<ApplicationUser>, name: string): Option<nat> {
    FirstIndex(users, (u: ApplicationUser) => u.userName == name)
  }

  /** `FirstOrDefault<ApplicationUser>(user => user.Email == email)`. */
  function UserByEmail(users: seq<ApplicationUser>, email: string): Option<nat> {
    FirstIndex(users, (u: ApplicationUser) => u.email == Some(email))
  }

  /** The roles after getting or creating the role called `name`: unchanged
      when one exists, otherwise with one new role of that name. */
  function WithRole(roles: seq<PermissionPolicyRole>, name: string, isAdministrative: bool): seq<PermissionPolicyRole> {
    if RoleByName(roles, name).Some? then roles else roles + [PermissionPolicyRole(name, isAdministrative)]
  }

  function RoleNameFor(isAdministrator: bool): string {
    if isAdministrator then AdministratorsRoleName else DefaultRoleName
  }

  /** The guards `CreateUser` passes before it touches the object space. */
  predicate CanCreateUser(users: seq<ApplicationUser>, userName: Option<string>, email: Option<string>) {
    !IsNullOrWhiteSpace(userName) && !IsNullOrWhiteSpace(email) &&
    UserByName(users, userName.value).None? && UserByEmail(users, email.value).None?
  }

  ghost predicate UniqueUserNames(users: seq<ApplicationUser>) {
    forall i, j :: 0 <= i < j < |users| ==> users[i].userName != users[j].userName
  }

  ghost predicate UniqueEmails(users: seq<ApplicationUser>) {
    forall i, j :: 0 <= i < j < |users| && users[i].email.Some? ==> users[i].email != users[j].email
  }

  /** Get-or-create finds the role afterwards, adds at most one role, and a
      second lookup changes nothing. */
  lemma WithRoleFinds(roles: seq<PermissionPolicyRole>, name: string, isAdministrative: bool)
    ensures var r := WithRole(roles, name, isAdministrative);
      RoleByName(r, name).Some? && roles <= r && |r| <= |roles| + 1 &&
      (RoleByName(roles, name).Some? ==> r == roles) &&
      (RoleByName(roles, name).None? ==>
         RoleByName(r, name) == Some(|roles|) && r[|roles|] == PermissionPolicyRole(name, isAdministrative)) &&
      WithRole(r, name, isAdministrative) == r
  {
    AppendOne(roles, PermissionPolicyRole(name, isAdministrative), (r: PermissionPolicyRole) => r.name == name);
  }

  /** Appending a user whose name and address are not yet taken keeps names
      and addresses unique. */
  lemma AppendKeepsUnique(users: seq<ApplicationUser>, u: ApplicationUser)
    requires UserByName(users, u.userName).None?
    requires u.email.Some? ==> UserByEmail(users, u.email.value).None?
    ensures UniqueUserNames(users) ==> UniqueUserNames(users + [u])
    ensures UniqueEmails(users) ==> UniqueEmails(users + [u])
  {
    var s := users + [u];
    assert forall m :: 0 <= m < |users| ==> s[m] == users[m];
    assert s[|users|] == u;
  }

  /** The object space the updater works on: the users and roles it holds,
      saved or not (lookups see both). */
  /** The contents of an object space, as a value. */
  datatype Store = Store(users: seq<ApplicationUser>, roles: seq<PermissionPolicyRole>)

  /** Every role a user holds is a role of the store. */
  predicate RolesResolve(s: Store) {
    forall i, r :: 0 <= i < |s.users| && r in s.users[i].roles ==> r < |s.roles|
  }

  class ObjectSpace {
    var users: seq<ApplicationUser>
    var roles: seq<PermissionPolicyRole>

    function State(): Store
      reads this
    {
      Store(users, roles)
    }

    ghost predicate Valid()
      reads this
    {
      RolesResolve(State())
    }

    constructor (users: seq<ApplicationUser>, roles: seq<PermissionPolicyRole>)
      requires forall i, r :: 0 <= i < |users| && r in users[i].roles ==> r < |roles|
      ensures Valid() && this.users == users && this.roles == roles
    {
      this.users := users;
      this.roles := roles;
    }
  }

  /** Returns the first role named "Administrators", creating it, with
      `IsAdministrative` set, when there is none. */
  method GetAdminRole(objectSpace: ObjectSpace) returns (role: nat)
    requires objectSpace.Valid()
    modifies objectSpace
    ensures objectSpace.Valid() && objectSpace.users == old(objectSpace.users)
    ensures objectSpace.roles == WithRole(old(objectSpace.roles), AdministratorsRoleName, true)
    ensures RoleByName(objectSpace.roles, AdministratorsRoleName) == Some(role)
    ensures role < |objectSpace.roles| && objectSpace.roles[role].name == AdministratorsRoleName
    ensures old(RoleByName(objectSpace.roles, AdministratorsRoleName)).Some? ==>
              role == old(RoleByName(objectSpace.roles, AdministratorsRoleName)).value
    ensures old(RoleByName(objectSpace.roles, AdministratorsRoleName)).None? ==>
              objectSpace.roles[role].isAdministrative
  {
    WithRoleFinds(objectSpace.roles, AdministratorsRoleName, true);
    var adminRole := RoleByName(objectSpace.roles, AdministratorsRoleName);
    if adminRole.Some? {
      return adminRole.value;
    }
    objectSpace.roles := objectSpace.roles + [PermissionPolicyRole(AdministratorsRoleName, true)];
    role := |objectSpace.roles| - 1;
  }

  /** Returns the first role named "Default", creating it when there is none. */
  method GetDefaultRole(objectSpace: ObjectSpace) returns (role: nat)
    requires objectSpace.Valid()
    modifies objectSpace
    ensures objectSpace.Valid() && objectSpace.users == old(objectSpace.users)
    ensures objectSpace.roles == WithRole(old(objectSpace.roles), DefaultRoleName, false)
    ensures RoleByName(objectSpace.roles, DefaultRoleName) == Some(role)
    ensures role < |objectSpace.roles| && objectSpace.roles[role].name == DefaultRoleName
    ensures old(RoleByName(objectSpace.roles, DefaultRoleName)).Some? ==>
              role == old(RoleByName(objectSpace.roles, DefaultRoleName)).value
  {
    WithRoleFinds(objectSpace.roles, DefaultRoleName, false);
    var defaultRole := RoleByName(objectSpace.roles, DefaultRoleName);
    if defaultRole.Some? {
      return defaultRole.value;
    }
    objectSpace.roles := objectSpace.roles + [PermissionPolicyRole(DefaultRoleName, false)];
    role := |objectSpace.roles| - 1;
  }

  /** Creates a user named `userName` with address `email` and the role
      chosen by `isAdministrator`; `creationSucceeds` is the outcome of the
      framework's `UserManager.CreateUser`. On success, the index of the new
      user. */
  method CreateUser(objectSpace: ObjectSpace, userName: Option<string>, email: Option<string>, password: string,
                    isAdministrator: bool, creationSucceeds: bool)
    returns (r: Result<nat, CreateUserError>)
    requires objectSpace.Valid()
    modifies objectSpace
    ensures objectSpace.Valid()
    ensures IsNullOrWhiteSpace(userName) || IsNullOrWhiteSpace(email) ==> r == Failure(NameOrEmailNotSpecified)
    ensures (!IsNullOrWhiteSpace(userName) && !IsNullOrWhiteSpace(email) &&
             UserByName(old(objectSpace.users), userName.value).Some?) ==> r == Failure(DuplicateUserName)
    ensures (!IsNullOrWhiteSpace(userName) && !IsNullOrWhiteSpace(email) &&
             UserByName(old(objectSpace.users), userName.value).None? &&
             UserByEmail(old(objectSpace.users), email.value).Some?) ==> r == Failure(DuplicateEmail)
    ensures !CanCreateUser(old(objectSpace.users), userName, email) ==>
              objectSpace.users == old(objectSpace.users) && objectSpace.roles == old(objectSpace.roles)
    ensures CanCreateUser(old(objectSpace.users), userName, email) ==>
              objectSpace.roles == WithRole(old(objectSpace.roles), RoleNameFor(isAdministrator), isAdministrator)
    ensures CanCreateUser(old(objectSpace.users), userName, email) && !creationSucceeds ==>
              r == Failure(CreationFailed) && objectSpace.users == old(objectSpace.users)
    ensures r.Success? <==> CanCreateUser(old(objectSpace.users), userName, email) && creationSucceeds
    ensures r.Success? ==> RoleByName(objectSpace.roles, RoleNameFor(isAdministrator)).Some?
    ensures r.Success? ==>
              var role := RoleByName(objectSpace.roles, RoleNameFor(isAdministrator)).value;
              r.value == |old(objectSpace.users)| &&
              objectSpace.users == old(objectSpace.users) + [ApplicationUser(userName.value, email, password, {role})] &&
              objectSpace.roles[role].name == RoleNameFor(isAdministrator)
    ensures old(UniqueUserNames(objectSpace.users)) ==> UniqueUserNames(objectSpace.users)
    ensures old(UniqueEmails(objectSpace.users)) ==> UniqueEmails(objectSpace.users)
  {
    if IsNullOrWhiteSpace(userName) || IsNullOrWhiteSpace(email) {
      return Failure(NameOrEmailNotSpecified);
    }
    if UserByName(objectSpace.users, userName.value).Some? {
      return Failure(DuplicateUserName);
    }
    if UserByEmail(objectSpace.users, email.value).Some? {
      return Failure(DuplicateEmail);
    }
    var role;
    if isAdministrator {
      role := GetAdminRole(objectSpace);
    } else {
      role := GetDefaultRole(objectSpace);
    }
    if !creationSucceeds {
      return Failure(CreationFailed);
    }
    var user := ApplicationUser(userName.value, email, password, {role});
    AppendKeepsUnique(objectSpace.users, user);
    objectSpace.users := objectSpace.users + [user];
    r := Success(|objectSpace.users| - 1);
  }

  /** The state the seeding routine establishes: both roles and both
      demonstration users exist. */
  predicate IsSeeded(s: Store) {
    RoleByName(s.roles, DefaultRoleName).Some? && RoleByName(s.roles, AdministratorsRoleName).Some? &&
    UserByName(s.users, "User").Some? && UserByName(s.users, "Admin").Some?
  }

  /** One guarded step of the seeding routine, `if FindUserByName(name) ==
      null then CreateUser(name, email, EmptyPassword, isAdministrator)`:
      its outcome and the new contents of the object space. */
  function SeedStep(s: Store, name: string, email: string, isAdministrator: bool, creationSucceeds: bool)
    : (Outcome<CreateUserError>, Store)
  {
    if UserByName(s.users, name).Some? then (Pass, s)
    else if IsNullOrWhiteSpace(Some(name)) || IsNullOrWhiteSpace(Some(email)) then (Fail(NameOrEmailNotSpecified), s)
    else if UserByEmail(s.users, email).Some? then (Fail(DuplicateEmail), s)
    else
      var roleName := RoleNameFor(isAdministrator);
      var roles := WithRole(s.roles, roleName, isAdministrator);
      WithRoleFinds(s.roles, roleName, isAdministrator);
      if !creationSucceeds then (Fail(CreationFailed), Store(s.users, roles))
      else (Pass, Store(s.users + [ApplicationUser(name, Some(email), EmptyPassword, {RoleByName(roles, roleName).value})],
                        roles))
  }

  /** The non-release body of `UpdateDatabaseAfterUpdateSchema`: get or
      create "Default", then "Administrators", then seed "User" and
      "Admin", stopping at the first failure. `userManagerAccepts(name)` is
      the framework's verdict on creating the user called `name`. */
  function Seeding(s: Store, userManagerAccepts: string -> bool): (Outcome<CreateUserError>, Store) {
    var withRoles := Store(s.users, WithRole(WithRole(s.roles, DefaultRoleName, false), AdministratorsRoleName, true));
    var (r, afterUser) := SeedStep(withRoles, "User", "user@example.com", false, userManagerAccepts("User"));
    if r.Fail? then (r, afterUser)
    else SeedStep(afterUser, "Admin", "admin@example.com", true, userManagerAccepts("Admin"))
  }

  /** What one seeding step does to the roles: at most the one role it
      needs is added, and only when missing. */
  lemma SeedStepRoles(s: Store, name: string, email: string, isAdministrator: bool, creationSucceeds: bool)
    ensures var t := SeedStep(s, name, email, isAdministrator, creationSucceeds).1;
      s.roles <= t.roles && |t.roles| <= |s.roles| + 1 &&
      (RoleByName(s.roles, RoleNameFor(isAdministrator)).Some? ==> t.roles == s.roles) &&
      (|t.roles| > |s.roles| ==> t.roles[|s.roles|] == PermissionPolicyRole(RoleNameFor(isAdministrator), isAdministrator))
  {
    WithRoleFinds(s.roles, RoleNameFor(isAdministrator), isAdministrator);
  }

  /** What one seeding step does to the users: an existing user is left
      alone; otherwise either nothing is added or exactly the new user,
      with its e-mail address, the empty password and its role, and the
      step then passes. */
  lemma SeedStepUsers(s: Store, name: string, email: string, isAdministrator: bool, creationSucceeds: bool)
    ensures var (r, t) := SeedStep(s, name, email, isAdministrator, creationSucceeds);
      (UserByName(s.users, name).Some? ==> r == Pass && t == s) &&
      (r.Fail? ==> t.users == s.users) &&
      (t.users == s.users ||
       (UserByName(s.users, name).None? && UserByEmail(s.users, email).None? && r == Pass &&
        RoleByName(t.roles, RoleNameFor(isAdministrator)).Some? &&
        t.users == s.users + [ApplicationUser(name, Some(email), EmptyPassword,
                                              {RoleByName(t.roles, RoleNameFor(isAdministrator)).value})])) &&
      (r.Pass? ==> UserByName(t.users, name).Some?)
  {
    if UserByName(s.users, name).None? && !IsNullOrWhiteSpace(Some(name)) && !IsNullOrWhiteSpace(Some(email)) &&
       UserByEmail(s.users, email).None? && creationSucceeds {
      var roleName := RoleNameFor(isAdministrator);
      var roles := WithRole(s.roles, roleName, isAdministrator);
      WithRoleFinds(s.roles, roleName, isAdministrator);
      var users := s.users + [ApplicationUser(name, Some(email), EmptyPassword, {RoleByName(roles, roleName).value})];
      assert SeedStep(s, name, email, isAdministrator, creationSucceeds) == (Pass, Store(users, roles));
      assert users[|s.users|].userName == name;
    }
  }

  /** A seeding step keeps user names and e-mail addresses unique and every
      user's roles resolvable. */
  lemma SeedStepKeepsInvariants(s: Store, name: string, email: string, isAdministrator: bool, creationSucceeds: bool)
    ensures var t := SeedStep(s, name, email, isAdministrator, creationSucceeds).1;
      (UniqueUserNames(s.users) ==> UniqueUserNames(t.users)) &&
      (UniqueEmails(s.users) ==> UniqueEmails(t.users)) &&
      (RolesResolve(s) ==> RolesResolve(t))
  {
    var t := SeedStep(s, name, email, isAdministrator, creationSucceeds).1;
    SeedStepRoles(s, name, email, isAdministrator, creationSucceeds);
    SeedStepUsers(s, name, email, isAdministrator, creationSucceeds);
    if t.users != s.users {
      var u := t.users[|s.users|];
      assert t.users == s.users + [u];
      AppendKeepsUnique(s.users, u);
      if RolesResolve(s) {
        forall i, k | 0 <= i < |t.users| && k in t.users[i].roles ensures k < |t.roles| {
          if i < |s.users| { assert t.users[i] == s.users[i]; }
        }
      }
    } else if RolesResolve(s) {
      forall i, k | 0 <= i < |t.users| && k in t.users[i].roles ensures k < |t.roles| {
        assert t.users[i] == s.users[i];
      }
    }
  }

  /** Seeding keeps every existing role and adds only the missing ones of
      "Default" (not administrative) and "Administrators" (administrative),
      in that order. */
  lemma SeedingRoles(s: Store, userManagerAccepts: string -> bool)
    ensures var t := Seeding(s, userManagerAccepts).1;
      t.roles == WithRole(WithRole(s.roles, DefaultRoleName, false), AdministratorsRoleName, true) &&
      RoleByName(t.roles, DefaultRoleName).Some? && RoleByName(t.roles, AdministratorsRoleName).Some? &&
      s.roles <= t.roles && |t.roles| <= |s.roles| + 2
  {
    var roles1 := WithRole(s.roles, DefaultRoleName, false);
    var roles2 := WithRole(roles1, AdministratorsRoleName, true);
    WithRoleFinds(s.roles, DefaultRoleName, false);
    WithRoleFinds(roles1, AdministratorsRoleName, true);
    assert RoleByName(roles2, DefaultRoleName).Some? by {
      var k := RoleByName(roles1, DefaultRoleName).value;
      assert roles2[k] == roles1[k];
    }
    var withRoles := Store(s.users, roles2);
    var (r, afterUser) := SeedStep(withRoles, "User", "user@example.com", false, userManagerAccepts("User"));
    SeedStepRoles(withRoles, "User", "user@example.com", false, userManagerAccepts("User"));
    SeedStepRoles(afterUser, "Admin", "admin@example.com", true, userManagerAccepts("Admin"));
  }

  /** Two steps that each keep the users or append one user of a name not
      yet taken append, together, one of four things. */
  lemma TwoAppends(u0: seq<ApplicationUser>, u1: seq<ApplicationUser>, u2: seq<ApplicationUser>,
                   a: ApplicationUser, b: ApplicationUser)
    requires u1 == u0 || (u1 == u0 + [a] && UserByName(u0, a.userName).None?)
    requires u2 == u1 || (u2 == u1 + [b] && UserByName(u1, b.userName).None?)
    ensures u2 == u0 ||
            (u2 == u0 + [a] && UserByName(u0, a.userName).None?) ||
            (u2 == u0 + [b] && UserByName(u0, b.userName).None?) ||
            (u2 == u0 + [a, b] && UserByName(u0, a.userName).None? && UserByName(u0, b.userName).None?)
  {
    if u1 != u0 && u2 != u1 {
      assert u2 == u0 + [a, b];
      forall m | 0 <= m < |u0| ensures u0[m].userName != b.userName {
        assert u0[m] == u1[m];
      }
    }
  }

  /** The users seeding adds: existing users are kept, and at most the
      missing ones of "User" (user@example.com, the Default role) and
      "Admin" (admin@example.com, the Administrators role) are appended,
      in that order, each with the empty password. */
  lemma SeedingUsers(s: Store, userManagerAccepts: string -> bool)
    ensures var t := Seeding(s, userManagerAccepts).1;
      RoleByName(t.roles, DefaultRoleName).Some? && RoleByName(t.roles, AdministratorsRoleName).Some? &&
      var demoUser := ApplicationUser("User", Some("user@example.com"), EmptyPassword,
                                       {RoleByName(t.roles, DefaultRoleName).value});
      var demoAdmin := ApplicationUser("Admin", Some("admin@example.com"), EmptyPassword,
                                        {RoleByName(t.roles, AdministratorsRoleName).value});
      t.users == s.users ||
      (t.users == s.users + [demoUser] && UserByName(s.users, "User").None?) ||
      (t.users == s.users + [demoAdmin] && UserByName(s.users, "Admin").None?) ||
      (t.users == s.users + [demoUser, demoAdmin] &&
       UserByName(s.users, "User").None? && UserByName(s.users, "Admin").None?)
  {
    SeedingRoles(s, userManagerAccepts);
    var t := Seeding(s, userManagerAccepts).1;
    var withRoles := Store(s.users, t.roles);
    assert withRoles.roles == WithRole(WithRole(s.roles, DefaultRoleName, false), AdministratorsRoleName, true);
    var (r, afterUser) := SeedStep(withRoles, "User", "user@example.com", false, userManagerAccepts("User"));
    SeedStepUsers(withRoles, "User", "user@example.com", false, userManagerAccepts("User"));
    SeedStepRoles(withRoles, "User", "user@example.com", false, userManagerAccepts("User"));
    var demoUser := ApplicationUser("User", Some("user@example.com"), EmptyPassword,
                                    {RoleByName(t.roles, DefaultRoleName).value});
    var demoAdmin := ApplicationUser("Admin", Some("admin@example.com"), EmptyPassword,
                                     {RoleByName(t.roles, AdministratorsRoleName).value});
    assert afterUser.roles == t.roles;
    if r.Pass? {
      SeedStepUsers(afterUser, "Admin", "admin@example.com", true, userManagerAccepts("Admin"));
      TwoAppends(s.users, afterUser.users, t.users, demoUser, demoAdmin);
    } else {
      TwoAppends(s.users, afterUser.users, t.users, demoUser, demoAdmin);
    }
  }

  /** Seeding keeps user names and e-mail addresses unique and every
      user's roles resolvable. */
  lemma SeedingKeepsInvariants(s: Store, userManagerAccepts: string -> bool)
    ensures var t := Seeding(s, userManagerAccepts).1;
      (UniqueUserNames(s.users) ==> UniqueUserNames(t.users)) &&
      (UniqueEmails(s.users) ==> UniqueEmails(t.users)) &&
      (RolesResolve(s) ==> RolesResolve(t))
  {
    var roles1 := WithRole(s.roles, DefaultRoleName, false);
    WithRoleFinds(s.roles, DefaultRoleName, false);
    WithRoleFinds(roles1, AdministratorsRoleName, true);
    var withRoles := Store(s.users, WithRole(roles1, AdministratorsRoleName, true));
    assert RolesResolve(s) ==> RolesResolve(withRoles);
    var (r, afterUser) := SeedStep(withRoles, "User", "user@example.com", false, userManagerAccepts("User"));
    SeedStepKeepsInvariants(withRoles, "User", "user@example.com", false, userManagerAccepts("User"));
    SeedStepKeepsInvariants(afterUser, "Admin", "admin@example.com", true, userManagerAccepts("Admin"));
  }

  /** Seeding passes only when it leaves both roles and both users in
      place, and on a seeded database it passes and changes nothing. */
  lemma SeedingOutcome(s: Store, userManagerAccepts: string -> bool)
    ensures var (r, t) := Seeding(s, userManagerAccepts);
      (r.Pass? ==> IsSeeded(t)) &&
      (IsSeeded(s) ==> r == Pass && t == s)
  {
    SeedingRoles(s, userManagerAccepts);
    var roles1 := WithRole(s.roles, DefaultRoleName, false);
    var withRoles := Store(s.users, WithRole(roles1, AdministratorsRoleName, true));
    var (r, afterUser) := SeedStep(withRoles, "User", "user@example.com", false, userManagerAccepts("User"));
    SeedStepUsers(withRoles, "User", "user@example.com", false, userManagerAccepts("User"));
    if r.Pass? {
      var t := Seeding(s, userManagerAccepts).1;
      SeedStepUsers(afterUser, "Admin", "admin@example.com", true, userManagerAccepts("Admin"));
      assert UserByName(t.users, "User").Some? by {
        var k := UserByName(afterUser.users, "User").value;
        assert t.users == afterUser.users || t.users[..|afterUser.users|] == afterUser.users;
        assert t.users[k] == afterUser.users[k];
      }
    }
    if IsSeeded(s) {
      WithRoleFinds(s.roles, DefaultRoleName, false);
      WithRoleFinds(roles1, AdministratorsRoleName, true);
      assert withRoles == s;
    }
  }

  /** One guarded step of the seeding routine: create the user `name`
      unless a user of that name exists. */
  method CreateUserIfMissing(objectSpace: ObjectSpace, name: string, email: string, isAdministrator: bool,
                             creationSucceeds: bool) returns (r: Outcome<CreateUserError>)
    requires objectSpace.Valid()
    modifies objectSpace
    ensures objectSpace.Valid()
    ensures (r, objectSpace.State()) == SeedStep(old(objectSpace.State()), name, email, isAdministrator, creationSucceeds)
  {
    if UserByName(objectSpace.users, name).None? {
      var created := CreateUser(objectSpace, Some(name), Some(email), EmptyPassword, isAdministrator, creationSucceeds);
      if created.Failure? {
        return Fail(created.error);
      }
    }
    r := Pass;
  }

  class Updater {
    const objectSpace: ObjectSpace

    constructor (objectSpace: ObjectSpace)
      ensures this.objectSpace == objectSpace
    {
      this.objectSpace := objectSpace;
    }

    /** `UpdateDatabaseAfterUpdateSchema` in a non-release build.
        `userManagerAccepts(name)` is the framework's verdict on creating the
        user called `name`. */
    method UpdateDatabaseAfterUpdateSchema(userManagerAccepts: string -> bool) returns (r: Outcome<CreateUserError>)
      requires objectSpace.Valid()
      modifies objectSpace
      ensures objectSpace.Valid()
      ensures (r, objectSpace.State()) == Seeding(old(objectSpace.State()), userManagerAccepts)
    {
      var defaultRole := GetDefaultRole(objectSpace);
      var adminRole := GetAdminRole(objectSpace);
      r := CreateUserIfMissing(objectSpace, "User", "user@example.com", false, userManagerAccepts("User"));
      if r.Fail? {
        return;
      }
      r := CreateUserIfMissing(objectSpace, "Admin", "admin@example.com", true, userManagerAccepts("Admin"));
    }
  }
}
