/**
 * The user service's security adapter (`CustomUserDetailsService`): how a user
 * row found by e-mail becomes the account view the authentication framework
 * checks, and how the role's permissions string becomes its authorities.
 */
module UserDetails {

  import opened Wrappers
  import opened JavaString
  import opened Roles

  /**
   * A user row as the adapter reads it: the password hash, the active flag and
   * the assigned role, each of which may be null. The e-mail is the key the
   * repository finds the row under.
   */
  datatype UserAccount = UserAccount(password: Option<string>, active: Option<bool>, role: Option<Role>)

  /** The account view the framework receives; it keeps the authorities as a set. */
  datatype AccountView = AccountView(
    username: string, password: string,
    enabled: bool, accountNonExpired: bool, credentialsNonExpired: bool, accountNonLocked: bool,
    authorities: set<string>)

  datatype LoadError =
    | UserNotFound      // no row for the e-mail
    | NullActive        // unboxing a null active flag
    | EmptyCredentials  // the framework refuses an empty username or a null password

  /** The role object a user row refers to, as a frame. */
  function RoleFrame(u: UserAccount): set<Role>
  {
    if u.role.Some? then {u.role.value} else {}
  }

  /** A role with a null or empty permissions string grants only its role authority. */
  predicate NoPermissions(perms: Option<string>)
  {
    perms.None? || perms.value == []
  }

  /** One `PERMISSION_` authority per piece, in order, untrimmed. */
  function PermissionAuthorities(ps: seq<string>): (r: seq<string>)
    ensures |r| == |ps|
    ensures forall i :: 0 <= i < |ps| ==> r[i] == "PERMISSION_" + ps[i]
  {
    if ps == [] then [] else ["PERMISSION_" + ps[0]] + PermissionAuthorities(ps[1..])
  }

  /**
   * `getAuthorities(user)`: nothing without a role, `ROLE_<name>` alone when
   * the role has no permissions, else one authority per comma-separated piece.
   */
  function Authorities(u: UserAccount): (r: seq<string>)
    reads RoleFrame(u)
    ensures u.role.None? ==> r == []
    ensures u.role.Some? && NoPermissions(u.role.value.permissions) ==> r == ["ROLE_" + u.role.value.name]
    ensures u.role.Some? && !NoPermissions(u.role.value.permissions) ==>
              var ps := Split(u.role.value.permissions.value, ',');
              |r| == |ps| && forall i :: 0 <= i < |ps| ==> r[i] == "PERMISSION_" + ps[i]
  {
    if u.role.None? then []
    else if NoPermissions(u.role.value.permissions) then ["ROLE_" + u.role.value.name]
    else PermissionAuthorities(Split(u.role.value.permissions.value, ','))
  }

  /**
   * A role whose permissions are tokens joined by commas grants exactly the
   * `PERMISSION_` form of the tokens the role service lists for it.
   */
  lemma AuthoritiesOfTokens(u: UserAccount, ts: seq<string>)
    requires u.role.Some? && u.role.value.permissions == Some(Join(ts, ','))
    requires ts != [] && forall i :: 0 <= i < |ts| ==> IsToken(ts[i])
    ensures Authorities(u) == PermissionAuthorities(PermissionList(u.role.value.permissions))
    ensures Authorities(u) == PermissionAuthorities(ts)
  {
    SplitOfJoin(ts);
    PermissionListOfJoin(ts);
  }

  /**
   * The pieces are not trimmed: `"a, b"` grants `PERMISSION_a` and
   * `PERMISSION_ b`, whatever the pieces hold besides commas.
   */
  lemma AuthoritiesKeepSpaces(u: UserAccount, x: string, y: string)
    requires u.role.Some? && u.role.value.permissions == Some(x + [','] + y)
    requires ',' !in x && ',' !in y && y != []
    ensures Authorities(u) == ["PERMISSION_" + x, "PERMISSION_" + y]
  {
    var s := x + [','] + y;
    PiecesOfConcat(x, ',', y);
    assert Pieces(y, ',') == [y];
    assert Pieces(s, ',') == [x, y];
    assert Split(s, ',') == [x, y];
  }

  lemma {:induction false} SeparatorPieces(s: string)
    requires forall i :: 0 <= i < |s| ==> s[i] == ','
    ensures forall j :: 0 <= j < |Pieces(s, ',')| ==> Pieces(s, ',')[j] == []
  {
    if s != [] {
      SeparatorPieces(s[1..]);
    }
  }

  /** A permissions string made only of commas grants nothing, not even the role authority. */
  lemma SeparatorsGrantNothing(u: UserAccount)
    requires u.role.Some? && u.role.value.permissions.Some? && u.role.value.permissions.value != []
    requires var s := u.role.value.permissions.value; forall i :: 0 <= i < |s| ==> s[i] == ','
    ensures Authorities(u) == []
  {
    var s := u.role.value.permissions.value;
    SeparatorPieces(s);
    var r := Split(s, ',');
    assert r == DropTrailingEmpty(Pieces(s, ','));
  }

  /** The view built from a row whose flag and password are present. */
  function Assemble(email: string, u: UserAccount, nonLocked: bool): (r: Result<AccountView, LoadError>)
    requires u.active.Some?
    reads RoleFrame(u)
  {
    if email == [] || u.password.None? then Err(EmptyCredentials)
    else
      var granted := Authorities(u);
      Ok(AccountView(email, u.password.value, u.active.value, true, true, nonLocked, set a | a in granted))
  }

  /** The row the repository finds for an e-mail, as a frame. */
  function FoundFrame(users: map<string, UserAccount>, email: string): set<Role>
  {
    if email in users then RoleFrame(users[email]) else {}
  }

  /**
   * `loadUserByUsername(email)` as written: an unknown e-mail is an error, a
   * null active flag fails on unboxing, and otherwise `enabled` is the flag and
   * `accountNonLocked` its negation.
   */
  function LoadUserByUsername(users: map<string, UserAccount>, email: string): (r: Result<AccountView, LoadError>)
    reads FoundFrame(users, email)
    ensures r == Err(UserNotFound) <==> email !in users
    ensures email in users && users[email].active.None? ==> r == Err(NullActive)
    ensures r.Ok? <==> email in users && users[email].active.Some? && email != [] && users[email].password.Some?
    ensures r.Ok? ==>
              && r.value.username == email && Some(r.value.password) == users[email].password
              && Some(r.value.enabled) == users[email].active
              && r.value.accountNonLocked == !r.value.enabled
              && r.value.accountNonExpired && r.value.credentialsNonExpired
              && r.value.authorities == set a | a in Authorities(users[email])
  {
    if email !in users then Err(UserNotFound)
    else if users[email].active.None? then Err(NullActive)
    else Assemble(email, users[email], !users[email].active.value)
  }

  /** The framework lets an account sign in only when all four flags hold. */
  predicate CanSignIn(v: AccountView)
  {
    v.enabled && v.accountNonExpired && v.credentialsNonExpired && v.accountNonLocked
  }

  /** As written, no account the adapter produces can sign in: active ones come out locked. */
  lemma NoLoadedAccountCanSignIn(users: map<string, UserAccount>, email: string)
    requires LoadUserByUsername(users, email).Ok?
    ensures !CanSignIn(LoadUserByUsername(users, email).value)
    ensures users[email].active == Some(true) ==> !LoadUserByUsername(users, email).value.accountNonLocked
  {
  }

  /** `loadUserByUsername` with an inactive account locked, as the source's comment intends. */
  function LoadUserByUsernameIntended(users: map<string, UserAccount>, email: string): (r: Result<AccountView, LoadError>)
    reads FoundFrame(users, email)
    ensures r.Ok? <==> LoadUserByUsername(users, email).Ok?
    ensures r.Err? ==> r == LoadUserByUsername(users, email)
    ensures r.Ok? ==> r.value == LoadUserByUsername(users, email).value.(accountNonLocked := r.value.enabled)
  {
    if email !in users then Err(UserNotFound)
    else if users[email].active.None? then Err(NullActive)
    else Assemble(email, users[email], users[email].active.value)
  }

  /** With the intended flag an account signs in exactly when its row is active. */
  lemma IntendedSignInFollowsActive(users: map<string, UserAccount>, email: string)
    requires LoadUserByUsernameIntended(users, email).Ok?
    ensures CanSignIn(LoadUserByUsernameIntended(users, email).value) <==> users[email].active == Some(true)
  {
  }
}
