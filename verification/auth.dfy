/**
 * Sign-in with email and password: the credentials provider's `authorize`
 * (look the admin up by email, then check the password against the stored
 * hash) and the two callbacks that carry the admin's id from the sign-in
 * result into the token and from the token into the session.
 * The hash comparison is a parameter `matches(password, hash)`.
 */
module Auth {
  import opened Common
  import opened Schema

  /** The submitted form: each field may be absent. */
  datatype CredentialsData = CredentialsData(email: Option<string>, password: Option<string>)

  /** What a successful sign-in returns: no password hash. */
  datatype AuthUser = AuthUser(id: Id, email: string, name: Option<string>)

  /** A field is truthy: present and not the empty string. */
  predicate Filled(field: Option<string>)
  {
    field.Some? && field.value != ""
  }

  /** The admin rows `where email = ... limit 1` can return: the first with that email, if any. */
  function FindAdminByEmail(admins: seq<Admin>, email: string): (r: Option<Admin>)
    ensures r.Some? ==> r.value in admins && r.value.email == email
    ensures r.None? <==> forall i :: 0 <= i < |admins| ==> admins[i].email != email
  {
    First(admins, (a: Admin) => a.email == email)
  }

  /** With unique emails the lookup finds the one admin that has the email. */
  lemma FindAdminByEmailUnique(admins: seq<Admin>, i: nat)
    requires i < |admins|
    requires forall j, k :: 0 <= j < k < |admins| ==> admins[j].email != admins[k].email
    ensures FindAdminByEmail(admins, admins[i].email) == Some(admins[i])
  {
    var found := FindAdminByEmail(admins, admins[i].email);
    var j :| 0 <= j < |admins| && admins[j] == found.value;
  }

  /**
   * `authorize`: null unless both fields are filled, an admin has that email,
   * and the password matches that admin's hash; then the admin's id, email and
   * name.
   */
  function Authorize(admins: seq<Admin>, credentials: Option<CredentialsData>,
                     matches: (string, string) -> bool): (r: Option<AuthUser>)
    ensures credentials.None? || !Filled(credentials.value.email) || !Filled(credentials.value.password) ==> r.None?
    ensures (&& credentials.Some? && credentials.value.email.Some?
             && forall i :: 0 <= i < |admins| ==> admins[i].email != credentials.value.email.value) ==> r.None?
    ensures r.Some? ==>
      exists i :: 0 <= i < |admins|
        && admins[i].email == credentials.value.email.value
        && matches(credentials.value.password.value, admins[i].passwordHash)
        && r.value == AuthUser(admins[i].id, admins[i].email, admins[i].name)
    ensures r.Some? ==> r.value.email == credentials.value.email.value
  {
    if credentials.None? || !Filled(credentials.value.email) || !Filled(credentials.value.password) then None
    else
      var email := credentials.value.email.value;
      var password := credentials.value.password.value;
      match FindAdminByEmail(admins, email)
      case None => None
      case Some(admin) =>
        if !matches(password, admin.passwordHash) then None
        else Some(AuthUser(admin.id, admin.email, admin.name))
  }

  /**
   * In a well-formed admins table the sign-in succeeds exactly when both fields
   * are filled, an admin has that email and the password matches its hash; an
   * unknown email and a wrong password give the same null.
   */
  lemma AuthorizeSucceedsIff(admins: seq<Admin>, email: string, password: string, matches: (string, string) -> bool)
    requires AdminsWellFormed(admins)
    requires email != "" && password != ""
    ensures var r := Authorize(admins, Some(CredentialsData(Some(email), Some(password))), matches);
      r.Some? <==> exists i :: 0 <= i < |admins| && admins[i].email == email && matches(password, admins[i].passwordHash)
    ensures forall i :: 0 <= i < |admins| && admins[i].email == email && matches(password, admins[i].passwordHash) ==>
      Authorize(admins, Some(CredentialsData(Some(email), Some(password))), matches)
        == Some(AuthUser(admins[i].id, email, admins[i].name))
  {
    forall i | 0 <= i < |admins| && admins[i].email == email
      ensures FindAdminByEmail(admins, email) == Some(admins[i])
    {
      FindAdminByEmailUnique(admins, i);
    }
  }

  /**
   * The result sees the stored hashes only through `matches`: two tables with
   * the same ids, emails and names whose hashes the comparison answers alike
   * for the submitted password give the same result.
   */
  lemma {:induction false} AuthorizeSeesHashOnlyThroughMatches(
    admins1: seq<Admin>, admins2: seq<Admin>, email: string, password: string,
    matches1: (string, string) -> bool, matches2: (string, string) -> bool)
    requires |admins1| == |admins2|
    requires forall i :: 0 <= i < |admins1| ==>
      && admins1[i].id == admins2[i].id && admins1[i].email == admins2[i].email && admins1[i].name == admins2[i].name
      && matches1(password, admins1[i].passwordHash) == matches2(password, admins2[i].passwordHash)
    ensures Authorize(admins1, Some(CredentialsData(Some(email), Some(password))), matches1)
         == Authorize(admins2, Some(CredentialsData(Some(email), Some(password))), matches2)
    decreases |admins1|
  {
    if admins1 != [] && admins1[0].email != email {
      AuthorizeSeesHashOnlyThroughMatches(admins1[1..], admins2[1..], email, password, matches1, matches2);
    }
  }

  /** The token: the claims NextAuth keeps, with the `id` claim this code adds. */
  class Token {
    var id: Option<Id>
    var email: Option<string>
    var name: Option<string>

    constructor (id: Option<Id>, email: Option<string>, name: Option<string>)
      ensures this.id == id && this.email == email && this.name == name
    {
      this.id := id;
      this.email := email;
      this.name := name;
    }

    /** The `jwt` callback: on sign-in (a user is given) copy the user's id; otherwise leave the token as it is. */
    method Jwt(user: Option<AuthUser>)
      modifies this
      ensures user.Some? ==> id == Some(user.value.id)
      ensures user.None? ==> id == old(id)
      ensures email == old(email) && name == old(name)
    {
      if user.Some? {
        id := Some(user.value.id);
      }
    }
  }

  /** The user part of a session. */
  class SessionUser {
    var id: Option<Id>
    var email: Option<string>
    var name: Option<string>

    constructor (id: Option<Id>, email: Option<string>, name: Option<string>)
      ensures this.id == id && this.email == email && this.name == name
    {
      this.id := id;
      this.email := email;
      this.name := name;
    }
  }

  class Session {
    const user: Option<SessionUser>

    constructor (user: Option<SessionUser>)
      ensures this.user == user
    {
      this.user := user;
    }

    /** The `session` callback: when the session has a user, set its id from the token; nothing else changes. */
    method FromToken(token: Token)
      modifies if user.Some? then {user.value} else {}
      ensures user.Some? ==> user.value.id == old(token.id)
      ensures user.Some? ==> user.value.email == old(user.value.email) && user.value.name == old(user.value.name)
    {
      if user.Some? {
        user.value.id := token.id;
      }
    }
  }

  /**
   * One round of the callbacks: the user `authorize` gives (none on a failed
   * sign-in, and none on every later request, where NextAuth passes no user),
   * then `jwt`, then `session`. A signed-in admin's id lands in the token and
   * the session; without a user the token keeps the id an earlier round put
   * there and the session shows that id.
   */
  method CallbackRound(admins: seq<Admin>, credentials: Option<CredentialsData>, matches: (string, string) -> bool,
                token: Token, session: Session) returns (user: Option<AuthUser>)
    requires session.user.Some?
    modifies token, session.user.value
    ensures user == Authorize(admins, credentials, matches)
    ensures user.Some? ==> token.id == Some(user.value.id) && session.user.value.id == Some(user.value.id)
    ensures user.None? ==> token.id == old(token.id) && session.user.value.id == old(token.id)
    ensures token.email == old(token.email) && token.name == old(token.name)
    ensures session.user.value.email == old(session.user.value.email) && session.user.value.name == old(session.user.value.name)
  {
    user := Authorize(admins, credentials, matches);
    token.Jwt(user);
    session.FromToken(token);
  }
}
