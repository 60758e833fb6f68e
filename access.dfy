/**
 * Login, the login audit, the role-based menu and the user table's two
 * updates (create user, change password). Identity and role are passed in
 * explicitly; the clock reading is a parameter.
 */
module Access {
  import opened Tables

  // ---------------------------------------------------------------------
  // Login check
  // ---------------------------------------------------------------------

  /** What a successful login stores for the rest of the session. */
  datatype Session = Session(email: string, name: string, role: string)

  /** Row `i` is the first row of the user table with this email. */
  predicate IsFirstWithEmail(users: seq<User>, email: string, i: int)
  {
    && 0 <= i < |users|
    && users[i].email == email
    && forall j :: 0 <= j < i ==> users[j].email != email
  }

  /** The index of the first row with this email, if any. */
  function FirstWithEmail(users: seq<User>, email: string): (r: Option<nat>)
    ensures r.None? <==> forall i :: 0 <= i < |users| ==> users[i].email != email
    ensures r.Some? ==> IsFirstWithEmail(users, email, r.value)
  {
    if users == [] then None
    else if users[0].email == email then Some(0)
    else
      match FirstWithEmail(users[1..], email)
      case None => None
      case Some(i) => Some(i + 1)
  }

  /**
   * The credential check: it succeeds exactly when some row has the entered
   * email and the entered password equals the password of the first such
   * row; the session then carries the entered email and that row's name and
   * role.
   */
  function CheckLogin(users: seq<User>, email: string, password: string): (s: Option<Session>)
    ensures s.Some? <==> exists i :: IsFirstWithEmail(users, email, i) && users[i].password == password
    ensures s.Some? ==>
      exists i :: IsFirstWithEmail(users, email, i) && s.value == Session(email, users[i].name, users[i].role)
  {
    match FirstWithEmail(users, email)
    case None => None
    case Some(i) =>
      FirstIsUnique(users, email, i);
      if password == users[i].password then Some(Session(email, users[i].name, users[i].role))
      else None
  }

  lemma FirstIsUnique(users: seq<User>, email: string, i: int)
    requires IsFirstWithEmail(users, email, i)
    ensures forall j :: IsFirstWithEmail(users, email, j) ==> j == i
  {
  }

  /** The login audit as read from its file. */
  class LoginAudit {
    var entries: seq<AuditEntry>

    constructor Load(audit: seq<AuditEntry>)
      ensures entries == audit
    {
      entries := audit;
    }

    /**
     * The "Login" button: check the credentials; on success append exactly one
     * audit row (entered email, the user's role, the time read), otherwise
     * leave the audit as it was.
     */
    method Login(users: seq<User>, email: string, password: string, now: Time) returns (session: Option<Session>)
      modifies this
      ensures session == CheckLogin(users, email, password)
      ensures session.Some? ==> entries == old(entries) + [AuditEntry(email, session.value.role, now)]
      ensures session.None? ==> entries == old(entries)
    {
      session := CheckLogin(users, email, password);
      if session.Some? {
        entries := entries + [AuditEntry(email, session.value.role, now)];
      }
    }
  }

  // ---------------------------------------------------------------------
  // Navigation
  // ---------------------------------------------------------------------

  datatype MenuItem = DashboardPage | TrackingPage | RcaUpdatePage | DownloadPage | AdminPanelPage

  /**
   * The sidebar choices: every role other than exactly "user" is offered the
   * full list, including Download and Admin Panel.
   */
  function MenuFor(role: string): (menu: seq<MenuItem>)
    ensures |menu| == if role == "user" then 3 else 5
    ensures menu[..3] == [DashboardPage, TrackingPage, RcaUpdatePage]
    ensures role != "user" ==> menu[3..] == [DownloadPage, AdminPanelPage]
    ensures DownloadPage in menu <==> role != "user"
    ensures AdminPanelPage in menu <==> role != "user"
  {
    if role != "user" then [DashboardPage, TrackingPage, RcaUpdatePage, DownloadPage, AdminPanelPage]
    else [DashboardPage, TrackingPage, RcaUpdatePage]
  }

  // ---------------------------------------------------------------------
  // User table updates
  // ---------------------------------------------------------------------

  /** The user table with the password replaced on every row of `email`. */
  function WithPassword(users: seq<User>, email: string, password: string): seq<User>
  {
    seq(|users|, i requires 0 <= i < |users| =>
      if users[i].email == email then users[i].(password := password) else users[i])
  }

  /** The user table as read from the users sheet. */
  class UserDirectory {
    var users: seq<User>

    constructor Load(table: seq<User>)
      ensures users == table
    {
      users := table;
    }

    /** "Create User": the new row goes after the existing ones; nothing is checked. */
    method CreateUser(email: string, role: string, name: string, password: string)
      modifies this
      ensures users == old(users) + [User(email, role, name, password)]
    {
      users := users + [User(email, role, name, password)];
    }

    /** "Update Password": every row of the session's email gets the new password; other rows are unchanged. */
    method ChangePassword(sessionEmail: string, newPassword: string)
      modifies this
      ensures users == WithPassword(old(users), sessionEmail, newPassword)
      ensures |users| == |old(users)|
      ensures forall i :: 0 <= i < |users| && old(users)[i].email != sessionEmail ==> users[i] == old(users)[i]
      ensures forall i :: 0 <= i < |users| && old(users)[i].email == sessionEmail ==>
        users[i] == old(users)[i].(password := newPassword)
    {
      users := WithPassword(users, sessionEmail, newPassword);
    }
  }

  /**
   * After a password change, the session's email (when it has a row) logs in
   * with exactly the new password and with no other, the old one included;
   * every other email logs in exactly as before.
   */
  lemma PasswordChangeThenLogin(users: seq<User>, email: string, password: string)
    ensures (exists i :: 0 <= i < |users| && users[i].email == email) ==>
      forall p :: CheckLogin(WithPassword(users, email, password), email, p).Some? <==> p == password
    ensures forall other, p :: other != email ==>
      CheckLogin(WithPassword(users, email, password), other, p) == CheckLogin(users, other, p)
  {
    var updated := WithPassword(users, email, password);
    assert forall i :: 0 <= i < |users| ==> updated[i].email == users[i].email;
    if exists i :: 0 <= i < |users| && users[i].email == email {
      var f := FirstWithEmail(users, email);
      var i := f.value;
      assert IsFirstWithEmail(updated, email, i);
      FirstIsUnique(updated, email, i);
      assert updated[i].password == password;
    }
    forall other, p | other != email
      ensures CheckLogin(updated, other, p) == CheckLogin(users, other, p)
    {
      SameLoginWhereUnchanged(users, updated, other, p);
    }
  }

  lemma SameLoginWhereUnchanged(users: seq<User>, updated: seq<User>, email: string, p: string)
    requires |updated| == |users|
    requires forall i :: 0 <= i < |users| ==> updated[i].email == users[i].email
    requires forall i :: 0 <= i < |users| && users[i].email == email ==> updated[i] == users[i]
    ensures CheckLogin(updated, email, p) == CheckLogin(users, email, p)
  {
    var f := FirstWithEmail(users, email);
    if f.Some? {
      assert IsFirstWithEmail(updated, email, f.value);
      FirstIsUnique(updated, email, f.value);
    } else {
      assert forall i :: 0 <= i < |updated| ==> updated[i].email != email;
    }
  }

  /**
   * A created user logs in with its password, and with no other, when its
   * email was new; when the email already had a row, that earlier row still
   * decides every login. Every other email logs in exactly as before.
   */
  lemma CreatedUserLogin(users: seq<User>, email: string, role: string, name: string, password: string)
    ensures (forall i :: 0 <= i < |users| ==> users[i].email != email) ==>
      CheckLogin(users + [User(email, role, name, password)], email, password) == Some(Session(email, name, role))
    ensures (forall i :: 0 <= i < |users| ==> users[i].email != email) ==>
      forall p :: p != password ==> CheckLogin(users + [User(email, role, name, password)], email, p).None?
    ensures forall other, p :: other != email ==>
      CheckLogin(users + [User(email, role, name, password)], other, p) == CheckLogin(users, other, p)
    ensures (exists i :: 0 <= i < |users| && users[i].email == email) ==>
      forall p :: CheckLogin(users + [User(email, role, name, password)], email, p) == CheckLogin(users, email, p)
  {
    var grown := users + [User(email, role, name, password)];
    if forall i :: 0 <= i < |users| ==> users[i].email != email {
      assert IsFirstWithEmail(grown, email, |users|);
      FirstIsUnique(grown, email, |users|);
    } else {
      var i := FirstWithEmail(users, email).value;
      assert IsFirstWithEmail(grown, email, i);
      FirstIsUnique(grown, email, i);
      FirstIsUnique(users, email, i);
    }
    forall other, p | other != email
      ensures CheckLogin(grown, other, p) == CheckLogin(users, other, p)
    {
      OtherEmailUnaffectedByAppend(users, User(email, role, name, password), other, p);
    }
  }

  lemma OtherEmailUnaffectedByAppend(users: seq<User>, added: User, email: string, p: string)
    requires added.email != email
    ensures CheckLogin(users + [added], email, p) == CheckLogin(users, email, p)
  {
    var grown := users + [added];
    var f := FirstWithEmail(users, email);
    if f.Some? {
      assert IsFirstWithEmail(grown, email, f.value);
      FirstIsUnique(grown, email, f.value);
    } else {
      assert forall i :: 0 <= i < |grown| ==> grown[i].email != email;
    }
  }
}
