/**
 * changeUserRole (src/routes/events/eventController.js): an admin sets the
 * role of the user with a given email. The schema's unique index on
 * `email` makes the lookup determined; the query value goes through the
 * same trim-and-lowercase setters as stored emails.
 */
module RoleAdmin {
  import opened Wrappers
  import opened Http
  import opened UserModel
  import opened Db

  /** The unique index on `email`. */
  ghost predicate UniqueEmails(users: map<string, User>) {
    forall a, b | a in users && b in users && users[a].email == users[b].email :: a == b
  }

  /** Rewriting a user without changing the email keeps emails unique. */
  lemma SameEmailKeepsUnique(users: map<string, User>, uid: string, u: User)
    requires UniqueEmails(users) && uid in users && u.email == users[uid].email
    ensures UniqueEmails(users[uid := u])
  {
    var users' := users[uid := u];
    forall a, b | a in users' && b in users' && users'[a].email == users'[b].email ensures a == b {
      assert users'[a].email == users[a].email && users'[b].email == users[b].email;
    }
  }

  /** `User.findOne({ email })` finds somebody. */
  predicate HasEmail(users: map<string, User>, email: string) {
    exists uid | uid in users :: users[uid].email == NormalizeEmail(email)
  }

  /** `POST /events/change-role`, with the requester's role as the admin middleware set it. */
  ghost function ChangeRole(t: Tables, requesterRole: Role, email: string, newRole: string): (o: Outcome<UserJson>)
    requires UniqueEmails(t.users)
    ensures o.reply.Err? ==> o.after == t
    ensures ParseRole(newRole).None? ==> o.reply == Err(InvalidInput)
    ensures ParseRole(newRole).Some? && requesterRole != Admin ==> o.reply == Err(NotAuthorizedToChangeRoles)
    ensures ParseRole(newRole).Some? && requesterRole == Admin && !HasEmail(t.users, email) ==> o.reply == Err(UserNotFound)
    ensures o.reply.Ok? <==> ParseRole(newRole).Some? && requesterRole == Admin && HasEmail(t.users, email)
    ensures o.reply.Ok? ==> forall uid | uid in t.users && t.users[uid].email == NormalizeEmail(email) ::
      && o.reply.code == 200
      && o.after == t.(users := t.users[uid := t.users[uid].(role := ParseRole(newRole).value)])
      && o.reply.value == ToJson(o.after.users[uid])
  {
    if ParseRole(newRole).None? then Outcome(Err(InvalidInput), t)
    else if requesterRole != Admin then Outcome(Err(NotAuthorizedToChangeRoles), t)
    else if !HasEmail(t.users, email) then Outcome(Err(UserNotFound), t)
    else
      var uid :| uid in t.users && t.users[uid].email == NormalizeEmail(email);
      var u := t.users[uid].(role := ParseRole(newRole).value);
      Outcome(Ok(200, ToJson(u)), t.(users := t.users[uid := u]))
  }

  /**
   * A role change touches one user's role and nothing else: every
   * invariant of the tables, and the uniqueness of emails, survive it.
   */
  lemma ChangeRoleKeepsConsistency(t: Tables, requesterRole: Role, email: string, newRole: string)
    requires UniqueEmails(t.users) && Consistent(t)
    ensures UniqueEmails(ChangeRole(t, requesterRole, email, newRole).after.users)
    ensures Consistent(ChangeRole(t, requesterRole, email, newRole).after)
  {
    var o := ChangeRole(t, requesterRole, email, newRole);
    if o.reply.Ok? {
      var uid :| uid in t.users && t.users[uid].email == NormalizeEmail(email);
      var a := o.after;
      assert a.users == t.users[uid := t.users[uid].(role := ParseRole(newRole).value)];
      SameListsKeepConsistency(t, a);
    }
  }

  /** The reply shows the new role and never the password. */
  lemma ChangeRoleReply(t: Tables, email: string, newRole: string)
    requires UniqueEmails(t.users) && ParseRole(newRole).Some? && HasEmail(t.users, email)
    ensures var o := ChangeRole(t, Admin, email, newRole);
      o.reply.Ok? && o.reply.value.role == ParseRole(newRole).value && RoleName(o.reply.value.role) == newRole
  {
    var uid :| uid in t.users && t.users[uid].email == NormalizeEmail(email);
  }
}
