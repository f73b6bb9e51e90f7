/**
 * The `eventAuth` middleware (src/middleware/eventAuth.js): a bearer token
 * whose user exists and is not a student. Signature checking is outside the
 * model: `verified` maps each token the secret accepts to the `userId` it
 * carries, and every other token fails verification.
 */
module EventAuth {
  import opened Wrappers
  import opened Http
  import opened Text
  import opened UserModel

  /** `req.user` as the middleware sets it. */
  datatype Caller = Caller(userId: string, role: Role)

  datatype Gate = Attach(caller: Caller) | Stop(reason: Reason)

  /** `header.replace('Bearer ', '')`: only the first occurrence goes, wherever it is. */
  function StripBearer(h: string): (r: string)
    ensures IndexOf(h, "Bearer ").None? ==> r == h
    ensures IndexOf(h, "Bearer ").Some? ==> |r| == |h| - 7
    ensures IndexOf(h, "Bearer ").Some? ==>
      var i := IndexOf(h, "Bearer ").value;
      r == h[..i] + h[i + 7..]
  {
    ReplaceFirst(h, "Bearer ", "")
  }

  /** A well-formed header gives back the token it carries. */
  lemma StripBearerPrefix(token: string)
    ensures StripBearer("Bearer " + token) == token
  {
    var h := "Bearer " + token;
    assert OccursAt(h, "Bearer ", 0) by { assert h[..7] == "Bearer "; }
    assert IndexOf(h, "Bearer ") == Some(0);
    assert h[7..] == token;
  }

  /** A header without the scheme is taken as the token itself. */
  lemma StripBearerBareToken(token: string)
    requires forall j: nat :: !OccursAt(token, "Bearer ", j)
    ensures StripBearer(token) == token
  {
  }

  /** The scheme is removed even from the middle of a header. */
  lemma StripBearerInside()
    ensures StripBearer("xBearer y") == "xy"
  {
    var h := "xBearer y";
    assert !OccursAt(h, "Bearer ", 0) by { assert h[0] != 'B'; }
    assert OccursAt(h, "Bearer ", 1) by { assert h[1..8] == "Bearer "; }
    assert IndexOf(h, "Bearer ") == Some(1);
    assert h[..1] + "" + h[8..] == "xy";
  }

  /** The middleware, with `header` None when no Authorization header is sent. */
  function Authenticate(header: Option<string>, verified: map<string, string>, users: map<string, User>): (g: Gate)
    ensures g == Stop(NoToken) <==> header.None? || StripBearer(header.value) == ""
    ensures g.Attach? <==>
      && header.Some? && StripBearer(header.value) != ""
      && StripBearer(header.value) in verified
      && verified[StripBearer(header.value)] in users
      && users[verified[StripBearer(header.value)]].role != Student
    ensures g.Attach? ==>
      var uid := verified[StripBearer(header.value)];
      g.caller == Caller(uid, users[uid].role) && IsOrganizerRole(g.caller.role)
    ensures g == Stop(TokenNotValid) <==> header.Some? && StripBearer(header.value) != "" && StripBearer(header.value) !in verified
    ensures g == Stop(UserNotFound) <==>
      && header.Some? && StripBearer(header.value) != ""
      && StripBearer(header.value) in verified
      && verified[StripBearer(header.value)] !in users
    ensures g == Stop(StudentsCannotManageEvents) <==>
      && header.Some? && StripBearer(header.value) != ""
      && StripBearer(header.value) in verified
      && verified[StripBearer(header.value)] in users
      && users[verified[StripBearer(header.value)]].role == Student
    ensures g.Stop? ==> g.reason in {NoToken, TokenNotValid, UserNotFound, StudentsCannotManageEvents}
  {
    if header.None? then Stop(NoToken)
    else
      var token := StripBearer(header.value);
      if token == "" then Stop(NoToken)
      else if token !in verified then Stop(TokenNotValid)
      else
        var uid := verified[token];
        if uid !in users then Stop(UserNotFound)
        else if users[uid].role == Student then Stop(StudentsCannotManageEvents)
        else Attach(Caller(uid, users[uid].role))
  }

  /** A student's valid token is refused with 403. */
  lemma StudentsAreTurnedAway(token: string, verified: map<string, string>, users: map<string, User>)
    requires token != "" && token in verified && verified[token] in users && users[verified[token]].role == Student
    ensures var g := Authenticate(Some("Bearer " + token), verified, users);
      g == Stop(StudentsCannotManageEvents) && StatusOf(g.reason) == 403
  {
    StripBearerPrefix(token);
  }

  /** A valid token whose user no longer exists is refused with 404. */
  lemma UnknownUserIsNotFound(token: string, verified: map<string, string>, users: map<string, User>)
    requires token != "" && token in verified && verified[token] !in users
    ensures var g := Authenticate(Some("Bearer " + token), verified, users);
      g == Stop(UserNotFound) && StatusOf(g.reason) == 404
  {
    StripBearerPrefix(token);
  }
}
