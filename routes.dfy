/**
 * Middleware chains of src/routes/events/eventRoutes.js put in front of
 * their handlers: `[auth, profileCheck]` before registration and
 * `eventAuth` before editing. `auth` itself is not part of this model; its
 * result, the user id from the token, is a parameter.
 */
module Routes {
  import opened Wrappers
  import opened Http
  import opened UserModel
  import opened EventModel
  import opened Db
  import opened Registration
  import opened EventEdit
  import opened ProfileController
  import opened ProfileGate
  import opened EventAuth

  /** `POST /events/:id/register`: the profile gate, then the handler. */
  function RegisterRoute(t: Tables, eventId: string, userId: string, now: int): (o: Outcome<Confirmation>)
    ensures o.reply.Ok? ==> o == Register(t, eventId, userId, now)
    ensures o.reply.Err? ==> o.after == t
  {
    match ProfileCheck(Some(userId), t.users)
    case Stop(r) => Outcome(Err(r), t)
    case Next => Register(t, eventId, userId, now)
  }

  /**
   * The gate repeats the handler's own first checks, so for any non-empty
   * user id the route answers with the same status, the same
   * `profileRequired` flag and the same effect as the handler alone.
   */
  lemma GateIsRedundantForRegistration(t: Tables, eventId: string, userId: string, now: int)
    requires userId != ""
    ensures var route := RegisterRoute(t, eventId, userId, now);
      var handler := Register(t, eventId, userId, now);
      && route.after == handler.after
      && route.reply.Ok? == handler.reply.Ok?
      && (route.reply.Err? ==> StatusOf(route.reply.reason) == StatusOf(handler.reply.reason))
      && route.reply.ProfileRequired() == handler.reply.ProfileRequired()
  {
    var g := ProfileCheck(Some(userId), t.users);
    if g.Stop? {
      assert g.reason == UserNotFound || g.reason == ProfileRequiredToAccess;
    }
  }

  /**
   * A student without a profile is told to complete one (403 with the
   * flag); once the profile is created, the same request succeeds.
   */
  lemma ProfileThenRegister(t: Tables, eventId: string, userId: string, p: ProfileInput, now: int, later: int)
    requires userId != "" && userId in t.users && eventId in t.events
    requires t.users[userId].role == Student && !t.users[userId].hasCompletedProfile
    requires ValidProfile(p)
    requires later <= t.events[eventId].registrationDeadline && t.events[eventId].availableSeats > 0
    requires eventId !in t.users[userId].registeredEvents && !HasRegistrant(t.events[eventId], userId)
    ensures var first := RegisterRoute(t, eventId, userId, now);
      first.reply == Err(ProfileRequiredToAccess) && first.after == t && first.reply.ProfileRequired()
    ensures var t1 := ProfileController.CreateProfile(t, userId, p, now).after;
      RegisterRoute(t1, eventId, userId, later).reply.Ok?
  {
    var t1 := ProfileController.CreateProfile(t, userId, p, now).after;
    assert t1.events == t.events;
    assert t1.users[userId].role == Student && t1.users[userId].hasCompletedProfile;
    assert t1.users[userId].registeredEvents == t.users[userId].registeredEvents;
    assert Eligible(t1, eventId, userId, later);
    RefusalIffIneligible(t1, eventId, userId, later);
  }

  /** Anyone but a student passes the profile gate, and the handler then refuses them with 403. */
  lemma NonStudentsPassGateButCannotRegister(t: Tables, eventId: string, userId: string, now: int)
    requires userId != "" && userId in t.users && t.users[userId].role != Student
    ensures ProfileCheck(Some(userId), t.users) == Next
    ensures RegisterRoute(t, eventId, userId, now).reply == Err(OnlyStudentsRegister)
    ensures RegisterRoute(t, eventId, userId, now).after == t
  {
  }

  /** `PUT /events/:id`: the organiser gate, then the handler with the caller as requester. */
  function UpdateRoute(t: Tables, header: Option<string>, verified: map<string, string>, id: string,
                       body: seq<Entry>, now: int): (o: Outcome<Event>)
    ensures o.reply.Err? ==> o.after == t
  {
    match Authenticate(header, verified, t.users)
    case Stop(r) => Outcome(Err(r), t)
    case Attach(c) => Update(t, id, c.userId, body, now)
  }

  /** `DELETE /events/:id`. */
  function DeleteRoute(t: Tables, header: Option<string>, verified: map<string, string>, id: string): (o: Outcome<()>)
    ensures o.reply.Err? ==> o.after == t
  {
    match Authenticate(header, verified, t.users)
    case Stop(r) => Outcome(Err(r), t)
    case Attach(c) => Delete(t, id, c.userId)
  }

  /**
   * Only the event's own organiser, holding a non-student role and a
   * verified token, can change or remove it.
   */
  lemma OnlyOwnersEdit(t: Tables, header: Option<string>, verified: map<string, string>, id: string,
                       body: seq<Entry>, now: int)
    ensures UpdateRoute(t, header, verified, id, body, now).reply.Ok? ==>
      var g := Authenticate(header, verified, t.users);
      g.Attach? && id in t.events && t.events[id].organizerId == g.caller.userId
      && g.caller.userId in t.users && t.users[g.caller.userId].role != Student
    ensures DeleteRoute(t, header, verified, id).reply.Ok? ==>
      var g := Authenticate(header, verified, t.users);
      g.Attach? && id in t.events && t.events[id].organizerId == g.caller.userId
      && g.caller.userId in t.users && t.users[g.caller.userId].role != Student
  {
  }
}
