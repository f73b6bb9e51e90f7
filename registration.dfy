/**
 * registerForEvent (src/routes/events/eventController.js): a short-circuit
 * chain of checks, then a two-sided update of the event's registrant list
 * and seat count and of the user's list of events.
 */
module Registration {
  import opened Wrappers
  import opened Http
  import opened UserModel
  import opened EventModel
  import opened Db

  /** The success payload: a few fields of the event, not the whole document. */
  datatype Confirmation = Confirmation(id: string, name: string, date: int, time: string, venue: string)

  /** The first check that fails, in the order the handler runs them. */
  function Refusal(t: Tables, eventId: string, userId: string, now: int): (r: Option<Reason>)
    ensures r.Some? ==> r.value in {UserNotFound, OnlyStudentsRegister, ProfileRequiredToRegister,
      EventNotFound, RegistrationClosed, NoSeatsAvailable, AlreadyRegistered}
    ensures r == Some(UserNotFound) <==> userId !in t.users
    ensures r == Some(OnlyStudentsRegister) <==> userId in t.users && t.users[userId].role != Student
    ensures r == Some(ProfileRequiredToRegister) <==>
      userId in t.users && t.users[userId].role == Student && !t.users[userId].hasCompletedProfile
    ensures r == Some(EventNotFound) <==>
      userId in t.users && t.users[userId].role == Student && t.users[userId].hasCompletedProfile
      && eventId !in t.events
    ensures r == Some(RegistrationClosed) <==>
      userId in t.users && t.users[userId].role == Student && t.users[userId].hasCompletedProfile
      && eventId in t.events && now > t.events[eventId].registrationDeadline
    ensures r == Some(NoSeatsAvailable) <==>
      userId in t.users && t.users[userId].role == Student && t.users[userId].hasCompletedProfile
      && eventId in t.events && now <= t.events[eventId].registrationDeadline
      && t.events[eventId].availableSeats <= 0
    ensures r == Some(AlreadyRegistered) <==>
      userId in t.users && t.users[userId].role == Student && t.users[userId].hasCompletedProfile
      && eventId in t.events && now <= t.events[eventId].registrationDeadline
      && t.events[eventId].availableSeats > 0
      && (eventId in t.users[userId].registeredEvents || HasRegistrant(t.events[eventId], userId))
  {
    if userId !in t.users then Some(UserNotFound)
    else if t.users[userId].role != Student then Some(OnlyStudentsRegister)
    else if !t.users[userId].hasCompletedProfile then Some(ProfileRequiredToRegister)
    else if eventId !in t.events then Some(EventNotFound)
    else if now > t.events[eventId].registrationDeadline then Some(RegistrationClosed)
    else if t.events[eventId].availableSeats <= 0 then Some(NoSeatsAvailable)
    else if eventId in t.users[userId].registeredEvents then Some(AlreadyRegistered)
    else if HasRegistrant(t.events[eventId], userId) then Some(AlreadyRegistered)
    else None
  }

  /** Every check passes. */
  predicate Eligible(t: Tables, eventId: string, userId: string, now: int) {
    && userId in t.users && eventId in t.events
    && t.users[userId].role == Student
    && t.users[userId].hasCompletedProfile
    && now <= t.events[eventId].registrationDeadline
    && t.events[eventId].availableSeats > 0
    && eventId !in t.users[userId].registeredEvents
    && !HasRegistrant(t.events[eventId], userId)
  }

  lemma RefusalIffIneligible(t: Tables, eventId: string, userId: string, now: int)
    ensures Refusal(t, eventId, userId, now).None? <==> Eligible(t, eventId, userId, now)
  {
  }

  /** The event after `registeredUsers.push({ userId })`, `availableSeats -= 1` and the save hook. */
  function Enrolled(e: Event, userId: string, now: int): Event {
    PreSave(e.(registeredUsers := e.registeredUsers + [NewRegistration(userId, now)],
               availableSeats := e.availableSeats - 1), now)
  }

  function Register(t: Tables, eventId: string, userId: string, now: int): (o: Outcome<Confirmation>)
    ensures o.reply.Err? <==> Refusal(t, eventId, userId, now).Some?
    ensures o.reply.Err? ==> o.reply.reason == Refusal(t, eventId, userId, now).value && o.after == t
    ensures o.reply.Ok? ==> o.reply.code == 200 && Eligible(t, eventId, userId, now)
  {
    match Refusal(t, eventId, userId, now)
    case Some(r) => Outcome(Err(r), t)
    case None =>
      var e := Enrolled(t.events[eventId], userId, now);
      var u := t.users[userId].(registeredEvents := t.users[userId].registeredEvents + [eventId]);
      Outcome(Ok(200, Confirmation(eventId, e.name, e.date, e.time, e.venue)),
              t.(events := t.events[eventId := e], users := t.users[userId := u]))
  }

  /**
   * A successful registration appends exactly one entry for the user (stamped
   * now), takes exactly one seat, appends the event id to the user's list,
   * and changes nothing else but the save hook's updatedAt/isExpired.
   */
  lemma RegisterEffect(t: Tables, eventId: string, userId: string, now: int)
    requires Eligible(t, eventId, userId, now)
    ensures var o := Register(t, eventId, userId, now);
      && o.reply.Ok?
      && o.after.order == t.order
      && o.after.events.Keys == t.events.Keys && o.after.users.Keys == t.users.Keys
      && (forall id | id in t.events && id != eventId :: o.after.events[id] == t.events[id])
      && (forall id | id in t.users && id != userId :: o.after.users[id] == t.users[id])
      && o.after.events[eventId] == PreSave(t.events[eventId].(
           registeredUsers := t.events[eventId].registeredUsers + [Registration(userId, now)],
           availableSeats := t.events[eventId].availableSeats - 1), now)
      && o.after.users[userId] == t.users[userId].(registeredEvents := t.users[userId].registeredEvents + [eventId])
      && o.after.events[eventId].availableSeats >= 0
  {
  }

  /** The deadline test is `now > registrationDeadline`: the deadline instant itself is still open. */
  lemma DeadlineInstantAccepted(t: Tables, eventId: string, userId: string)
    requires eventId in t.events
    requires Eligible(t, eventId, userId, t.events[eventId].registrationDeadline)
    ensures Register(t, eventId, userId, t.events[eventId].registrationDeadline).reply.Ok?
    ensures Register(t, eventId, userId, t.events[eventId].registrationDeadline + 1).reply == Err(RegistrationClosed)
  {
  }

  /** With the two lists mirrored, the user-side and event-side duplicate checks agree. */
  lemma DuplicateChecksAgree(t: Tables, eventId: string, userId: string)
    requires Mirrored(t.events, t.users)
    requires eventId in t.events && userId in t.users
    ensures eventId in t.users[userId].registeredEvents <==> HasRegistrant(t.events[eventId], userId)
  {
  }

  /** Registering keeps the seat discipline of every event. */
  lemma RegisterKeepsSeats(t: Tables, eventId: string, userId: string, now: int)
    requires AllSeatsValid(t.events)
    ensures AllSeatsValid(Register(t, eventId, userId, now).after.events)
  {
    var o := Register(t, eventId, userId, now);
    if o.reply.Ok? {
      var e := t.events[eventId];
      RegistrantsAppend(e.registeredUsers, Registration(userId, now));
      PreSaveKeepsSeats(e.(registeredUsers := e.registeredUsers + [Registration(userId, now)],
                           availableSeats := e.availableSeats - 1), now);
      assert SeatsValid(o.after.events[eventId]);
    }
  }

  /** Registering keeps the two lists mirrored and free of dangling ids. */
  lemma RegisterKeepsMirror(t: Tables, eventId: string, userId: string, now: int)
    requires Mirrored(t.events, t.users) && Closed(t.events, t.users)
    ensures Mirrored(Register(t, eventId, userId, now).after.events, Register(t, eventId, userId, now).after.users)
    ensures Closed(Register(t, eventId, userId, now).after.events, Register(t, eventId, userId, now).after.users)
  {
    var o := Register(t, eventId, userId, now);
    if o.reply.Ok? {
      var e := t.events[eventId];
      RegistrantsAppend(e.registeredUsers, Registration(userId, now));
      var evs, us := o.after.events, o.after.users;
      assert Registrants(evs[eventId].registeredUsers) == Registrants(e.registeredUsers) + [userId];
      forall eid, uid | eid in evs && uid in us
        ensures HasRegistrant(evs[eid], uid) <==> eid in us[uid].registeredEvents
      {
        if eid == eventId && uid == userId {
        } else if eid == eventId {
          assert us[uid] == t.users[uid];
        } else if uid == userId {
          assert evs[eid] == t.events[eid];
        } else {
          assert evs[eid] == t.events[eid] && us[uid] == t.users[uid];
        }
      }
    }
  }

  lemma RegisterKeepsConsistency(t: Tables, eventId: string, userId: string, now: int)
    requires Consistent(t)
    ensures Consistent(Register(t, eventId, userId, now).after)
  {
    RegisterKeepsSeats(t, eventId, userId, now);
    RegisterKeepsMirror(t, eventId, userId, now);
  }

  /** A repeated request after a success is refused with 400 and changes nothing. */
  lemma SecondRegistrationRefused(t: Tables, eventId: string, userId: string, now: int, later: int)
    requires Register(t, eventId, userId, now).reply.Ok?
    ensures var t1 := Register(t, eventId, userId, now).after;
      var o2 := Register(t1, eventId, userId, later);
      && o2.reply.Err? && o2.reply.Status() == 400 && o2.after == t1
  {
    var t1 := Register(t, eventId, userId, now).after;
    assert eventId in t1.users[userId].registeredEvents;
  }

  /**
   * The last seat: two eligible students register one after the other for an
   * event with one seat left; the first gets it, the second is told there are
   * no seats, and the count ends at 0, never below.
   */
  lemma LastSeat(t: Tables, eventId: string, a: string, b: string, now: int)
    requires a != b
    requires Eligible(t, eventId, a, now) && Eligible(t, eventId, b, now)
    requires t.events[eventId].availableSeats == 1
    ensures var o1 := Register(t, eventId, a, now);
      var o2 := Register(o1.after, eventId, b, now);
      && o1.reply.Ok?
      && o2.reply == Err(NoSeatsAvailable) && o2.reply.Status() == 400
      && o2.after.events[eventId].availableSeats == 0
  {
  }
}
