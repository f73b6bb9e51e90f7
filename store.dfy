/**
 * The two MongoDB collections as one mutable store. Each handler that
 * writes is a method that performs the source's steps in order (look-ups,
 * checks with early returns, field assignments, `save()`), and its
 * contract equates the reply and the new tables with the handler's
 * specification function, whose properties are proved in its own module.
 */
module Campus {
  import opened Wrappers
  import opened Http
  import opened UserModel
  import opened EventModel
  import opened Db
  import opened Registration
  import opened EventEdit
  import opened ProfileController
  import opened RoleAdmin

  class Store {
    var events: map<string, Event>
    var order: seq<string>
    var users: map<string, User>

    function Snapshot(): Tables
      reads this
    {
      Tables(events, order, users)
    }

    /** The index over the events collection and the unique index on `email`. */
    ghost predicate Valid()
      reads this
    {
      Indexed(Snapshot()) && UniqueEmails(users)
    }

    constructor (t: Tables)
      requires Indexed(t) && UniqueEmails(t.users)
      ensures Snapshot() == t && Valid()
    {
      events := t.events;
      order := t.order;
      users := t.users;
    }

    /** `event.save()`: the pre-save hook runs, then the document is written under its id. */
    method SaveEvent(id: string, doc: Event, now: int)
      modifies this
      ensures events == old(events)[id := PreSave(doc, now)]
      ensures order == old(order) && users == old(users)
    {
      var d := doc;
      if d.date < now && !d.isExpired {
        d := d.(isExpired := true);
      }
      d := d.(updatedAt := now);
      events := events[id := d];
    }

    /** `createEvent`; `newId` is the id the driver generates for the new document. */
    method CreateEvent(newId: string, requester: string, input: EventInput, now: int) returns (reply: Reply<Event>)
      requires Valid() && newId !in events
      modifies this
      ensures reply == Create(old(Snapshot()), newId, requester, input, now).reply
      ensures Snapshot() == Create(old(Snapshot()), newId, requester, input, now).after
      ensures Valid()
    {
      if input.totalSeats < 1 {
        return Err(InvalidInput);
      }
      var e := Construct(input, requester, now);
      SaveEvent(newId, e, now);
      order := order + [newId];
      reply := Ok(201, events[newId]);
      AppendFreshKeepsIndex(old(Snapshot()), newId, events[newId]);
    }

    /** `updateEvent`, with the body's keys copied one at a time. */
    method UpdateEvent(id: string, requester: string, body: seq<Entry>, now: int) returns (reply: Reply<Event>)
      requires Valid()
      modifies this
      ensures reply == Update(old(Snapshot()), id, requester, body, now).reply
      ensures Snapshot() == Update(old(Snapshot()), id, requester, body, now).after
      ensures Valid()
    {
      if !ValidBody(body) {
        return Err(InvalidInput);
      }
      if id !in events {
        return Err(EventNotFound);
      }
      var e := events[id];
      if e.organizerId != requester {
        return Err(NotAuthorizedToUpdate);
      }
      var fields := body;
      var total := TotalSeatsIn(body);
      if total.Some? && total.value != 0 {
        fields := SetAvailable(fields, e.availableSeats + (total.value - e.totalSeats));
      }
      assert fields == WithDerivedSeats(e, body);
      var available := AvailableSeatsIn(fields);
      if available.Some? && available.value < 0 {
        return Err(NegativeSeats);
      }
      var doc := CopyFields(e, fields);
      SaveEvent(id, doc, now);
      reply := Ok(200, events[id]);
    }

    /** `Object.keys(body).forEach(...)`: each truthy value is assigned onto the document, in key order. */
    static method CopyFields(e: Event, fields: seq<Entry>) returns (doc: Event)
      ensures doc == CopyBody(e, fields)
    {
      doc := e;
      var i := 0;
      while i < |fields|
        invariant 0 <= i <= |fields|
        invariant doc == CopyBody(e, fields[..i])
      {
        assert fields[..i + 1][..i] == fields[..i];
        if Truthy(fields[i]) {
          doc := Assign(doc, fields[i]);
        }
        i := i + 1;
      }
      assert fields[..|fields|] == fields;
    }

    /** `deleteEvent`: only the event document goes; users keep their lists. */
    method DeleteEvent(id: string, requester: string) returns (reply: Reply<()>)
      requires Valid()
      modifies this
      ensures reply == Delete(old(Snapshot()), id, requester).reply
      ensures Snapshot() == Delete(old(Snapshot()), id, requester).after
      ensures Valid()
    {
      if id !in events {
        return Err(EventNotFound);
      }
      if events[id].organizerId != requester {
        return Err(NotAuthorizedToDelete);
      }
      events := events - {id};
      order := Without(order, id);
      reply := Ok(200, ());
    }

    /** `registerForEvent`: the checks in order, then the event save, then the user save. */
    method RegisterForEvent(eventId: string, userId: string, now: int) returns (reply: Reply<Confirmation>)
      requires Valid()
      modifies this
      ensures reply == Register(old(Snapshot()), eventId, userId, now).reply
      ensures Snapshot() == Register(old(Snapshot()), eventId, userId, now).after
      ensures Valid()
    {
      if userId !in users {
        return Err(UserNotFound);
      }
      var user := users[userId];
      if user.role != Student {
        return Err(OnlyStudentsRegister);
      }
      if !user.hasCompletedProfile {
        return Err(ProfileRequiredToRegister);
      }
      if eventId !in events {
        return Err(EventNotFound);
      }
      var event := events[eventId];
      if now > event.registrationDeadline {
        return Err(RegistrationClosed);
      }
      if event.availableSeats <= 0 {
        return Err(NoSeatsAvailable);
      }
      if eventId in user.registeredEvents {
        return Err(AlreadyRegistered);
      }
      if HasRegistrant(event, userId) {
        return Err(AlreadyRegistered);
      }
      event := event.(registeredUsers := event.registeredUsers + [NewRegistration(userId, now)]);
      event := event.(availableSeats := event.availableSeats - 1);
      SaveEvent(eventId, event, now);
      user := user.(registeredEvents := user.registeredEvents + [eventId]);
      SameEmailKeepsUnique(users, userId, user);
      users := users[userId := user];
      var saved := events[eventId];
      reply := Ok(200, Confirmation(eventId, saved.name, saved.date, saved.time, saved.venue));
    }

    /** `changeUserRole`: the one user with that email gets the new role; no save hook applies. */
    method ChangeUserRole(requesterRole: Role, email: string, newRole: string) returns (reply: Reply<UserJson>)
      requires Valid()
      modifies this
      ensures reply == ChangeRole(old(Snapshot()), requesterRole, email, newRole).reply
      ensures Snapshot() == ChangeRole(old(Snapshot()), requesterRole, email, newRole).after
      ensures Valid()
    {
      var role := ParseRole(newRole);
      if role.None? {
        return Err(InvalidInput);
      }
      if requesterRole != Admin {
        return Err(NotAuthorizedToChangeRoles);
      }
      var key := NormalizeEmail(email);
      if !HasEmail(users, email) {
        return Err(UserNotFound);
      }
      var uid :| uid in users && users[uid].email == key;
      var user := users[uid].(role := role.value);
      SameEmailKeepsUnique(users, uid, user);
      users := users[uid := user];
      reply := Ok(200, ToJson(user));
    }

    /** `createProfile`. */
    method CreateProfile(userId: string, p: ProfileInput, now: int) returns (reply: Reply<ProfileView>)
      requires Valid()
      modifies this
      ensures reply == ProfileController.CreateProfile(old(Snapshot()), userId, p, now).reply
      ensures Snapshot() == ProfileController.CreateProfile(old(Snapshot()), userId, p, now).after
      ensures Valid()
    {
      if !ValidProfile(p) {
        return Err(InvalidInput);
      }
      if userId !in users {
        return Err(UserNotFound);
      }
      var user := users[userId];
      if user.role != Student {
        return Err(OnlyStudentsCreateProfiles);
      }
      if user.hasCompletedProfile {
        return Err(ProfileAlreadyExists);
      }
      user := WithProfile(user, p, now).(hasCompletedProfile := true);
      SameEmailKeepsUnique(users, userId, user);
      users := users[userId := user];
      reply := Ok(201, ViewOf(p));
    }

    /** `updateProfile`. */
    method UpdateProfile(userId: string, p: ProfileInput, now: int) returns (reply: Reply<ProfileView>)
      requires Valid()
      modifies this
      ensures reply == ProfileController.UpdateProfile(old(Snapshot()), userId, p, now).reply
      ensures Snapshot() == ProfileController.UpdateProfile(old(Snapshot()), userId, p, now).after
      ensures Valid()
    {
      if !ValidProfile(p) {
        return Err(InvalidInput);
      }
      if userId !in users {
        return Err(UserNotFound);
      }
      var user := users[userId];
      if user.role != Student {
        return Err(OnlyStudentsUpdateProfiles);
      }
      if !user.hasCompletedProfile {
        return Err(ProfileNotFound);
      }
      user := WithProfile(user, p, now);
      SameEmailKeepsUnique(users, userId, user);
      users := users[userId := user];
      reply := Ok(200, ViewOf(p));
    }
  }
}
