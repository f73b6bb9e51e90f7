/**
 * The read-only handlers of src/routes/events/eventController.js: the
 * listings with their capacity block (getEvents, getEventById,
 * getUserRegisteredEvents, getOrganizerEvents) and the organizer-only
 * registrations viewer (getEventRegistrations). `Event.find(query)` is a
 * filter over the collection's natural order; `.sort({ date: 1 })` a
 * stable sort by date.
 */
module EventQueries {
  import opened Wrappers
  import opened Http
  import opened Text
  import opened UserModel
  import opened EventModel
  import opened Capacity
  import opened Db

  /** A Mongo query document: each present field must match. */
  datatype Query = Query(
    category: Option<string>,
    isExpired: Option<bool>,
    organizerId: Option<string>,
    idIn: Option<seq<string>>)

  predicate Matches(q: Query, id: string, e: Event) {
    && (q.category.None? || CategoryName(e.category) == q.category.value)
    && (q.isExpired.None? || e.isExpired == q.isExpired.value)
    && (q.organizerId.None? || e.organizerId == q.organizerId.value)
    && (q.idIn.None? || id in q.idIn.value)
  }

  /** A found document: its `_id` and its fields. */
  datatype Doc = Doc(id: string, event: Event)

  function Ids(docs: seq<Doc>): (ids: seq<string>)
    ensures |ids| == |docs| && forall i :: 0 <= i < |docs| ==> ids[i] == docs[i].id
  {
    seq(|docs|, i requires 0 <= i < |docs| => docs[i].id)
  }

  function FindIn(ids: seq<string>, events: map<string, Event>, q: Query): (r: seq<Doc>)
    ensures forall k :: 0 <= k < |r| ==>
      r[k].id in ids && r[k].id in events && r[k].event == events[r[k].id] && Matches(q, r[k].id, r[k].event)
    ensures forall id | id in ids && id in events && Matches(q, id, events[id]) :: id in Ids(r)
    ensures Distinct(ids) ==> Distinct(Ids(r))
  {
    if ids == [] then []
    else
      var rest := FindIn(ids[1..], events, q);
      var id := ids[0];
      if id in events && Matches(q, id, events[id]) then
        var r := [Doc(id, events[id])] + rest;
        assert Ids(r) == [id] + Ids(rest);
        assert Distinct(ids) ==> id !in ids[1..];
        assert forall k :: 0 <= k < |rest| ==> Ids(rest)[k] in ids[1..];
        r
      else rest
  }

  /** `Event.find(q)`: exactly the stored events that match, each once, in natural order. */
  function Find(t: Tables, q: Query): (r: seq<Doc>)
    ensures forall k :: 0 <= k < |r| ==>
      r[k].id in t.events && r[k].event == t.events[r[k].id] && Matches(q, r[k].id, r[k].event)
    ensures forall id | id in t.order && id in t.events && Matches(q, id, t.events[id]) :: id in Ids(r)
    ensures Distinct(t.order) ==> Distinct(Ids(r))
  {
    FindIn(t.order, t.events, q)
  }

  /** An event object with its `capacity` block. */
  datatype Listed = Listed(id: string, event: Event, capacity: Capacity)

  function WithCapacity(docs: seq<Doc>): (r: seq<Listed>)
    ensures |r| == |docs|
    ensures forall i :: 0 <= i < |docs| ==>
      r[i].id == docs[i].id && r[i].event == docs[i].event && r[i].capacity == CapacityOf(docs[i].event)
  {
    seq(|docs|, i requires 0 <= i < |docs| => Listed(docs[i].id, docs[i].event, CapacityOf(docs[i].event)))
  }

  function ListedIds(r: seq<Listed>): seq<string> {
    seq(|r|, i requires 0 <= i < |r| => r[i].id)
  }

  predicate SortedByDate(s: seq<Listed>) {
    forall i, j :: 0 <= i < j < |s| ==> s[i].event.date <= s[j].event.date
  }

  function Insert(x: Listed, s: seq<Listed>): (r: seq<Listed>)
    requires SortedByDate(s)
    ensures SortedByDate(r)
    ensures |r| == |s| + 1 && r[0] == (if s == [] || x.event.date <= s[0].event.date then x else s[0])
  {
    if s == [] || x.event.date <= s[0].event.date then
      [x] + s
    else
      var rest := Insert(x, s[1..]);
      assert s[0].event.date <= rest[0].event.date;
      assert forall i :: 0 <= i < |rest| ==> rest[0].event.date <= rest[i].event.date;
      [s[0]] + rest
  }

  /** Insertion adds exactly the one element. */
  lemma {:induction false} InsertPermutes(x: Listed, s: seq<Listed>)
    requires SortedByDate(s)
    ensures multiset(Insert(x, s)) == multiset(s) + multiset{x}
  {
    if !(s == [] || x.event.date <= s[0].event.date) {
      InsertPermutes(x, s[1..]);
      assert s == [s[0]] + s[1..];
    }
  }

  /** `.sort({ date: 1 })`: ascending by date, a permutation of the input. */
  function SortByDate(s: seq<Listed>): (r: seq<Listed>)
    ensures SortedByDate(r)
    ensures multiset(r) == multiset(s)
  {
    if s == [] then []
    else
      assert s == [s[0]] + s[1..];
      InsertPermutes(s[0], SortByDate(s[1..]));
      Insert(s[0], SortByDate(s[1..]))
  }

  /** A `Find` decorated with capacity blocks and sorted by date. */
  function SortedListing(t: Tables, q: Query): (r: seq<Listed>)
    ensures SortedByDate(r)
    ensures multiset(r) == multiset(WithCapacity(Find(t, q)))
    ensures forall x | x in r ::
      x.id in t.events && x.event == t.events[x.id] && Matches(q, x.id, x.event) && x.capacity == CapacityOf(x.event)
    ensures Indexed(t) ==> forall id | id in t.events && Matches(q, id, t.events[id]) :: id in ListedIds(r)
    ensures Indexed(t) ==> Distinct(ListedIds(r))
  {
    var found := WithCapacity(Find(t, q));
    var r := SortByDate(found);
    ListingSound(t, q, found, r);
    ListingComplete(t, q, found, r);
    assert ListedIds(found) == Ids(Find(t, q));
    PermutedIdsDistinct(found, r);
    r
  }

  /** In a list with distinct ids every element occurs at most once. */
  lemma {:induction false} CountAtMostOne(s: seq<Listed>, x: Listed)
    requires Distinct(ListedIds(s))
    ensures multiset(s)[x] <= 1
  {
    if s != [] {
      var rest := s[1..];
      assert s == [s[0]] + rest;
      assert Distinct(ListedIds(rest)) by {
        forall i, j | 0 <= i < j < |rest| ensures ListedIds(rest)[i] != ListedIds(rest)[j] {
          assert ListedIds(s)[i + 1] != ListedIds(s)[j + 1];
        }
      }
      CountAtMostOne(rest, x);
      if x == s[0] {
        assert x !in rest by {
          forall k | 0 <= k < |rest| ensures rest[k] != x {
            assert ListedIds(s)[0] != ListedIds(s)[k + 1];
          }
        }
      }
    }
  }

  /** A permutation of a list with distinct ids has distinct ids. */
  lemma PermutedIdsDistinct(a: seq<Listed>, b: seq<Listed>)
    requires multiset(a) == multiset(b)
    ensures Distinct(ListedIds(a)) ==> Distinct(ListedIds(b))
  {
    if Distinct(ListedIds(a)) {
      PermutedIdsDistinctOf(a, b);
    }
  }

  lemma PermutedIdsDistinctOf(a: seq<Listed>, b: seq<Listed>)
    requires multiset(a) == multiset(b) && Distinct(ListedIds(a))
    ensures Distinct(ListedIds(b))
  {
    forall i, j | 0 <= i < j < |b| ensures ListedIds(b)[i] != ListedIds(b)[j] {
      var x, y := b[i], b[j];
      assert b == b[..j] + b[j..];
      assert x == b[..j][i] && y == b[j..][0];
      assert multiset(b) == multiset(b[..j]) + multiset(b[j..]);
      CountAtMostOne(a, x);
      assert multiset(b[..j])[x] >= 1;
      assert multiset(b[j..])[x] == 0;
      assert x != y;
      assert x in multiset(a) && y in multiset(a);
      var p :| 0 <= p < |a| && a[p] == x;
      var q :| 0 <= q < |a| && a[q] == y;
      assert p != q;
      assert ListedIds(a)[p] != ListedIds(a)[q] by {
        if p < q { } else { }
      }
    }
  }

  lemma ListingSound(t: Tables, q: Query, found: seq<Listed>, r: seq<Listed>)
    requires found == WithCapacity(Find(t, q)) && multiset(r) == multiset(found)
    ensures forall x | x in r ::
      x.id in t.events && x.event == t.events[x.id] && Matches(q, x.id, x.event) && x.capacity == CapacityOf(x.event)
  {
    var docs := Find(t, q);
    forall x | x in r
      ensures x.id in t.events && x.event == t.events[x.id] && Matches(q, x.id, x.event) && x.capacity == CapacityOf(x.event)
    {
      assert x in multiset(found);
      var k :| 0 <= k < |found| && found[k] == x;
      assert x.id == docs[k].id && x.event == docs[k].event;
    }
  }

  lemma ListingComplete(t: Tables, q: Query, found: seq<Listed>, r: seq<Listed>)
    requires found == WithCapacity(Find(t, q)) && multiset(r) == multiset(found)
    ensures Indexed(t) ==> forall id | id in t.events && Matches(q, id, t.events[id]) :: id in ListedIds(r)
  {
    var docs := Find(t, q);
    if Indexed(t) {
      forall id | id in t.events && Matches(q, id, t.events[id]) ensures id in ListedIds(r) {
        assert id in t.order;
        assert id in Ids(docs);
        var k :| 0 <= k < |docs| && Ids(docs)[k] == id;
        assert found[k] in multiset(r);
        var m :| 0 <= m < |r| && r[m] == found[k];
        assert ListedIds(r)[m] == id;
      }
    }
  }

  /**
   * `GET /events?category=..&expired=..`: a non-empty category filters by
   * name; any `expired` value filters, matching expired events only when it
   * is the string "true".
   */
  function GetEvents(t: Tables, category: Option<string>, expired: Option<string>): (r: seq<Listed>)
    ensures forall i, j :: 0 <= i < j < |r| ==> r[i].event.date <= r[j].event.date
    ensures forall x | x in r :: x.id in t.events && x.event == t.events[x.id] && x.capacity == CapacityOf(x.event)
    ensures forall x | x in r :: category.Some? && category.value != "" ==> CategoryName(x.event.category) == category.value
    ensures forall x | x in r :: expired.Some? ==> x.event.isExpired == (expired.value == "true")
    ensures Indexed(t) ==> forall id | id in t.events ::
      ((category.None? || category.value == "" || CategoryName(t.events[id].category) == category.value)
       && (expired.None? || t.events[id].isExpired == (expired.value == "true")))
      ==> id in ListedIds(r)
    ensures Indexed(t) ==> Distinct(ListedIds(r))
  {
    var q := Query(if category.Some? && category.value != "" then category else None,
                   if expired.Some? then Some(expired.value == "true") else None,
                   None, None);
    SortedListing(t, q)
  }

  /** `GET /events/:id`. */
  function GetEventById(t: Tables, id: string): (r: Reply<Listed>)
    ensures r.Err? <==> id !in t.events
    ensures r.Err? ==> r.reason == EventNotFound
    ensures r.Ok? ==> r.code == 200 && r.value == Listed(id, t.events[id], CapacityOf(t.events[id]))
  {
    if id !in t.events then Err(EventNotFound)
    else Ok(200, Listed(id, t.events[id], CapacityOf(t.events[id])))
  }

  /** `GET /events/organizer/events`: the requester's own events, by date. */
  function GetOrganizerEvents(t: Tables, organizerId: string): (r: seq<Listed>)
    ensures forall i, j :: 0 <= i < j < |r| ==> r[i].event.date <= r[j].event.date
    ensures forall x | x in r :: x.id in t.events && x.event == t.events[x.id] && x.event.organizerId == organizerId
    ensures forall x | x in r :: x.capacity == CapacityOf(x.event)
    ensures Indexed(t) ==> forall id | id in t.events && t.events[id].organizerId == organizerId :: id in ListedIds(r)
    ensures Indexed(t) ==> Distinct(ListedIds(r))
  {
    SortedListing(t, Query(None, None, Some(organizerId), None))
  }

  /** The selected fields of a registered event, with its capacity. */
  datatype Summary = Summary(
    id: string,
    name: string,
    description: string,
    date: int,
    time: string,
    venue: string,
    organizedBy: string,
    category: Category,
    capacity: Capacity,
    registrationDeadline: int,
    contactEmail: string,
    contactPhone: string)

  function Summarize(d: Doc): Summary {
    var e := d.event;
    Summary(d.id, e.name, e.description, e.date, e.time, e.venue, e.organizedBy, e.category,
            CapacityOf(e), e.registrationDeadline, e.contactEmail, e.contactPhone)
  }

  function Summaries(docs: seq<Doc>): (r: seq<Summary>)
    ensures |r| == |docs| && forall i :: 0 <= i < |docs| ==> r[i] == Summarize(docs[i])
  {
    seq(|docs|, i requires 0 <= i < |docs| => Summarize(docs[i]))
  }

  function SummaryIds(r: seq<Summary>): seq<string> {
    seq(|r|, i requires 0 <= i < |r| => r[i].id)
  }

  /**
   * The stored events a user lists, in natural order, as summaries: each one
   * stored and listed by the user, every such event present once.
   */
  function UserEventSummaries(t: Tables, u: User): (r: seq<Summary>)
    ensures forall s | s in r :: s.id in t.events && s.id in u.registeredEvents
    ensures forall s | s in r :: s == Summarize(Doc(s.id, t.events[s.id]))
    ensures Indexed(t) ==> forall id | id in t.events && id in u.registeredEvents :: id in SummaryIds(r)
    ensures Indexed(t) ==> Distinct(SummaryIds(r))
  {
    var docs := Find(t, Query(None, None, None, Some(u.registeredEvents)));
    var r := Summaries(docs);
    assert SummaryIds(r) == Ids(docs);
    forall s | s in r ensures s.id in t.events && s.id in u.registeredEvents && s == Summarize(Doc(s.id, t.events[s.id])) {
      var k :| 0 <= k < |r| && r[k] == s;
      assert docs[k] in docs;
    }
    r
  }

  /**
   * The source adds `registrationStatus: "Registered"` to every entry of the
   * list; since the value is the same constant on all of them, it is held once
   * here, beside the list it applies to.
   */
  datatype UserRegistrations = UserRegistrations(totalEvents: int, registeredEvents: seq<Summary>, registrationStatus: string)

  /** `GET /events/user/registrations`: the user's events, each marked "Registered". */
  function GetUserRegisteredEvents(t: Tables, userId: string): (r: Reply<UserRegistrations>)
    ensures r.Err? <==> userId !in t.users
    ensures r.Err? ==> r.reason == UserNotFound
    ensures r.Ok? ==> r.code == 200 && r.value.totalEvents == |r.value.registeredEvents|
    ensures r.Ok? ==> r.value.registeredEvents == UserEventSummaries(t, t.users[userId])
    ensures r.Ok? ==> r.value.registrationStatus == "Registered"
  {
    if userId !in t.users then Err(UserNotFound)
    else
      var s := UserEventSummaries(t, t.users[userId]);
      Ok(200, UserRegistrations(|s|, s, "Registered"))
  }

  /** A value shown as itself, or as 'N/A' when missing or falsy. */
  datatype Shown = Num(n: int) | NA

  function OrNA(s: Option<string>): string {
    if s.Some? && s.value != "" then s.value else "N/A"
  }

  function NumOrNA(n: Option<int>): Shown {
    if n.Some? && n.value != 0 then Num(n.value) else NA
  }

  /** The user details shown to an organizer. The schema has no `department`, so it is always 'N/A'. */
  datatype RegistrantSummary = RegistrantSummary(
    name: string,
    email: string,
    phoneNumber: string,
    enrollmentNumber: string,
    department: string,
    className: string,
    year: Shown,
    semester: Shown)

  function Describe(u: User): RegistrantSummary {
    RegistrantSummary(u.name, u.email, OrNA(u.phoneNumber), OrNA(u.enrollmentNumber), "N/A",
                      OrNA(u.className), NumOrNA(u.year), NumOrNA(u.semester))
  }

  datatype RegistrationEntry = RegistrationEntry(registeredAt: int, userId: string, user: Option<RegistrantSummary>)

  function Entries(regs: seq<Registration>, users: map<string, User>): (r: seq<RegistrationEntry>)
    ensures |r| == |regs|
    ensures forall i :: 0 <= i < |regs| ==>
      r[i].userId == regs[i].userId && r[i].registeredAt == regs[i].registeredAt
      && (r[i].user.None? <==> regs[i].userId !in users)
      && (r[i].user.Some? ==> r[i].user.value == Describe(users[regs[i].userId]))
  {
    seq(|regs|, i requires 0 <= i < |regs| =>
      RegistrationEntry(regs[i].registeredAt, regs[i].userId,
                        if regs[i].userId in users then Some(Describe(users[regs[i].userId])) else None))
  }

  /**
   * `GET /events/:id/registrations`: 400 for an empty id or one that is not
   * 24 hex digits, 404 for an unknown event, 403 unless the requester
   * organizes it; otherwise one entry per registrant, in order, whose user is
   * null when the lookup finds no user.
   */
  function GetEventRegistrations(t: Tables, id: string, requester: string): (r: Reply<seq<RegistrationEntry>>)
    ensures id == "" ==> r == Err(EventIdRequired)
    ensures id != "" && !IsObjectIdHex(id) ==> r == Err(InvalidEventIdFormat)
    ensures IsObjectIdHex(id) && id !in t.events ==> r == Err(EventNotFound)
    ensures IsObjectIdHex(id) && id in t.events && t.events[id].organizerId != requester ==> r == Err(NotAuthorizedToView)
    ensures r.Ok? <==> IsObjectIdHex(id) && id in t.events && t.events[id].organizerId == requester
    ensures r.Ok? ==> r.code == 200 && r.value == Entries(t.events[id].registeredUsers, t.users)
  {
    if id == "" then Err(EventIdRequired)
    else if !IsObjectIdHex(id) then Err(InvalidEventIdFormat)
    else if id !in t.events then Err(EventNotFound)
    else if t.events[id].organizerId != requester then Err(NotAuthorizedToView)
    else Ok(200, Entries(t.events[id].registeredUsers, t.users))
  }
}
