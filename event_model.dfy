/** The event document of src/models/Event.js: its fields, defaults and pre-save hook. */
module EventModel {
  import opened Wrappers
  import Text

  /** The `category` enum. */
  datatype Category = Technical | Cultural | Sports | Workshop | Seminar | Other

  function CategoryName(c: Category): string {
    match c
    case Technical => "Technical"
    case Cultural => "Cultural"
    case Sports => "Sports"
    case Workshop => "Workshop"
    case Seminar => "Seminar"
    case Other => "Other"
  }

  /** The enum check: a string is a category exactly when it is one of the six names. */
  function ParseCategory(s: string): (r: Option<Category>)
    ensures r.Some? ==> CategoryName(r.value) == s
  {
    if s == "Technical" then Some(Technical)
    else if s == "Cultural" then Some(Cultural)
    else if s == "Sports" then Some(Sports)
    else if s == "Workshop" then Some(Workshop)
    else if s == "Seminar" then Some(Seminar)
    else if s == "Other" then Some(Other)
    else None
  }

  lemma ParseCategoryName(c: Category)
    ensures ParseCategory(CategoryName(c)) == Some(c)
  {
  }

  /** An entry of `registeredUsers`. */
  datatype Registration = Registration(userId: string, registeredAt: int)

  /** A stored event; times are integers (milliseconds since the epoch). */
  datatype Event = Event(
    name: string,
    description: string,
    date: int,
    time: string,
    venue: string,
    organizedBy: string,
    organizerId: string,
    price: int,
    totalSeats: int,
    availableSeats: int,
    category: Category,
    registrationDeadline: int,
    isExpired: bool,
    contactEmail: string,
    contactPhone: string,
    tags: seq<string>,
    registeredUsers: seq<Registration>,
    createdAt: int,
    updatedAt: int)

  /** A registrant entry pushed as `{ userId }`: `registeredAt` takes its default, the current time. */
  function NewRegistration(userId: string, now: int): (r: Registration)
    ensures r.userId == userId && r.registeredAt == now
  {
    Registration(userId, now)
  }

  /** The user ids of a list of registrant entries, in order. */
  function Registrants(regs: seq<Registration>): (ids: seq<string>)
    ensures |ids| == |regs|
    ensures forall i :: 0 <= i < |regs| ==> ids[i] == regs[i].userId
  {
    seq(|regs|, i requires 0 <= i < |regs| => regs[i].userId)
  }

  lemma RegistrantsAppend(regs: seq<Registration>, r: Registration)
    ensures Registrants(regs + [r]) == Registrants(regs) + [r.userId]
  {
    assert Registrants(regs + [r]) == Registrants(regs) + [r.userId];
  }

  /** `event.registeredUsers.some(registration => registration.userId === userId)`. */
  predicate HasRegistrant(e: Event, userId: string) {
    userId in Registrants(e.registeredUsers)
  }

  predicate Distinct<T(==)>(s: seq<T>) {
    forall i, j :: 0 <= i < j < |s| ==> s[i] != s[j]
  }

  /**
   * The seat discipline: no negative count, every seat either free or taken
   * by exactly one registrant, and no user registered twice. It implies
   * `0 <= availableSeats <= totalSeats`.
   */
  ghost predicate SeatsValid(e: Event) {
    && 0 <= e.availableSeats
    && e.availableSeats + |e.registeredUsers| == e.totalSeats
    && Distinct(Registrants(e.registeredUsers))
  }

  lemma SeatsValidBounds(e: Event)
    requires SeatsValid(e)
    ensures 0 <= e.availableSeats <= e.totalSeats
  {
  }

  /** The body of a create request, after validation. */
  datatype EventInput = EventInput(
    name: string,
    description: string,
    date: int,
    time: string,
    venue: string,
    organizedBy: string,
    price: Option<int>,
    totalSeats: int,
    category: Category,
    registrationDeadline: int,
    contactEmail: string,
    contactPhone: string,
    tags: seq<string>)

  /**
   * `new Event({ ...body, organizerId, availableSeats: body.totalSeats })`
   * with the schema defaults: price 0, not expired, no registrants, and both
   * timestamps at the creation time. The validation chain trims `name`,
   * `description`, `venue` and `organizedBy` before the handler runs.
   */
  function Construct(input: EventInput, organizerId: string, now: int): (e: Event)
    ensures e.availableSeats == e.totalSeats == input.totalSeats
    ensures e.organizerId == organizerId
    ensures e.price == input.price.GetOr(0)
    ensures !e.isExpired && e.registeredUsers == []
    ensures e.createdAt == now && e.updatedAt == now
    ensures Text.IsTrimmed(e.name) && Text.IsTrimmed(e.description) && Text.IsTrimmed(e.venue) && Text.IsTrimmed(e.organizedBy)
    ensures e.name == Text.Trim(input.name) && e.description == Text.Trim(input.description)
    ensures e.venue == Text.Trim(input.venue) && e.organizedBy == Text.Trim(input.organizedBy)
    ensures e.date == input.date && e.time == input.time && e.category == input.category
    ensures e.registrationDeadline == input.registrationDeadline
    ensures e.contactEmail == input.contactEmail && e.contactPhone == input.contactPhone && e.tags == input.tags
  {
    Event(Text.Trim(input.name), Text.Trim(input.description), input.date, input.time, Text.Trim(input.venue),
          Text.Trim(input.organizedBy), organizerId, input.price.GetOr(0), input.totalSeats,
          input.totalSeats, input.category, input.registrationDeadline, false,
          input.contactEmail, input.contactPhone, input.tags, [], now, now)
  }

  /**
   * The `pre('save')` hook: an event whose date lies before the save time is
   * marked expired, and `updatedAt` becomes the save time.
   */
  function PreSave(e: Event, now: int): (r: Event)
    ensures r.isExpired == (e.isExpired || e.date < now) && r.updatedAt == now
    ensures r == e.(isExpired := r.isExpired, updatedAt := now)
  {
    var flagged := if e.date < now && !e.isExpired then e.(isExpired := true) else e;
    flagged.(updatedAt := now)
  }


  /** The hook never clears the flag, and an event whose date is the save time is not expired by it. */
  lemma PreSaveNeverUnexpires(e: Event, now: int)
    ensures e.isExpired ==> PreSave(e, now).isExpired
    ensures e.date == now ==> PreSave(e, now).isExpired == e.isExpired
  {
  }

  /** The hook touches neither the seat counts nor the registrants. */
  lemma PreSaveKeepsSeats(e: Event, now: int)
    ensures PreSave(e, now).availableSeats == e.availableSeats
    ensures PreSave(e, now).totalSeats == e.totalSeats
    ensures PreSave(e, now).registeredUsers == e.registeredUsers
    ensures SeatsValid(e) <==> SeatsValid(PreSave(e, now))
  {
  }
}
