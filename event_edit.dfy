/**
 * createEvent, updateEvent and deleteEvent (src/routes/events/eventController.js).
 *
 * An update body is a JSON object: a sequence of entries with distinct keys,
 * one entry constructor per schema path a client can send. The handler first
 * derives `availableSeats` from a `totalSeats` change, rejects a negative
 * value, and then copies every TRUTHY body value onto the document.
 */
module EventEdit {
  import opened Wrappers
  import opened Http
  import opened Text
  import opened EventModel
  import opened Db

  datatype Key =
    | KName | KDescription | KDate | KTime | KVenue | KOrganizedBy | KOrganizerId | KPrice
    | KTotalSeats | KAvailableSeats | KCategory | KRegistrationDeadline | KIsExpired
    | KContactEmail | KContactPhone | KTags | KRegisteredUsers

  /** One `key: value` pair of the body. Dates arrive as ISO strings, shown here as times. */
  datatype Entry =
    | SetName(name: string)
    | SetDescription(description: string)
    | SetDate(date: int)
    | SetTime(time: string)
    | SetVenue(venue: string)
    | SetOrganizedBy(organizedBy: string)
    | SetOrganizerId(organizerId: string)
    | SetPrice(price: int)
    | SetTotalSeats(totalSeats: int)
    | SetAvailableSeats(availableSeats: int)
    | SetCategory(category: string)
    | SetRegistrationDeadline(registrationDeadline: int)
    | SetIsExpired(isExpired: bool)
    | SetContactEmail(contactEmail: string)
    | SetContactPhone(contactPhone: string)
    | SetTags(tags: seq<string>)
    | SetRegisteredUsers(registeredUsers: seq<Registration>)

  function KeyOf(x: Entry): Key {
    match x
    case SetName(_) => KName
    case SetDescription(_) => KDescription
    case SetDate(_) => KDate
    case SetTime(_) => KTime
    case SetVenue(_) => KVenue
    case SetOrganizedBy(_) => KOrganizedBy
    case SetOrganizerId(_) => KOrganizerId
    case SetPrice(_) => KPrice
    case SetTotalSeats(_) => KTotalSeats
    case SetAvailableSeats(_) => KAvailableSeats
    case SetCategory(_) => KCategory
    case SetRegistrationDeadline(_) => KRegistrationDeadline
    case SetIsExpired(_) => KIsExpired
    case SetContactEmail(_) => KContactEmail
    case SetContactPhone(_) => KContactPhone
    case SetTags(_) => KTags
    case SetRegisteredUsers(_) => KRegisteredUsers
  }

  /** A JavaScript object has each key at most once. */
  predicate DistinctKeys(body: seq<Entry>) {
    forall i, j :: 0 <= i < j < |body| ==> KeyOf(body[i]) != KeyOf(body[j])
  }

  /**
   * JavaScript truthiness of the value: an empty string, the number 0 and
   * `false` are falsy; date strings that passed validation, arrays and the
   * category name are truthy. The validation chain has already trimmed
   * `name`, `description`, `venue` and `organizedBy` in the body.
   */
  predicate Truthy(x: Entry) {
    match x
    case SetName(s) => Trim(s) != ""
    case SetDescription(s) => Trim(s) != ""
    case SetDate(_) => true
    case SetTime(s) => s != ""
    case SetVenue(s) => Trim(s) != ""
    case SetOrganizedBy(s) => Trim(s) != ""
    case SetOrganizerId(s) => s != ""
    case SetPrice(n) => n != 0
    case SetTotalSeats(n) => n != 0
    case SetAvailableSeats(n) => n != 0
    case SetCategory(s) => s != ""
    case SetRegistrationDeadline(_) => true
    case SetIsExpired(b) => b
    case SetContactEmail(s) => s != ""
    case SetContactPhone(s) => s != ""
    case SetTags(_) => true
    case SetRegisteredUsers(_) => true
  }

  /**
   * `event[key] = value`: `name`, `description`, `venue` and `organizedBy`
   * arrive trimmed by the validation chain, and an unknown category name
   * leaves the document's category as it was.
   */
  function Assign(e: Event, x: Entry): (r: Event)
    ensures !x.SetAvailableSeats? ==> r.availableSeats == e.availableSeats
    ensures !x.SetTotalSeats? ==> r.totalSeats == e.totalSeats
    ensures !x.SetRegisteredUsers? ==> r.registeredUsers == e.registeredUsers
    ensures r.createdAt == e.createdAt && r.updatedAt == e.updatedAt
  {
    match x
    case SetName(s) => e.(name := Trim(s))
    case SetDescription(s) => e.(description := Trim(s))
    case SetDate(d) => e.(date := d)
    case SetTime(s) => e.(time := s)
    case SetVenue(s) => e.(venue := Trim(s))
    case SetOrganizedBy(s) => e.(organizedBy := Trim(s))
    case SetOrganizerId(s) => e.(organizerId := s)
    case SetPrice(n) => e.(price := n)
    case SetTotalSeats(n) => e.(totalSeats := n)
    case SetAvailableSeats(n) => e.(availableSeats := n)
    case SetCategory(s) => if ParseCategory(s).Some? then e.(category := ParseCategory(s).value) else e
    case SetRegistrationDeadline(d) => e.(registrationDeadline := d)
    case SetIsExpired(b) => e.(isExpired := b)
    case SetContactEmail(s) => e.(contactEmail := s)
    case SetContactPhone(s) => e.(contactPhone := s)
    case SetTags(ts) => e.(tags := ts)
    case SetRegisteredUsers(regs) => e.(registeredUsers := regs)
  }

  /** The `Object.keys(body).forEach(key => { if (body[key]) event[key] = body[key]; })` loop. */
  function CopyBody(e: Event, body: seq<Entry>): Event
    decreases |body|
  {
    if body == [] then e
    else
      var before := CopyBody(e, body[..|body| - 1]);
      var x := body[|body| - 1];
      if Truthy(x) then Assign(before, x) else before
  }

  /** `body.totalSeats`. */
  function TotalSeatsIn(body: seq<Entry>): Option<int>
    decreases |body|
  {
    if body == [] then None
    else if body[|body| - 1].SetTotalSeats? then Some(body[|body| - 1].totalSeats)
    else TotalSeatsIn(body[..|body| - 1])
  }

  /** `body.availableSeats`. */
  function AvailableSeatsIn(body: seq<Entry>): Option<int>
    decreases |body|
  {
    if body == [] then None
    else if body[|body| - 1].SetAvailableSeats? then Some(body[|body| - 1].availableSeats)
    else AvailableSeatsIn(body[..|body| - 1])
  }

  /**
   * `body.availableSeats = n`: the last entry for the key is overwritten where
   * there is one; otherwise the new key goes at the end, as a new property
   * of a JavaScript object does.
   */
  function SetAvailable(body: seq<Entry>, n: int): (r: seq<Entry>)
    ensures AvailableSeatsIn(r) == Some(n)
    ensures forall x | x in r :: x in body || x == SetAvailableSeats(n)
    ensures AvailableSeatsIn(body).None? ==> r == body + [SetAvailableSeats(n)]
    ensures |r| == (if AvailableSeatsIn(body).None? then |body| + 1 else |body|)
    decreases |body|
  {
    if body == [] then [SetAvailableSeats(n)]
    else if body[|body| - 1].SetAvailableSeats? then body[..|body| - 1] + [SetAvailableSeats(n)]
    else if AvailableSeatsIn(body).None? then body + [SetAvailableSeats(n)]
    else
      var r := SetAvailable(body[..|body| - 1], n) + [body[|body| - 1]];
      assert r[..|r| - 1] == SetAvailable(body[..|body| - 1], n);
      r
  }

  /** An entry for another key leaves the free count alone and acts alike on documents that differ only there. */
  lemma AssignOtherKey(a: Event, b: Event, x: Entry)
    requires !x.SetAvailableSeats? && a.(availableSeats := 0) == b.(availableSeats := 0)
    ensures Assign(a, x).availableSeats == a.availableSeats
    ensures Assign(a, x).(availableSeats := 0) == Assign(b, x).(availableSeats := 0)
  {
  }

  /** Copying a body with one more entry at the end copies that entry last. */
  lemma CopyBodySnoc(e: Event, body: seq<Entry>, x: Entry)
    ensures CopyBody(e, body + [x]) == (if Truthy(x) then Assign(CopyBody(e, body), x) else CopyBody(e, body))
  {
    assert (body + [x])[..|body|] == body;
  }

  /** The three facts `CopySetAvailable` states, for one body and its edited form. */
  predicate CopiesAvailable(e: Event, body: seq<Entry>, edited: seq<Entry>, n: int) {
    && CopyBody(e, edited).(availableSeats := 0) == CopyBody(e, body).(availableSeats := 0)
    && (n != 0 ==> CopyBody(e, edited).availableSeats == n)
    && (n == 0 && DistinctKeys(body) ==> CopyBody(e, edited).availableSeats == e.availableSeats)
  }

  /** A body without a free count gains it at the end. */
  lemma CopyAppendedAvailable(e: Event, body: seq<Entry>, n: int)
    requires AvailableSeatsIn(body).None?
    ensures CopiesAvailable(e, body, body + [SetAvailableSeats(n)], n)
  {
    CopyBodySnoc(e, body, SetAvailableSeats(n));
    if n == 0 && DistinctKeys(body) {
      CopyBodyAvailable(e, body);
    }
  }

  /** A body ending in a free count has that entry replaced. */
  lemma CopyReplacedAvailable(e: Event, init: seq<Entry>, m: int, n: int)
    ensures CopiesAvailable(e, init + [SetAvailableSeats(m)], init + [SetAvailableSeats(n)], n)
  {
    var last := SetAvailableSeats(m);
    CopyBodySnoc(e, init, last);
    CopyBodySnoc(e, init, SetAvailableSeats(n));
    if n == 0 && DistinctKeys(init + [last]) {
      assert (init + [last])[..|init|] == init;
      assert DistinctKeys(init);
      CopyBodyAvailable(e, init);
      NoKeyInPrefix(init, last);
    }
  }

  /** An entry for another key at the end is copied after the edited prefix. */
  lemma CopyKeptLast(e: Event, init: seq<Entry>, last: Entry, n: int)
    requires !last.SetAvailableSeats?
    requires CopiesAvailable(e, init, SetAvailable(init, n), n)
    ensures CopiesAvailable(e, init + [last], SetAvailable(init, n) + [last], n)
  {
    var r0 := SetAvailable(init, n);
    CopyBodySnoc(e, r0, last);
    CopyBodySnoc(e, init, last);
    if n == 0 && DistinctKeys(init + [last]) {
      assert (init + [last])[..|init|] == init;
      assert DistinctKeys(init);
    }
    if Truthy(last) {
      AssignOtherKey(CopyBody(e, r0), CopyBody(e, init), last);
    }
  }

  /**
   * Copying a body whose free count was set to n writes n when it is
   * truthy, leaves the old count when it is 0, and otherwise does what
   * copying the original body does.
   */
  lemma {:induction false} CopySetAvailable(e: Event, body: seq<Entry>, n: int)
    ensures CopyBody(e, SetAvailable(body, n)).(availableSeats := 0) == CopyBody(e, body).(availableSeats := 0)
    ensures n != 0 ==> CopyBody(e, SetAvailable(body, n)).availableSeats == n
    ensures n == 0 && DistinctKeys(body) ==> CopyBody(e, SetAvailable(body, n)).availableSeats == e.availableSeats
    decreases |body|
  {
    if AvailableSeatsIn(body).None? {
      CopyAppendedAvailable(e, body, n);
    } else {
      var init, last := body[..|body| - 1], body[|body| - 1];
      assert body == init + [last];
      if last.SetAvailableSeats? {
        assert SetAvailable(body, n) == init + [SetAvailableSeats(n)];
        CopyReplacedAvailable(e, init, last.availableSeats, n);
      } else {
        assert SetAvailable(body, n) == SetAvailable(init, n) + [last];
        CopySetAvailable(e, init, n);
        CopyKeptLast(e, init, last, n);
      }
    }
    assert CopiesAvailable(e, body, SetAvailable(body, n), n);
  }

  /** Lines that derive the new free-seat count from a seat-total change. */
  function WithDerivedSeats(e: Event, body: seq<Entry>): seq<Entry> {
    match TotalSeatsIn(body)
    case Some(total) =>
      if total != 0 then SetAvailable(body, e.availableSeats + (total - e.totalSeats)) else body
    case None => body
  }

  /** The validation chain this model carries: totalSeats >= 1 and a known category. */
  predicate ValidBody(body: seq<Entry>) {
    forall i :: 0 <= i < |body| ==>
      (body[i].SetTotalSeats? ==> body[i].totalSeats >= 1)
      && (body[i].SetCategory? ==> ParseCategory(body[i].category).Some?)
  }

  /** `body.availableSeats < 0`: the body carries a negative free count. */
  predicate NegativeFree(body: seq<Entry>) {
    AvailableSeatsIn(body).Some? && AvailableSeatsIn(body).value < 0
  }

  /** `PUT /events/:id`. */
  function Update(t: Tables, id: string, requester: string, body: seq<Entry>, now: int): (o: Outcome<Event>)
    ensures o.reply.Err? ==> o.after == t
    ensures !ValidBody(body) ==> o.reply == Err(InvalidInput)
    ensures ValidBody(body) && id !in t.events ==> o.reply == Err(EventNotFound)
    ensures ValidBody(body) && id in t.events && t.events[id].organizerId != requester ==> o.reply == Err(NotAuthorizedToUpdate)
    ensures o.reply == Err(NegativeSeats) <==>
      && ValidBody(body) && id in t.events && t.events[id].organizerId == requester
      && NegativeFree(WithDerivedSeats(t.events[id], body))
    ensures o.reply.Ok? <==>
      && ValidBody(body) && id in t.events && t.events[id].organizerId == requester
      && !NegativeFree(WithDerivedSeats(t.events[id], body))
    ensures o.reply.Ok? ==>
      && id in t.events && o.reply.code == 200
      && o.after == t.(events := t.events[id := o.reply.value])
      && o.reply.value == PreSave(CopyBody(t.events[id], WithDerivedSeats(t.events[id], body)), now)
  {
    if !ValidBody(body) then Outcome(Err(InvalidInput), t)
    else if id !in t.events then Outcome(Err(EventNotFound), t)
    else if t.events[id].organizerId != requester then Outcome(Err(NotAuthorizedToUpdate), t)
    else
      var e := t.events[id];
      var fields := WithDerivedSeats(e, body);
      if NegativeFree(fields) then Outcome(Err(NegativeSeats), t)
      else
        var e' := PreSave(CopyBody(e, fields), now);
        Outcome(Ok(200, e'), t.(events := t.events[id := e']))
  }

  /** The body sends no `registeredUsers`. */
  predicate KeepsRegistrants(body: seq<Entry>) {
    forall x | x in body :: !x.SetRegisteredUsers?
  }

  /**
   * Without a `registeredUsers` key the copy never touches registrants, and a
   * written seat field holds its body value.
   */
  lemma CopyBodyFields(e: Event, body: seq<Entry>)
    requires DistinctKeys(body) && KeepsRegistrants(body)
    ensures CopyBody(e, body).registeredUsers == e.registeredUsers
    ensures CopyBody(e, body).availableSeats ==
      (if AvailableSeatsIn(body).Some? && AvailableSeatsIn(body).value != 0 then AvailableSeatsIn(body).value else e.availableSeats)
    ensures CopyBody(e, body).totalSeats ==
      (if TotalSeatsIn(body).Some? && TotalSeatsIn(body).value != 0 then TotalSeatsIn(body).value else e.totalSeats)
  {
    CopyBodyKeepsRegistrants(e, body);
    CopyBodyAvailable(e, body);
    CopyBodyTotal(e, body);
  }

  lemma {:induction false} CopyBodyKeepsRegistrants(e: Event, body: seq<Entry>)
    requires KeepsRegistrants(body)
    ensures CopyBody(e, body).registeredUsers == e.registeredUsers
    decreases |body|
  {
    if body != [] {
      var init := body[..|body| - 1];
      assert KeepsRegistrants(init) by {
        forall x | x in init ensures x in body {
          var k :| 0 <= k < |init| && init[k] == x;
          assert body[k] == x;
        }
      }
      assert body[|body| - 1] in body;
      CopyBodyKeepsRegistrants(e, init);
    }
  }

  lemma {:induction false} CopyBodyAvailable(e: Event, body: seq<Entry>)
    requires DistinctKeys(body)
    ensures CopyBody(e, body).availableSeats ==
      (if AvailableSeatsIn(body).Some? && AvailableSeatsIn(body).value != 0 then AvailableSeatsIn(body).value else e.availableSeats)
    decreases |body|
  {
    if body != [] {
      var init := body[..|body| - 1];
      assert DistinctKeys(init);
      CopyBodyAvailable(e, init);
      if body[|body| - 1].SetAvailableSeats? {
        NoKeyInPrefix(init, body[|body| - 1]);
      }
    }
  }

  lemma {:induction false} CopyBodyTotal(e: Event, body: seq<Entry>)
    requires DistinctKeys(body)
    ensures CopyBody(e, body).totalSeats ==
      (if TotalSeatsIn(body).Some? && TotalSeatsIn(body).value != 0 then TotalSeatsIn(body).value else e.totalSeats)
    decreases |body|
  {
    if body != [] {
      var init := body[..|body| - 1];
      assert DistinctKeys(init);
      CopyBodyTotal(e, init);
      if body[|body| - 1].SetTotalSeats? {
        NoKeyInPrefix(init, body[|body| - 1]);
      }
    }
  }

  /** In a body with distinct keys, the prefix before an entry has no entry with its key. */
  lemma {:induction false} NoKeyInPrefix(init: seq<Entry>, x: Entry)
    requires DistinctKeys(init + [x])
    ensures x.SetAvailableSeats? ==> AvailableSeatsIn(init).None?
    ensures x.SetTotalSeats? ==> TotalSeatsIn(init).None?
    decreases |init|
  {
    if init != [] {
      var y := init[|init| - 1];
      assert KeyOf(y) != KeyOf(x) by {
        assert (init + [x])[|init| - 1] == y && (init + [x])[|init|] == x;
      }
      var shorter := init[..|init| - 1];
      assert shorter + [x] == (init + [x])[..|init| - 1] + [x];
      assert DistinctKeys(shorter + [x]) by {
        forall i, j | 0 <= i < j < |shorter + [x]| ensures KeyOf((shorter + [x])[i]) != KeyOf((shorter + [x])[j]) {
          var i', j' := i, if j == |shorter| then |init| else j;
          assert (shorter + [x])[i] == (init + [x])[i'] && (shorter + [x])[j] == (init + [x])[j'];
        }
      }
      NoKeyInPrefix(shorter, x);
    }
  }

  /**
   * The seat rule: with a new total T, the free count is moved by the same
   * delta, a negative result is refused with 400, and a result of exactly 0
   * is falsy and so is never written: the old free count stays.
   */
  lemma UpdateSeatRule(t: Tables, id: string, requester: string, body: seq<Entry>, now: int)
    requires DistinctKeys(body) && ValidBody(body)
    requires id in t.events && t.events[id].organizerId == requester
    requires TotalSeatsIn(body).Some?
    ensures var e := t.events[id];
      var total := TotalSeatsIn(body).value;
      var derived := e.availableSeats + (total - e.totalSeats);
      var o := Update(t, id, requester, body, now);
      && (derived < 0 ==> o.reply == Err(NegativeSeats) && o.after == t)
      && (derived > 0 ==> o.reply.Ok? && o.reply.value.availableSeats == derived && o.reply.value.totalSeats == total)
      && (derived == 0 ==> o.reply.Ok? && o.reply.value.availableSeats == e.availableSeats && o.reply.value.totalSeats == total)
  {
    DerivedSeats(t.events[id], body, now);
  }

  /** The seat rule on one document, apart from the lookup and the checks around it. */
  lemma DerivedSeats(e: Event, body: seq<Entry>, now: int)
    requires DistinctKeys(body) && ValidBody(body) && TotalSeatsIn(body).Some?
    ensures var total := TotalSeatsIn(body).value;
      var derived := e.availableSeats + (total - e.totalSeats);
      var fields := WithDerivedSeats(e, body);
      && AvailableSeatsIn(fields) == Some(derived)
      && PreSave(CopyBody(e, fields), now).availableSeats == (if derived != 0 then derived else e.availableSeats)
      && PreSave(CopyBody(e, fields), now).totalSeats == total
  {
    TotalSeatsPositive(body);
    var total := TotalSeatsIn(body).value;
    var derived := e.availableSeats + (total - e.totalSeats);
    var fields := SetAvailable(body, derived);
    assert WithDerivedSeats(e, body) == fields;
    CopySetAvailable(e, body, derived);
    CopyBodyTotal(e, body);
    PreSaveKeepsSeats(CopyBody(e, fields), now);
  }

  lemma {:induction false} TotalSeatsPositive(body: seq<Entry>)
    requires ValidBody(body)
    ensures TotalSeatsIn(body).Some? ==> TotalSeatsIn(body).value >= 1
    decreases |body|
  {
    if body != [] {
      assert ValidBody(body[..|body| - 1]) by {
        forall i | 0 <= i < |body| - 1 ensures body[..|body| - 1][i] == body[i] {}
      }
      TotalSeatsPositive(body[..|body| - 1]);
    }
  }

  /**
   * An update keeps the seat discipline when the body sends no
   * `registeredUsers`, does not set the free count directly, and a seat-total
   * change does not land the derived count on exactly 0 (unless the total is
   * unchanged).
   */
  lemma UpdateKeepsSeats(t: Tables, id: string, requester: string, body: seq<Entry>, now: int)
    requires DistinctKeys(body) && KeepsRegistrants(body)
    requires id in t.events && SeatsValid(t.events[id])
    requires TotalSeatsIn(body).None? ==> AvailableSeatsIn(body).None?
    requires TotalSeatsIn(body).Some? ==>
      var derived := t.events[id].availableSeats + (TotalSeatsIn(body).value - t.events[id].totalSeats);
      derived != 0 || TotalSeatsIn(body).value == t.events[id].totalSeats
    ensures Update(t, id, requester, body, now).reply.Ok? ==> SeatsValid(Update(t, id, requester, body, now).after.events[id])
  {
    var o := Update(t, id, requester, body, now);
    if o.reply.Ok? {
      var e := t.events[id];
      var fields := WithDerivedSeats(e, body);
      if TotalSeatsIn(body).Some? {
        DerivedSeats(e, body, now);
      } else {
        CopyBodyFields(e, body);
      }
      assert KeepsRegistrants(fields);
      CopyBodyKeepsRegistrants(e, fields);
      PreSaveKeepsSeats(CopyBody(e, fields), now);
    }
  }

  /**
   * The zero-delta case breaks the accounting: lowering the total by exactly
   * the free count leaves the free count unwritten, so the event reports
   * more free seats than remain and the seats no longer add up.
   */
  lemma ZeroDeltaLeavesStaleSeats(t: Tables, id: string, requester: string, now: int)
    requires id in t.events && t.events[id].organizerId == requester && SeatsValid(t.events[id])
    requires 0 < t.events[id].availableSeats < t.events[id].totalSeats
    ensures var e := t.events[id];
      var body := [SetTotalSeats(e.totalSeats - e.availableSeats)];
      var o := Update(t, id, requester, body, now);
      && o.reply.Ok?
      && o.reply.value.availableSeats == e.availableSeats
      && o.reply.value.totalSeats == e.totalSeats - e.availableSeats
      && !SeatsValid(o.reply.value)
      && (2 * e.availableSeats > e.totalSeats ==> o.reply.value.availableSeats > o.reply.value.totalSeats)
  {
    var e := t.events[id];
    var body := [SetTotalSeats(e.totalSeats - e.availableSeats)];
    assert TotalSeatsIn(body) == Some(e.totalSeats - e.availableSeats);
    UpdateSeatRule(t, id, requester, body, now);
    var fields := WithDerivedSeats(e, body);
    CopyBodyKeepsRegistrants(e, fields);
    PreSaveKeepsSeats(CopyBody(e, fields), now);
  }

  /** A free count sent directly is written as is, with no upper bound. */
  lemma DirectAvailableUnbounded(t: Tables, id: string, requester: string, n: int, now: int)
    requires id in t.events && t.events[id].organizerId == requester && n > 0
    ensures var o := Update(t, id, requester, [SetAvailableSeats(n)], now);
      o.reply.Ok? && o.reply.value.availableSeats == n && o.reply.value.totalSeats == t.events[id].totalSeats
  {
    var body := [SetAvailableSeats(n)];
    assert AvailableSeatsIn(body) == Some(n) && TotalSeatsIn(body) == None;
    CopyBodyFields(t.events[id], body);
    PreSaveKeepsSeats(CopyBody(t.events[id], body), now);
  }

  /** A negative free count sent directly, without a new total, is refused with 400 and changes nothing. */
  lemma DirectNegativeRefused(t: Tables, id: string, requester: string, n: int, now: int)
    requires id in t.events && t.events[id].organizerId == requester && n < 0
    ensures var o := Update(t, id, requester, [SetAvailableSeats(n)], now);
      o.reply == Err(NegativeSeats) && o.reply.Status() == 400 && o.after == t
  {
    var body := [SetAvailableSeats(n)];
    assert AvailableSeatsIn(body) == Some(n) && TotalSeatsIn(body) == None;
  }

  /**
   * An update never touches the users, and without a `registeredUsers` key
   * it leaves the registrant lists alone, so the mirror survives it.
   */
  lemma UpdateKeepsMirror(t: Tables, id: string, requester: string, body: seq<Entry>, now: int)
    requires Mirrored(t.events, t.users) && Closed(t.events, t.users)
    requires KeepsRegistrants(body)
    ensures var o := Update(t, id, requester, body, now);
      Mirrored(o.after.events, o.after.users) && Closed(o.after.events, o.after.users)
  {
    var o := Update(t, id, requester, body, now);
    if o.reply.Ok? {
      var e := t.events[id];
      var fields := WithDerivedSeats(e, body);
      assert KeepsRegistrants(fields);
      CopyBodyKeepsRegistrants(e, fields);
      PreSaveKeepsSeats(CopyBody(e, fields), now);
      SameRegistrantsKeepMirror(t, id, o.reply.value);
    }
  }

  /**
   * A body `{ "registeredUsers": [] }` passes validation and is truthy, so
   * the copy loop empties the registrants of the event, while every user
   * who registered still lists it: the mirror breaks, and so does the seat
   * count of an event that had a registrant.
   */
  lemma RegistrantsResetBreaksMirror(t: Tables, id: string, requester: string, uid: string, now: int)
    requires id in t.events && t.events[id].organizerId == requester
    requires uid in t.users && id in t.users[uid].registeredEvents
    ensures var o := Update(t, id, requester, [SetRegisteredUsers([])], now);
      && o.reply.Ok?
      && o.after.events[id].registeredUsers == []
      && o.after.users == t.users
      && !Mirrored(o.after.events, o.after.users)
      && (Mirrored(t.events, t.users) && SeatsValid(t.events[id]) ==> !SeatsValid(o.after.events[id]))
  {
    var body := [SetRegisteredUsers([])];
    assert AvailableSeatsIn(body) == None && TotalSeatsIn(body) == None;
    assert ValidBody(body);
    var o := Update(t, id, requester, body, now);
    var e' := o.after.events[id];
    assert CopyBody(t.events[id], body) == t.events[id].(registeredUsers := []) by {
      assert body[..0] == [];
    }
    assert e'.registeredUsers == [];
    assert !HasRegistrant(e', uid);
    if Mirrored(t.events, t.users) && SeatsValid(t.events[id]) {
      assert HasRegistrant(t.events[id], uid);
      assert |t.events[id].registeredUsers| > 0;
      PreSaveKeepsSeats(t.events[id].(registeredUsers := []), now);
    }
  }

  /** 30 seats with 10 free: a new total of 25 leaves 5 free; a new total of 15 is refused. */
  lemma SeatEditExample(t: Tables, id: string, requester: string, now: int)
    requires id in t.events && t.events[id].organizerId == requester
    requires t.events[id].totalSeats == 30 && t.events[id].availableSeats == 10
    ensures Update(t, id, requester, [SetTotalSeats(25)], now).reply.value.availableSeats == 5
    ensures Update(t, id, requester, [SetTotalSeats(15)], now).reply == Err(NegativeSeats)
  {
    assert TotalSeatsIn([SetTotalSeats(25)]) == Some(25);
    assert TotalSeatsIn([SetTotalSeats(15)]) == Some(15);
    UpdateSeatRule(t, id, requester, [SetTotalSeats(25)], now);
    UpdateSeatRule(t, id, requester, [SetTotalSeats(15)], now);
  }

  /** `POST /events`: validation, then a new document owned by the requester, saved through the hook. */
  function Create(t: Tables, newId: string, requester: string, input: EventInput, now: int): (o: Outcome<Event>)
    requires newId !in t.events
    ensures input.totalSeats < 1 ==> o.reply == Err(InvalidInput) && o.after == t
    ensures o.reply.Ok? <==> input.totalSeats >= 1
    ensures o.reply.Ok? ==>
      && o.reply.code == 201
      && o.reply.value.availableSeats == o.reply.value.totalSeats == input.totalSeats
      && o.reply.value.organizerId == requester
      && o.reply.value.registeredUsers == []
      && o.reply.value.isExpired == (input.date < now)
      && o.reply.value.price == input.price.GetOr(0)
      && o.reply.value == PreSave(Construct(input, requester, now), now)
      && o.reply.value.date == input.date && o.reply.value.registrationDeadline == input.registrationDeadline
      && o.reply.value.name == Text.Trim(input.name) && o.reply.value.category == input.category
      && o.reply.value.createdAt == now && o.reply.value.updatedAt == now
      && SeatsValid(o.reply.value)
      && o.after == t.(events := t.events[newId := o.reply.value], order := t.order + [newId])
  {
    if input.totalSeats < 1 then Outcome(Err(InvalidInput), t)
    else
      var e := PreSave(Construct(input, requester, now), now);
      assert Registrants([]) == [];
      Outcome(Ok(201, e), t.(events := t.events[newId := e], order := t.order + [newId]))
  }

  /** A fresh event keeps the store consistent: nobody lists its id yet. */
  lemma CreateKeepsConsistency(t: Tables, newId: string, requester: string, input: EventInput, now: int)
    requires newId !in t.events && Consistent(t)
    ensures Consistent(Create(t, newId, requester, input, now).after)
  {
    var o := Create(t, newId, requester, input, now);
    if o.reply.Ok? {
      AddFreshEvent(t, newId, o.reply.value);
    }
  }

  /** Storing an event nobody is registered for, under an unused id, keeps every invariant. */
  lemma AddFreshEvent(t: Tables, newId: string, e: Event)
    requires newId !in t.events && Consistent(t)
    requires e.registeredUsers == [] && SeatsValid(e)
    ensures Consistent(t.(events := t.events[newId := e], order := t.order + [newId]))
  {
    AppendFreshKeepsIndex(t, newId, e);
    assert Registrants(e.registeredUsers) == [];
    forall uid | uid in t.users ensures newId !in t.users[uid].registeredEvents {}
  }

  /** Storing a document under an unused id and appending the id keeps the index. */
  lemma AppendFreshKeepsIndex(t: Tables, newId: string, e: Event)
    requires newId !in t.events && Indexed(t)
    ensures Indexed(t.(events := t.events[newId := e], order := t.order + [newId]))
  {
    var a := t.(events := t.events[newId := e], order := t.order + [newId]);
    assert newId !in t.order;
    assert Distinct(a.order) by {
      forall i, j | 0 <= i < j < |a.order| ensures a.order[i] != a.order[j] {
        assert a.order[i] == t.order[i];
        if j < |t.order| {
          assert a.order[j] == t.order[j];
        }
      }
    }
  }

  /** `DELETE /events/:id`: 404, 403, or the event is removed and nothing else changes. */
  function Delete(t: Tables, id: string, requester: string): (o: Outcome<()>)
    ensures o.reply.Err? ==> o.after == t
    ensures id !in t.events ==> o.reply == Err(EventNotFound)
    ensures id in t.events && t.events[id].organizerId != requester ==> o.reply == Err(NotAuthorizedToDelete)
    ensures o.reply.Ok? <==> id in t.events && t.events[id].organizerId == requester
    ensures o.reply.Ok? ==> o.after.events == t.events - {id} && o.after.users == t.users
    ensures o.reply.Ok? ==> o.after.order == Without(t.order, id)
  {
    if id !in t.events then Outcome(Err(EventNotFound), t)
    else if t.events[id].organizerId != requester then Outcome(Err(NotAuthorizedToDelete), t)
    else Outcome(Ok(200, ()), Tables(t.events - {id}, Without(t.order, id), t.users))
  }

  /** Deleting keeps the index and the mirror among the remaining documents. */
  lemma DeleteKeepsMirror(t: Tables, id: string, requester: string)
    requires Indexed(t) && Mirrored(t.events, t.users) && AllSeatsValid(t.events)
    ensures var a := Delete(t, id, requester).after;
      Indexed(a) && Mirrored(a.events, a.users) && AllSeatsValid(a.events)
  {
  }

  /**
   * ... but leaves the users' lists untouched: a registrant keeps the id of
   * an event that no longer exists.
   */
  lemma DeleteLeavesDanglingIds(t: Tables, id: string, requester: string, uid: string)
    requires id in t.events && t.events[id].organizerId == requester
    requires uid in t.users && id in t.users[uid].registeredEvents
    ensures var a := Delete(t, id, requester).after;
      uid in a.users && id in a.users[uid].registeredEvents && id !in a.events && !Closed(a.events, a.users)
  {
  }
}
