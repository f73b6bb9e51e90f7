/**
 * The two collections as values: events and users keyed by id, plus the
 * natural (insertion) order of the events collection, which `find` without
 * a sort returns. The invariants say what the denormalised pair of lists
 * must keep.
 */
module Db {
  import opened UserModel
  import opened EventModel
  import opened Http

  datatype Tables = Tables(events: map<string, Event>, order: seq<string>, users: map<string, User>)

  /** A handler's reply together with the tables it leaves behind. */
  datatype Outcome<+T> = Outcome(reply: Reply<T>, after: Tables)

  /** `order` lists every stored event exactly once. */
  ghost predicate Indexed(t: Tables) {
    && Distinct(t.order)
    && (forall id :: id in t.order <==> id in t.events)
  }

  /** User U is in E.registeredUsers exactly when E is in U.registeredEvents. */
  ghost predicate Mirrored(events: map<string, Event>, users: map<string, User>) {
    forall eid, uid | eid in events && uid in users ::
      HasRegistrant(events[eid], uid) <==> eid in users[uid].registeredEvents
  }

  /** No list refers to a document that is not stored. */
  ghost predicate Closed(events: map<string, Event>, users: map<string, User>) {
    && (forall uid, eid | uid in users && eid in users[uid].registeredEvents :: eid in events)
    && (forall eid, uid | eid in events && HasRegistrant(events[eid], uid) :: uid in users)
  }

  ghost predicate AllSeatsValid(events: map<string, Event>) {
    forall eid | eid in events :: SeatsValid(events[eid])
  }

  /** The consistency the registration workflow is meant to keep. */
  ghost predicate Consistent(t: Tables) {
    && Indexed(t)
    && Mirrored(t.events, t.users)
    && Closed(t.events, t.users)
    && AllSeatsValid(t.events)
  }

  /** `order` with `id` removed. */
  function Without(s: seq<string>, id: string): (r: seq<string>)
    ensures forall x :: x in r <==> x in s && x != id
    ensures Distinct(s) ==> Distinct(r)
    ensures id !in s ==> r == s
  {
    if s == [] then []
    else
      var rest := Without(s[1..], id);
      if s[0] == id then rest
      else
        assert Distinct(s) ==> s[0] !in s[1..];
        [s[0]] + rest
  }

  /**
   * Removal works piece by piece, so the remaining ids keep their relative
   * order: only the occurrences of `id` drop out.
   */
  lemma {:induction false} WithoutConcat(a: seq<string>, b: seq<string>, id: string)
    ensures Without(a + b, id) == Without(a, id) + Without(b, id)
    decreases |a|
  {
    if a != [] {
      assert (a + b)[0] == a[0];
      assert (a + b)[1..] == a[1..] + b;
      WithoutConcat(a[1..], b, id);
    } else {
      assert a + b == b;
    }
  }

  /** Removing a stored id from a duplicate-free order closes the gap it leaves. */
  lemma RemoveFromOrder(s: seq<string>, k: nat, id: string)
    requires k < |s| && s[k] == id && Distinct(s)
    ensures Without(s, id) == s[..k] + s[k + 1..]
  {
    assert s == s[..k] + ([s[k]] + s[k + 1..]);
    WithoutConcat(s[..k], [s[k]] + s[k + 1..], id);
    WithoutConcat([s[k]], s[k + 1..], id);
    assert id !in s[..k] && id !in s[k + 1..] by {
      forall j | 0 <= j < |s| && j != k ensures s[j] != id {
        if j < k { assert s[j] != s[k]; } else { assert s[k] != s[j]; }
      }
    }
    assert Without([s[k]], id) == [];
  }

  /** Tables that differ only in user fields other than the event lists are equally consistent. */
  lemma SameListsKeepConsistency(t: Tables, a: Tables)
    requires Consistent(t)
    requires a.events == t.events && a.order == t.order && a.users.Keys == t.users.Keys
    requires forall uid | uid in t.users :: a.users[uid].registeredEvents == t.users[uid].registeredEvents
    ensures Consistent(a)
  {
    assert Indexed(a);
    forall eid, uid | eid in a.events && uid in a.users
      ensures HasRegistrant(a.events[eid], uid) <==> eid in a.users[uid].registeredEvents
    {
      assert a.users[uid].registeredEvents == t.users[uid].registeredEvents;
    }
    forall uid, eid | uid in a.users && eid in a.users[uid].registeredEvents ensures eid in a.events {
      assert a.users[uid].registeredEvents == t.users[uid].registeredEvents;
    }
  }

  /** Rewriting one event without touching its registrants keeps both lists in step. */
  lemma SameRegistrantsKeepMirror(t: Tables, id: string, e: Event)
    requires id in t.events && e.registeredUsers == t.events[id].registeredUsers
    requires Mirrored(t.events, t.users) && Closed(t.events, t.users)
    ensures Mirrored(t.events[id := e], t.users) && Closed(t.events[id := e], t.users)
  {
    var events := t.events[id := e];
    forall eid, uid | eid in events ensures HasRegistrant(events[eid], uid) == HasRegistrant(t.events[eid], uid) {}
  }
}
