/**
 * The in-memory part of the ShoreSquad app: the list of cleanup events the
 * user knows about, the crew they invited, and the handlers that change
 * them.  Ids and timestamps, which the app takes from the clock, are inputs
 * here (`stamp`, `createdAt`, `joinedAt`).
 */
module ShoreSquad {
  import opened Wrappers

  /** What distinguishes the two kinds of event the app creates. */
  datatype Origin =
    | FromForm(date: string, maxPeople: Option<int>)  // maxPeople is None when parseInt gave NaN
    | FeaturedCleanup

  datatype Event = Event(
    id: string,
    name: string,
    location: string,
    description: string,
    participants: seq<string>,
    createdBy: string,
    createdAt: string,
    origin: Origin)

  datatype CrewMember = CrewMember(id: string, email: string, joinedAt: string, status: string)

  /** The event the "join next cleanup" button adds. */
  function NextCleanup(stamp: string, userId: string, createdAt: string): (e: Event)
    ensures e.id == "event_pasir_ris_" + stamp && e.origin == FeaturedCleanup
    ensures e.createdBy == userId && e.participants == [userId] && e.createdAt == createdAt
  {
    Event("event_pasir_ris_" + stamp,
          "Pasir Ris Beach Cleanup",
          "Pasir Ris - Street View Asia",
          "Join us for a beach cleanup at Pasir Ris! Help keep our beaches clean and beautiful.",
          [userId], userId, createdAt, FeaturedCleanup)
  }

  /** Some event with this id already lists the user among its participants. */
  predicate AlreadyJoined(events: seq<Event>, id: string, userId: string)
  {
    exists e :: e in events && e.id == id && userId in e.participants
  }

  /** The guard scans the whole list: after a push it holds exactly when it held before or the pushed event matches. */
  lemma AlreadyJoinedAfterPush(events: seq<Event>, e: Event, id: string, userId: string)
    ensures AlreadyJoined(events + [e], id, userId) <==>
            AlreadyJoined(events, id, userId) || (e.id == id && userId in e.participants)
  {
    if AlreadyJoined(events, id, userId) {
      var x :| x in events && x.id == id && userId in x.participants;
      assert x in events + [e];
    }
    if e.id == id && userId in e.participants {
      assert e in events + [e];
    }
  }

  /** `a` is `b` with some elements dropped, the rest in their original order. */
  predicate IsSubsequence(a: seq<Event>, b: seq<Event>)
    decreases |b|
  {
    a == [] || (b != [] && ((a[0] == b[0] && IsSubsequence(a[1..], b[1..])) || IsSubsequence(a, b[1..])))
  }

  /** The filter in deleteEvent: every event whose id is not `id`, in order. */
  function RemoveById(events: seq<Event>, id: string): (r: seq<Event>)
    ensures |r| <= |events|
    ensures forall e :: e in r ==> e in events && e.id != id
  {
    if events == [] then []
    else if events[0].id == id then RemoveById(events[1..], id)
    else [events[0]] + RemoveById(events[1..], id)
  }

  /**
   * deleteEvent drops exactly the events with the given id: every other
   * event is kept as often as it occurred, in its original relative order.
   */
  lemma {:induction false} RemoveByIdKeepsOthers(events: seq<Event>, id: string)
    ensures forall e :: multiset(RemoveById(events, id))[e] == if e.id == id then 0 else multiset(events)[e]
    ensures IsSubsequence(RemoveById(events, id), events)
  {
    if events != [] {
      var rest := RemoveById(events[1..], id);
      RemoveByIdKeepsOthers(events[1..], id);
      assert events == [events[0]] + events[1..];
      if events[0].id != id {
        assert RemoveById(events, id)[1..] == rest;
      } else if rest != [] {
        assert IsSubsequence(rest, events[1..]);
      }
    }
  }

  /** An event list that has no event with `id` is left as it is. */
  lemma {:induction false} RemoveAbsentId(events: seq<Event>, id: string)
    requires forall e :: e in events ==> e.id != id
    ensures RemoveById(events, id) == events
  {
    if events != [] {
      assert events[0] in events;
      assert forall e :: e in events[1..] ==> e in events;
      RemoveAbsentId(events[1..], id);
    }
  }

  /** Deleting twice is deleting once. */
  lemma DeleteIdempotent(events: seq<Event>, id: string)
    ensures RemoveById(RemoveById(events, id), id) == RemoveById(events, id)
  {
    RemoveAbsentId(RemoveById(events, id), id);
  }

  /** Deleting an event just created, under an id nobody else uses, restores the list. */
  lemma {:induction false} DeleteUndoesCreate(events: seq<Event>, e: Event)
    requires forall x :: x in events ==> x.id != e.id
    ensures RemoveById(events + [e], e.id) == events
  {
    var s := events + [e];
    if events == [] {
      assert s[1..] == [];
    } else {
      assert s[0] == events[0] && s[1..] == events[1..] + [e];
      assert forall x :: x in events[1..] ==> x in events;
      DeleteUndoesCreate(events[1..], e);
      assert events[0] in events;
      assert RemoveById(s, e.id) == [events[0]] + events[1..];
      assert events == [events[0]] + events[1..];
    }
  }

  /** After a delete the user no longer counts as joined to that event. */
  lemma DeleteLeavesNoJoin(events: seq<Event>, id: string, userId: string)
    ensures !AlreadyJoined(RemoveById(events, id), id, userId)
  {
  }

  /** The join-next-cleanup guard: append `next` unless the user already joined an event with its id. */
  function JoinNext(events: seq<Event>, next: Event, userId: string): (r: seq<Event>)
    ensures r == events <==> AlreadyJoined(events, next.id, userId)
    ensures r != events ==> r == events + [next]
    ensures userId in next.participants ==> AlreadyJoined(r, next.id, userId)
  {
    if AlreadyJoined(events, next.id, userId) then events else events + [next]
  }

  /** Pressing the button twice with the same id adds the event once. */
  lemma JoinIdempotent(events: seq<Event>, stamp: string, userId: string, createdAt: string)
    ensures var next := NextCleanup(stamp, userId, createdAt);
      JoinNext(JoinNext(events, next, userId), next, userId) == JoinNext(events, next, userId)
  {
    var next := NextCleanup(stamp, userId, createdAt);
    assert next in events + [next];
  }

  /**
   * The guard compares whole ids, and every press makes a new id from the
   * clock, so having joined an earlier Pasir Ris cleanup does not stop a
   * second one from being added.
   */
  lemma GuardIsPerId(events: seq<Event>, stamp: string, userId: string, createdAt: string)
    requires forall e :: e in events ==> e.id != "event_pasir_ris_" + stamp
    ensures JoinNext(events, NextCleanup(stamp, userId, createdAt), userId) ==
            events + [NextCleanup(stamp, userId, createdAt)]
  {
  }

  /** The crew list's display name: email.split('@')[0]. */
  function DisplayName(email: string): (name: string)
    ensures '@' !in name
    ensures |name| <= |email| && name == email[..|name|]
    ensures |name| < |email| ==> email[|name|] == '@'
  {
    if email == [] || email[0] == '@' then []
    else [email[0]] + DisplayName(email[1..])
  }

  /** For an address local@domain the display name is the local part. */
  lemma {:induction false} DisplayNameOfAddress(local: string, domain: string)
    requires '@' !in local
    ensures DisplayName(local + "@" + domain) == local
  {
    if local != [] {
      assert (local + "@" + domain)[1..] == local[1..] + "@" + domain;
      assert local[0] in local;
      assert forall c :: c in local[1..] ==> c in local;
      DisplayNameOfAddress(local[1..], domain);
      assert local == [local[0]] + local[1..];
    }
  }

  /** AppState: the events and crew lists the handlers update in place. */
  class AppState {
    var events: seq<Event>
    var crew: seq<CrewMember>
    /** AppState.currentUser.id */
    const userId: string

    constructor (userId: string)
      ensures this.userId == userId && events == [] && crew == []
    {
      this.userId := userId;
      events := [];
      crew := [];
    }

    /** deleteEvent: keeps every event whose id differs, in order. */
    method DeleteEvent(eventId: string)
      modifies this
      ensures events == RemoveById(old(events), eventId)
      ensures crew == old(crew)
    {
      events := RemoveById(events, eventId);
    }

    /** The join-next-cleanup button; `joined` is false when the guard found the user already joined. */
    method JoinNextCleanup(stamp: string, createdAt: string) returns (joined: bool)
      modifies this
      ensures joined <==> !AlreadyJoined(old(events), "event_pasir_ris_" + stamp, userId)
      ensures events == JoinNext(old(events), NextCleanup(stamp, userId, createdAt), userId)
      ensures joined ==> events == old(events) + [NextCleanup(stamp, userId, createdAt)]
      ensures !joined ==> events == old(events)
      ensures crew == old(crew)
    {
      var next := NextCleanup(stamp, userId, createdAt);
      var alreadyJoined := AlreadyJoined(events, next.id, userId);
      if alreadyJoined {
        joined := false;
      } else {
        events := events + [next];
        joined := true;
      }
    }

    /** The create-event form: the new event goes at the end, with the user as creator and sole participant. */
    method CreateEvent(stamp: string, name: string, date: string, location: string, description: string,
                       maxPeople: Option<int>, createdAt: string) returns (event: Event)
      modifies this
      ensures event.id == "event_" + stamp && event.name == name && event.location == location
      ensures event.description == description && event.origin == FromForm(date, maxPeople)
      ensures event.participants == [userId] && event.createdBy == userId && event.createdAt == createdAt
      ensures events == old(events) + [event]
      ensures crew == old(crew)
    {
      event := Event("event_" + stamp, name, location, description, [userId], userId, createdAt,
                     FromForm(date, maxPeople));
      events := events + [event];
    }

    /**
     * The invite button: `email` is what prompt returned (None when the
     * dialog was cancelled); an empty or cancelled entry invites nobody.
     */
    method InviteCrew(email: Option<string>, stamp: string, joinedAt: string) returns (invited: bool)
      modifies this
      ensures invited <==> email.Some? && email.value != ""
      ensures invited ==> crew == old(crew) + [CrewMember("crew_" + stamp, email.value, joinedAt, "pending")]
      ensures !invited ==> crew == old(crew)
      ensures events == old(events)
    {
      invited := email.Some? && email.value != "";
      if invited {
        crew := crew + [CrewMember("crew_" + stamp, email.value, joinedAt, "pending")];
      }
    }
  }
}
