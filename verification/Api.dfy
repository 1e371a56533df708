/**
 * The out-of-office aggregator of `supper/api.py`: the query window sent
 * to the calendar service and the pass over the returned events that
 * builds one list of absent first names per working day.
 *
 * Events arrive already parsed: start and end are timestamps in the sense
 * of module `Dates`.
 */
module Api {
  import Dates
  import Text
  import Wrappers

  /** A calendar participant: display name and e-mail address. */
  datatype Contact = Contact(name: string, address: string)

  /** One calendar event with the fields the query selects. */
  datatype Event = Event(
    subject: string,
    organizer: Contact,
    start: int,
    end: int,
    attendees: seq<Contact>)

  /** The calendar-view request: whose calendar, which range, how many events, which fields. */
  datatype CalendarQuery = CalendarQuery(
    mailbox: string,
    rangeStart: int,
    rangeEnd: int,
    top: nat,
    select: seq<string>)

  const WORKDAYS: nat := 5
  const PAGE_LIMIT: nat := 150
  const DAYS_BEFORE: int := 14
  const DAYS_AFTER: int := 21
  const SELECTED_FIELDS: seq<string> := ["Subject", "Organizer", "Start", "End", "Attendees"]

  /* ---------------------------------------------------------- query window */

  /**
   * `get_event_range`: the calendar of `email`, from two weeks before the
   * target Monday to three weeks after it, at most 150 events.
   */
  function GetEventRange(monday: int, email: string): (q: CalendarQuery)
    ensures q.mailbox == email
    ensures q.rangeEnd - q.rangeStart == 35 * Dates.DAY
    ensures q.rangeStart + 14 * Dates.DAY == monday
    ensures q.rangeStart < monday && monday + Dates.FRIDAY_OFFSET < q.rangeEnd
    ensures q.top == 150
    ensures q.select == ["Subject", "Organizer", "Start", "End", "Attendees"]
  {
    CalendarQuery(
      email,
      monday - DAYS_BEFORE * Dates.DAY,
      monday + DAYS_AFTER * Dates.DAY,
      PAGE_LIMIT,
      SELECTED_FIELDS)
  }

  /* ------------------------------------------------------ name resolution */

  /** `name.split(" ")[0]`: the display name up to its first single space. */
  function FirstName(displayName: string): (r: string)
    ensures ' ' !in r
    ensures r <= displayName
    ensures |r| < |displayName| ==> displayName[|r|] == ' '
  {
    Text.FirstPiece(displayName, ' ')
  }

  /** The entry an attendee contributes to a day's list: the lower-cased first name. */
  function Entry(a: Contact): string
  {
    Text.Lower(FirstName(a.name))
  }

  /** The entries a sequence of attendees can contribute. */
  function Entries(attendees: seq<Contact>): set<string>
  {
    set a | a in attendees :: Entry(a)
  }

  /** True when every entry of a day's list is in lower case. */
  predicate AllLower(list: seq<string>)
  {
    forall k :: 0 <= k < |list| ==> Text.IsLower(list[k])
  }

  /**
   * One iteration of `add_attendees_to_ooo_list`: the raw first name is
   * looked up, and only if it is absent is its lower-cased form appended.
   */
  function AddAttendee(list: seq<string>, a: Contact): (r: seq<string>)
    ensures list <= r && |r| <= |list| + 1
    ensures |r| == |list| <==> FirstName(a.name) in list
    ensures forall k :: |list| <= k < |r| ==> r[k] == Entry(a)
  {
    var name := FirstName(a.name);
    if name in list then list else list + [Text.Lower(name)]
  }

  /**
   * `add_attendees_to_ooo_list`: extends a day's list by the attendees in
   * order. It only appends, every appended entry is some attendee's entry,
   * and every attendee ends up present either by raw first name or by entry.
   */
  function AddAttendeesToOooList(attendees: seq<Contact>, list: seq<string>): (r: seq<string>)
    ensures list <= r
    ensures |r| <= |list| + |attendees|
    ensures forall k :: |list| <= k < |r| ==> r[k] in Entries(attendees)
    ensures forall a :: a in attendees ==> FirstName(a.name) in r || Entry(a) in r
    decreases |attendees|
  {
    if |attendees| == 0 then list
    else
      var a, rest := attendees[0], attendees[1..];
      var next := AddAttendee(list, a);
      var r := AddAttendeesToOooList(rest, next);
      assert Entries(rest) <= Entries(attendees) && Entry(a) in Entries(attendees);
      assert forall k :: |list| <= k < |r| ==> r[k] in Entries(attendees) by {
        forall k | |list| <= k < |r|
          ensures r[k] in Entries(attendees)
        {
          if k >= |next| {
            assert r[k] in Entries(rest);
          } else {
            assert r[k] == next[k] == Entry(a);
          }
        }
      }
      assert forall b :: b in attendees ==> b == a || b in rest;
      assert FirstName(a.name) in next || Entry(a) in next;
      r
  }

  /**
   * Starting from a list in lower case, the list stays in lower case and
   * every attendee's entry is in it afterwards.
   */
  lemma {:induction false} AddAttendeesCoversEntries(attendees: seq<Contact>, list: seq<string>)
    requires AllLower(list)
    ensures AllLower(AddAttendeesToOooList(attendees, list))
    ensures forall a :: a in attendees ==> Entry(a) in AddAttendeesToOooList(attendees, list)
    decreases |attendees|
  {
    if |attendees| > 0 {
      var a := attendees[0];
      var next := AddAttendee(list, a);
      if FirstName(a.name) in list {
        var k :| 0 <= k < |list| && list[k] == FirstName(a.name);
        assert Text.IsLower(list[k]);
      }
      assert Entry(a) in next;
      AddAttendeesCoversEntries(attendees[1..], next);
      var r := AddAttendeesToOooList(attendees, list);
      assert next <= r;
      forall b | b in attendees
        ensures Entry(b) in r
      {
        if b != a {
          assert b in attendees[1..];
        }
      }
    }
  }

  /**
   * The duplicate check compares the raw first name with entries already
   * lower-cased, so a capitalised name is added again next to its own entry.
   */
  lemma CapitalisedNameIsAddedAgain()
    ensures AddAttendeesToOooList([Contact("Jane Doe", "jane@example.org")], ["jane"]) == ["jane", "jane"]
  {
    var a := Contact("Jane Doe", "jane@example.org");
    JaneDoeFirstName();
    JaneLowered();
    assert "Jane" !in ["jane"] by { assert "Jane"[0] != "jane"[0]; }
    assert AddAttendee(["jane"], a) == ["jane", "jane"];
    assert [a][1..] == [];
  }

  lemma JaneDoeFirstName()
    ensures FirstName("Jane Doe") == "Jane"
  {
    assert "Jane Doe" == "Jane" + [' '] + "Doe";
    Text.SplitAroundSeparator("Jane", "Doe", ' ');
    Text.SplitWithoutSeparator("Jane", ' ');
    Text.SplitWithoutSeparator("Doe", ' ');
  }

  lemma JaneLowered()
    ensures Text.Lower("Jane") == "jane"
  {
    var lowered := Text.Lower("Jane");
    assert Text.LowerChar('J') == 'j';
    assert lowered[0] == 'j';
    assert lowered[1..] == "ane";
  }

  /**
   * A day-list update that skips an attendee when the lower-cased first
   * name is already present: a case-insensitive reference for comparison.
   */
  function AddAttendeesCaseInsensitive(attendees: seq<Contact>, list: seq<string>): (r: seq<string>)
    ensures list <= r
    ensures (forall i, j :: 0 <= i < j < |list| ==> list[i] != list[j]) ==>
      forall i, j :: 0 <= i < j < |r| ==> r[i] != r[j]
    decreases |attendees|
  {
    if |attendees| == 0 then list
    else
      var e := Entry(attendees[0]);
      AddAttendeesCaseInsensitive(attendees[1..], if e in list then list else list + [e])
  }

  /**
   * The duplicate check never matches a first name holding a capital
   * letter against a list in lower case, so every such attendee is appended.
   */
  lemma {:induction false} CapitalisedNamesAreNeverSkipped(attendees: seq<Contact>, list: seq<string>)
    requires AllLower(list)
    requires forall a :: a in attendees ==> !Text.IsLower(FirstName(a.name))
    ensures |AddAttendeesToOooList(attendees, list)| == |list| + |attendees|
    decreases |attendees|
  {
    if |attendees| > 0 {
      var a := attendees[0];
      assert a in attendees;
      assert FirstName(a.name) !in list by {
        forall k | 0 <= k < |list|
          ensures list[k] != FirstName(a.name)
        {
          assert Text.IsLower(list[k]);
        }
      }
      var next := AddAttendee(list, a);
      assert AllLower(next);
      assert forall b :: b in attendees[1..] ==> b in attendees;
      CapitalisedNamesAreNeverSkipped(attendees[1..], next);
    }
  }

  /**
   * When every first name is already in lower case, the raw check is the
   * case-insensitive one: the two updates give the same list.
   */
  lemma {:induction false} LowerCaseNamesAsCaseInsensitive(attendees: seq<Contact>, list: seq<string>)
    requires forall a :: a in attendees ==> Text.IsLower(FirstName(a.name))
    ensures AddAttendeesToOooList(attendees, list) == AddAttendeesCaseInsensitive(attendees, list)
    decreases |attendees|
  {
    if |attendees| > 0 {
      var a := attendees[0];
      assert a in attendees;
      assert Entry(a) == FirstName(a.name);
      var next := AddAttendee(list, a);
      assert next == if Entry(a) in list then list else list + [Entry(a)];
      assert forall b :: b in attendees[1..] ==> b in attendees;
      LowerCaseNamesAsCaseInsensitive(attendees[1..], next);
    }
  }

  /**
   * From a list in lower case, checking the raw first name yields the same
   * set of names as the case-insensitive check; only repetitions differ.
   */
  lemma {:induction false} SameNamesAsCaseInsensitive(
    attendees: seq<Contact>, list: seq<string>, reference: seq<string>)
    requires AllLower(list)
    requires forall x :: x in list <==> x in reference
    ensures forall x ::
      (x in AddAttendeesToOooList(attendees, list) <==> x in AddAttendeesCaseInsensitive(attendees, reference))
    decreases |attendees|
  {
    if |attendees| > 0 {
      var a := attendees[0];
      var e := Entry(a);
      var next := AddAttendee(list, a);
      var nextRef := if e in reference then reference else reference + [e];
      if FirstName(a.name) in list {
        var k :| 0 <= k < |list| && list[k] == FirstName(a.name);
        assert Text.IsLower(list[k]);
      }
      assert forall x :: x in next <==> x in list || x == e;
      assert forall x :: x in nextRef <==> x in reference || x == e;
      assert AllLower(next);
      SameNamesAsCaseInsensitive(attendees[1..], next, nextRef);
    }
  }

  /* ---------------------------------------------------- attendee filtering */

  /**
   * The list comprehension that drops attendees with the given address;
   * a list without that address comes back whole.
   */
  function WithoutAddress(contacts: seq<Contact>, email: string): (r: seq<Contact>)
    ensures forall c :: c in r <==> c in contacts && c.address != email
    ensures |r| <= |contacts|
    ensures (forall c :: c in contacts ==> c.address != email) ==> r == contacts
    decreases |contacts|
  {
    if |contacts| == 0 then []
    else
      var rest := WithoutAddress(contacts[1..], email);
      assert forall c :: c in contacts <==> c == contacts[0] || c in contacts[1..];
      if contacts[0].address != email then [contacts[0]] + rest else rest
  }

  /** A single contact is kept exactly when its address is not the shared one. */
  lemma WithoutAddressSingle(c: Contact, email: string)
    ensures WithoutAddress([c], email) == if c.address != email then [c] else []
  {
    assert [c][1..] == [];
  }

  /**
   * Filtering a concatenation filters each part and keeps them in order, so
   * the kept attendees keep their order and their repetitions.
   */
  lemma {:induction false} WithoutAddressAppend(a: seq<Contact>, b: seq<Contact>, email: string)
    ensures WithoutAddress(a + b, email) == WithoutAddress(a, email) + WithoutAddress(b, email)
    decreases |a|
  {
    if |a| > 0 {
      assert (a + b)[0] == a[0];
      assert (a + b)[1..] == a[1..] + b;
      WithoutAddressAppend(a[1..], b, email);
    } else {
      assert a + b == b;
    }
  }

  /**
   * The people an event is about: the attendees other than the shared
   * calendar itself, or else the organizer when the organizer is someone else.
   */
  function ResolveAttendees(e: Event, email: string): (r: seq<Contact>)
    ensures forall c :: c in r ==> c.address != email
    ensures forall c :: c in e.attendees && c.address != email ==> c in r
    ensures forall c :: c in r ==> c in e.attendees || c == e.organizer
    ensures (forall c :: c in e.attendees ==> c.address == email) && e.organizer.address != email
      ==> r == [e.organizer]
    ensures (exists c :: c in e.attendees && c.address != email) ==>
      r == WithoutAddress(e.attendees, email) && forall c :: c in r ==> c in e.attendees
    ensures |r| == 0 <==>
      (forall c :: c in e.attendees ==> c.address == email) && e.organizer.address == email
  {
    var attendees := WithoutAddress(e.attendees, email);
    assert |attendees| > 0 ==> attendees[0] in attendees;
    if |attendees| == 0 && e.organizer.address != email then [e.organizer] else attendees
  }

  /* ---------------------------------------------------- event classification */

  /** Events lasting at most one day count only on the day they start. */
  predicate IsSingleDay(e: Event)
  {
    e.end - e.start <= Dates.DAY
  }

  /** Midnight at the start of working day `i` of the window. */
  function DayStart(w: Dates.WeekWindow, i: int): int
  {
    w.monday + i * Dates.DAY
  }

  /**
   * Whether an event marks its people out on working day `i`: a single-day
   * event when it starts inside the window and inside that day, a longer
   * event when that day's midnight lies between its start and end.
   */
  predicate Covers(e: Event, w: Dates.WeekWindow, i: int)
  {
    if IsSingleDay(e) then
      w.monday <= e.start <= w.friday && DayStart(w, i) <= e.start < DayStart(w, i + 1)
    else
      e.start <= DayStart(w, i) <= e.end
  }

  /** Inside a valid window, the weekday of an instant counts the days since Monday. */
  lemma WeekdayInsideWindow(w: Dates.WeekWindow, t: int)
    requires Dates.ValidWindow(w)
    requires w.monday <= t <= w.friday
    ensures var d := Dates.Weekday(t);
      d < WORKDAYS && DayStart(w, d) <= t < DayStart(w, d + 1)
  {
    var k := w.monday / Dates.WEEK;
    var off := t - w.monday;
    var d := off / Dates.DAY;
    assert w.monday == k * Dates.WEEK;
    assert t == (7 * k + d) * Dates.DAY + off % Dates.DAY;
    Dates.DivModUnique(t, Dates.DAY, 7 * k + d, off % Dates.DAY);
    Dates.DivModUnique(7 * k + d, 7, k, d);
  }

  /** The slots a single-day event inside the window covers: just the day it starts on. */
  lemma SingleDayCoversOneSlot(w: Dates.WeekWindow, e: Event, i: int)
    requires Dates.ValidWindow(w) && IsSingleDay(e) && 0 <= i < WORKDAYS
    ensures Covers(e, w, i) <==> w.monday <= e.start <= w.friday && i == Dates.Weekday(e.start)
  {
    if w.monday <= e.start <= w.friday {
      WeekdayInsideWindow(w, e.start);
      var d := Dates.Weekday(e.start);
      if i < d {
        assert DayStart(w, i + 1) <= DayStart(w, d);
      } else if i > d {
        assert DayStart(w, d + 1) <= DayStart(w, i);
      }
    }
  }

  /**
   * The body of the loop over events in `get_ooo_list`: one event updates
   * exactly the day lists it covers, each by `add_attendees_to_ooo_list`.
   */
  function ProcessEvent(roster: seq<seq<string>>, w: Dates.WeekWindow, e: Event, email: string)
    : (r: seq<seq<string>>)
    requires |roster| == WORKDAYS && Dates.ValidWindow(w)
    ensures |r| == WORKDAYS
    ensures forall i :: 0 <= i < WORKDAYS ==>
      r[i] == if Covers(e, w, i) then AddAttendeesToOooList(ResolveAttendees(e, email), roster[i])
              else roster[i]
  {
    var attendees := ResolveAttendees(e, email);
    if e.end - e.start <= Dates.DAY then
      if w.monday <= e.start <= w.friday then
        WeekdayInsideWindow(w, e.start);
        var day := Dates.Weekday(e.start);
        assert forall i :: 0 <= i < WORKDAYS ==> (Covers(e, w, i) <==> i == day) by {
          forall i | 0 <= i < WORKDAYS {
            SingleDayCoversOneSlot(w, e, i);
          }
        }
        roster[day := AddAttendeesToOooList(attendees, roster[day])]
      else
        roster
    else
      seq(WORKDAYS, i requires 0 <= i < WORKDAYS =>
        var currentDay := w.monday + i * Dates.DAY;
        if e.start <= currentDay <= e.end then AddAttendeesToOooList(attendees, roster[i])
        else roster[i])
  }

  /** The loop over events, folded from the left. Day lists only ever grow. */
  function ProcessEvents(roster: seq<seq<string>>, w: Dates.WeekWindow, events: seq<Event>, email: string)
    : (r: seq<seq<string>>)
    requires |roster| == WORKDAYS && Dates.ValidWindow(w)
    ensures |r| == WORKDAYS
    ensures forall i :: 0 <= i < WORKDAYS ==> roster[i] <= r[i]
    decreases |events|
  {
    if |events| == 0 then roster
    else ProcessEvents(ProcessEvent(roster, w, events[0], email), w, events[1..], email)
  }

  /** `[[], [], [], [], []]`. */
  function EmptyRoster(): (r: seq<seq<string>>)
    ensures |r| == WORKDAYS
  {
    [[], [], [], [], []]
  }

  /**
   * The classification pass of `get_ooo_list` for a given window and
   * shared-calendar address.
   */
  function Aggregate(events: seq<Event>, w: Dates.WeekWindow, email: string): (r: seq<seq<string>>)
    requires Dates.ValidWindow(w)
    ensures |r| == WORKDAYS
  {
    ProcessEvents(EmptyRoster(), w, events, email)
  }

  /**
   * `get_ooo_list`: the window comes from the clock reading `now`. A name
   * is in day `i`'s list exactly when some event covering that day
   * resolves to an attendee with that entry.
   */
  function GetOooList(events: seq<Event>, email: string, now: int): (r: seq<seq<string>>)
    ensures |r| == WORKDAYS
    ensures forall i, x :: 0 <= i < WORKDAYS ==>
      (x in r[i] <==> Contributes(events, Dates.GetWeekDatetime(Wrappers.None, now), email, i, x))
  {
    var w := Dates.GetWeekDatetime(Wrappers.None, now);
    assert forall i, x :: 0 <= i < WORKDAYS ==>
      (x in Aggregate(events, w, email)[i] <==> Contributes(events, w, email, i, x)) by {
      forall i, x | 0 <= i < WORKDAYS {
        AggregateExact(events, w, email, i, x);
      }
    }
    Aggregate(events, w, email)
  }

  /* ------------------------------------------------------ roster properties */

  /** Some event covering day `i` resolves to an attendee whose entry is `x`. */
  predicate Contributes(events: seq<Event>, w: Dates.WeekWindow, email: string, i: int, x: string)
  {
    exists e :: e in events && Covers(e, w, i) && x in Entries(ResolveAttendees(e, email))
  }

  predicate AllSlotsLower(roster: seq<seq<string>>)
  {
    forall i :: 0 <= i < |roster| ==> AllLower(roster[i])
  }

  /** Every name the pass adds to day `i` comes from an event covering day `i`. */
  lemma {:induction false} ProcessEventsSound(
    roster: seq<seq<string>>, w: Dates.WeekWindow, events: seq<Event>, email: string, i: int, x: string)
    requires |roster| == WORKDAYS && Dates.ValidWindow(w) && 0 <= i < WORKDAYS
    requires x in ProcessEvents(roster, w, events, email)[i]
    ensures x in roster[i] || Contributes(events, w, email, i, x)
    decreases |events|
  {
    if |events| > 0 {
      var e := events[0];
      var next := ProcessEvent(roster, w, e, email);
      ProcessEventsSound(next, w, events[1..], email, i, x);
      if x in next[i] {
        if x !in roster[i] {
          assert Covers(e, w, i);
          var added := next[i];
          var k :| 0 <= k < |added| && added[k] == x;
          assert k >= |roster[i]|;
          assert x in Entries(ResolveAttendees(e, email));
          assert e in events;
        }
      } else {
        var e' :| e' in events[1..] && Covers(e', w, i) && x in Entries(ResolveAttendees(e', email));
        assert e' in events;
      }
    }
  }

  /**
   * From lists in lower case, every entry of every event covering day `i`
   * ends up in day `i`'s list, and the lists stay in lower case.
   */
  lemma {:induction false} ProcessEventsComplete(
    roster: seq<seq<string>>, w: Dates.WeekWindow, events: seq<Event>, email: string)
    requires |roster| == WORKDAYS && Dates.ValidWindow(w) && AllSlotsLower(roster)
    ensures AllSlotsLower(ProcessEvents(roster, w, events, email))
    ensures forall i, x :: 0 <= i < WORKDAYS && Contributes(events, w, email, i, x) ==>
      x in ProcessEvents(roster, w, events, email)[i]
    decreases |events|
  {
    if |events| > 0 {
      var e := events[0];
      var attendees := ResolveAttendees(e, email);
      var next := ProcessEvent(roster, w, e, email);
      forall i | 0 <= i < WORKDAYS
        ensures AllLower(next[i])
        ensures Covers(e, w, i) ==> forall a :: a in attendees ==> Entry(a) in next[i]
      {
        AddAttendeesCoversEntries(attendees, roster[i]);
      }
      ProcessEventsComplete(next, w, events[1..], email);
      var r := ProcessEvents(roster, w, events, email);
      forall i, x | 0 <= i < WORKDAYS && Contributes(events, w, email, i, x)
        ensures x in r[i]
      {
        var e' :| e' in events && Covers(e', w, i) && x in Entries(ResolveAttendees(e', email));
        if e' == e {
          var a :| a in attendees && x == Entry(a);
          assert x in next[i];
          assert next[i] <= r[i];
        } else {
          assert e' in events[1..];
          assert Contributes(events[1..], w, email, i, x);
        }
      }
    }
  }

  /**
   * The roster built from empty lists holds exactly the entries of the
   * events covering each day, all in lower case.
   */
  lemma AggregateExact(events: seq<Event>, w: Dates.WeekWindow, email: string, i: int, x: string)
    requires Dates.ValidWindow(w) && 0 <= i < WORKDAYS
    ensures x in Aggregate(events, w, email)[i] <==> Contributes(events, w, email, i, x)
    ensures AllSlotsLower(Aggregate(events, w, email))
  {
    var empty := EmptyRoster();
    assert forall j :: 0 <= j < WORKDAYS ==> empty[j] == [];
    assert AllSlotsLower(empty);
    ProcessEventsComplete(empty, w, events, email);
    var r := ProcessEvents(empty, w, events, email);
    assert r == Aggregate(events, w, email);
    if x in r[i] {
      ProcessEventsSound(empty, w, events, email, i, x);
      assert x !in empty[i];
    }
  }

  /**
   * The over-wide fetch range loses nothing: an event lying wholly before
   * or wholly after it leaves every day's list as it was.
   */
  lemma EventOutsideFetchRangeIsIgnored(
    roster: seq<seq<string>>, w: Dates.WeekWindow, e: Event, email: string)
    requires |roster| == WORKDAYS && Dates.ValidWindow(w) && e.start <= e.end
    requires var q := GetEventRange(w.monday, email);
      e.end < q.rangeStart || q.rangeEnd < e.start
    ensures ProcessEvent(roster, w, e, email) == roster
  {
    var r := ProcessEvent(roster, w, e, email);
    var q := GetEventRange(w.monday, email);
    forall i | 0 <= i < WORKDAYS
      ensures r[i] == roster[i]
    {
      NotCoveredOutsideRange(e, w, i, q.rangeStart, q.rangeEnd);
    }
    assert |r| == |roster|;
  }

  /** An event wholly outside an interval holding day `i` of the week does not cover that day. */
  lemma NotCoveredOutsideRange(e: Event, w: Dates.WeekWindow, i: int, lo: int, hi: int)
    requires Dates.ValidWindow(w) && 0 <= i < WORKDAYS && e.start <= e.end
    requires lo < w.monday && w.monday + 5 * Dates.DAY <= hi
    requires e.end < lo || hi < e.start
    ensures !Covers(e, w, i)
  {
    DayStartInsideWorkweek(w, i);
  }

  /** The midnights of the five working days lie between Monday and Saturday. */
  lemma DayStartInsideWorkweek(w: Dates.WeekWindow, i: int)
    requires 0 <= i < WORKDAYS
    ensures w.monday <= DayStart(w, i) && DayStart(w, i + 1) <= w.monday + 5 * Dates.DAY
  {
    assert i == 0 || i == 1 || i == 2 || i == 3 || i == 4;
  }

  /** A one-hour Monday-morning event marks its attendee out on Monday only. */
  lemma MondayMeetingFillsMondayOnly()
    ensures var e := Event("Leave", Contact("OOO", "ooo@example.org"), 9 * Dates.HOUR, 10 * Dates.HOUR, [Jane()]);
      Aggregate([e], EpochWeek(), "ooo@example.org") == [["jane"], [], [], [], []]
  {
    var w := EpochWeek();
    var e := Event("Leave", Contact("OOO", "ooo@example.org"), 9 * Dates.HOUR, 10 * Dates.HOUR, [Jane()]);
    JaneIsNotTheSharedCalendar();
    assert WithoutAddress([Jane()], "ooo@example.org") == [Jane()];
    JaneAloneGivesJane();
    assert Covers(e, w, 0);
    assert !Covers(e, w, 1) && !Covers(e, w, 2) && !Covers(e, w, 3) && !Covers(e, w, 4);
    assert ResolveAttendees(e, "ooo@example.org") == [Jane()];
    var r := ProcessEvent(EmptyRoster(), w, e, "ooo@example.org");
    assert r[0] == ["jane"];
    assert r[1] == [] && r[2] == [] && r[3] == [] && r[4] == [];
    FiveSlots(r, ["jane"], [], [], [], []);
    SingleEventAggregate(e, w, "ooo@example.org");
  }

  /** An event from Wednesday midnight to Friday evening marks slots 2, 3 and 4. */
  lemma WednesdayToFridayFillsLastThreeDays()
    ensures var e := Event("Leave", Jane(), 2 * Dates.DAY, 4 * Dates.DAY + 17 * Dates.HOUR, []);
      Aggregate([e], EpochWeek(), "ooo@example.org") == [[], [], ["jane"], ["jane"], ["jane"]]
  {
    var w := EpochWeek();
    var e := Event("Leave", Jane(), 2 * Dates.DAY, 4 * Dates.DAY + 17 * Dates.HOUR, []);
    JaneIsNotTheSharedCalendar();
    assert WithoutAddress([], "ooo@example.org") == [];
    assert ResolveAttendees(e, "ooo@example.org") == [Jane()];
    JaneAloneGivesJane();
    assert !Covers(e, w, 0) && !Covers(e, w, 1);
    assert Covers(e, w, 2) && Covers(e, w, 3) && Covers(e, w, 4);
    var r := ProcessEvent(EmptyRoster(), w, e, "ooo@example.org");
    assert r[0] == [] && r[1] == [];
    assert r[2] == ["jane"] && r[3] == ["jane"] && r[4] == ["jane"];
    FiveSlots(r, [], [], ["jane"], ["jane"], ["jane"]);
    SingleEventAggregate(e, w, "ooo@example.org");
  }

  /**
   * A long event counts only for the days whose midnight it contains, so one
   * from Wednesday 09:00 to Friday 17:00 misses Wednesday itself.
   */
  lemma MorningStartMissesItsFirstDay()
    ensures var e := Event("Leave", Jane(), 2 * Dates.DAY + 9 * Dates.HOUR, 4 * Dates.DAY + 17 * Dates.HOUR, []);
      !Covers(e, EpochWeek(), 0) && !Covers(e, EpochWeek(), 1) && !Covers(e, EpochWeek(), 2)
      && Covers(e, EpochWeek(), 3) && Covers(e, EpochWeek(), 4)
  {
  }

  /**
   * The comparison with the event's end is inclusive, so an all-day event
   * over Monday and Tuesday, ending at Wednesday 00:00, also marks Wednesday.
   */
  lemma MidnightEndCoversTheNextDay()
    ensures var e := Event("Leave", Jane(), 0, 2 * Dates.DAY, []);
      Covers(e, EpochWeek(), 0) && Covers(e, EpochWeek(), 1) && Covers(e, EpochWeek(), 2)
      && !Covers(e, EpochWeek(), 3) && !Covers(e, EpochWeek(), 4)
  {
  }

  lemma SingleEventAggregate(e: Event, w: Dates.WeekWindow, email: string)
    requires Dates.ValidWindow(w)
    ensures Aggregate([e], w, email) == ProcessEvent(EmptyRoster(), w, e, email)
  {
    var r := ProcessEvent(EmptyRoster(), w, e, email);
    assert [e][0] == e && [e][1..] == [];
    assert ProcessEvents(EmptyRoster(), w, [e], email) == ProcessEvents(r, w, [], email);
  }

  lemma FiveSlots(r: seq<seq<string>>, mon: seq<string>, tue: seq<string>, wed: seq<string>,
                  thu: seq<string>, fri: seq<string>)
    requires |r| == WORKDAYS
    requires r[0] == mon && r[1] == tue && r[2] == wed && r[3] == thu && r[4] == fri
    ensures r == [mon, tue, wed, thu, fri]
  {
  }

  function Jane(): Contact
  {
    Contact("Jane Doe", "jane@example.org")
  }

  /** The first week after the epoch, which is a valid window. */
  function EpochWeek(): (w: Dates.WeekWindow)
    ensures Dates.ValidWindow(w)
  {
    Dates.WeekWindow(0, Dates.FRIDAY_OFFSET)
  }

  lemma JaneIsNotTheSharedCalendar()
    ensures Jane().address != "ooo@example.org"
  {
    assert Jane().address[0] != "ooo@example.org"[0];
  }

  lemma JaneAloneGivesJane()
    ensures AddAttendeesToOooList([Jane()], []) == ["jane"]
  {
    JaneDoeFirstName();
    JaneLowered();
    assert [Jane()][1..] == [];
  }
}
