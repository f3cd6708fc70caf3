/**
 * The employee's appointment calendar. It takes the booked appointments out
 * of the employee's availability blocks (in UTC), giving each fragment an id
 * derived from its parent block. It then lists the free intervals followed by
 * the appointments as tagged calendar events.
 */
module AppointmentManager {

  import opened Intervals

  /** Block ids: a stored block's own id, or a fragment's derived id,
      `<parent>-pre-<start>` or `<parent>-post-<start>`, where `<start>` is the
      fragment's start instant. */
  datatype SlotId = Stored(n: int) | Pre(parent: SlotId, at: int) | Post(parent: SlotId, at: int)

  /** An availability block or a fragment of one. */
  datatype Slot = Slot(id: SlotId, span: Span)

  /** A booked appointment with the name of its service. */
  datatype Appointment = Appointment(id: int, span: Span, serviceName: string)

  /** The blocks' spans, ids forgotten. */
  function Spans(xs: seq<Slot>): (r: seq<Span>)
    ensures |r| == |xs|
  {
    seq(|xs|, k requires 0 <= k < |xs| => xs[k].span)
  }

  /** The appointments' spans. */
  function AppointmentSpans(appointments: seq<Appointment>): (r: seq<Span>)
    ensures |r| == |appointments|
  {
    seq(|appointments|, k requires 0 <= k < |appointments| => appointments[k].span)
  }

  /** The "pre" fragment of a block, carrying its derived id. */
  function PreFragment(s: Slot, a: Span): seq<Slot>
  {
    var left := LeftPiece(s.span, a);
    if left == [] then [] else [Slot(Pre(s.id, Instant(left[0].date, left[0].start)), left[0])]
  }

  /** The "post" fragment of a block, carrying its derived id. */
  function PostFragment(s: Slot, a: Span): seq<Slot>
  {
    var right := RightPiece(s.span, a);
    if right == [] then [] else [Slot(Post(s.id, Instant(right[0].date, right[0].start)), right[0])]
  }

  /** One block cut by one appointment: unchanged when it passes, else its
      pre and post fragments. */
  function CutSlot(s: Slot, a: Span): seq<Slot>
  {
    if PassesThrough(s.span, a) then [s] else PreFragment(s, a) + PostFragment(s, a)
  }

  function CutSlots(xs: seq<Slot>, a: Span): seq<Slot>
  {
    if xs == [] then [] else CutSlots(xs[..|xs| - 1], a) + CutSlot(xs[|xs| - 1], a)
  }

  /** The free blocks after every appointment has been taken out in turn. */
  function SubtractSlots(xs: seq<Slot>, appointments: seq<Appointment>): seq<Slot>
  {
    if appointments == [] then xs
    else CutSlots(SubtractSlots(xs, appointments[..|appointments| - 1]), appointments[|appointments| - 1].span)
  }

  /** Forgetting the ids, one cut is the shared interval cut. */
  lemma CutSlotSpans(s: Slot, a: Span)
    ensures Spans(CutSlot(s, a)) == Cut(s.span, a)
  {
    if !PassesThrough(s.span, a) {
      SpansConcat(PreFragment(s, a), PostFragment(s, a));
    }
  }

  /** Forgetting the ids, one pass is exactly the shared interval cut. */
  lemma {:induction false} CutSlotsSpans(xs: seq<Slot>, a: Span)
    ensures Spans(CutSlots(xs, a)) == CutAll(Spans(xs), a)
    decreases |xs|
  {
    if xs != [] {
      var n := |xs| - 1;
      var init, last := xs[..n], xs[n];
      assert Spans(xs) == Spans(init) + [last.span];
      CutSlotsSpans(init, a);
      CutSlotSpans(last, a);
      SpansConcat(CutSlots(init, a), CutSlot(last, a));
      CutAllSnoc(Spans(init), last.span, a);
    }
  }

  lemma SpansConcat(xs: seq<Slot>, ys: seq<Slot>)
    ensures Spans(xs + ys) == Spans(xs) + Spans(ys)
  {
    assert forall k :: 0 <= k < |xs + ys| ==> Spans(xs + ys)[k] == (Spans(xs) + Spans(ys))[k];
  }

  /** Forgetting the ids, the subtraction is exactly the shared interval
      subtraction, so every property proved of that one holds here. */
  lemma {:induction false} SubtractSlotsSpans(xs: seq<Slot>, appointments: seq<Appointment>)
    ensures Spans(SubtractSlots(xs, appointments)) == Subtract(Spans(xs), AppointmentSpans(appointments))
    decreases |appointments|
  {
    if appointments != [] {
      var n := |appointments| - 1;
      SubtractSlotsSpans(xs, appointments[..n]);
      CutSlotsSpans(SubtractSlots(xs, appointments[..n]), appointments[n].span);
      assert AppointmentSpans(appointments)[..n] == AppointmentSpans(appointments[..n]);
    }
  }

  /** `o` is a fragment of `parent`: it lies inside it and is named after it
      and its own start instant; a "pre" fragment starts where its parent
      starts. */
  predicate FragmentOf(o: Slot, parent: Slot)
  {
    && Within(o.span, parent.span)
    && ((o.id == Pre(parent.id, Instant(o.span.date, o.span.start)) && o.span.start == parent.span.start)
        || o.id == Post(parent.id, Instant(o.span.date, o.span.start)))
  }

  /** The ids a pass gives: a block that passes keeps its id; a fragment lies
      inside its parent, keeps the parent's date, and is named after the
      parent and its own start instant. A "pre" fragment starts where its
      parent starts. */
  lemma {:induction false} CutSlotsIds(xs: seq<Slot>, a: Span)
    ensures forall o :: o in CutSlots(xs, a) ==>
              o in xs || exists k :: 0 <= k < |xs| && FragmentOf(o, xs[k])
    decreases |xs|
  {
    if xs != [] {
      var n := |xs| - 1;
      var init, last := xs[..n], xs[n];
      assert CutSlots(xs, a) == CutSlots(init, a) + CutSlot(last, a);
      CutSlotsIds(init, a);
      CutSlotIds(last, a);
      forall o | o in CutSlots(xs, a)
        ensures o in xs || exists k :: 0 <= k < |xs| && FragmentOf(o, xs[k])
      {
        if o in CutSlots(init, a) {
          if o !in init {
            var k :| 0 <= k < n && FragmentOf(o, init[k]);
            assert init[k] == xs[k];
          }
        } else {
          assert o == last || FragmentOf(o, xs[n]);
        }
      }
    }
  }

  /** A block comes through a cut as itself exactly when it passes the
      appointment: a fragment always carries a derived id, never its
      parent's own. */
  lemma CutSlotPasses(s: Slot, a: Span)
    ensures CutSlot(s, a) == [s] <==> PassesThrough(s.span, a)
  {
    if !PassesThrough(s.span, a) {
      FragmentIdsDerived(s, a);
    }
  }

  /** A fragment's id is never its parent's, so a cut that makes fragments
      never gives back the block itself. */
  lemma FragmentIdsDerived(s: Slot, a: Span)
    ensures forall k :: 0 <= k < |PreFragment(s, a) + PostFragment(s, a)| ==>
              (PreFragment(s, a) + PostFragment(s, a))[k].id != s.id
    ensures PreFragment(s, a) + PostFragment(s, a) != [s]
  {
    var pieces := PreFragment(s, a) + PostFragment(s, a);
    forall k | 0 <= k < |pieces| ensures pieces[k].id != s.id {
      assert pieces[k] in PreFragment(s, a) || pieces[k] in PostFragment(s, a);
      assert Depth(pieces[k].id) == Depth(s.id) + 1;
    }
    if |pieces| == 1 {
      assert pieces[0] != s;
    }
  }

  /** How many fragment steps separate an id from its stored block. */
  function Depth(id: SlotId): nat
  {
    match id
    case Stored(_) => 0
    case Pre(parent, _) => Depth(parent) + 1
    case Post(parent, _) => Depth(parent) + 1
  }

  /** The ids one cut gives: the block itself, or fragments of it. */
  lemma CutSlotIds(s: Slot, a: Span)
    ensures forall o :: o in CutSlot(s, a) ==> o == s || FragmentOf(o, s)
  {
    CutShape(s.span, a);
    if !PassesThrough(s.span, a) {
      forall o | o in CutSlot(s, a) ensures FragmentOf(o, s) {
        assert o in PreFragment(s, a) || o in PostFragment(s, a);
        assert o.span in Cut(s.span, a);
      }
    }
  }

  /** Every free interval avoids every appointment on its day, and lies inside
      one of the employee's blocks. */
  lemma SubtractSlotsAvoids(xs: seq<Slot>, appointments: seq<Appointment>)
    ensures forall o, a :: o in SubtractSlots(xs, appointments) && a in appointments ==> PassesThrough(o.span, a.span)
    ensures forall o :: o in SubtractSlots(xs, appointments) ==>
              exists k :: 0 <= k < |xs| && Within(o.span, xs[k].span)
  {
    var r := SubtractSlots(xs, appointments);
    var spans := Subtract(Spans(xs), AppointmentSpans(appointments));
    SubtractSlotsSpans(xs, appointments);
    SubtractAvoids(Spans(xs), AppointmentSpans(appointments));
    SubtractWithin(Spans(xs), AppointmentSpans(appointments));
    forall o, a | o in r && a in appointments ensures PassesThrough(o.span, a.span) {
      var i :| 0 <= i < |r| && r[i] == o;
      var j :| 0 <= j < |appointments| && appointments[j] == a;
      assert spans[i] == o.span;
      assert AppointmentSpans(appointments)[j] == a.span;
    }
    forall o | o in r ensures exists k :: 0 <= k < |xs| && Within(o.span, xs[k].span) {
      var i :| 0 <= i < |r| && r[i] == o;
      assert spans[i] in spans;
      var k :| 0 <= k < |Spans(xs)| && Within(spans[i], Spans(xs)[k]);
      assert Within(o.span, xs[k].span);
    }
  }

  /** The two fragments of an overlapped block, spelled out with both ids. */
  lemma FragmentsSpelled(s: Slot, a: Span)
    requires !PassesThrough(s.span, a)
    ensures CutSlot(s, a) == PreFragment(s, a) + PostFragment(s, a)
    ensures var overlapStart := Max(a.start, s.span.start);
            PreFragment(s, a) == if s.span.start < overlapStart
              then [Slot(Pre(s.id, Instant(s.span.date, s.span.start)), Span(s.span.date, s.span.start, overlapStart))]
              else []
    ensures var overlapEnd := Min(a.end, s.span.end);
            PostFragment(s, a) == if overlapEnd < s.span.end
              then [Slot(Post(s.id, Instant(s.span.date, overlapEnd)), Span(s.span.date, overlapEnd, s.span.end))]
              else []
  {
  }

  lemma CutSlotsStep(xs: seq<Slot>, j: int, a: Span)
    requires 0 <= j < |xs|
    ensures CutSlots(xs[..j + 1], a) == CutSlots(xs[..j], a) + CutSlot(xs[j], a)
  {
    assert xs[..j + 1][..j] == xs[..j];
  }

  lemma SubtractSlotsStep(xs: seq<Slot>, appointments: seq<Appointment>, i: int)
    requires 0 <= i < |appointments|
    ensures SubtractSlots(xs, appointments[..i + 1]) == CutSlots(SubtractSlots(xs, appointments[..i]), appointments[i].span)
  {
    assert appointments[..i + 1][..i] == appointments[..i];
  }

  /** `subtractAppointmentsFromAvailability`: copy the blocks; then, when there
      are appointments, take each out in turn. */
  method SubtractAppointmentsFromAvailability(availability: seq<Slot>, appointments: seq<Appointment>)
    returns (newSlots: seq<Slot>)
    ensures newSlots == SubtractSlots(availability, appointments)
    ensures appointments == [] ==> newSlots == availability
  {
    newSlots := availability;
    if |appointments| > 0 {
      for i := 0 to |appointments|
        invariant newSlots == SubtractSlots(availability, appointments[..i])
      {
        var appt := appointments[i];
        var startA, endA := appt.span.start, appt.span.end;
        var temp: seq<Slot> := [];
        for j := 0 to |newSlots|
          invariant temp == CutSlots(newSlots[..j], appt.span)
        {
          var slot := newSlots[j];
          CutSlotsStep(newSlots, j, appt.span);
          var startS, endS := slot.span.start, slot.span.end;
          ghost var before := temp;
          if appt.span.date != slot.span.date || endA <= startS || startA >= endS {
            temp := temp + [slot];
          } else {
            var overlapStart := Max(startA, startS);
            var overlapEnd := Min(endA, endS);
            FragmentsSpelled(slot, appt.span);
            if startS < overlapStart {
              temp := temp + [Slot(Pre(slot.id, Instant(slot.span.date, startS)), Span(slot.span.date, startS, overlapStart))];
            }
            assert temp == before + PreFragment(slot, appt.span);
            ghost var middle := temp;
            if overlapEnd < endS {
              temp := temp + [Slot(Post(slot.id, Instant(slot.span.date, overlapEnd)), Span(slot.span.date, overlapEnd, endS))];
            }
            assert temp == middle + PostFragment(slot, appt.span);
          }
          assert temp == before + CutSlot(slot, appt.span);
        }
        assert newSlots[..|newSlots|] == newSlots;
        SubtractSlotsStep(availability, appointments, i);
        newSlots := temp;
      }
      assert appointments[..|appointments|] == appointments;
    }
  }

  // ---------------------------------------------------------------------
  // Calendar events
  // ---------------------------------------------------------------------

  /** Event ids: `avail-<block id>` and `appt-<appointment id>`. */
  datatype EventId = AvailId(slot: SlotId) | ApptId(appointment: int)

  /** The `status` tag: `availability` or `appointment`. */
  datatype Status = AvailabilityStatus | AppointmentStatus

  /** A calendar event over two instants (minutes since the epoch). */
  datatype Event = Event(id: EventId, start: int, end: int, title: string, status: Status)

  function AvailabilityEvent(s: Slot): Event
  {
    Event(AvailId(s.id), Instant(s.span.date, s.span.start), Instant(s.span.date, s.span.end), "Available", AvailabilityStatus)
  }

  function AppointmentEvent(a: Appointment): Event
  {
    Event(ApptId(a.id), Instant(a.span.date, a.span.start), Instant(a.span.date, a.span.end), a.serviceName, AppointmentStatus)
  }

  /** The events of the free intervals, in order. */
  function AvailabilityEvents(free: seq<Slot>): (r: seq<Event>)
    ensures |r| == |free|
  {
    seq(|free|, k requires 0 <= k < |free| => AvailabilityEvent(free[k]))
  }

  /** The events of the appointments, in order. */
  function AppointmentEvents(appointments: seq<Appointment>): (r: seq<Event>)
    ensures |r| == |appointments|
  {
    seq(|appointments|, k requires 0 <= k < |appointments| => AppointmentEvent(appointments[k]))
  }

  lemma AvailabilityEventsStep(free: seq<Slot>, k: int)
    requires 0 <= k < |free|
    ensures AvailabilityEvents(free[..k + 1]) == AvailabilityEvents(free[..k]) + [AvailabilityEvent(free[k])]
  {
    assert AvailabilityEvents(free[..k + 1])[k] == AvailabilityEvent(free[k]);
  }

  lemma AppointmentEventsStep(appointments: seq<Appointment>, k: int)
    requires 0 <= k < |appointments|
    ensures AppointmentEvents(appointments[..k + 1]) == AppointmentEvents(appointments[..k]) + [AppointmentEvent(appointments[k])]
  {
    assert AppointmentEvents(appointments[..k + 1])[k] == AppointmentEvent(appointments[k]);
  }

  /** `buildEvents`: one availability event per free interval, then one
      appointment event per appointment. */
  method BuildEvents(availability: seq<Slot>, appointments: seq<Appointment>) returns (result: seq<Event>)
    ensures result == AvailabilityEvents(SubtractSlots(availability, appointments)) + AppointmentEvents(appointments)
  {
    result := [];
    var newAvailability := SubtractAppointmentsFromAvailability(availability, appointments);
    if |newAvailability| != 0 {
      for k := 0 to |newAvailability|
        invariant result == AvailabilityEvents(newAvailability[..k])
      {
        AvailabilityEventsStep(newAvailability, k);
        result := result + [AvailabilityEvent(newAvailability[k])];
      }
      assert newAvailability[..|newAvailability|] == newAvailability;
    }
    ghost var head := result;
    if |appointments| != 0 {
      for k := 0 to |appointments|
        invariant result == head + AppointmentEvents(appointments[..k])
      {
        AppointmentEventsStep(appointments, k);
        result := result + [AppointmentEvent(appointments[k])];
      }
      assert appointments[..|appointments|] == appointments;
    }
  }

  /** The calendar lists every free interval as an `availability` event
      titled "Available", followed by every appointment as an `appointment`
      event titled with its service's name, each at its own instants. */
  lemma BuildEventsTags(free: seq<Slot>, appointments: seq<Appointment>)
    ensures var events := AvailabilityEvents(free) + AppointmentEvents(appointments);
      && |events| == |free| + |appointments|
      && (forall k :: 0 <= k < |free| ==>
            events[k].id == AvailId(free[k].id) && events[k].status == AvailabilityStatus
            && events[k].title == "Available"
            && events[k].start == Instant(free[k].span.date, free[k].span.start)
            && events[k].end == Instant(free[k].span.date, free[k].span.end))
      && (forall k :: 0 <= k < |appointments| ==>
            events[|free| + k].id == ApptId(appointments[k].id) && events[|free| + k].status == AppointmentStatus
            && events[|free| + k].title == appointments[k].serviceName
            && events[|free| + k].start == Instant(appointments[k].span.date, appointments[k].span.start)
            && events[|free| + k].end == Instant(appointments[k].span.date, appointments[k].span.end))
  {
  }

  /** On the calendar, no availability event overlaps an appointment event,
      provided the blocks' and appointments' times lie within their days. */
  lemma EventsApart(availability: seq<Slot>, appointments: seq<Appointment>)
    requires forall s :: s in availability ==> OnItsDay(s.span)
    requires forall a :: a in appointments ==> OnItsDay(a.span)
    ensures forall o, a :: o in SubtractSlots(availability, appointments) && a in appointments ==>
              AvailabilityEvent(o).end <= AppointmentEvent(a).start ||
              AppointmentEvent(a).end <= AvailabilityEvent(o).start
  {
    SubtractSlotsAvoids(availability, appointments);
    forall o, a | o in SubtractSlots(availability, appointments) && a in appointments
      ensures AvailabilityEvent(o).end <= AppointmentEvent(a).start ||
              AppointmentEvent(a).end <= AvailabilityEvent(o).start
    {
      var k :| 0 <= k < |availability| && Within(o.span, availability[k].span);
      assert availability[k] in availability;
      PassesApart(o.span, a.span);
    }
  }
}
