/**
 * The client booking page. It holds the service / specialist / date-and-time
 * stepper. Its time step subtracts the specialist's appointments from their
 * availability, then slices the free time into back-to-back bookable slots of
 * the service's duration. The week it queries runs Monday to Sunday.
 */
module BookingPage {

  import opened Options
  import opened Intervals
  import Calendar

  // ---------------------------------------------------------------------
  // Free time: availability minus appointments
  // ---------------------------------------------------------------------

  /** `generateNewAvailability`: each appointment in turn replaces every
      overlapping block of the working list with its left and right remains.
      Fragments carry only their date and times, not the block's id. */
  method GenerateNewAvailability(availability: seq<Span>, appointments: seq<Span>)
    returns (newAvailability: seq<Span>)
    ensures newAvailability == Subtract(availability, appointments)
    ensures forall o, a :: o in newAvailability && a in appointments ==> PassesThrough(o, a)
    ensures forall o :: o in newAvailability ==>
              exists k :: 0 <= k < |availability| && Within(o, availability[k])
  {
    newAvailability := availability;
    for i := 0 to |appointments|
      invariant newAvailability == Subtract(availability, appointments[..i])
    {
      var appointment := appointments[i];
      var tempAvailability: seq<Span> := [];
      for j := 0 to |newAvailability|
        invariant tempAvailability == CutAll(newAvailability[..j], appointment)
      {
        var slot := newAvailability[j];
        CutAllStep(newAvailability, j, appointment);
        ghost var before := tempAvailability;
        if slot.date != appointment.date || appointment.end <= slot.start || appointment.start >= slot.end {
          tempAvailability := tempAvailability + [slot];
        } else {
          var overlapStart := Max(appointment.start, slot.start);
          var overlapEnd := Min(appointment.end, slot.end);
          if slot.start < overlapStart {
            tempAvailability := tempAvailability + [Span(slot.date, slot.start, overlapStart)];
          }
          assert tempAvailability == before + LeftPiece(slot, appointment);
          ghost var middle := tempAvailability;
          if overlapEnd < slot.end {
            tempAvailability := tempAvailability + [Span(slot.date, overlapEnd, slot.end)];
          }
          assert tempAvailability == middle + RightPiece(slot, appointment);
        }
        assert tempAvailability == before + Cut(slot, appointment);
      }
      assert newAvailability[..|newAvailability|] == newAvailability;
      SubtractStep(availability, appointments, i);
      newAvailability := tempAvailability;
    }
    assert appointments[..|appointments|] == appointments;
    SubtractAvoids(availability, appointments);
    SubtractWithin(availability, appointments);
  }

  // ---------------------------------------------------------------------
  // Bookable slots
  // ---------------------------------------------------------------------

  /** A bookable slot shown on the calendar, as two instants in minutes since
      the epoch. Every slot the page builds has status 'available'. */
  datatype TimeSlot = TimeSlot(start: int, end: int)

  /** The slots the cursor loop emits from `current` up to `end`. */
  function SlotsFrom(current: int, end: int, duration: int): seq<TimeSlot>
    requires duration > 0
    decreases end - current
  {
    if current < end && current + duration <= end
    then [TimeSlot(current, current + duration)] + SlotsFrom(current + duration, end, duration)
    else []
  }

  /** The slots of one free interval. */
  function SlotsOf(s: Span, duration: int): seq<TimeSlot>
    requires duration > 0
  {
    SlotsFrom(Instant(s.date, s.start), Instant(s.date, s.end), duration)
  }

  /** The slots of every free interval, interval by interval. */
  function SlotsOfAll(xs: seq<Span>, duration: int): seq<TimeSlot>
    requires duration > 0
  {
    if xs == [] then [] else SlotsOfAll(xs[..|xs| - 1], duration) + SlotsOf(xs[|xs| - 1], duration)
  }

  /** What `generateTimeSlots` returns. The guard answers nothing when the
      availability is absent or empty, the appointments are absent, or the
      duration is missing (0). */
  function TimeSlots(availability: Option<seq<Span>>, appointments: Option<seq<Span>>, duration: int): seq<TimeSlot>
    requires duration >= 0
  {
    if availability.None? || |availability.value| == 0 || appointments.None? || duration == 0 then []
    else SlotsOfAll(Subtract(availability.value, appointments.value), duration)
  }

  /** `generateTimeSlots`. A negative duration would make the cursor loop run
      forever, so callers must pass a non-negative one. */
  method GenerateTimeSlots(availability: Option<seq<Span>>, appointments: Option<seq<Span>>, serviceDuration: int)
    returns (timeSlots: seq<TimeSlot>)
    requires serviceDuration >= 0
    ensures timeSlots == TimeSlots(availability, appointments, serviceDuration)
    ensures availability.None? || |availability.value| == 0 || appointments.None? || serviceDuration == 0
            ==> timeSlots == []
  {
    if availability.None? || |availability.value| == 0 || appointments.None? || serviceDuration == 0 {
      return [];
    }
    var availableSlots := GenerateNewAvailability(availability.value, appointments.value);
    timeSlots := [];
    for k := 0 to |availableSlots|
      invariant timeSlots == SlotsOfAll(availableSlots[..k], serviceDuration)
    {
      var slot := availableSlots[k];
      assert availableSlots[..k + 1][..k] == availableSlots[..k];
      var current := Instant(slot.date, slot.start);
      var end := Instant(slot.date, slot.end);
      ghost var before := timeSlots;
      while current < end
        invariant timeSlots + SlotsFrom(current, end, serviceDuration) == before + SlotsOf(slot, serviceDuration)
        decreases end - current
      {
        var slotEnd := current + serviceDuration;
        if slotEnd <= end {
          timeSlots := timeSlots + [TimeSlot(current, slotEnd)];
          current := slotEnd;
        } else {
          break;
        }
      }
    }
    assert availableSlots[..|availableSlots|] == availableSlots;
  }

  /** The slots of one interval are back-to-back windows of exactly `duration`
      minutes. They start at the interval's start and end at or before its end.
      The remainder they leave is shorter than `duration`, so an interval
      shorter than `duration` yields none. */
  lemma {:induction false} SlotsFromShape(current: int, end: int, duration: int)
    requires duration > 0
    ensures var s := SlotsFrom(current, end, duration);
      && (|s| == 0 <==> end - current < duration)
      && (forall k :: 0 <= k < |s| ==>
            s[k] == TimeSlot(current + k * duration, current + k * duration + duration))
      && (forall k :: 0 <= k < |s| ==> s[k].end <= end)
      && (|s| > 0 ==> end - s[|s| - 1].end < duration)
    decreases end - current
  {
    var s := SlotsFrom(current, end, duration);
    if current + duration <= end {
      var rest := SlotsFrom(current + duration, end, duration);
      SlotsFromShape(current + duration, end, duration);
      assert s == [TimeSlot(current, current + duration)] + rest;
      forall k | 0 <= k < |s|
        ensures s[k] == TimeSlot(current + k * duration, current + k * duration + duration)
      {
        if k > 0 {
          assert s[k] == rest[k - 1];
          assert current + duration + (k - 1) * duration == current + k * duration;
        }
      }
    }
  }

  /** Contiguity: within one interval each slot starts where the previous one ends. */
  lemma SlotsContiguous(current: int, end: int, duration: int, k: int)
    requires duration > 0
    requires 0 <= k < |SlotsFrom(current, end, duration)| - 1
    ensures SlotsFrom(current, end, duration)[k + 1].start == SlotsFrom(current, end, duration)[k].end
  {
    SlotsFromShape(current, end, duration);
  }

  /** A 45-minute service on a free 09:00-10:00 gets exactly one slot,
      09:00-09:45; the trailing 15 minutes yield none. */
  lemma SlotsExample(date: int)
    ensures SlotsOf(Span(date, 540, 600), 45)
            == [TimeSlot(Instant(date, 540), Instant(date, 585))]
  {
    var base := Instant(date, 540);
    assert SlotsFrom(base + 45, base + 60, 45) == [];
  }

  /** Every slot of one free interval has length `duration` and lies inside it. */
  lemma SlotsOfWithin(x: Span, duration: int)
    requires duration > 0
    ensures forall t :: t in SlotsOf(x, duration) ==>
              t.end - t.start == duration && Instant(x.date, x.start) <= t.start && t.end <= Instant(x.date, x.end)
  {
    var s := SlotsOf(x, duration);
    SlotsFromShape(Instant(x.date, x.start), Instant(x.date, x.end), duration);
    forall t | t in s
      ensures t.end - t.start == duration && Instant(x.date, x.start) <= t.start && t.end <= Instant(x.date, x.end)
    {
      var j :| 0 <= j < |s| && s[j] == t;
      assert j * duration >= 0;
    }
  }

  /** Every slot of a list of free intervals has length `duration` and lies
      inside one of the intervals. */
  lemma {:induction false} SlotsOfAllWithin(xs: seq<Span>, duration: int)
    requires duration > 0
    ensures forall t :: t in SlotsOfAll(xs, duration) ==>
              t.end - t.start == duration &&
              exists k :: 0 <= k < |xs| && Instant(xs[k].date, xs[k].start) <= t.start && t.end <= Instant(xs[k].date, xs[k].end)
    decreases |xs|
  {
    if xs != [] {
      var n := |xs| - 1;
      SlotsOfAllWithin(xs[..n], duration);
      var x := xs[n];
      forall t | t in SlotsOfAll(xs, duration)
        ensures t.end - t.start == duration &&
                exists k :: 0 <= k < |xs| && Instant(xs[k].date, xs[k].start) <= t.start && t.end <= Instant(xs[k].date, xs[k].end)
      {
        if t in SlotsOfAll(xs[..n], duration) {
          var k :| 0 <= k < n && Instant(xs[..n][k].date, xs[..n][k].start) <= t.start && t.end <= Instant(xs[..n][k].date, xs[..n][k].end);
          assert xs[..n][k] == xs[k];
        } else {
          SlotsOfWithin(x, duration);
        }
      }
    }
  }

  /** End to end: no bookable slot overlaps any appointment, and every slot
      lies inside a declared availability block. This holds when the blocks'
      and appointments' times lie within their days. */
  lemma BookableSlotsAvoidAppointments(availability: seq<Span>, appointments: seq<Span>, duration: int)
    requires duration > 0
    requires forall s :: s in availability ==> OnItsDay(s)
    requires forall a :: a in appointments ==> OnItsDay(a)
    ensures forall t, a :: t in TimeSlots(Some(availability), Some(appointments), duration) && a in appointments ==>
              t.end <= Instant(a.date, a.start) || Instant(a.date, a.end) <= t.start
    ensures forall t :: t in TimeSlots(Some(availability), Some(appointments), duration) ==>
              exists k :: 0 <= k < |availability| &&
                Instant(availability[k].date, availability[k].start) <= t.start &&
                t.end <= Instant(availability[k].date, availability[k].end)
  {
    if |availability| > 0 {
      var free := Subtract(availability, appointments);
      SubtractAvoids(availability, appointments);
      SubtractWithin(availability, appointments);
      SlotsOfAllWithin(free, duration);
      forall t | t in TimeSlots(Some(availability), Some(appointments), duration)
        ensures (forall a :: a in appointments ==>
                  t.end <= Instant(a.date, a.start) || Instant(a.date, a.end) <= t.start)
        ensures exists k :: 0 <= k < |availability| &&
                  Instant(availability[k].date, availability[k].start) <= t.start &&
                  t.end <= Instant(availability[k].date, availability[k].end)
      {
        var j :| 0 <= j < |free| && Instant(free[j].date, free[j].start) <= t.start && t.end <= Instant(free[j].date, free[j].end);
        assert free[j] in free;
        var k :| 0 <= k < |availability| && Within(free[j], availability[k]);
        assert OnItsDay(free[j]) by { assert availability[k] in availability; }
        forall a | a in appointments
          ensures t.end <= Instant(a.date, a.start) || Instant(a.date, a.end) <= t.start
        {
          PassesApart(free[j], a);
        }
      }
    }
  }

  // ---------------------------------------------------------------------
  // The week the page queries
  // ---------------------------------------------------------------------

  /** The page's weeks start on Monday (`weekStartsOn = 1`, its only use). */
  const WeekStartsOn: int := 1

  /** `getWeekRange`: step back to the Monday of the date's week (a Sunday
      goes back six days) and forward six days to its Sunday. `Date.setDate`
      carries a day of month outside the month into the neighbouring month,
      which on day numbers is plain addition. */
  method GetWeekRange(date: int) returns (start: int, end: int)
    ensures Calendar.WeekDay(start) == Calendar.Monday
    ensures start <= date <= end && end == start + 6
    ensures start == Calendar.IsoWeekStart(date)
  {
    var day := Calendar.WeekDay(date);
    var diff := date - day + (if day == Calendar.Sunday then -6 else WeekStartsOn);
    start := diff;
    end := start + 6;
    Calendar.IsoWeekStartIsMonday(date);
  }

  // ---------------------------------------------------------------------
  // The stepper
  // ---------------------------------------------------------------------

  datatype Service = Service(id: int, name: string, duration: int)

  datatype Specialist = Specialist(id: int, firstName: string, lastName: string)

  /** The page's step state: 1 service, 2 specialist, 3 date and time, 4 summary. */
  class Stepper {
    var currentStep: int
    var selectedService: Option<Service>
    var selectedSpecialist: Option<Specialist>

    /** A step is reached only with the choices made on the steps before it;
        the time step reads the selected service's duration and the
        specialist's id. */
    ghost predicate Valid()
      reads this
    {
      && 1 <= currentStep <= 4
      && (currentStep >= 2 ==> selectedService.Some?)
      && (currentStep >= 3 ==> selectedSpecialist.Some?)
    }

    constructor ()
      ensures Valid()
      ensures currentStep == 1 && selectedService == None && selectedSpecialist == None
    {
      currentStep := 1;
      selectedService := None;
      selectedSpecialist := None;
    }

    /** `handleServiceSelect`, offered by the service step. */
    method HandleServiceSelect(service: Service)
      requires Valid() && currentStep == 1
      modifies this
      ensures Valid()
      ensures currentStep == 2 && selectedService == Some(service)
      ensures selectedSpecialist == old(selectedSpecialist)
    {
      selectedService := Some(service);
      currentStep := 2;
    }

    /** `handleSpecialistSelect`, offered by the specialist step. */
    method HandleSpecialistSelect(specialist: Specialist)
      requires Valid() && currentStep == 2
      modifies this
      ensures Valid()
      ensures currentStep == 3 && selectedSpecialist == Some(specialist)
      ensures selectedService == old(selectedService)
    {
      selectedSpecialist := Some(specialist);
      currentStep := 3;
    }

    /** A click on the header of step 1 or 2 moves back to it, and only back. */
    method ClickStep(step: int)
      requires Valid() && (step == 1 || step == 2)
      modifies this
      ensures Valid()
      ensures currentStep == if old(currentStep) > step then step else old(currentStep)
      ensures selectedService == old(selectedService) && selectedSpecialist == old(selectedSpecialist)
    {
      if currentStep > step {
        currentStep := step;
      }
    }

    /** The back button of steps 2, 3 and 4. */
    method Back()
      requires Valid() && 2 <= currentStep
      modifies this
      ensures Valid()
      ensures currentStep == old(currentStep) - 1
      ensures selectedService == old(selectedService) && selectedSpecialist == old(selectedSpecialist)
    {
      currentStep := currentStep - 1;
    }

    /** The time step's confirm button, which leads to the summary. */
    method Submit()
      requires Valid() && currentStep == 3
      modifies this
      ensures Valid()
      ensures currentStep == 4
      ensures selectedService == old(selectedService) && selectedSpecialist == old(selectedSpecialist)
    {
      currentStep := 4;
    }
  }
}
