/**
 * Same-day time intervals, and the subtraction that removes booked
 * appointments from an employee's declared availability. The booking page
 * and the employee's appointment calendar both compute this subtraction.
 *
 * A span is a calendar date (a day number) with a start and an end time of
 * day, both in minutes. All comparisons use one time reference, so the two
 * callers' local/UTC handling reduces to integer comparisons. "Same day" is
 * equality of the date component.
 */
module Intervals {

  /** Minutes in a calendar day; an instant is minutes since the epoch. */
  const MinutesPerDay: int := 1440

  /** A block of time on one date: `start` and `end` are minutes of that day. */
  datatype Span = Span(date: int, start: int, end: int)

  /** The instant at which minute `minute` of day `date` falls. */
  function Instant(date: int, minute: int): int
  {
    date * MinutesPerDay + minute
  }

  function Max(x: int, y: int): int { if x >= y then x else y }

  function Min(x: int, y: int): int { if x <= y then x else y }

  /** Block `s` is left alone by appointment `a`: they are on different days,
      or `a` ends at or before `s` starts, or `a` starts at or after `s` ends. */
  predicate PassesThrough(s: Span, a: Span)
  {
    s.date != a.date || a.end <= s.start || a.start >= s.end
  }

  /** The part of `s` before the overlap, `[start, overlapStart)`, if non-empty. */
  function LeftPiece(s: Span, a: Span): seq<Span>
  {
    var overlapStart := Max(a.start, s.start);
    if s.start < overlapStart then [Span(s.date, s.start, overlapStart)] else []
  }

  /** The part of `s` after the overlap, `[overlapEnd, end)`, if non-empty. */
  function RightPiece(s: Span, a: Span): seq<Span>
  {
    var overlapEnd := Min(a.end, s.end);
    if overlapEnd < s.end then [Span(s.date, overlapEnd, s.end)] else []
  }

  /** What one block becomes after one appointment is taken out of it. */
  function Cut(s: Span, a: Span): seq<Span>
  {
    if PassesThrough(s, a) then [s] else LeftPiece(s, a) + RightPiece(s, a)
  }

  /** One pass: every block of the working list cut by appointment `a`, in order. */
  function CutAll(xs: seq<Span>, a: Span): seq<Span>
  {
    if xs == [] then [] else CutAll(xs[..|xs| - 1], a) + Cut(xs[|xs| - 1], a)
  }

  /** All passes: the appointments taken out one after the other, each pass
      working on the output of the previous one. */
  function Subtract(xs: seq<Span>, appointments: seq<Span>): seq<Span>
  {
    if appointments == [] then xs
    else CutAll(Subtract(xs, appointments[..|appointments| - 1]), appointments[|appointments| - 1])
  }

  /** One more block in a pass appends that block's cut. */
  lemma CutAllStep(xs: seq<Span>, j: int, a: Span)
    requires 0 <= j < |xs|
    ensures CutAll(xs[..j + 1], a) == CutAll(xs[..j], a) + Cut(xs[j], a)
  {
    assert xs[..j + 1][..j] == xs[..j];
  }

  /** A pass over a list with one more block at the end. */
  lemma CutAllSnoc(init: seq<Span>, last: Span, a: Span)
    ensures CutAll(init + [last], a) == CutAll(init, a) + Cut(last, a)
  {
    assert (init + [last])[..|init|] == init;
  }

  /** One more appointment adds one more pass. */
  lemma SubtractStep(xs: seq<Span>, appointments: seq<Span>, i: int)
    requires 0 <= i < |appointments|
    ensures Subtract(xs, appointments[..i + 1]) == CutAll(Subtract(xs, appointments[..i]), appointments[i])
  {
    assert appointments[..i + 1][..i] == appointments[..i];
  }

  // ---------------------------------------------------------------------
  // What the subtraction means
  // ---------------------------------------------------------------------

  /** Span `s` contains minute `t` of day `date`. */
  predicate Covers(s: Span, date: int, t: int)
  {
    s.date == date && s.start <= t < s.end
  }

  /** Some span of `xs` contains minute `t` of day `date`. */
  ghost predicate CoveredBy(xs: seq<Span>, date: int, t: int)
  {
    exists k :: 0 <= k < |xs| && Covers(xs[k], date, t)
  }

  /** No appointment of `appointments` contains minute `t` of day `date`. */
  ghost predicate Uncovered(appointments: seq<Span>, date: int, t: int)
  {
    forall k :: 0 <= k < |appointments| ==> !Covers(appointments[k], date, t)
  }

  /** `o` lies inside `s` and keeps its date. */
  predicate Within(o: Span, s: Span)
  {
    o.date == s.date && s.start <= o.start && o.end <= s.end
  }

  /** The shape of one cut. A block that passes comes back unchanged. Every
      fragment lies inside its parent and avoids the appointment. A real cut
      leaves only non-empty fragments, at most two of them. A block the
      appointment fully covers disappears. */
  lemma CutShape(s: Span, a: Span)
    ensures PassesThrough(s, a) ==> Cut(s, a) == [s]
    ensures |Cut(s, a)| <= 2
    ensures forall o :: o in Cut(s, a) ==> Within(o, s) && PassesThrough(o, a)
    ensures !PassesThrough(s, a) ==> forall o :: o in Cut(s, a) ==> o.start < o.end
    ensures s.date == a.date && a.start <= s.start && s.end <= a.end && s.start < s.end
            ==> Cut(s, a) == []
  {
  }

  /** A minute survives one cut exactly when its block held it and the
      appointment does not. */
  lemma CutExact(s: Span, a: Span, date: int, t: int)
    ensures CoveredBy(Cut(s, a), date, t) <==> Covers(s, date, t) && !Covers(a, date, t)
  {
    var c := Cut(s, a);
    if Covers(s, date, t) && !Covers(a, date, t) {
      if PassesThrough(s, a) {
        assert Covers(c[0], date, t);
      } else if t < a.start {
        assert Covers(c[0], date, t);
      } else {
        assert Covers(c[|c| - 1], date, t);
      }
    }
  }

  lemma CoveredByConcat(xs: seq<Span>, ys: seq<Span>, date: int, t: int)
    ensures CoveredBy(xs + ys, date, t) <==> CoveredBy(xs, date, t) || CoveredBy(ys, date, t)
  {
    if CoveredBy(xs + ys, date, t) {
      var k :| 0 <= k < |xs + ys| && Covers((xs + ys)[k], date, t);
      if k >= |xs| {
        assert Covers(ys[k - |xs|], date, t);
      }
    }
    if CoveredBy(ys, date, t) {
      var k :| 0 <= k < |ys| && Covers(ys[k], date, t);
      assert Covers((xs + ys)[|xs| + k], date, t);
    }
    if CoveredBy(xs, date, t) {
      var k :| 0 <= k < |xs| && Covers(xs[k], date, t);
      assert Covers((xs + ys)[k], date, t);
    }
  }

  /** One pass removes exactly the minutes of its appointment. */
  lemma {:induction false} CutAllExact(xs: seq<Span>, a: Span, date: int, t: int)
    ensures CoveredBy(CutAll(xs, a), date, t) <==> CoveredBy(xs, date, t) && !Covers(a, date, t)
    decreases |xs|
  {
    if xs != [] {
      var init, last := xs[..|xs| - 1], xs[|xs| - 1];
      assert xs == init + [last];
      CutAllExact(init, a, date, t);
      CutExact(last, a, date, t);
      CoveredByConcat(CutAll(init, a), Cut(last, a), date, t);
      CoveredByConcat(init, [last], date, t);
      assert CoveredBy([last], date, t) <==> Covers(last, date, t) by {
        if Covers(last, date, t) { assert Covers([last][0], date, t); }
      }
    }
  }

  /** The free-time contract: a minute is covered by the result exactly when
      some availability block covers it and no appointment does. */
  lemma {:induction false} SubtractExact(xs: seq<Span>, appointments: seq<Span>, date: int, t: int)
    ensures CoveredBy(Subtract(xs, appointments), date, t) <==>
            CoveredBy(xs, date, t) && Uncovered(appointments, date, t)
    decreases |appointments|
  {
    if appointments != [] {
      var n := |appointments| - 1;
      var init, last := appointments[..n], appointments[n];
      assert appointments == init + [last];
      SubtractStep(xs, appointments, n);
      SubtractExact(xs, init, date, t);
      CutAllExact(Subtract(xs, init), last, date, t);
      UncoveredSnoc(init, last, date, t);
    }
  }

  /** No appointment of `init + [last]` covers the minute exactly when none
      of `init` does and `last` does not. */
  lemma UncoveredSnoc(init: seq<Span>, last: Span, date: int, t: int)
    ensures Uncovered(init + [last], date, t) <==> Uncovered(init, date, t) && !Covers(last, date, t)
  {
    var all := init + [last];
    assert all[|init|] == last;
    assert forall k :: 0 <= k < |init| ==> all[k] == init[k];
  }

  /** The order in which the appointments are taken out does not change which
      minutes remain free. */
  lemma SubtractOrderIrrelevant(xs: seq<Span>, as1: seq<Span>, as2: seq<Span>, date: int, t: int)
    requires forall a :: a in as1 <==> a in as2
    ensures CoveredBy(Subtract(xs, as1), date, t) <==> CoveredBy(Subtract(xs, as2), date, t)
  {
    SubtractExact(xs, as1, date, t);
    SubtractExact(xs, as2, date, t);
    if Uncovered(as1, date, t) {
      forall k | 0 <= k < |as2| ensures !Covers(as2[k], date, t) {
        assert as2[k] in as1;
      }
    }
    if Uncovered(as2, date, t) {
      forall k | 0 <= k < |as1| ensures !Covers(as1[k], date, t) {
        assert as1[k] in as2;
      }
    }
  }

  lemma WithinPasses(o: Span, s: Span, b: Span)
    requires Within(o, s) && PassesThrough(s, b)
    ensures PassesThrough(o, b)
  {
  }

  /** Every block of one pass's output lies inside a block of its input. */
  lemma {:induction false} CutAllWithin(xs: seq<Span>, a: Span)
    ensures forall o :: o in CutAll(xs, a) ==> exists k :: 0 <= k < |xs| && Within(o, xs[k])
    decreases |xs|
  {
    if xs != [] {
      var n := |xs| - 1;
      CutAllWithin(xs[..n], a);
      CutShape(xs[n], a);
      forall o | o in CutAll(xs, a) ensures exists k :: 0 <= k < |xs| && Within(o, xs[k]) {
        if o in CutAll(xs[..n], a) {
          var k :| 0 <= k < n && Within(o, xs[..n][k]);
          assert Within(o, xs[k]);
        } else {
          assert Within(o, xs[n]);
        }
      }
    }
  }

  /** Every free interval lies inside one of the availability blocks and keeps
      its date. */
  lemma {:induction false} SubtractWithin(xs: seq<Span>, appointments: seq<Span>)
    ensures forall o :: o in Subtract(xs, appointments) ==> exists k :: 0 <= k < |xs| && Within(o, xs[k])
    decreases |appointments|
  {
    if appointments != [] {
      var n := |appointments| - 1;
      var prev := Subtract(xs, appointments[..n]);
      SubtractWithin(xs, appointments[..n]);
      CutAllWithin(prev, appointments[n]);
      assert Subtract(xs, appointments) == CutAll(prev, appointments[n]);
      forall o | o in Subtract(xs, appointments) ensures exists k :: 0 <= k < |xs| && Within(o, xs[k]) {
        var j :| 0 <= j < |prev| && Within(o, prev[j]);
        assert prev[j] in prev;
        var k :| 0 <= k < |xs| && Within(prev[j], xs[k]);
        assert Within(o, xs[k]);
      }
    }
  }

  /** After a pass, no block overlaps that pass's appointment on its day, and
      a block that was clear of an earlier appointment stays clear of it. */
  lemma {:induction false} CutAllAvoids(xs: seq<Span>, a: Span, done: seq<Span>)
    requires forall x, b :: x in xs && b in done ==> PassesThrough(x, b)
    ensures forall o, b :: o in CutAll(xs, a) && b in done + [a] ==> PassesThrough(o, b)
  {
    CutAllWithin(xs, a);
    CutAllPasses(xs, a);
    forall o, b | o in CutAll(xs, a) && b in done + [a] ensures PassesThrough(o, b) {
      if b != a {
        var k :| 0 <= k < |xs| && Within(o, xs[k]);
        WithinPasses(o, xs[k], b);
      }
    }
  }

  lemma {:induction false} CutAllPasses(xs: seq<Span>, a: Span)
    ensures forall o :: o in CutAll(xs, a) ==> PassesThrough(o, a)
    decreases |xs|
  {
    if xs != [] {
      CutAllPasses(xs[..|xs| - 1], a);
      CutShape(xs[|xs| - 1], a);
    }
  }

  /** No free interval overlaps any appointment on the same day. */
  lemma {:induction false} SubtractAvoids(xs: seq<Span>, appointments: seq<Span>)
    ensures forall o, a :: o in Subtract(xs, appointments) && a in appointments ==> PassesThrough(o, a)
    decreases |appointments|
  {
    if appointments != [] {
      var n := |appointments| - 1;
      SubtractAvoids(xs, appointments[..n]);
      CutAllAvoids(Subtract(xs, appointments[..n]), appointments[n], appointments[..n]);
      assert appointments == appointments[..n] + [appointments[n]];
    }
  }

  /** A pass whose appointment every block already clears changes nothing. */
  lemma {:induction false} CutAllUnchanged(xs: seq<Span>, a: Span)
    requires forall x :: x in xs ==> PassesThrough(x, a)
    ensures CutAll(xs, a) == xs
    decreases |xs|
  {
    if xs != [] {
      var n := |xs| - 1;
      CutAllUnchanged(xs[..n], a);
      assert xs == xs[..n] + [xs[n]];
    }
  }

  /** Availability that clears every appointment comes back unchanged. */
  lemma {:induction false} SubtractUnchanged(xs: seq<Span>, appointments: seq<Span>)
    requires forall x, a :: x in xs && a in appointments ==> PassesThrough(x, a)
    ensures Subtract(xs, appointments) == xs
    decreases |appointments|
  {
    if appointments != [] {
      var n := |appointments| - 1;
      SubtractUnchanged(xs, appointments[..n]);
      CutAllUnchanged(xs, appointments[n]);
    }
  }

  /** Taking the same appointments out twice is the same as taking them out once. */
  lemma SubtractIdempotent(xs: seq<Span>, appointments: seq<Span>)
    ensures Subtract(Subtract(xs, appointments), appointments) == Subtract(xs, appointments)
  {
    SubtractAvoids(xs, appointments);
    SubtractUnchanged(Subtract(xs, appointments), appointments);
  }

  /** A block whose times lie within its day: `start` and `end` are minutes of
      that day, with midnight at the end allowed. */
  predicate OnItsDay(s: Span)
  {
    0 <= s.start && s.end <= MinutesPerDay
  }

  /** Free intervals on different days, or clear of an appointment on their
      day, share no instant with it. */
  lemma PassesApart(o: Span, a: Span)
    requires OnItsDay(o) && OnItsDay(a) && PassesThrough(o, a)
    ensures Instant(o.date, o.end) <= Instant(a.date, a.start) || Instant(a.date, a.end) <= Instant(o.date, o.start)
  {
    if o.date < a.date {
      assert Instant(o.date, o.end) <= (o.date + 1) * MinutesPerDay;
      assert (o.date + 1) * MinutesPerDay <= a.date * MinutesPerDay;
    } else if o.date > a.date {
      assert Instant(a.date, a.end) <= (a.date + 1) * MinutesPerDay;
      assert (a.date + 1) * MinutesPerDay <= o.date * MinutesPerDay;
    }
  }

  /** Availability 09:00-12:00 with an appointment 10:00-10:30 on the same
      day leaves 09:00-10:00 and 10:30-12:00. */
  lemma SubtractExample(date: int)
    ensures Subtract([Span(date, 540, 720)], [Span(date, 600, 630)])
            == [Span(date, 540, 600), Span(date, 630, 720)]
  {
    var a := [Span(date, 600, 630)];
    assert a[..0] == [];
    assert CutAll([Span(date, 540, 720)], a[0]) == [Span(date, 540, 600), Span(date, 630, 720)] by {
      assert [Span(date, 540, 720)][..0] == [];
    }
  }
}
