# Scheduling front-end: interval arithmetic, bookable slots and the availability planner

This project models the logic of a React scheduling front-end in Dafny, and proves properties of that model.
In that front-end, employees publish weekly availability blocks and clients book appointments inside them.
The logic is interval arithmetic over one employee's week. It appears in four places:

- **Free time** (`BookingPage.jsx` `generateNewAvailability`, and `EmployeeSections/AppointmentManager.jsx` `subtractAppointmentsFromAvailability`):
  - The appointments are subtracted from the availability blocks one after the other.
  - Each pass cuts every overlapping block of the same day into a left and a right remainder, either of which may be missing.
  - The employee-side version also names each remainder after its parent block (`<id>-pre-<start>`, `<id>-post-<start>`).
- **Bookable slots** (`generateTimeSlots`): a cursor walks through each free interval and emits back-to-back windows of the service's duration.
- **The employee's availability planner** (`AvailabilityManager.jsx`). It is a four-mode editor (view, add, edit, delete) with three drafts:
  - `createLimits` clips a proposed range against the existing blocks with an in-place splice loop;
  - the drafts are shown as previews on the calendar;
  - the confirm handlers update the local block list when the server accepts.
- **The admin employee list** (`AdminSections/EmployeesSection.jsx`): toggling an employee's services, staging and saving roles, and the guards of adding and deleting.

Time is whole minutes:

- a block is a `Span(date, start, end)`, with `date` a day number and `start`/`end` minutes of that day;
- an instant is `date * 1440 + minute`;
- the planner works on instants directly, with `DayOf(t) = t / 1440` and `TimeOfDay(t) = t % 1440`.

The local and UTC views of moment.js collapse to this one reference, so "same day" is equality of day numbers.
Day 0 is 1970-01-01, a Thursday, so `WeekDay(d) = (d + 4) % 7` numbers the days the way `Date.getDay` does (0 is Sunday).
Weeks run Monday to Sunday, the ISO 8601 convention (ISO 8601:2004, section 4.1.4).

Modules:

- `Intervals` (intervals.dfy): the subtraction shared by both pages, with what it means minute by minute.
- `Calendar` (calendar.dfy): weekdays and the Monday of a week.
- `BookingPage` (booking_page.dfy): the subtraction and slot loops as methods, week range, and the stepper as a class.
- `AppointmentManager` (appointment_manager.dfy): the id-carrying subtraction and the event list, as methods with loops.
- `AvailabilityManager` (availability_manager.dfy): the clipping functions, the splice loop, and the planner as the class `Planner`.
- `EmployeesSection` (employees_section.dfy): the toggle and role functions, and the section state as the class `Section`.
- `Options` (options.dfy): an `Option` type.

Each loop of the source is a method whose loop invariants tie it to a function folded from the back of its list.
Properties are proved about those functions.
Server requests become parameters: `accepted` says whether the server accepted, and the lists a fetch delivers are passed to `Receive…` methods.

### Defects modelled as written

The model keeps what the code does in these places, and the contracts state that behaviour:

- `handleEventResize` (AvailabilityManager.jsx:170) guards with `||`: called on any availability event, in any mode, or on any event in edit mode, the handler sets the edit draft. The calendar offers resizing only in edit mode and only on availability events (`resizableAccessor`, AvailabilityManager.jsx:411). Through the calendar the handler is therefore never reached in a case where `||` and `&&` differ, and the defect cannot be triggered from the page. `HandleEventResize` models the handler as written, for any call.
- `handleEventDrop` (AvailabilityManager.jsx:176) compares the frozen mode table with a string, which never holds. The handler always returns early; `HandleEventDrop` changes nothing. The calendar offers dragging only in edit mode on availability events (`draggableAccessor`, AvailabilityManager.jsx:410), and even there a drop has no effect.
- `createLimits` (AvailabilityManager.jsx:214) tests "same day" only on the fragment's start. Its results avoid the blocks of the range's first day only. `LimitsExact` states exactly which instants survive: those of the range that no block dated its first day covers. `LimitsMissLaterDay` shows a 23:00-02:00 range that keeps the next day's 00:00-01:00 block inside it. `LimitsAvoidAll` proves the full property for ranges that stay within one day.
- `confirmEdit`'s catch handler (AvailabilityManager.jsx:327) references `originalAvailability`, which is not defined.
  - A refused request (`!response.ok`) changes nothing.
  - A request that throws also changes nothing, because the handler itself throws before any update.
  - So `ConfirmEdit(false)` leaves the whole state unchanged.
- A negative `serviceDuration` makes the cursor loop of `generateTimeSlots` (BookingPage.jsx:353-366) move backwards forever. `GenerateTimeSlots` therefore requires a duration of at least 0; a duration of 0 takes the early return.
- `handleAddEmployee` (EmployeesSection.jsx:119) calls `setShowAddModal`, which the component does not define. The form is never reset, and `HandleAddEmployee` changes no state.
- `confirmDelete` (EmployeesSection.jsx:132) guards with `!deletingEmployeeId`, so a pending id of 0 counts as none.
- `handleServiceToggle` (EmployeesSection.jsx:154-179) is memoised with no dependencies, so it reads the service catalogue it was created with. `HandleServiceToggle` takes that catalogue as a parameter.

## Model

| member | source | states |
|---|---|---|
| Intervals.PassesThrough | src/components/BookingPage.jsx:301-308 | Defines the skip test: a block is kept as it is when the appointment is on another day, ends at or before the block's start, or starts at or after its end. `CutShape` and `PassesApart` state what it means. |
| Intervals.LeftPiece | src/components/BookingPage.jsx:311-322 | Defines the remainder before the overlap, `[start, max(appointment start, start))`, present only when it is non-empty. |
| Intervals.RightPiece | src/components/BookingPage.jsx:312-330 | Defines the remainder after the overlap, `[min(appointment end, end), end)`, present only when it is non-empty. |
| Intervals.Cut | src/components/BookingPage.jsx:302-330 | Defines one block's cut: the block itself when the appointment passes it, else its left and then its right remainder. `CutShape` and `CutExact` state its properties. |
| Intervals.CutAll | src/components/BookingPage.jsx:290-333 | Defines one pass: every block of the working list cut in turn, the outputs concatenated in order. `CutAllExact` states what it removes. |
| Intervals.Subtract | src/components/BookingPage.jsx:285-337 | Defines the whole subtraction: the appointments taken out one after the other, each pass on the output of the one before. `SubtractExact` states which minutes stay free. |
| Intervals.CutShape | src/components/BookingPage.jsx:302-330 | A block that is on another day, ends at or before the appointment's start, or starts at or after its end comes back unchanged. An overlapped block gives at most two pieces: `[start, max)` and `[min, end)`, each only when non-empty. Every piece lies inside its block, keeps its date and clears the appointment. A block the appointment covers disappears. |
| Intervals.CutExact | src/components/BookingPage.jsx:311-330 | A minute survives one cut exactly when its block held it and the appointment does not. |
| Intervals.CutAllExact | src/components/BookingPage.jsx:295-333 | One pass removes exactly the appointment's minutes from the working list, in both directions. |
| Intervals.SubtractExact | src/components/BookingPage.jsx:289-336 | After all passes, a minute is free exactly when some availability block holds it and no appointment does. |
| Intervals.SubtractOrderIrrelevant | src/components/BookingPage.jsx:289-336 | The free minutes do not depend on the order in which the appointments are taken out. |
| Intervals.CutAllWithin | src/components/BookingPage.jsx:315-329 | Every block of a pass's output lies inside a block of its input. |
| Intervals.SubtractWithin | src/components/BookingPage.jsx:289-336 | Every free interval lies inside one of the availability blocks and keeps its date. |
| Intervals.CutAllAvoids | src/components/BookingPage.jsx:289-336 | A pass keeps clear of the appointments already taken out and clears its own. |
| Intervals.CutAllPasses | src/components/BookingPage.jsx:295-331 | After a pass, no block overlaps that pass's appointment on its day. |
| Intervals.SubtractAvoids | src/components/BookingPage.jsx:289-336 | After every pass, no free interval overlaps any appointment on the same day. |
| Intervals.CutAllUnchanged | src/components/BookingPage.jsx:302-308 | A pass whose appointment every block already clears returns the list unchanged. |
| Intervals.SubtractUnchanged | src/components/BookingPage.jsx:289-336 | Availability that clears every appointment comes back unchanged. |
| Intervals.SubtractIdempotent | src/components/BookingPage.jsx:289-336 | Taking the same appointments out a second time changes nothing. |
| Intervals.PassesApart | src/components/BookingPage.jsx:302-305 | For blocks whose times lie within their day, "another day or clear of it" means the two instant ranges do not overlap. |
| Intervals.SubtractExample | src/components/BookingPage.jsx:311-330 | 09:00-12:00 minus 10:00-10:30 is exactly 09:00-10:00 and 10:30-12:00. |
| BookingPage.GenerateNewAvailability | src/components/BookingPage.jsx:285-337 | The nested loops compute the subtraction. The result clears every appointment on its day, and each free interval lies inside an availability block. |
| BookingPage.SlotsFrom | src/components/BookingPage.jsx:353-370 | Defines the cursor loop's output: a window `[current, current + d)` while it fits before the end, then the rest from its end. `SlotsFromShape` gives its closed form. |
| BookingPage.SlotsOf | src/components/BookingPage.jsx:347-370 | Defines the slots of one free interval, from its start instant to its end instant. |
| BookingPage.SlotsOfAll | src/components/BookingPage.jsx:347-371 | Defines the slots of all free intervals, interval by interval, in order. |
| BookingPage.TimeSlots | src/components/BookingPage.jsx:339-374 | Defines `generateTimeSlots`' result: `[]` when the availability is absent or empty, the appointments are absent or the duration is 0; else the slots of the subtraction's free intervals. |
| BookingPage.GenerateTimeSlots | src/components/BookingPage.jsx:339-374 | The cursor loops return the slots of every free interval in order. The result is `[]` when the availability is absent or empty, the appointments are absent, or the duration is 0. |
| BookingPage.SlotsFromShape | src/components/BookingPage.jsx:353-369 | Slot `k` of an interval is `[start + k*d, start + (k+1)*d)` and ends at or before the interval's end. The remainder left is shorter than `d`. No slot comes out exactly when the interval is shorter than `d`. |
| BookingPage.SlotsContiguous | src/components/BookingPage.jsx:353-365 | Within one interval each slot starts where the previous one ends. |
| BookingPage.SlotsExample | src/components/BookingPage.jsx:353-369 | A 45-minute service on a free 09:00-10:00 gets only 09:00-09:45. |
| BookingPage.SlotsOfWithin | src/components/BookingPage.jsx:346-369 | Every slot of a free interval lasts exactly the duration and lies inside the interval. |
| BookingPage.SlotsOfAllWithin | src/components/BookingPage.jsx:346-373 | Every slot lasts exactly the duration and lies inside one of the free intervals. |
| BookingPage.BookableSlotsAvoidAppointments | src/components/BookingPage.jsx:339-374 | For blocks and appointments within their days, no bookable slot overlaps an appointment, and every slot lies inside an availability block. |
| BookingPage.GetWeekRange | src/components/BookingPage.jsx:451-469 | The start is the Monday of the date's week (a Sunday goes back six days). The end is six days later, and the date lies between them. |
| Calendar.WeekDay | src/components/BookingPage.jsx:453 | The weekday is in 0..6, with 0 for Sunday. |
| Calendar.IsoWeekday | src/components/AvailabilityManager.jsx:360 | The ISO weekday is in 1..7 and agrees with `WeekDay` modulo 7. |
| Calendar.WeekDayShift | src/components/BookingPage.jsx:453-456 | Whole weeks do not change the weekday. |
| Calendar.WeekDayStep | src/components/BookingPage.jsx:456 | Within one week, moving `k` days forward adds `k` to the weekday. |
| Calendar.IsoWeekStart | src/components/AvailabilityManager.jsx:360 | Defines `startOf('isoWeek')`: the day minus its ISO weekday, plus one. |
| Calendar.IsoWeekStartIsMonday | src/components/BookingPage.jsx:456-457 | The week start is a Monday at most six days before the date. |
| Calendar.IsoWeekStartUnique | src/components/AvailabilityManager.jsx:359-362 | Any Monday at most six days before the date is the week start. |
| BookingPage.Stepper.constructor | src/components/BookingPage.jsx:11-13 | The page starts on step 1 with nothing selected. |
| BookingPage.Stepper.HandleServiceSelect | src/components/BookingPage.jsx:62-65 | Choosing a service records it and moves to step 2. |
| BookingPage.Stepper.HandleSpecialistSelect | src/components/BookingPage.jsx:67-70 | Choosing a specialist records them and moves to step 3. |
| BookingPage.Stepper.ClickStep | src/components/BookingPage.jsx:101-111 | A click on step 1 or 2 moves back to it, and never forward. |
| BookingPage.Stepper.Back | src/components/BookingPage.jsx:134-162 | The back buttons of steps 2, 3 and 4 move one step back and keep the choices. |
| BookingPage.Stepper.Submit | src/components/BookingPage.jsx:405-407 | The time step's confirm leads to the summary, step 4. In every step the choices the step reads have been made. |
| AppointmentManager.PreFragment | src/components/EmployeeSections/AppointmentManager.jsx:82-90 | Defines the `pre` fragment: `Intervals.LeftPiece` of the block, named `Pre(parent id, the fragment's start instant)`, present only when that piece is. `CutSlotIds` and `FragmentsSpelled` state its shape. |
| AppointmentManager.PostFragment | src/components/EmployeeSections/AppointmentManager.jsx:82-96 | Defines the `post` fragment: `Intervals.RightPiece` of the block, named `Post(parent id, the fragment's start instant)`, present only when that piece is. `CutSlotIds` and `FragmentsSpelled` state its shape. |
| AppointmentManager.CutSlot | src/components/EmployeeSections/AppointmentManager.jsx:79-97 | Defines one block's cut with ids: the block itself when the appointment passes it, else its `pre` and `post` fragments. |
| AppointmentManager.CutSlots | src/components/EmployeeSections/AppointmentManager.jsx:74-102 | Defines one pass over the working list with ids, in order. |
| AppointmentManager.SubtractSlots | src/components/EmployeeSections/AppointmentManager.jsx:62-108 | Defines the whole id-carrying subtraction, one appointment after the other. `SubtractSlotsSpans` ties it to the shared subtraction. |
| AppointmentManager.SubtractAppointmentsFromAvailability | src/components/EmployeeSections/AppointmentManager.jsx:62-108 | The nested loops compute the id-carrying subtraction. With no appointments the blocks come back as they were. |
| AppointmentManager.CutSlotPasses | src/components/EmployeeSections/AppointmentManager.jsx:79-80 | A block comes through a cut as itself exactly when it is on another day, or ends at or before the appointment's start, or starts at or after its end. |
| AppointmentManager.FragmentIdsDerived | src/components/EmployeeSections/AppointmentManager.jsx:87 | A fragment's id is never its parent's id. |
| AppointmentManager.CutSlotIds | src/components/EmployeeSections/AppointmentManager.jsx:82-96 | One cut gives the block itself, or fragments of it. A fragment lies inside the block and is named `pre` or `post` after the block and its own start instant. A `pre` fragment starts where the block starts. |
| AppointmentManager.CutSlotsIds | src/components/EmployeeSections/AppointmentManager.jsx:74-96 | Every block of a pass's output is a block of its input or a fragment of one, named as above. |
| AppointmentManager.CutSlotSpans | src/components/EmployeeSections/AppointmentManager.jsx:79-96 | With ids forgotten, one cut is the interval cut of the booking page. |
| AppointmentManager.CutSlotsSpans | src/components/EmployeeSections/AppointmentManager.jsx:74-99 | With ids forgotten, one pass is the interval pass of the booking page. |
| AppointmentManager.SubtractSlotsSpans | src/components/EmployeeSections/AppointmentManager.jsx:62-108 | With ids forgotten, the whole subtraction is the booking page's subtraction, so every property of that one holds here. |
| AppointmentManager.SubtractSlotsAvoids | src/components/EmployeeSections/AppointmentManager.jsx:68-103 | No free block overlaps any appointment on its day, and every free block lies inside one of the employee's blocks. |
| AppointmentManager.AvailabilityEvent | src/components/EmployeeSections/AppointmentManager.jsx:155-166 | Defines one free block's event: `avail-<id>`, at the block's instants, titled "Available", status availability. |
| AppointmentManager.AppointmentEvent | src/components/EmployeeSections/AppointmentManager.jsx:171-183 | Defines one appointment's event: `appt-<id>`, at its instants, titled with the service's name, status appointment. |
| AppointmentManager.AvailabilityEvents | src/components/EmployeeSections/AppointmentManager.jsx:154-168 | There is one availability event per free block. |
| AppointmentManager.AppointmentEvents | src/components/EmployeeSections/AppointmentManager.jsx:170-185 | There is one appointment event per appointment. |
| AppointmentManager.BuildEvents | src/components/EmployeeSections/AppointmentManager.jsx:149-188 | The loops list the free blocks' events and then the appointments' events. |
| AppointmentManager.BuildEventsTags | src/components/EmployeeSections/AppointmentManager.jsx:154-185 | There are `|free| + |appointments|` events. The first ones are `avail-<id>`, status availability, titled "Available". The rest are `appt-<id>`, status appointment, titled with the service's name. Each event is at its own instants. |
| AppointmentManager.EventsApart | src/components/EmployeeSections/AppointmentManager.jsx:149-188 | For times within their days, no availability event overlaps an appointment event. |
| AvailabilityManager.DayOf | src/components/AvailabilityManager.jsx:214 | Defines the UTC day an instant falls on, the day `isSame(oldUtcDate, 'day')` compares. |
| AvailabilityManager.TimeOfDay | src/components/AvailabilityManager.jsx:255-256 | The UTC minute of the day at which an instant falls, as the stored `HH:mm:ss` times give it, always within the day. |
| AvailabilityManager.ClipOverlaps | src/components/AvailabilityManager.jsx:214-216 | Defines the splice loop's test: the fragment starts on the block's day, starts before the block ends and ends after it starts. |
| AvailabilityManager.ClipOne | src/components/AvailabilityManager.jsx:214-227 | Defines what one fragment becomes: itself when the test fails, else its part before the block and its part after it, each only when present. |
| AvailabilityManager.ClipAll | src/components/AvailabilityManager.jsx:208-232 | Defines one block's pass over the fragments, in order. `SplicePass` is proved equal to it. |
| AvailabilityManager.ClipBlocks | src/components/AvailabilityManager.jsx:198-233 | Defines the passes of all blocks in turn, starting from the proposed range alone. |
| AvailabilityManager.Limits | src/components/AvailabilityManager.jsx:190-241 | Defines `createLimits`' result: the passes' fragments of positive length. `LimitsSound` and `LimitsExact` state what it holds. |
| AvailabilityManager.Positive | src/components/AvailabilityManager.jsx:235-236 | The filter returns no more fragments than it is given. |
| AvailabilityManager.PositiveMembers | src/components/AvailabilityManager.jsx:236 | The filter keeps exactly the fragments of strictly positive length. |
| AvailabilityManager.IsCompletelyWithin | src/components/AvailabilityManager.jsx:136-147 | True exactly when some block starts on the range's day, at or before its start, and ends at or after its end. |
| AvailabilityManager.LimitsSound | src/components/AvailabilityManager.jsx:190-241 | Every fragment has positive length, lies inside the proposed range and starts on its first day. It overlaps no block dated that day. |
| AvailabilityManager.LimitsExact | src/components/AvailabilityManager.jsx:190-241 | An instant lies in some returned fragment exactly when it lies in the proposed range and in no block dated the range's first day. |
| AvailabilityManager.ClipBlocksKeeps | src/components/AvailabilityManager.jsx:198-233 | The passes keep every instant of the range that no block dated its first day covers. |
| AvailabilityManager.LimitsAvoidAll | src/components/AvailabilityManager.jsx:214-216 | A range that ends by the end of its first day clips to fragments that overlap no block at all. |
| AvailabilityManager.LimitsMissLaterDay | src/components/AvailabilityManager.jsx:214 | A 23:00 to 02:00 range keeps the next day's 00:00-01:00 block inside it. |
| AvailabilityManager.LimitsFree | src/components/AvailabilityManager.jsx:198-216 | A positive range that touches no block on its day comes back as the single fragment equal to itself. |
| AvailabilityManager.LimitsAroundOne | src/components/AvailabilityManager.jsx:214-227 | When the block list is that one block, a range strictly containing it on its day is split into exactly the part before and the part after the block. Longer lists are covered by `LimitsExact`, not by this lemma. |
| AvailabilityManager.WithinClipsToNothing | src/components/AvailabilityManager.jsx:136-153 | A range inside a block clips to nothing, so skipping `createLimits` for it loses nothing. |
| AvailabilityManager.SplicePass | src/components/AvailabilityManager.jsx:208-232 | The splice loop replaces every fragment that overlaps the block by its parts outside the block, in order. |
| AvailabilityManager.Pieces | src/components/AvailabilityManager.jsx:218-226 | An overlapping fragment's left and right remains are its clip against the block. |
| AvailabilityManager.DraftSlots | src/components/AvailabilityManager.jsx:102-105 | Defines the ranges an add draft holds: its `slots` when split, else the one range. |
| AvailabilityManager.ToCalendarEvent | src/components/AvailabilityManager.jsx:70-83 | A block becomes an availability event under the block's id. |
| AvailabilityManager.PreviewEvent | src/components/AvailabilityManager.jsx:108-116 | An add preview is a preview event at the draft range, not an availability event. |
| AvailabilityManager.Edited | src/components/AvailabilityManager.jsx:86-99 | Only the edit target's event moves to the new range and becomes a preview. Its id, title and kind are kept. |
| AvailabilityManager.Deleted | src/components/AvailabilityManager.jsx:119-130 | Only the delete target's event becomes a preview, and nothing else about it changes. |
| AvailabilityManager.Moved | src/components/AvailabilityManager.jsx:311-320 | An edited block keeps its id and takes the new start's UTC day, the new start's UTC time of day and the new end's UTC time of day. |
| AvailabilityManager.ToBlock | src/components/AvailabilityManager.jsx:252-266 | An added range is stored as a block without an id, on its start's UTC day, at its start's and end's UTC times of day. |
| AvailabilityManager.ToBlocks | src/components/AvailabilityManager.jsx:249-266 | One stored block per draft range, in order. |
| AvailabilityManager.StoredRoundTrip | src/components/AvailabilityManager.jsx:252-266 | A one-day range stored by an add or by an edit is shown again at exactly that range. |
| AvailabilityManager.RemoveBlocks | src/components/AvailabilityManager.jsx:346-348 | The filter returns no more blocks than it is given. |
| AvailabilityManager.RemoveBlocksMembers | src/components/AvailabilityManager.jsx:346-348 | The blocks kept are exactly those whose id differs from the deleted one. |
| AvailabilityManager.RemoveBlocksSnoc | src/components/AvailabilityManager.jsx:346-348 | One more block at the end is kept, at the end, exactly when its id differs. |
| AvailabilityManager.RemoveBlocksConcat | src/components/AvailabilityManager.jsx:346-348 | Filtering a concatenation is filtering each part, so the kept blocks stay in order. |
| AvailabilityManager.RemoveBlocksCount | src/components/AvailabilityManager.jsx:346-348 | A kept block occurs as many times as in the input, a removed one not at all. |
| AvailabilityManager.RemoveBlocksAbsent | src/components/AvailabilityManager.jsx:346-348 | Removing an id no block has is the identity. |
| AvailabilityManager.Planner.constructor | src/components/AvailabilityManager.jsx:24-35 | The planner starts in view mode with no blocks and no drafts, on the selected date. |
| AvailabilityManager.Planner.SetMode | src/components/ModeSelector.jsx:5-7 | Only the mode changes. |
| AvailabilityManager.Planner.ReceiveAvailability | src/components/AvailabilityManager.jsx:59 | Only the block list changes, to the fetched one. |
| AvailabilityManager.Planner.CreateLimits | src/components/AvailabilityManager.jsx:190-241 | The loop over blocks computes `Limits`, and every fragment returned has positive length. |
| AvailabilityManager.Planner.HandleAddSelectSlot | src/components/AvailabilityManager.jsx:149-167 | Outside add mode, or for a range already inside a block, the add draft is unchanged. Otherwise no limits leave the draft as it was, one limit makes a single draft, and more make a split draft. Nothing else changes. |
| AvailabilityManager.Planner.HandleEventResize | src/components/AvailabilityManager.jsx:169-173 | As written: the edit draft is set exactly when the mode is edit or the event is an availability event. |
| AvailabilityManager.Planner.HandleEventDrop | src/components/AvailabilityManager.jsx:175-178 | As written: nothing changes. |
| AvailabilityManager.Planner.HandleSelectEvent | src/components/AvailabilityManager.jsx:181-185 | The delete draft is set only in delete mode and only for availability events. |
| AvailabilityManager.Planner.BuildEvents | src/components/AvailabilityManager.jsx:85-133 | There is one event per block, then one preview per add-draft range. Only the edit and delete targets' events differ from their plain conversion. |
| AvailabilityManager.Planner.ConfirmAdd | src/components/AvailabilityManager.jsx:244-289 | If accepted, exactly the draft's ranges are appended as blocks and the draft is cleared. Without a draft, or if refused, nothing changes. |
| AvailabilityManager.Planner.ConfirmEdit | src/components/AvailabilityManager.jsx:291-333 | If accepted, only the blocks with the target's id move and the draft is cleared. Otherwise nothing changes. |
| AvailabilityManager.Planner.ConfirmDelete | src/components/AvailabilityManager.jsx:335-357 | If accepted, only the blocks with the target's id are removed and the draft is cleared. Otherwise nothing changes. |
| AvailabilityManager.Planner.CancelAdd | src/components/AvailabilityManager.jsx:418 | Only the add draft is cleared. |
| AvailabilityManager.Planner.CancelEdit | src/components/AvailabilityManager.jsx:424 | Only the edit draft is cleared. |
| AvailabilityManager.Planner.CancelDelete | src/components/AvailabilityManager.jsx:430 | Only the delete draft is cleared. |
| AvailabilityManager.Planner.HandleNavigate | src/components/AvailabilityManager.jsx:359-362 | The calendar moves to the Monday of the new date's week. The add draft stays sound in every planner method. |
| EmployeesSection.HasService | src/components/AdminSections/EmployeesSection.jsx:160 | True exactly when some entry has the service id. |
| EmployeesSection.WithoutService | src/components/AdminSections/EmployeesSection.jsx:161 | The filter returns no more entries than it is given. |
| EmployeesSection.WithoutServiceMembers | src/components/AdminSections/EmployeesSection.jsx:161 | Keeps exactly the entries with another service id. |
| EmployeesSection.WithoutServiceSnoc | src/components/AdminSections/EmployeesSection.jsx:161 | One more entry at the end is kept, at the end, exactly when its id differs. |
| EmployeesSection.WithoutServiceConcat | src/components/AdminSections/EmployeesSection.jsx:161 | Filtering a concatenation is filtering each part, so the kept entries stay in order. |
| EmployeesSection.WithoutServiceCount | src/components/AdminSections/EmployeesSection.jsx:161 | A kept entry occurs as many times as in the input, a removed one not at all. |
| EmployeesSection.FindService | src/components/AdminSections/EmployeesSection.jsx:165 | Finds an entry exactly when the catalogue is loaded and holds the id, and the entry found is from the catalogue with that id. |
| EmployeesSection.FindFirst | src/components/AdminSections/EmployeesSection.jsx:165 | Finds the first catalogue entry with the id, and finds none exactly when no entry has it. |
| EmployeesSection.ToggledServices | src/components/AdminSections/EmployeesSection.jsx:160-173 | Defines one employee's toggle: without the service when it is offered, else with the catalogue's entry appended, or unchanged when the catalogue has none. `ToggleRemoves` and `ToggleAdds` state both cases. |
| EmployeesSection.ToggleService | src/components/AdminSections/EmployeesSection.jsx:154-179 | Only the employees with the given id have their services toggled; every other employee is untouched. |
| EmployeesSection.ToggleRemoves | src/components/AdminSections/EmployeesSection.jsx:160-161 | Toggling an offered service removes every entry with its id and keeps all the others. |
| EmployeesSection.ToggleAdds | src/components/AdminSections/EmployeesSection.jsx:162-173 | Toggling a service not offered appends exactly the catalogue's entry for it. The list is unchanged when the id is unknown. |
| EmployeesSection.WithoutAbsent | src/components/AdminSections/EmployeesSection.jsx:161 | Filtering out an id no entry has changes nothing. |
| EmployeesSection.ToggleTwice | src/components/AdminSections/EmployeesSection.jsx:160-173 | Toggling a known service that is not offered twice restores the list. |
| EmployeesSection.RoleChange | src/components/AdminSections/EmployeesSection.jsx:62-67 | The user's staged role is set, and every other staged role is kept. |
| EmployeesSection.StagedRole | src/components/AdminSections/EmployeesSection.jsx:88-90 | Defines the role a save reads, `modifiedRoles[userId]`: the staged role, or none (undefined) when nothing is staged. `SavedRoles` and `ChangeThenSave` state how it is applied. |
| EmployeesSection.SavedRoles | src/components/AdminSections/EmployeesSection.jsx:88-90 | Only the users with the id take the staged role; names and ids are kept. |
| EmployeesSection.ChangeThenSave | src/components/AdminSections/EmployeesSection.jsx:62-90 | Staging a role and then saving gives the user exactly that role. |
| EmployeesSection.Section.constructor | src/components/AdminSections/EmployeesSection.jsx:5-18 | The section starts with no employees, no staged roles, no pending deletion and an empty search. |
| EmployeesSection.Section.HandleServiceToggle | src/components/AdminSections/EmployeesSection.jsx:154-179 | Only the employee list changes, by the toggle. |
| EmployeesSection.Section.HandleRoleChange | src/components/AdminSections/EmployeesSection.jsx:62-67 | Only the staged roles change, by the role change. |
| EmployeesSection.Section.HandleSaveRole | src/components/AdminSections/EmployeesSection.jsx:69-104 | If accepted, the user's search result takes the staged role and that user's staged entry is removed. Otherwise nothing changes. |
| EmployeesSection.Section.HandleAddEmployee | src/components/AdminSections/EmployeesSection.jsx:106-129 | A request is made exactly when both names are filled in. |
| EmployeesSection.Section.HandleDelete | src/components/AdminSections/EmployeesSection.jsx:210-212 | The employee's id becomes the pending deletion. |
| EmployeesSection.Section.ConfirmDelete | src/components/AdminSections/EmployeesSection.jsx:131-151 | A request is made exactly when an id other than 0 is pending, and the pending id is then cleared whether the server accepts or not. Otherwise nothing changes. |
| EmployeesSection.Section.CancelDelete | src/components/AdminSections/EmployeesSection.jsx:358 | Only the pending deletion is cleared. |
| EmployeesSection.Section.ReceiveSearchResults | src/components/AdminSections/EmployeesSection.jsx:41-60 | The search results become the users found, or none when the search fails. |
| EmployeesSection.Section.CloseSearch | src/components/AdminSections/EmployeesSection.jsx:214-220 | The search closes, its fields and results are cleared, and every staged role is discarded. |

## Left out

- Network I/O: every `fetch`, the request and response bodies, the tokens in `localStorage` and JSON parsing. Only a request's outcome is modelled: an `accepted` flag, or the list a fetch delivers. The re-fetches after a save (`fetchEmployees`) are not modelled.
- moment.js and `Date`: parsing, formatting, `toISOString`, and the local and UTC time zones. Everything is integer minutes on one reference, so the local/UTC difference between `isCompletlyWithinAvailability` and `createLimits` is not captured.
- Sub-minute time: seconds in `HH:mm:ss` and the milliseconds of `Date`. `createLimits`' `startOf('minute')` is the identity on whole minutes.
- AppointmentManager.PreFragment and AppointmentManager.PostFragment: the fragment ids carry the start instant in minutes, where the source uses `valueOf()` milliseconds. The two are equivalent as names.
- AvailabilityManager.ToCalendarEvent: the title is always "Disponible". The source's `slot.title ||` fallback is not modelled, because blocks carry no title here.
- React rendering, react-big-calendar, drag-and-drop wiring, style getters and modals. The `useMemo` events list in the employee-side appointment manager (EmployeeSections/AppointmentManager.jsx:110-147) is only printed to the console (line 210); the calendar renders `buildEvents()` (line 214). The events' `resource` field only feeds the UI.
- `alert` and `console` messages, and the `isLoading` flags.
- `handleSlotSelect` and the booking page's own `handleNavigate` only set the selected time or date for display and refetching. The booking confirmation (`handleAppointmentConfirmation`) is a request only.
- `parseInt` in `handleRoleChange`: roles are integers already.
- `handleUpdateSave` and the `editing` flags. They are request glue that changes no modelled state.
- The ordering and staleness of overlapping asynchronous requests. Each handler runs to completion in one step.
- The context files `ServicesSection.jsx`, `AppointmentManager.jsx` (top level), `EmployeeSchedule.jsx`, and the routing and authentication components. They hold no interval logic.
- BookingPage.GenerateTimeSlots: the slots' fixed `status` and `title` fields are dropped. Every slot is "available".
